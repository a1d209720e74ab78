# popup19-utilities in Dafny

This project models the algorithmic core of a small Java library of
contest utilities and proves what each part promises. It is one Dafny
module per Java class. Code that updates state step by step (array loops,
objects whose fields change) is modelled as classes, arrays and methods
with loop invariants. Pure computations are modelled as functions and
lemmas.

- **String matching** (`StringMatch.java`):
  - Knuth–Morris–Pratt for one pattern (module `Kmp`).
  - Aho–Corasick for many patterns (module `AhoCorasick`): trie, root completion, breadth-first suffix links with merged output sets, and the scan.
  - Both are proved to return exactly the start positions where each pattern occurs, in increasing order. The reference definition of "occurrence" is in `StringSpec`.
- **Suffix array** (`SuffixArray.java`): prefix doubling with two rank arrays and a re-sort each round. The finished array is proved to list the suffixes in strictly increasing dictionary order.
- **Fenwick tree** (`FenwickTree.java`): `add` and `sum` are proved against a ghost sequence of elements. `sum(i)` is the prefix sum up to `i`.
- **Union–find** (`UnionFind.java`): union by size and path compression.
  - A ghost root map and a rank make `find` terminate.
  - `same` answers "same class".
  - `union` merges exactly the two classes involved.
- **Sieve of Eratosthenes** (`Primes.java`): `isPrime` and `numPrimes` agree with the definition of a prime.
- **Chinese remainder theorem** (`ChineseRemainder.java`): the extended Euclidean algorithm, the pairwise solve for non-coprime moduli, and the fold over many congruences. The result is proved to be exactly the set of solutions, or "none" when there are none.
- **Rationals** (`Rational.java`): `add`, `sub`, `mul` and `div` keep the value. `reduced` gives lowest terms. `gcd` is the greatest common divisor.
- **Interval cover** (`Interval.java`, `Intervalcover.java`): the greedy cover of `[L, R]`. When it returns a list, the chosen intervals form a chain covering `[L, R]`. When it returns null, no selection of the input covers it.
- **Graphs** (`graph/`):
  - Module `Graph` holds the edge record and a shared theory of walks: weight, reachability, shortest walks, cutting cycles.
  - `BellmanFord` is proved to give the shortest distance, or "unreachable", or "minus infinity". Minus infinity is given exactly for the nodes whose walks from the source weigh arbitrarily little, which are the nodes behind a reachable negative cycle.
  - `Dijkstra` (non-negative weights) is proved to give shortest distances.
  - `DijkTimed` is proved to give earliest arrival times under periodic departures.
  - `EdmondsKarp` is proved to keep a valid flow (skew symmetry, capacity, conservation) and to stop only when no augmenting path remains in the residual graph.

Shared Java integer arithmetic (truncating `/` and `%`, divisibility) is in `Arith`.

## Model

| member | source | states |
|---|---|---|
| StringSpec.OccurrencesSpec | StringMatch.java:23-59 | the reference list of occurrences holds exactly the positions where the pattern occurs, strictly increasing |
| StringSpec.OccurrencesBeforeSpec | StringMatch.java:38-57 | the occurrences ending by a given point are exactly the occurring positions whose match ends there or before, increasing |
| Kmp.BuildJump | StringMatch.java:24-36 | `jump[i]` is the length of the longest proper border of `pattern[..i+1]` |
| Kmp.LongestBorderAt | StringMatch.java:28-35 | from a correct table prefix, the fallback through earlier entries yields the longest proper border of `pattern[..i+1]` |
| Kmp.JumpBelowIndex | StringMatch.java:28-30 | a jump entry is a valid smaller index, so the fallback loop stays in range and shrinks |
| Kmp.FallBack | StringMatch.java:50-56 | on a mismatch, falling back to `jump[j-1]` loses no match: the scan invariant holds with the shorter matched prefix |
| Kmp.StepMatch | StringMatch.java:40-49 | matching one more character extends the longest matched prefix by one, and records a start exactly when the whole pattern has matched |
| Kmp.ResumeAfterMatch | StringMatch.java:47-49 | after a full match the scan resumes from the longest border without missing an overlapping occurrence |
| Kmp.Skip | StringMatch.java:50-56 | a mismatch with nothing matched moves on one character, keeping the invariant |
| Kmp.ScanStep | StringMatch.java:38-57 | one turn of the scan keeps the invariant and makes progress |
| Kmp.Settle | StringMatch.java:38-57 | the inner fallback loop ends in a state satisfying the scan invariant |
| Kmp.Find | StringMatch.java:23-59 | the result is exactly the occurrence positions of the pattern in the text, strictly increasing |
| AhoCorasick.AddState | StringMatch.java:92-95 | a new trie state for `path[cur] + [c]` keeps the trie well formed |
| AhoCorasick.InsertChar | StringMatch.java:88-98 | following or creating the child for the next character keeps the trie invariant for the prefix read so far; the new current state is the target of the edge by that character, and at most one state is added |
| AhoCorasick.MarkStep | StringMatch.java:99 | marking the end state of pattern `i` adds `i` to exactly that state's own outputs |
| AhoCorasick.InsertPattern | StringMatch.java:85-100 | after inserting a pattern the trie's states are exactly the prefixes of the patterns so far, each marked with the patterns equal to it |
| AhoCorasick.BuildTrie | StringMatch.java:81-100 | the trie holds exactly the prefixes of all patterns, and each state's own outputs are the patterns spelt by its path |
| AhoCorasick.RootStep | StringMatch.java:105-118 | one root character: a missing edge loops back to the root, an existing child is queued |
| AhoCorasick.RootLoopStep | StringMatch.java:105-118 | the root loop invariant is kept from one character to the next |
| AhoCorasick.CompleteRoot | StringMatch.java:105-118 | after the loop the root has an edge for every character below C, the depth-one states are queued, and all suffix links are the root |
| AhoCorasick.FallBack | StringMatch.java:125-133 | following suffix links from a state reaches the longest proper suffix of `path[state] + [c]` that is a trie state |
| AhoCorasick.LinkOfChild | StringMatch.java:135 | the fallback from the parent's link gives the child's longest proper suffix that is a state |
| AhoCorasick.OutputOfChild | StringMatch.java:136 | a state's own outputs merged with its link's outputs are all patterns that are suffixes of its path |
| AhoCorasick.LinkChildren | StringMatch.java:123-138 | processing a state's children sets each child's link and output set and queues it |
| AhoCorasick.AllProcessed | StringMatch.java:120-140 | when the queue is empty, every state other than the root has been processed |
| AhoCorasick.BuildLinks | StringMatch.java:120-140 | after the search every state's link is its longest proper suffix in the trie and its outputs are all patterns ending there |
| AhoCorasick.EdgeIsLongest | StringMatch.java:147-155 | a direct trie edge already gives the longest suffix state of the text read |
| AhoCorasick.Advance | StringMatch.java:147-155 | the new state spells the longest suffix of the text read that is a trie state |
| AhoCorasick.ScanStep | StringMatch.java:145-155 | the longest-suffix invariant of the scan carries over to the next character |
| AhoCorasick.OutputsOfLongest | StringMatch.java:157-165 | the patterns ending at a text position are exactly the outputs of the state reached |
| AhoCorasick.ReportOne | StringMatch.java:157-165 | recording a start for a matching pattern extends its occurrence list by exactly the occurrence ending here |
| AhoCorasick.Report | StringMatch.java:157-165 | after reporting, each pattern's list is exactly its occurrences ending by the current position |
| AhoCorasick.Scan | StringMatch.java:145-166 | after the scan each pattern's list is exactly its occurrences in the text |
| AhoCorasick.Find | StringMatch.java:69-169 | for every pattern the result lists exactly its occurrence positions, strictly increasing |
| SuffixArray.CompareTo | SuffixArray.java:26-32 | the comparison is zero exactly on equal rank pairs and negative exactly when the pair is lexicographically smaller |
| SuffixArray.CodesRank | SuffixArray.java:45-55 | character codes rank the one-character prefixes of the suffixes |
| SuffixArray.Doubling | SuffixArray.java:76-84 | ranks of prefixes of length L, paired with the rank L places on, order the prefixes of length 2L |
| SuffixArray.Sort | SuffixArray.java:57 | the re-sort returns a permutation of its input, sorted by rank pair |
| SuffixArray.DenseRanks | SuffixArray.java:60-73 | re-ranking a list sorted by key gives ranks order-isomorphic to the keys |
| SuffixArray.ReRank | SuffixArray.java:60-73 | each suffix's new rank counts the distinct keys before it in sorted order |
| SuffixArray.ShiftRanks | SuffixArray.java:76-84 | the second rank of suffix i becomes the first rank of suffix i+h, or -1 past the end |
| SuffixArray.InitialKeys | SuffixArray.java:45-55 | the start state: identity order, character codes, and the code one place on |
| SuffixArray.Round | SuffixArray.java:59-87 | one doubling round keeps the list a sorted permutation and makes the keys order prefixes of twice the length |
| SuffixArray.WholeSuffixes | SuffixArray.java:59 | once the prefix length reaches the text length, distinct ranks mean strict dictionary order of whole suffixes |
| SuffixArray.PermFacts | SuffixArray.java:57 | a permutation of 0..n-1 has every index exactly once |
| SuffixArray.SuffixArray.constructor | SuffixArray.java:44-88 | the array is a permutation of the suffix indices in strictly increasing dictionary order of suffixes |
| SuffixArray.SuffixArray.GetSuffix | SuffixArray.java:98-100 | the i-th entry is the suffix with exactly i suffixes below it |
| Fenwick.FenwickTree.constructor | FenwickTree.java:17-20 | a tree of size n+1 whose elements are all zero |
| Fenwick.FenwickTree.Add | FenwickTree.java:27-31 | element i grows by d and nothing else changes, and every slot keeps the sum of its range |
| Fenwick.FenwickTree.Sum | FenwickTree.java:38-44 | returns the sum of elements 1..i, and 0 for i at most 0 |
| Fenwick.NewTreeSumsZero | FenwickTree.java:17-20 | every prefix sum of a fresh tree is zero |
| Fenwick.AddShiftsSums | FenwickTree.java:27-31 | adding d at i shifts exactly the prefix sums from i on by d |
| Fenwick.TotalUpdate | FenwickTree.java:27-31 | one prefix sum after an update, shifted by d exactly when it reaches i |
| Fenwick.RangeUpdate | FenwickTree.java:27-31 | a slot's range sum changes by d exactly when its range covers i |
| Fenwick.LowBit | FenwickTree.java:29 | the lowest set bit of a positive i lies between 1 and i |
| Fenwick.LowBitNext | FenwickTree.java:29 | stepping up by the lowest set bit at least doubles it, so `add` ends |
| UnionFind.UnionFind.constructor | UnionFind.java:18-25 | n singleton classes, each its own parent with size 1 |
| UnionFind.UnionFind.Find | UnionFind.java:59-62 | returns x's root; path compression changes no class |
| UnionFind.UnionFind.Same | UnionFind.java:33-35 | true exactly when x and y are in the same class |
| UnionFind.UnionFind.Union | UnionFind.java:44-57 | returns the common root; classes already equal stay put, otherwise the smaller root hangs under the larger and sizes add |
| UnionFind.UnionFind.Attach | UnionFind.java:47-56 | hanging one root under another merges their classes and adds the sizes |
| UnionFind.FreshSingletons | UnionFind.java:18-25 | in a fresh structure two elements share a class only when equal |
| UnionFind.MergedPartition | UnionFind.java:44-57 | after a merge two elements share a class iff they did before, or each was in one of the two merged classes |
| UnionFind.MergedClasses | UnionFind.java:44-57 | the merged class is the union of the two disjoint classes; other classes are unchanged |
| Primes.Primes.constructor | Primes.java:22-37 | after the sieve, index x up to n is marked exactly when x is not prime |
| Primes.MarkMultiples | Primes.java:31-33 | marking the multiples of c marks only non-primes, keeps old marks, and marks every composite whose least factor is at most c |
| Primes.NextClearBit | Primes.java:35 | returns the first unmarked index at or after `from`, or the length |
| Primes.SieveDone | Primes.java:30-36 | once the candidate passes the square root of n, marks are exactly the non-primes |
| Primes.LeastFactorPrime | Primes.java:30-36 | the least factor above 1 is prime, and equals x exactly when x is prime |
| Primes.ISqrt | Primes.java:28 | the integer square root r satisfies r*r <= n < (r+1)*(r+1) |
| Primes.Primes.IsPrime | Primes.java:45-47 | up to n, true exactly for primes; above n a bit is never set, so every x from 2 on reads as prime |
| Primes.CardinalityOfNonPrimes | Primes.java:53-55 | the number of marked indices below k is k minus the number of primes below k |
| Primes.Primes.NumPrimesAsWritten | Primes.java:53-55 | as written: the prime count for n >= 1, but -1 for n == 0 |
| Primes.Primes.NumPrimes | Primes.java:53-55 | the number of primes up to n, for every n >= 0 |
| ChineseRemainder.ExtEuc | ChineseRemainder.java:24-36 | returns x, y, g with a*x + b*y == g, and g >= 1 for non-negative inputs not both zero |
| ChineseRemainder.ExtEucDivides | ChineseRemainder.java:24-36 | g divides a and b, and every common divisor divides g |
| ChineseRemainder.ExtEucIsGcd | ChineseRemainder.java:24-36 | for non-negative inputs g is the greatest common divisor |
| ChineseRemainder.NoSolution | ChineseRemainder.java:54-63 | when a and b differ modulo gcd(n, m), no integer solves both congruences |
| ChineseRemainder.Solutions | ChineseRemainder.java:54-59 | when they agree, x lies in [0, k), and y solves both congruences iff y is congruent to x modulo k |
| ChineseRemainder.SolveSpec | ChineseRemainder.java:45-64 | the pairwise solve fails exactly when no solution exists; otherwise its residue class modulo k is the solution set |
| ChineseRemainder.SolveAll | ChineseRemainder.java:66-79 | on failure no integer satisfies all congruences; on success they are satisfied exactly by the class of x modulo k |
| Rational.Gcd | Rational.java:100-121 | the Euclidean loop returns the gcd as the function defines it |
| Rational.GcdSpec | Rational.java:100-121 | b when a is 0, a when b is 0, otherwise a positive common divisor that every common divisor divides |
| Rational.LcmSpec | Rational.java:96-98 | for non-zero inputs the lcm is a positive common multiple |
| Rational.AddValue | Rational.java:31-38 | the sum has a positive denominator and value p + r |
| Rational.SubValue | Rational.java:45-53 | the difference has a positive denominator and value p - r |
| Rational.MulValue | Rational.java:60-63 | the product has a non-zero denominator and value p * r |
| Rational.DivValue | Rational.java:70-73 | for a non-zero divisor the quotient has a non-zero denominator and value p / r |
| Rational.ReducedSpec | Rational.java:91-94 | keeps the value; zero becomes 0 / 1; otherwise numerator and denominator have only 1 and -1 as common divisors |
| Rational.Displayed | Rational.java:79-84 | the printed pair has a non-negative denominator and the same value |
| Intervals.CompareTo | Interval.java:37-41 | 0, -1 or 1 as the lower bound is equal, less or greater |
| Intervals.CompareToPreorder | Interval.java:37-41 | the comparison is antisymmetric, transitive and depends only on the lower bounds |
| IntervalCover.SortByLower | Intervalcover.java:25-26 | the sort returns a permutation of the intervals ordered by lower bound |
| IntervalCover.ScanRound | Intervalcover.java:33-43 | one round finds the interval reaching furthest among those starting at or before the left end, or reports that none improves |
| IntervalCover.TakeCandidate | Intervalcover.java:47-49 | taking the best interval extends the covering chain and moves the left end right |
| IntervalCover.ChainCovers | Intervalcover.java:47-49 | a chain of overlapping intervals covers every point from its start to its last upper bound |
| IntervalCover.StuckUncovered | Intervalcover.java:44-46 | when no interval improves, some point of [L, R] is covered by no input interval |
| IntervalCover.Cover | Intervalcover.java:22-51 | a returned list is a chain of input intervals covering [L, R]; null with L <= R means no selection covers it |
| Arith.JavaDivRem | Rational.java:34 | Java's truncating quotient and remainder satisfy q*b + r == a with abs(r) < abs(b), and r >= 0 for a >= 0 |
| Graph.WeightedEdge | graph/Edge.java:24-28 | the weighted constructor sets target and weight, and the capacity equal to the weight |
| Graph.TimedEdge | graph/Edge.java:37-42 | the timed constructor sets target, weight, first departure and period; the capacity stays 0 |
| Graph.ShortWalk | graph/BellmanFord.java:37 | every walk can be shortened to fewer than n steps with the same end, and no more weight when no negative cycle is reachable |
| Graph.PumpWalk | graph/BellmanFord.java:54-68 | going round a closed part of a walk once more keeps its ends and adds that part's weight |
| Graph.ShortestIsShort | graph/BellmanFord.java:37 | a shortest walk can be replaced by one of the same weight with fewer steps than there are nodes, so n rounds reach it |
| Graph.UnboundedNoShortest | graph/BellmanFord.java:19-21 | a node whose walks weigh arbitrarily little is reached and has no shortest distance |
| Graph.UnboundedReach | graph/BellmanFord.java:71-90 | every node reached from such a node has walks of arbitrarily little weight too |
| Graph.BoundedHasShortest | graph/BellmanFord.java:19-21 | a reached node whose walk weights are bounded below has a shortest distance |
| Graph.LeastWalk | graph/BellmanFord.java:19-21 | among walks to a node with weights bounded below there is a lightest one |
| Graph.NonNegativeNoCycle | graph/Dijkstra.java:26-27 | non-negative weights leave no cycle of negative weight |
| BellmanFord.BellmanFord.constructor | graph/BellmanFord.java:27-69 | Inf exactly for unreachable nodes; a finite entry is a shortest-walk weight with its parent over a tight edge; minus infinity exactly for nodes whose walks weigh arbitrarily little, so the marks are closed under edges and absent when no negative cycle is reachable |
| BellmanFord.BellmanFord.RelaxRound | graph/BellmanFord.java:38-51 | one round settles every edge against the table and keeps each entry the weight of a witness walk |
| BellmanFord.BellmanFord.RelaxEdge | graph/BellmanFord.java:41-49 | relaxing one edge lowers the target only to a walk weight, and records the parent |
| BellmanFord.AfterRounds | graph/BellmanFord.java:37-52 | after n rounds Inf means unreachable; without a negative cycle no edge improves the table; an edge that still improves it leaves a node whose walks weigh arbitrarily little |
| BellmanFord.ImprovableUnbounded | graph/BellmanFord.java:63-64 | after n rounds, a node with an edge that still improves its target has walks of arbitrarily little weight |
| BellmanFord.ShortestBlocks | graph/BellmanFord.java:63 | after n rounds, no edge out of a node with a shortest distance improves the table |
| BellmanFord.BellmanFord.FinalPass | graph/BellmanFord.java:54-68 | after the extra pass each entry is the one of the rounds or minus infinity; Inf means unreachable; every marked node has walks of arbitrarily little weight and what it reaches is marked; no edge out of a finite node improves its target |
| BellmanFord.BellmanFord.PassDone | graph/BellmanFord.java:54-69 | the table the extra pass leaves is solved: minus infinity exactly where walks weigh arbitrarily little, every finite entry shortest, and each entry the one of the rounds or minus infinity |
| BellmanFord.BellmanFord.CheckEdges | graph/BellmanFord.java:55-67 | checking one node's edges keeps the final-pass invariant |
| BellmanFord.MarkSound | graph/BellmanFord.java:64-65 | marking `from` and what it reaches, when `from` has arbitrarily light walks, marks only nodes that have them too |
| BellmanFord.BellmanFord.MarkInf | graph/BellmanFord.java:71-90 | every node reachable from `from` is marked minus infinity, and nothing else changes |
| BellmanFord.BellmanFord.PushUnvisited | graph/BellmanFord.java:82-88 | unvisited neighbours are marked and pushed, keeping the search invariant |
| BellmanFord.SearchDone | graph/BellmanFord.java:77-89 | when the stack is empty every node reachable from `from` is marked |
| BellmanFord.BellmanFord.MinDistTo | graph/BellmanFord.java:121-123 | Long.MAX_VALUE when unreachable, Long.MIN_VALUE exactly when walks weigh arbitrarily little, otherwise the shortest distance |
| Dijkstra.CompareTo | graph/Dijkstra.java:119-127 | -1, 0 or 1 exactly as the accumulated weight is less, equal or greater |
| Dijkstra.MinExists | graph/Dijkstra.java:49 | a non-empty queue has a least element for `poll` to return |
| Dijkstra.Dijkstra.constructor | graph/Dijkstra.java:30-66 | a node's weight is Inf exactly when unreachable, and otherwise the least weight of a walk from s |
| Dijkstra.Dijkstra.Poll | graph/Dijkstra.java:47-64 | one poll keeps the search invariant and makes progress: it visits a node or drops a stale copy |
| Dijkstra.Dijkstra.RelaxEdge | graph/Dijkstra.java:56-62 | relaxing an edge of the visited node keeps the search invariant |
| Dijkstra.Dijkstra.Lower | graph/Dijkstra.java:59-61 | lowering an unvisited target sets exactly its weight and queues one copy with that weight, keeping the search invariant |
| Dijkstra.PolledFinal | graph/Dijkstra.java:49-53 | the least unvisited copy carries its node's final shortest distance |
| Dijkstra.Dijkstra.GetAccWeight | graph/Dijkstra.java:101-103 | Integer.MAX_VALUE for an unreachable node, otherwise its shortest distance |
| Dijkstra.Dijkstra.ShortestPathIsNullAsWritten | graph/Dijkstra.java:86-88 | as written: an unreachable target is never reported |
| Dijkstra.Dijkstra.ShortestPathIsNull | graph/Dijkstra.java:86-88 | corrected: reports null exactly for an unreachable target |
| DijkTimed.WaitIsNextDeparture | graph/DijkTimed.java:75-85 | the wait leads to the first departure at or after the current time, or is Inf exactly when none remains |
| DijkTimed.WaitMonotone | graph/DijkTimed.java:75-85 | arriving earlier never means departing later |
| DijkTimed.ArriveMonotone | graph/DijkTimed.java:86-93 | arrival over an edge is monotone in the start time and never before it |
| DijkTimed.DijkTimed.constructor | graph/DijkTimed.java:32-97 | a node's time is Inf exactly when no walk reaches it, and otherwise the earliest arrival time of a walk leaving s at time 0 |
| DijkTimed.DijkTimed.Poll | graph/DijkTimed.java:55-95 | one poll keeps the search invariant and visits one more node |
| DijkTimed.DijkTimed.RelaxEdge | graph/DijkTimed.java:63-95 | relaxing one edge keeps the search invariant; the target's time becomes the arrival over the edge, and the target is queued, exactly when it is unvisited, a departure remains and the arrival is earlier; otherwise nothing changes |
| DijkTimed.DijkTimed.Lower | graph/DijkTimed.java:86-92 | lowering an unvisited target sets exactly its time to the arrival and puts it on the queue, keeping the search invariant |
| DijkTimed.DijkTimed.GetAccWeight | graph/DijkTimed.java:132-134 | Long.MAX_VALUE for an unreached node, otherwise its earliest arrival time |
| DijkTimed.DijkTimed.ShortestPathIsNull | graph/DijkTimed.java:117-119 | null exactly when the node is unreached or reached only at Long.MAX_VALUE |
| EdmondsKarp.EdmondsKarp.constructor | graph/EdmondsKarp.java:29-48 | the flow is valid, and when s differs from t no augmenting path remains |
| EdmondsKarp.EdmondsKarp.Bfs | graph/EdmondsKarp.java:79-105 | a positive result is a simple residual path recorded in `parent`, with bottleneck equal to the result; 0 means no residual path |
| EdmondsKarp.EdmondsKarp.ScanEdge | graph/EdmondsKarp.java:90-101 | scanning one edge either finds t over a residual edge or keeps the search invariant |
| EdmondsKarp.EdmondsKarp.AugmentAlong | graph/EdmondsKarp.java:37-45 | augmenting along the path keeps a valid flow and raises its value by the bottleneck; the new matrix is the old one with the bottleneck pushed along each pair of the path |
| EdmondsKarp.EdmondsKarp.WalkBack | graph/EdmondsKarp.java:39-45 | walking parents back from t pushes the bottleneck along each edge of the path |
| EdmondsKarp.Augment | graph/EdmondsKarp.java:42-43 | pushing c along a simple path within residual capacity keeps a valid flow of value flow + c |
| EdmondsKarp.AugmentSkew | graph/EdmondsKarp.java:42-43 | augmentation keeps `flowing[a][b] == -flowing[b][a]` |
| EdmondsKarp.AugmentCapacity | graph/EdmondsKarp.java:42-43 | augmentation within residual capacity keeps every flow within its edge's capacity |
| EdmondsKarp.AugmentRow | graph/EdmondsKarp.java:42-43 | a row's net outflow changes by c at s, by -c at t, and not at inner nodes |
| EdmondsKarp.BottleneckIsMin | graph/EdmondsKarp.java:94 | the bottleneck is the least residual capacity on the path, and positive on a residual path |
| EdmondsKarp.BfsNoPath | graph/EdmondsKarp.java:103-104 | an exhausted search with t unvisited means no residual path from s to t |
| EdmondsKarp.FlowBounded | graph/EdmondsKarp.java:60-62 | a valid flow's value is at most the total capacity out of s |
| EdmondsKarp.EdmondsKarp.GetMaxFlow | graph/EdmondsKarp.java:60-62 | the flow value is the net outflow of s, at most the capacity out of s |
| EdmondsKarp.FlowingMembers | graph/EdmondsKarp.java:67-77 | an edge is listed exactly when it has non-zero capacity and positive flow |
| EdmondsKarp.EdmondsKarp.GetFlowingEdges | graph/EdmondsKarp.java:67-77 | the list is the edges with non-zero capacity and positive flow, in graph order |
| EdmondsKarp.EdmondsKarp.FlowingRow | graph/EdmondsKarp.java:70-74 | the inner loop lists exactly the edges out of node i with nonzero capacity and positive flow, in adjacency order |

## Findings

| source | as written | input that shows it | evidently intended | confidence | as-written member | corrected member |
|---|---|---|---|---|---|---|
| Primes.java:53-55 | `numPrimes` returns n minus the number of set bits plus one. For n == 0 the constructor still sets bit 1, which lies above n, so two bits are set and the result is -1. | `new Primes(0).numPrimes()` | the number of primes up to n, which is 0 | not executed | Primes.Primes.NumPrimesAsWritten | Primes.Primes.NumPrimes |
| graph/Dijkstra.java:86-88 | `shortestPath` compares the `int` weight with `Long.MAX_VALUE`. The weight is never equal to it, so an unreachable target is not reported as null. | two nodes, no edges, s = 0, `shortestPath(1)` | return null exactly when the target is unreachable (weight `Integer.MAX_VALUE`) | not executed | Dijkstra.Dijkstra.ShortestPathIsNullAsWritten | Dijkstra.Dijkstra.ShortestPathIsNull |

## Left out

- Integer widths. Every Java `int` and `long` is an unbounded integer. Overflow of these is not modelled:
  - Dijkstra's `accWeight + weight`;
  - BellmanFord's `dist + weight`;
  - the EdmondsKarp flow;
  - the doubling `k *= 2`;
  - the Suffix `compareTo` subtraction;
  - the CRT `long` results;
  - Rational's products.
- DijkTimed.DijkTimed.Poll: the queue order uses the times themselves. The Java `compareTo` subtracts `(int)` casts of `long` times, which misorders times beyond 32 bits.
- SuffixArray.Sort: `Collections.sort` is modelled by a functional insertion sort. It is proved to sort and permute; its stability is not stated because the proof does not need it.
- `HashMap` iteration order in Aho–Corasick's trie is modelled by an arbitrary choice of key.
- `BitSet.nextSetBit` is modelled by a loop over the words in order.
- Interval bounds are `real` rather than `double`. Rounding, NaN and infinities are not modelled.
- IntervalCover.Cover: greedy minimality (fewest intervals) is not proved. Only correctness of the returned cover and of null is proved.
- EdmondsKarp.EdmondsKarp.constructor: maximality of the flow (max-flow equals min-cut) is not proved. Only "no augmenting path remains" is proved.
- EdmondsKarp: the `Integer.MAX_VALUE` start of the bottleneck is modelled as `IntMax`. Capacities above it are not considered.
- `getFlowGraph` returns a clone of the flow matrix. Cloning and aliasing are not modelled; `Matrix(flowing)` is the value it returns.
- `shortestPaths()` and the path walk in `shortestPath(t)` of BellmanFord, Dijkstra and DijkTimed are not modelled, only the null test. Dijkstra's and DijkTimed's `parents` record the poll order rather than a shortest-path tree, so following them from t need not reach s.
- BellmanFord's `parent` is only specified for finite entries.
- Strings are sequences of Unicode code points (Dafny `char`). Java's `String` is a sequence of UTF-16 code units, so text beyond U+FFFF differs. Such a character is one `char` here but a surrogate pair in Java, which shifts KMP and Aho–Corasick offsets. Unpaired surrogates cannot be written here. Suffix order is by code point, which differs from Java's code-unit order between surrogates and U+E000–U+FFFF. The model matches Java exactly on text inside the Basic Multilingual Plane without surrogates.
- Several `requires` exclude inputs on which the Java code throws, loops or misbehaves. Each is listed below with that behaviour.
- Kmp.Find: requires a non-empty pattern. Java handles an empty pattern only with empty text, returning an empty list. With non-empty text, `pattern.charAt(0)` throws StringIndexOutOfBoundsException (StringMatch.java:42).
- AhoCorasick.Find: requires non-empty patterns, and every pattern and text character below C = 255.
  - Java records an empty pattern on the root, and the root's outputs are only merged into states whose link is found through a root self-loop. So its positions are reported only in part: position 0 never, and later positions only when the state reached has such a link or is the root.
  - Suppose a character at or above C begins no pattern. Then the root gets no edge for it, and the fallback loop that meets it (link building, or the scan over the text) follows the root's link to itself forever.
  - Suppose a character at or above C begins some pattern. Then nothing hangs, but its depth-one state is never queued (StringMatch.java:107-117). That state's subtree keeps link 0 and unmerged outputs, so matches are missed. Example: patterns ["ÿa", "a"] (ÿ is code 255) and text "ÿa". The "a" at position 1 is never reported.
- Fenwick.FenwickTree.Add: requires 1 <= i < size. Java loops forever for i = 0, since the lowest set bit of 0 is 0. For i <= -1 the first `sums[i]` throws ArrayIndexOutOfBoundsException. For i >= size the loop does not run, so `add` is a silent no-op (FenwickTree.java:28). These cases are not modelled.
- ChineseRemainder.Solve: requires moduli n, m >= 1. With a zero modulus, k is 0 and `BigInteger.mod(k)` throws ArithmeticException. With negative moduli, g or k can be negative, and `mod` throws as well.
- ChineseRemainder.SolveAll: requires at least one congruence and every modulus >= 1. Java throws ArrayIndexOutOfBoundsException for empty arrays. With a single congruence, Java returns (a[0], m[0]) unchecked whatever m[0] is; the model still requires m[0] >= 1.
- Rational.AddValue: Add and Sub require non-zero denominators. Java's `lcm` is then 0, so `lcm / denom` divides by zero and throws ArithmeticException. When both are 0, `lcm` itself divides by gcd(0, 0) = 0 and throws.
- Rational.SubValue: as Add.
- Rational.ReducedSpec: Reduced excludes 0/0. There gcd(0, 0) is 0, and Java's division by it throws ArithmeticException.
- DijkTimed.DijkTimed.constructor: requires non-negative traversal times and non-negative periods. DijkTimed.java:24-31 does not state this. With a negative weight, Dijkstra's order no longer gives earliest arrivals. With a negative period, the `%` wait formula can give a negative wait.
- Dijkstra.Dijkstra.constructor: requires non-negative weights, as graph/Dijkstra.java:27 documents.
- Primes.Primes.constructor: requires n >= 0. Java also accepts n = -1: `(int) Math.sqrt(-1)` is 0 and `new BitSet(0)` is legal, so every x >= 2 reads as prime. For n <= -2 Java throws NegativeArraySizeException.
- SuffixArray.SuffixArray.constructor: requires a non-empty string. Java throws StringIndexOutOfBoundsException on `str.charAt(n-1)` for the empty string.
- Node indices passed to the graph classes, and indices passed to `find`, `same`, `union`, `isPrime` and `getSuffix`, must be in range. Java throws IndexOutOfBounds exceptions otherwise.
- `toString` of Rational, Suffix and SuffixArray: only the sign normalisation of Rational's is modelled (Displayed). Text formatting is left out.

/**
 * Maximum flow with Edmonds-Karp (graph/EdmondsKarp.java). The flow is an
 * n-by-n matrix `flowing`; a breadth-first search over the edges with
 * positive residual capacity (capacity minus the flow between the two
 * nodes) finds a path from s to t and its bottleneck, and the flow is
 * pushed along that path, walking back from t by the parent pointers.
 * Back edges are expected in the graph with capacity 0.
 */
module EdmondsKarp {
  import opened Graph

  const IntMax: int := 0x7fff_ffff

  // ---------------------------------------------------------------------------
  // Flow matrices

  /** An n-by-n matrix. */
  predicate IsMatrix(F: seq<seq<int>>, n: int)
  {
    |F| == n && forall a :: 0 <= a < n ==> |F[a]| == n
  }

  /** The flow from a to b is the negated flow from b to a. */
  predicate Skew(F: seq<seq<int>>, n: int)
    requires IsMatrix(F, n)
  {
    forall a, b :: 0 <= a < n && 0 <= b < n ==> F[a][b] == -F[b][a]
  }

  function Max(x: int, y: int): int
  {
    if x < y then y else x
  }

  function Min(x: int, y: int): int
  {
    if x < y then x else y
  }

  /** The largest capacity of an edge to v in the list, and 0 when there is none. */
  function MaxCap(es: seq<Edge>, v: int): (r: int)
    ensures r >= 0
    ensures forall k :: 0 <= k < |es| && es[k].to == v ==> es[k].cap <= r
  {
    if |es| == 0 then 0
    else
      var last := es[|es| - 1];
      assert forall k :: 0 <= k < |es| - 1 ==> es[k] == es[..|es| - 1][k];
      Max(MaxCap(es[..|es| - 1], v), if last.to == v then last.cap else 0)
  }

  /** No flow from a to b exceeds the capacity of an edge from a to b. */
  predicate WithinCapacity(g: seq<seq<Edge>>, F: seq<seq<int>>, n: int)
    requires IsMatrix(F, n) && |g| == n
  {
    forall a, b :: 0 <= a < n && 0 <= b < n ==> F[a][b] <= MaxCap(g[a], b)
  }

  /** The sum of a row: the net flow out of a node. */
  function Sum(r: seq<int>): int
  {
    if |r| == 0 then 0 else Sum(r[..|r| - 1]) + r[|r| - 1]
  }

  /** Adding c to one entry adds c to the sum. */
  lemma {:induction false} SumUpdate(r: seq<int>, j: int, c: int)
    requires 0 <= j < |r|
    ensures Sum(r[j := r[j] + c]) == Sum(r) + c
  {
    var m := |r| - 1;
    if j < m {
      assert r[j := r[j] + c][..m] == r[..m][j := r[..m][j] + c];
      SumUpdate(r[..m], j, c);
    } else {
      assert r[j := r[j] + c][..m] == r[..m];
    }
  }

  /** A row bounded entry by entry has a bounded sum. */
  lemma {:induction false} SumLe(r: seq<int>, bound: seq<int>)
    requires |r| == |bound| && forall j :: 0 <= j < |r| ==> r[j] <= bound[j]
    ensures Sum(r) <= Sum(bound)
  {
    if |r| > 0 {
      SumLe(r[..|r| - 1], bound[..|bound| - 1]);
    }
  }

  /** Flow is conserved at every node but s and t: what enters leaves. */
  predicate Conserved(F: seq<seq<int>>, n: int, s: int, t: int)
    requires IsMatrix(F, n)
  {
    forall v :: 0 <= v < n && v != s && v != t ==> Sum(F[v]) == 0
  }

  /** The state the algorithm keeps between augmentations; flow is the net flow out of s. */
  predicate FlowInv(g: seq<seq<Edge>>, F: seq<seq<int>>, n: int, s: int, t: int, flow: int)
  {
    |g| == n && IsMatrix(F, n) && 0 <= s < n && 0 <= t < n &&
    Skew(F, n) && WithinCapacity(g, F, n) && Conserved(F, n, s, t) && flow == Sum(F[s])
  }

  /** The empty flow keeps the invariant with flow 0. */
  lemma ZeroFlow(g: seq<seq<Edge>>, F: seq<seq<int>>, n: int, s: int, t: int)
    requires |g| == n && IsMatrix(F, n) && 0 <= s < n && 0 <= t < n
    requires forall a, b :: 0 <= a < n && 0 <= b < n ==> F[a][b] == 0
    ensures FlowInv(g, F, n, s, t, 0)
  {
    forall v | 0 <= v < n ensures Sum(F[v]) == 0 {
      ZeroSum(F[v]);
    }
  }

  lemma {:induction false} ZeroSum(r: seq<int>)
    requires forall j :: 0 <= j < |r| ==> r[j] == 0
    ensures Sum(r) == 0
  {
    if |r| > 0 {
      ZeroSum(r[..|r| - 1]);
    }
  }

  /** The sum over all nodes b of the largest capacity of an edge from s to b. */
  function OutCapacity(g: seq<seq<Edge>>, s: int, n: nat): int
    requires 0 <= s < |g|
  {
    Sum(seq(n, b => MaxCap(g[s], b)))
  }

  /** The flow out of s never exceeds the capacities of the edges out of s. */
  lemma FlowBounded(g: seq<seq<Edge>>, F: seq<seq<int>>, n: int, s: int, t: int, flow: int)
    requires FlowInv(g, F, n, s, t, flow)
    ensures flow <= OutCapacity(g, s, n)
  {
    SumLe(F[s], seq(n, b => MaxCap(g[s], b)));
  }

  // ---------------------------------------------------------------------------
  // Augmentation

  /** One pair of the augmentation loop: c more from a to b, and c less from b to a. */
  function Push(F: seq<seq<int>>, n: int, a: int, b: int, c: int): (F': seq<seq<int>>)
    requires IsMatrix(F, n) && 0 <= a < n && 0 <= b < n
    ensures IsMatrix(F', n)
  {
    var F1 := F[a := F[a][b := F[a][b] + c]];
    F1[b := F1[b][a := F1[b][a] - c]]
  }

  /** A path of distinct nodes of the graph. */
  predicate SimplePath(p: seq<int>, n: int)
  {
    (forall i :: 0 <= i < |p| ==> 0 <= p[i] < n) &&
    (forall i, j :: 0 <= i < j < |p| ==> p[i] != p[j])
  }

  /**
   * The flow after the augmentation loop has walked back from the end of
   * the path p to its i-th node, pushing c along each pair on the way.
   */
  function AugmentFrom(F: seq<seq<int>>, n: int, p: seq<int>, c: int, i: int): (F': seq<seq<int>>)
    requires IsMatrix(F, n) && SimplePath(p, n) && 0 <= i < |p|
    ensures IsMatrix(F', n)
    decreases |p| - i
  {
    if i == |p| - 1 then F else Push(AugmentFrom(F, n, p, c, i + 1), n, p[i], p[i + 1], c)
  }

  /** The pair (a, b) is one of the pairs of p from the i-th node on. */
  ghost predicate PairFrom(p: seq<int>, i: int, a: int, b: int)
  {
    exists j :: 0 <= i <= j < |p| - 1 && p[j] == a && p[j + 1] == b
  }

  /** Each entry after the augmentation: c more on a pair of the path, c less on a reversed pair. */
  lemma {:induction false} AugmentCell(F: seq<seq<int>>, n: int, p: seq<int>, c: int, i: int, a: int, b: int)
    requires IsMatrix(F, n) && SimplePath(p, n) && 0 <= i < |p| && 0 <= a < n && 0 <= b < n
    ensures AugmentFrom(F, n, p, c, i)[a][b] ==
            F[a][b] + (if PairFrom(p, i, a, b) then c else 0) - (if PairFrom(p, i, b, a) then c else 0)
    decreases |p| - i
  {
    if i < |p| - 1 {
      AugmentCell(F, n, p, c, i + 1, a, b);
      PairFromStep(p, n, i, a, b);
      PairFromStep(p, n, i, b, a);
    }
  }

  /** The pairs from the i-th node on: the i-th pair, then the pairs from the next node, which never repeat it. */
  lemma PairFromStep(p: seq<int>, n: int, i: int, a: int, b: int)
    requires SimplePath(p, n) && 0 <= i < |p| - 1
    ensures PairFrom(p, i, a, b) <==> (a == p[i] && b == p[i + 1]) || PairFrom(p, i + 1, a, b)
    ensures !(a == p[i] && b == p[i + 1] && PairFrom(p, i + 1, a, b))
    ensures !(a == p[i + 1] && b == p[i] && PairFrom(p, i + 1, a, b))
  {
    if PairFrom(p, i, a, b) {
      var j :| i <= j < |p| - 1 && p[j] == a && p[j + 1] == b;
      if j > i {
        assert PairFrom(p, i + 1, a, b);
      }
    }
    if a == p[i] && b == p[i + 1] {
      assert PairFrom(p, i, a, b);
    }
    if PairFrom(p, i + 1, a, b) {
      var j :| i + 1 <= j < |p| - 1 && p[j] == a && p[j + 1] == b;
      assert PairFrom(p, i, a, b);
      assert p[j] != p[i];
      assert p[j] != p[i + 1] || j == i + 1;
    }
  }

  /** Augmenting keeps the flow skew-symmetric. */
  lemma AugmentSkew(F: seq<seq<int>>, n: int, p: seq<int>, c: int)
    requires IsMatrix(F, n) && Skew(F, n) && SimplePath(p, n) && |p| >= 1
    ensures Skew(AugmentFrom(F, n, p, c, 0), n)
  {
    forall a, b | 0 <= a < n && 0 <= b < n
      ensures AugmentFrom(F, n, p, c, 0)[a][b] == -AugmentFrom(F, n, p, c, 0)[b][a]
    {
      AugmentCell(F, n, p, c, 0, a, b);
      AugmentCell(F, n, p, c, 0, b, a);
    }
  }

  /**
   * Augmenting by c keeps the flow within capacity when every pair of the
   * path had at least c of capacity left.
   */
  lemma AugmentCapacity(g: seq<seq<Edge>>, F: seq<seq<int>>, n: int, p: seq<int>, c: int)
    requires |g| == n && IsMatrix(F, n) && WithinCapacity(g, F, n) && SimplePath(p, n) && |p| >= 1 && c > 0
    requires forall j :: 0 <= j < |p| - 1 ==> F[p[j]][p[j + 1]] + c <= MaxCap(g[p[j]], p[j + 1])
    ensures WithinCapacity(g, AugmentFrom(F, n, p, c, 0), n)
  {
    forall a, b | 0 <= a < n && 0 <= b < n ensures AugmentFrom(F, n, p, c, 0)[a][b] <= MaxCap(g[a], b) {
      AugmentCell(F, n, p, c, 0, a, b);
      if PairFrom(p, 0, a, b) {
        var j :| 0 <= j < |p| - 1 && p[j] == a && p[j + 1] == b;
      }
    }
  }

  /**
   * Each row sum after walking back to the i-th node: the node just reached
   * has pushed c out, the end of the path has taken c in, and every node in
   * between both.
   */
  lemma {:induction false} AugmentRow(F: seq<seq<int>>, n: int, p: seq<int>, c: int, i: int, x: int)
    requires IsMatrix(F, n) && SimplePath(p, n) && 0 <= i < |p| && 0 <= x < n
    ensures Sum(AugmentFrom(F, n, p, c, i)[x]) ==
            Sum(F[x]) + (if i < |p| - 1 && x == p[i] then c else 0) - (if i < |p| - 1 && x == p[|p| - 1] then c else 0)
    decreases |p| - i
  {
    if i < |p| - 1 {
      AugmentRow(F, n, p, c, i + 1, x);
      assert p[i] != p[i + 1] && p[i] != p[|p| - 1];
      PushRow(AugmentFrom(F, n, p, c, i + 1), n, p[i], p[i + 1], c, x);
    }
  }

  /** Pushing c from a to b adds c to a's row sum and takes c from b's. */
  lemma PushRow(G: seq<seq<int>>, n: int, a: int, b: int, c: int, x: int)
    requires IsMatrix(G, n) && 0 <= a < n && 0 <= b < n && a != b && 0 <= x < n
    ensures Sum(Push(G, n, a, b, c)[x]) == Sum(G[x]) + (if x == a then c else 0) - (if x == b then c else 0)
  {
    var G1 := G[a := G[a][b := G[a][b] + c]];
    SumUpdate(G[a], b, c);
    SumUpdate(G1[b], a, -c);
    assert Sum(G1[x]) == Sum(G[x]) + (if x == a then c else 0);
  }

  /** Augmenting a path from s to t by c keeps the invariant and adds c to the flow. */
  lemma Augment(g: seq<seq<Edge>>, F: seq<seq<int>>, n: int, s: int, t: int, flow: int, p: seq<int>, c: int)
    requires FlowInv(g, F, n, s, t, flow) && SimplePath(p, n) && |p| >= 2 && p[0] == s && p[|p| - 1] == t && c > 0
    requires forall j :: 0 <= j < |p| - 1 ==> F[p[j]][p[j + 1]] + c <= MaxCap(g[p[j]], p[j + 1])
    ensures FlowInv(g, AugmentFrom(F, n, p, c, 0), n, s, t, flow + c)
  {
    var F' := AugmentFrom(F, n, p, c, 0);
    AugmentSkew(F, n, p, c);
    AugmentCapacity(g, F, n, p, c);
    forall v | 0 <= v < n ensures Sum(F'[v]) == Sum(F[v]) + (if v == s then c else 0) - (if v == t then c else 0) {
      AugmentRow(F, n, p, c, 0, v);
    }
  }

  // ---------------------------------------------------------------------------
  // Residual walks

  /** The capacity the step's edge has left: its capacity minus the flow between its ends. */
  function Residual(g: seq<seq<Edge>>, F: seq<seq<int>>, st: Step): int
  {
    if ValidStep(g, st) && st.from < |F| && 0 <= g[st.from][st.k].to < |F[st.from]|
    then g[st.from][st.k].cap - F[st.from][g[st.from][st.k].to]
    else 0
  }

  /** Every step of the walk has capacity left. */
  ghost predicate ResidualWalk(g: seq<seq<Edge>>, F: seq<seq<int>>, w: seq<Step>)
  {
    forall i :: 0 <= i < |w| ==> Residual(g, F, w[i]) > 0
  }

  /** Some walk from s to t has capacity left on every step: the flow can still be augmented. */
  ghost predicate ResReach(g: seq<seq<Edge>>, F: seq<seq<int>>, s: int, t: int)
  {
    exists w :: IsWalk(g, s, w) && End(g, s, w) == t && ResidualWalk(g, F, w)
  }

  /** The least residual capacity along the walk, starting from Integer.MAX_VALUE. */
  function Bottleneck(g: seq<seq<Edge>>, F: seq<seq<int>>, w: seq<Step>): int
  {
    if |w| == 0 then IntMax else Min(Bottleneck(g, F, w[..|w| - 1]), Residual(g, F, w[|w| - 1]))
  }

  /**
   * The bottleneck is at most every step's residual capacity and, below
   * Integer.MAX_VALUE, equal to one of them; on a residual walk it is positive.
   */
  lemma {:induction false} BottleneckIsMin(g: seq<seq<Edge>>, F: seq<seq<int>>, w: seq<Step>)
    ensures forall i :: 0 <= i < |w| ==> Bottleneck(g, F, w) <= Residual(g, F, w[i])
    ensures Bottleneck(g, F, w) < IntMax ==> exists i :: 0 <= i < |w| && Bottleneck(g, F, w) == Residual(g, F, w[i])
    ensures ResidualWalk(g, F, w) ==> Bottleneck(g, F, w) > 0
  {
    if |w| > 0 {
      var w' := w[..|w| - 1];
      BottleneckIsMin(g, F, w');
      assert forall i :: 0 <= i < |w'| ==> w'[i] == w[i];
      if Bottleneck(g, F, w) < IntMax && Bottleneck(g, F, w) != Residual(g, F, w[|w| - 1]) {
        var i :| 0 <= i < |w'| && Bottleneck(g, F, w') == Residual(g, F, w'[i]);
        assert Bottleneck(g, F, w) == Residual(g, F, w[i]);
      }
    }
  }

  /** The nodes a walk passes, in order. */
  function NodesOf(g: seq<seq<Edge>>, s: int, w: seq<Step>): (p: seq<int>)
    ensures |p| == |w| + 1
  {
    seq(|w| + 1, i requires 0 <= i <= |w| => NodeAt(g, s, w, i))
  }

  /**
   * An augmenting path as the search leaves it: a residual walk from s to t
   * through distinct nodes, whose parent pointers lead back from t to s.
   */
  ghost predicate AugPath(g: seq<seq<Edge>>, F: seq<seq<int>>, n: int, s: int, t: int, parent: seq<int>, w: seq<Step>)
  {
    WellFormed(g) && |g| == n && 0 <= s < n && |parent| == n &&
    IsWalk(g, s, w) && End(g, s, w) == t && |w| >= 1 && ResidualWalk(g, F, w) &&
    SimplePath(NodesOf(g, s, w), n) &&
    forall i :: 0 < i <= |w| ==> parent[NodeAt(g, s, w, i)] == NodeAt(g, s, w, i - 1)
  }

  /** Following parent from each node of p after the first leads to the node before it. */
  predicate Retraces(parent: seq<int>, p: seq<int>)
  {
    forall i :: 0 < i < |p| ==> 0 <= p[i] < |parent| && parent[p[i]] == p[i - 1]
  }

  /** The parent pointers of an augmenting path retrace its nodes. */
  lemma PathRetraced(g: seq<seq<Edge>>, F: seq<seq<int>>, n: int, s: int, t: int, parent: seq<int>, w: seq<Step>)
    requires AugPath(g, F, n, s, t, parent, w)
    ensures Retraces(parent, NodesOf(g, s, w))
  {
    var p := NodesOf(g, s, w);
    forall i | 0 < i < |p| ensures 0 <= p[i] < |parent| && parent[p[i]] == p[i - 1] {
      assert p[i] == NodeAt(g, s, w, i) && p[i - 1] == NodeAt(g, s, w, i - 1);
    }
  }

  /** Along an augmenting path, every pair of nodes has at least the bottleneck of capacity left. */
  lemma PathRoom(g: seq<seq<Edge>>, F: seq<seq<int>>, n: int, s: int, t: int, parent: seq<int>, w: seq<Step>)
    requires IsMatrix(F, n) && AugPath(g, F, n, s, t, parent, w)
    ensures var p := NodesOf(g, s, w);
            p[0] == s && p[|p| - 1] == t &&
            forall j :: 0 <= j < |p| - 1 ==> F[p[j]][p[j + 1]] + Bottleneck(g, F, w) <= MaxCap(g[p[j]], p[j + 1])
  {
    var p := NodesOf(g, s, w);
    BottleneckIsMin(g, F, w);
    forall j | 0 <= j < |p| - 1 ensures F[p[j]][p[j + 1]] + Bottleneck(g, F, w) <= MaxCap(g[p[j]], p[j + 1]) {
      assert w[j].from == NodeAt(g, s, w, j);
      assert ValidStep(g, w[j]);
      assert p[j + 1] == g[w[j].from][w[j].k].to;
      assert Residual(g, F, w[j]) == g[p[j]][w[j].k].cap - F[p[j]][p[j + 1]];
    }
  }

  // ---------------------------------------------------------------------------
  // The breadth-first search, on the values of its arrays

  /**
   * The walk the search recorded for x: a residual walk from s to x whose
   * bottleneck is x's entry of minCapInPath, whose last step leaves from
   * parent[x], and each of whose nodes was recorded with the prefix reaching it.
   */
  ghost predicate TreeOk(g: seq<seq<Edge>>, F: seq<seq<int>>, n: int, s: int, vis: seq<bool>, minCap: seq<int>,
                         parent: seq<int>, tree: seq<seq<Step>>, x: int)
  {
    |vis| == n && |minCap| == n && |parent| == n && |tree| == n && 0 <= x < n &&
    var w := tree[x];
    IsWalk(g, s, w) && End(g, s, w) == x && ResidualWalk(g, F, w) && minCap[x] == Bottleneck(g, F, w) &&
    (x != s ==> |w| > 0 && parent[x] == w[|w| - 1].from) &&
    forall i :: 0 <= i <= |w| ==>
      0 <= NodeAt(g, s, w, i) < n && vis[NodeAt(g, s, w, i)] && tree[NodeAt(g, s, w, i)] == w[..i]
  }

  /**
   * Every visited node that has left the queue, other than the first k
   * edges of the node cur being scanned, has had all its residual edges
   * scanned: they lead to visited nodes.
   */
  ghost predicate Closed(g: seq<seq<Edge>>, F: seq<seq<int>>, n: int, vis: seq<bool>, queue: seq<int>, cur: int, k: int)
  {
    WellFormed(g) && |g| == n && |vis| == n &&
    forall x, j ::
      (0 <= x < n && vis[x] && x !in queue && 0 <= j < |g[x]| && (x != cur || j < k) && Residual(g, F, Step(x, j)) > 0)
      ==> vis[g[x][j].to]
  }

  /** The invariant of the search while it scans edge k of node cur (cur is -1 between nodes). */
  ghost predicate BfsInv(g: seq<seq<Edge>>, F: seq<seq<int>>, n: int, s: int, t: int, vis: seq<bool>, minCap: seq<int>,
                         parent: seq<int>, queue: seq<int>, tree: seq<seq<Step>>, cur: int, k: int)
  {
    WellFormed(g) && |g| == n && IsMatrix(F, n) && 0 <= s < n && 0 <= t < n &&
    |vis| == n && |minCap| == n && |parent| == n && |tree| == n &&
    vis[s] && tree[s] == [] && (t != s ==> !vis[t]) &&
    (forall x :: x in queue ==> 0 <= x < n && vis[x]) &&
    (forall x {:trigger TreeOk(g, F, n, s, vis, minCap, parent, tree, x)} ::
       0 <= x < n && vis[x] ==> TreeOk(g, F, n, s, vis, minCap, parent, tree, x)) &&
    Closed(g, F, n, vis, queue, cur, k)
  }

  /** The search starts with s visited and queued, with the empty walk and Integer.MAX_VALUE. */
  lemma BfsStart(g: seq<seq<Edge>>, F: seq<seq<int>>, n: int, s: int, t: int, vis: seq<bool>, minCap: seq<int>,
                 parent: seq<int>, tree: seq<seq<Step>>)
    requires WellFormed(g) && |g| == n && IsMatrix(F, n) && 0 <= s < n && 0 <= t < n
    requires |vis| == n && |minCap| == n && |parent| == n && |tree| == n
    requires (forall x :: 0 <= x < n ==> vis[x] == (x == s)) && minCap[s] == IntMax && tree[s] == []
    ensures BfsInv(g, F, n, s, t, vis, minCap, parent, [s], tree, -1, 0)
  {
    EmptyWalk(g, s);
    assert TreeOk(g, F, n, s, vis, minCap, parent, tree, s);
  }

  /** Taking the head of the queue starts the scan of its edges. */
  lemma BfsPoll(g: seq<seq<Edge>>, F: seq<seq<int>>, n: int, s: int, t: int, vis: seq<bool>, minCap: seq<int>,
                parent: seq<int>, queue: seq<int>, tree: seq<seq<Step>>)
    requires BfsInv(g, F, n, s, t, vis, minCap, parent, queue, tree, -1, 0) && |queue| > 0
    ensures 0 <= queue[0] < n && vis[queue[0]]
    ensures BfsInv(g, F, n, s, t, vis, minCap, parent, queue[1..], tree, queue[0], 0)
  {
    assert queue[0] in queue;
    forall x | x in queue[1..] ensures x in queue {
    }
  }

  /** An edge to a visited node, or without capacity left, is scanned and changes nothing. */
  lemma BfsSkip(g: seq<seq<Edge>>, F: seq<seq<int>>, n: int, s: int, t: int, vis: seq<bool>, minCap: seq<int>,
                parent: seq<int>, queue: seq<int>, tree: seq<seq<Step>>, cur: int, k: int)
    requires BfsInv(g, F, n, s, t, vis, minCap, parent, queue, tree, cur, k)
    requires 0 <= cur < n && 0 <= k < |g[cur]|
    requires vis[g[cur][k].to] || Residual(g, F, Step(cur, k)) <= 0
    ensures BfsInv(g, F, n, s, t, vis, minCap, parent, queue, tree, cur, k + 1)
  {
  }

  /** After the last edge of cur, cur is closed. */
  lemma BfsScanned(g: seq<seq<Edge>>, F: seq<seq<int>>, n: int, s: int, t: int, vis: seq<bool>, minCap: seq<int>,
                   parent: seq<int>, queue: seq<int>, tree: seq<seq<Step>>, cur: int)
    requires 0 <= cur < |g| && BfsInv(g, F, n, s, t, vis, minCap, parent, queue, tree, cur, |g[cur]|)
    ensures BfsInv(g, F, n, s, t, vis, minCap, parent, queue, tree, -1, 0)
  {
  }

  /** The walk to v extended by step st, where v is not yet visited. */
  lemma TreeOkNew(g: seq<seq<Edge>>, F: seq<seq<int>>, n: int, s: int, t: int, vis: seq<bool>, minCap: seq<int>,
                  parent: seq<int>, queue: seq<int>, tree: seq<seq<Step>>, cur: int, k: int)
    requires BfsInv(g, F, n, s, t, vis, minCap, parent, queue, tree, cur, k)
    requires 0 <= cur < n && vis[cur] && 0 <= k < |g[cur]|
    requires !vis[g[cur][k].to] && Residual(g, F, Step(cur, k)) > 0
    ensures var v := g[cur][k].to;
            var w := tree[cur] + [Step(cur, k)];
            IsWalk(g, s, w) && End(g, s, w) == v && ResidualWalk(g, F, w) &&
            Bottleneck(g, F, w) == Min(minCap[cur], Residual(g, F, Step(cur, k))) &&
            (forall i :: 0 <= i <= |tree[cur]| ==> NodeAt(g, s, w, i) == NodeAt(g, s, tree[cur], i)) &&
            w[..|w| - 1] == tree[cur]
  {
    var st := Step(cur, k);
    var w := tree[cur] + [st];
    assert TreeOk(g, F, n, s, vis, minCap, parent, tree, cur);
    WalkSnoc(g, s, tree[cur], st);
    assert w[..|w| - 1] == tree[cur];
    forall i | 0 <= i < |w| ensures Residual(g, F, w[i]) > 0 {
      if i < |tree[cur]| {
        assert w[i] == tree[cur][i];
      }
    }
    forall i | 0 <= i <= |tree[cur]| ensures NodeAt(g, s, w, i) == NodeAt(g, s, tree[cur], i) {
      if i > 0 {
        assert w[i - 1] == tree[cur][i - 1];
      }
    }
  }

  /** Recording v leaves every other visited node's record as it was. */
  lemma TreeOkFrame(g: seq<seq<Edge>>, F: seq<seq<int>>, n: int, s: int, vis: seq<bool>, minCap: seq<int>,
                    parent: seq<int>, tree: seq<seq<Step>>, v: int, m: int, u: int, w: seq<Step>, x: int)
    requires |vis| == n && |minCap| == n && |parent| == n && |tree| == n && 0 <= v < n && !vis[v]
    requires 0 <= x < n && vis[x] && TreeOk(g, F, n, s, vis, minCap, parent, tree, x)
    ensures TreeOk(g, F, n, s, vis[v := true], minCap[v := m], parent[v := u], tree[v := w], x)
  {
    var vis', tree' := vis[v := true], tree[v := w];
    var wx := tree[x];
    assert x != v && tree'[x] == wx;
    forall i | 0 <= i <= |wx|
      ensures 0 <= NodeAt(g, s, wx, i) < n && vis'[NodeAt(g, s, wx, i)] && tree'[NodeAt(g, s, wx, i)] == wx[..i]
    {
      var y := NodeAt(g, s, wx, i);
      assert vis[y] && tree[y] == wx[..i];
      assert y != v;
    }
  }

  /** Recording v, when v's own record holds, keeps every visited node's record. */
  lemma TreeOkAll(g: seq<seq<Edge>>, F: seq<seq<int>>, n: int, s: int, vis: seq<bool>, minCap: seq<int>,
                  parent: seq<int>, tree: seq<seq<Step>>, v: int, m: int, u: int, w: seq<Step>)
    requires |vis| == n && |minCap| == n && |parent| == n && |tree| == n && 0 <= v < n && !vis[v]
    requires forall x {:trigger TreeOk(g, F, n, s, vis, minCap, parent, tree, x)} ::
               0 <= x < n && vis[x] ==> TreeOk(g, F, n, s, vis, minCap, parent, tree, x)
    requires TreeOk(g, F, n, s, vis[v := true], minCap[v := m], parent[v := u], tree[v := w], v)
    ensures forall x {:trigger TreeOk(g, F, n, s, vis[v := true], minCap[v := m], parent[v := u], tree[v := w], x)} ::
              0 <= x < n && vis[v := true][x] ==> TreeOk(g, F, n, s, vis[v := true], minCap[v := m], parent[v := u], tree[v := w], x)
  {
    var vis', minCap', parent', tree' := vis[v := true], minCap[v := m], parent[v := u], tree[v := w];
    forall x | 0 <= x < n && vis'[x] && x != v ensures TreeOk(g, F, n, s, vis', minCap', parent', tree', x) {
      TreeOkFrame(g, F, n, s, vis, minCap, parent, tree, v, m, u, w, x);
    }
  }

  /** The record of the new node v reached by edge k of cur. */
  lemma TreeOkAdded(g: seq<seq<Edge>>, F: seq<seq<int>>, n: int, s: int, t: int, vis: seq<bool>, minCap: seq<int>,
                    parent: seq<int>, queue: seq<int>, tree: seq<seq<Step>>, cur: int, k: int)
    requires BfsInv(g, F, n, s, t, vis, minCap, parent, queue, tree, cur, k)
    requires 0 <= cur < n && vis[cur] && 0 <= k < |g[cur]|
    requires !vis[g[cur][k].to] && Residual(g, F, Step(cur, k)) > 0
    ensures var v := g[cur][k].to;
            TreeOk(g, F, n, s, vis[v := true], minCap[v := Min(minCap[cur], Residual(g, F, Step(cur, k)))],
                   parent[v := cur], tree[v := tree[cur] + [Step(cur, k)]], v)
  {
    var v := g[cur][k].to;
    var w := tree[cur] + [Step(cur, k)];
    var vis', tree' := vis[v := true], tree[v := w];
    TreeOkNew(g, F, n, s, t, vis, minCap, parent, queue, tree, cur, k);
    assert TreeOk(g, F, n, s, vis, minCap, parent, tree, cur);
    forall i | 0 <= i <= |w| ensures 0 <= NodeAt(g, s, w, i) < n && vis'[NodeAt(g, s, w, i)] && tree'[NodeAt(g, s, w, i)] == w[..i] {
      if i <= |tree[cur]| {
        var y := NodeAt(g, s, tree[cur], i);
        assert vis[y] && tree[y] == tree[cur][..i];
        assert w[..i] == tree[cur][..i];
      } else {
        assert w[..i] == w;
      }
    }
  }

  /** Queueing v after scanning edge k of cur, which leads to v, keeps the scanned nodes closed. */
  lemma ClosedAdd(g: seq<seq<Edge>>, F: seq<seq<int>>, n: int, vis: seq<bool>, queue: seq<int>, cur: int, k: int)
    requires WellFormed(g) && |g| == n && |vis| == n && Closed(g, F, n, vis, queue, cur, k)
    requires 0 <= cur < n && 0 <= k < |g[cur]|
    ensures Closed(g, F, n, vis[g[cur][k].to := true], queue + [g[cur][k].to], cur, k + 1)
  {
    var v := g[cur][k].to;
    forall x, j | 0 <= x < n && vis[v := true][x] && x !in queue + [v] && 0 <= j < |g[x]| && (x != cur || j < k + 1) &&
                  Residual(g, F, Step(x, j)) > 0
      ensures vis[v := true][g[x][j].to]
    {
      assert x != v && vis[x] && x !in queue;
    }
  }

  /** Recording a new node v reached by edge k of cur, and queueing it. */
  lemma BfsAdd(g: seq<seq<Edge>>, F: seq<seq<int>>, n: int, s: int, t: int, vis: seq<bool>, minCap: seq<int>,
               parent: seq<int>, queue: seq<int>, tree: seq<seq<Step>>, cur: int, k: int)
    requires BfsInv(g, F, n, s, t, vis, minCap, parent, queue, tree, cur, k)
    requires 0 <= cur < n && vis[cur] && 0 <= k < |g[cur]|
    requires !vis[g[cur][k].to] && Residual(g, F, Step(cur, k)) > 0 && g[cur][k].to != t
    ensures var v := g[cur][k].to;
            BfsInv(g, F, n, s, t, vis[v := true], minCap[v := Min(minCap[cur], Residual(g, F, Step(cur, k)))],
                   parent[v := cur], queue + [v], tree[v := tree[cur] + [Step(cur, k)]], cur, k + 1)
  {
    var v := g[cur][k].to;
    var w := tree[cur] + [Step(cur, k)];
    var m := Min(minCap[cur], Residual(g, F, Step(cur, k)));
    var vis', minCap', parent', tree' := vis[v := true], minCap[v := m], parent[v := cur], tree[v := w];
    TreeOkAdded(g, F, n, s, t, vis, minCap, parent, queue, tree, cur, k);
    TreeOkAll(g, F, n, s, vis, minCap, parent, tree, v, m, cur, w);
    ClosedAdd(g, F, n, vis, queue, cur, k);
    assert v != s;
  }

  /** The nodes of the walk to cur are recorded and distinct, and t is none of them. */
  lemma FoundSimple(g: seq<seq<Edge>>, F: seq<seq<int>>, n: int, s: int, t: int, vis: seq<bool>, minCap: seq<int>,
                    parent: seq<int>, tree: seq<seq<Step>>, cur: int, k: int)
    requires WellFormed(g) && |g| == n && 0 <= cur < n && 0 <= t < n && TreeOk(g, F, n, s, vis, minCap, parent, tree, cur)
    requires vis[cur] && 0 <= k < |g[cur]| && g[cur][k].to == t && !vis[t]
    requires var w := tree[cur] + [Step(cur, k)];
             End(g, s, w) == t && forall i :: 0 <= i <= |tree[cur]| ==> NodeAt(g, s, w, i) == NodeAt(g, s, tree[cur], i)
    ensures SimplePath(NodesOf(g, s, tree[cur] + [Step(cur, k)]), n)
  {
    var w := tree[cur] + [Step(cur, k)];
    var p := NodesOf(g, s, w);
    var wc := tree[cur];
    forall i | 0 <= i < |p| ensures 0 <= p[i] < n {
      if i < |p| - 1 {
        assert p[i] == NodeAt(g, s, wc, i);
      }
    }
    forall i, j | 0 <= i < j < |p| ensures p[i] != p[j] {
      assert p[i] == NodeAt(g, s, wc, i) && vis[p[i]] && tree[p[i]] == wc[..i];
      if j < |p| - 1 {
        assert p[j] == NodeAt(g, s, wc, j) && tree[p[j]] == wc[..j];
      }
    }
  }

  /** Following the parents from t, with parent[t] set to cur, retraces the walk w to cur and its last step. */
  lemma FoundParents(g: seq<seq<Edge>>, F: seq<seq<int>>, n: int, s: int, t: int, vis: seq<bool>, minCap: seq<int>,
                     parent: seq<int>, tree: seq<seq<Step>>, cur: int, k: int, w: seq<Step>, parent': seq<int>)
    requires |vis| == n && |minCap| == n && |parent| == n && |tree| == n && 0 <= s < n && 0 <= t < n && tree[s] == []
    requires forall x {:trigger TreeOk(g, F, n, s, vis, minCap, parent, tree, x)} ::
               0 <= x < n && vis[x] ==> TreeOk(g, F, n, s, vis, minCap, parent, tree, x)
    requires 0 <= cur < n && vis[cur] && !vis[t] && w == tree[cur] + [Step(cur, k)] && End(g, s, w) == t
    requires forall i :: 0 <= i <= |tree[cur]| ==> NodeAt(g, s, w, i) == NodeAt(g, s, tree[cur], i)
    requires parent' == parent[t := cur]
    ensures forall i :: 0 < i <= |w| ==> 0 <= NodeAt(g, s, w, i) < n && parent'[NodeAt(g, s, w, i)] == NodeAt(g, s, w, i - 1)
  {
    var wc := tree[cur];
    assert TreeOk(g, F, n, s, vis, minCap, parent, tree, cur);
    forall i | 0 < i <= |w| ensures 0 <= NodeAt(g, s, w, i) < n && parent'[NodeAt(g, s, w, i)] == NodeAt(g, s, w, i - 1) {
      if i < |w| {
        var y := NodeAt(g, s, wc, i);
        assert vis[y] && tree[y] == wc[..i];
        assert TreeOk(g, F, n, s, vis, minCap, parent, tree, y);
        assert y != s && y != t;
        assert tree[y][i - 1] == wc[i - 1];
        assert wc[i - 1].from == NodeAt(g, s, wc, i - 1);
      }
    }
  }

  /**
   * Edge k of cur reaches t with capacity left: the walk to cur and that
   * edge form an augmenting path, whose bottleneck the search returns.
   */
  lemma BfsFound(g: seq<seq<Edge>>, F: seq<seq<int>>, n: int, s: int, t: int, vis: seq<bool>, minCap: seq<int>,
                 parent: seq<int>, queue: seq<int>, tree: seq<seq<Step>>, cur: int, k: int)
    requires BfsInv(g, F, n, s, t, vis, minCap, parent, queue, tree, cur, k)
    requires 0 <= cur < n && vis[cur] && 0 <= k < |g[cur]|
    requires !vis[g[cur][k].to] && Residual(g, F, Step(cur, k)) > 0 && g[cur][k].to == t
    ensures var w := tree[cur] + [Step(cur, k)];
            var r := Min(minCap[cur], Residual(g, F, Step(cur, k)));
            r > 0 && s != t && AugPath(g, F, n, s, t, parent[t := cur], w) && r == Bottleneck(g, F, w)
  {
    var w := tree[cur] + [Step(cur, k)];
    TreeOkNew(g, F, n, s, t, vis, minCap, parent, queue, tree, cur, k);
    BottleneckIsMin(g, F, w);
    assert TreeOk(g, F, n, s, vis, minCap, parent, tree, cur);
    FoundSimple(g, F, n, s, t, vis, minCap, parent, tree, cur, k);
    FoundParents(g, F, n, s, t, vis, minCap, parent, tree, cur, k, w, parent[t := cur]);
  }

  /** Every node of a residual walk from s stays inside a closed set of visited nodes. */
  lemma {:induction false} VisitedAlong(g: seq<seq<Edge>>, F: seq<seq<int>>, n: int, s: int, vis: seq<bool>,
                                        w: seq<Step>, i: int)
    requires Closed(g, F, n, vis, [], -1, 0) && 0 <= s < n && vis[s]
    requires IsWalk(g, s, w) && ResidualWalk(g, F, w) && 0 <= i <= |w|
    ensures 0 <= NodeAt(g, s, w, i) < n && vis[NodeAt(g, s, w, i)]
  {
    if i > 0 {
      VisitedAlong(g, F, n, s, vis, w, i - 1);
      var x, j := w[i - 1].from, w[i - 1].k;
      assert x == NodeAt(g, s, w, i - 1) && ValidStep(g, w[i - 1]);
      assert w[i - 1] == Step(x, j);
      assert Residual(g, F, Step(x, j)) > 0;
    }
  }

  /** When the queue runs empty without reaching t, no residual walk leads from s to t. */
  lemma BfsNoPath(g: seq<seq<Edge>>, F: seq<seq<int>>, n: int, s: int, t: int, vis: seq<bool>, minCap: seq<int>,
                  parent: seq<int>, tree: seq<seq<Step>>)
    requires BfsInv(g, F, n, s, t, vis, minCap, parent, [], tree, -1, 0)
    ensures s == t || !ResReach(g, F, s, t)
  {
    if s != t && ResReach(g, F, s, t) {
      var w :| IsWalk(g, s, w) && End(g, s, w) == t && ResidualWalk(g, F, w);
      VisitedAlong(g, F, n, s, vis, w, |w|);
      assert false;
    }
  }

  // ---------------------------------------------------------------------------
  // getFlowingEdges

  /** The edges of the list with a nonzero capacity and positive flow in the row, in list order. */
  function FlowingOf(es: seq<Edge>, row: seq<int>): seq<Edge>
  {
    if |es| == 0 then []
    else
      var e := es[|es| - 1];
      FlowingOf(es[..|es| - 1], row) + (if e.cap != 0 && 0 <= e.to < |row| && row[e.to] > 0 then [e] else [])
  }

  /** The flowing edges out of the nodes below i, node by node. */
  function FlowingUpTo(g: seq<seq<Edge>>, F: seq<seq<int>>, i: int): seq<Edge>
    requires 0 <= i <= |g| <= |F|
  {
    if i == 0 then [] else FlowingUpTo(g, F, i - 1) + FlowingOf(g[i - 1], F[i - 1])
  }

  /** An edge is listed exactly when it is in the list with a nonzero capacity and positive flow. */
  lemma {:induction false} FlowingOfMembers(es: seq<Edge>, row: seq<int>, e: Edge)
    ensures e in FlowingOf(es, row) <==>
            exists k :: 0 <= k < |es| && es[k] == e && e.cap != 0 && 0 <= e.to < |row| && row[e.to] > 0
  {
    if |es| > 0 {
      var m := |es| - 1;
      FlowingOfMembers(es[..m], row, e);
      if exists k :: 0 <= k < |es| && es[k] == e && e.cap != 0 && 0 <= e.to < |row| && row[e.to] > 0 {
        var k :| 0 <= k < |es| && es[k] == e && e.cap != 0 && 0 <= e.to < |row| && row[e.to] > 0;
        if k < m {
          assert es[..m][k] == e;
        }
      }
      if exists k :: 0 <= k < m && es[..m][k] == e && e.cap != 0 && 0 <= e.to < |row| && row[e.to] > 0 {
        var k :| 0 <= k < m && es[..m][k] == e && e.cap != 0 && 0 <= e.to < |row| && row[e.to] > 0;
        assert es[k] == e;
      }
    }
  }

  /**
   * getFlowingEdges lists an edge exactly when it leaves some node u with a
   * nonzero capacity and the flow from u to its target is positive.
   */
  lemma {:induction false} FlowingMembers(g: seq<seq<Edge>>, F: seq<seq<int>>, i: int, e: Edge)
    requires 0 <= i <= |g| <= |F|
    ensures e in FlowingUpTo(g, F, i) <==>
            exists u, k :: 0 <= u < i && 0 <= k < |g[u]| && g[u][k] == e && e.cap != 0 && 0 <= e.to < |F[u]| && F[u][e.to] > 0
  {
    if i > 0 {
      var m := i - 1;
      FlowingMembers(g, F, m, e);
      FlowingOfMembers(g[m], F[m], e);
      assert FlowingUpTo(g, F, i) == FlowingUpTo(g, F, m) + FlowingOf(g[m], F[m]);
      if e in FlowingUpTo(g, F, i) {
        if e in FlowingUpTo(g, F, m) {
          var u, k :| 0 <= u < m && 0 <= k < |g[u]| && g[u][k] == e && e.cap != 0 && 0 <= e.to < |F[u]| && F[u][e.to] > 0;
          assert 0 <= u < i;
        } else {
          assert e in FlowingOf(g[m], F[m]);
          var k :| 0 <= k < |g[m]| && g[m][k] == e && e.cap != 0 && 0 <= e.to < |F[m]| && F[m][e.to] > 0;
          assert 0 <= m < i;
        }
      }
      if exists u, k :: 0 <= u < i && 0 <= k < |g[u]| && g[u][k] == e && e.cap != 0 && 0 <= e.to < |F[u]| && F[u][e.to] > 0 {
        var u, k :| 0 <= u < i && 0 <= k < |g[u]| && g[u][k] == e && e.cap != 0 && 0 <= e.to < |F[u]| && F[u][e.to] > 0;
        if u < m {
          assert e in FlowingUpTo(g, F, m);
        } else {
          assert g[m][k] == e;
          assert e in FlowingOf(g[m], F[m]);
        }
      }
    }
  }

  // ---------------------------------------------------------------------------
  // The class

  /** The values of a two-dimensional array, row by row. */
  function Matrix(m: array2<int>): (F: seq<seq<int>>)
    reads m
    ensures |F| == m.Length0
    ensures forall a :: 0 <= a < m.Length0 ==> |F[a]| == m.Length1
  {
    seq(m.Length0, a requires 0 <= a < m.Length0 reads m => seq(m.Length1, b requires 0 <= b < m.Length1 reads m => m[a, b]))
  }

  class EdmondsKarp {
    /** The adjacency lists; every edge carries its capacity. */
    const graph: seq<seq<Edge>>
    const n: int
    /** flowing[u, v]: the net flow from u to v. */
    const flowing: array2<int>
    /** The sum of the amounts pushed so far. */
    var flow: int
    /** The source and the sink the constructor was given. */
    ghost const s: int
    ghost const t: int

    ghost predicate Shape()
      reads this
    {
      WellFormed(graph) && n == |graph| && flowing.Length0 == n && flowing.Length1 == n
    }

    /** Skew-symmetric, within capacity, conserved away from s and t, and flow is the net flow out of s. */
    ghost predicate Valid()
      reads this, flowing
    {
      Shape() && FlowInv(graph, Matrix(flowing), n, s, t, flow)
    }

    /**
     * EdmondsKarp(graph, s, t): augment along shortest residual paths until
     * none is left. The flow is then valid and no walk from s to t has
     * capacity left on every edge.
     */
    constructor (graph: seq<seq<Edge>>, s: int, t: int)
      requires WellFormed(graph) && 0 <= s < |graph| && 0 <= t < |graph|
      ensures this.graph == graph && this.s == s && this.t == t && Valid()
      ensures s == t || !ResReach(graph, Matrix(flowing), s, t)
    {
      this.graph := graph;
      n := |graph|;
      this.s := s;
      this.t := t;
      flowing := new int[|graph|, |graph|]((_, _) => 0);
      flow := 0;
      new;
      ZeroFlow(graph, Matrix(flowing), n, s, t);
      Run(s, t);
    }

    /**
     * The constructor's loop: while bfs finds a path with capacity left,
     * add its bottleneck to the flow and push it along the path.
     */
    method Run(s: int, t: int)
      requires Valid() && s == this.s && t == this.t
      modifies this, flowing
      ensures Valid()
      ensures s == t || !ResReach(graph, Matrix(flowing), s, t)
    {
      var parent := new int[n];
      var pathFlow;
      ghost var w;
      ghost var F := Matrix(flowing);
      pathFlow, w := Bfs(s, t, parent);
      while pathFlow > 0
        invariant Valid() && Matrix(flowing) == F && parent.Length == n
        invariant pathFlow > 0 ==> s != t && AugPath(graph, F, n, s, t, parent[..], w) && pathFlow == Bottleneck(graph, F, w)
        invariant pathFlow <= 0 ==> s == t || !ResReach(graph, F, s, t)
        decreases OutCapacity(graph, s, n) - flow
      {
        AugmentAlong(s, t, parent, pathFlow, w);
        F := Matrix(flowing);
        parent := new int[n];
        pathFlow, w := Bfs(s, t, parent);
      }
    }

    /**
     * One turn of the constructor's loop: add the bottleneck to the flow and
     * walk back from t along the parent pointers, pushing it along each pair.
     */
    method AugmentAlong(s: int, t: int, parent: array<int>, pathFlow: int, ghost w: seq<Step>)
      requires Valid() && s == this.s && t == this.t && parent.Length == n && pathFlow > 0
      requires AugPath(graph, Matrix(flowing), n, s, t, parent[..], w) && pathFlow == Bottleneck(graph, Matrix(flowing), w)
      modifies this, flowing
      ensures Valid() && flow == old(flow) + pathFlow && flow <= OutCapacity(graph, s, n)
      ensures Matrix(flowing) == AugmentFrom(old(Matrix(flowing)), n, NodesOf(graph, s, w), pathFlow, 0)
    {
      ghost var F0, flow0 := Matrix(flowing), flow;
      flow := flow + pathFlow;
      ghost var p := NodesOf(graph, s, w);
      PathRoom(graph, F0, n, s, t, parent[..], w);
      PathRetraced(graph, F0, n, s, t, parent[..], w);
      WalkBack(s, t, parent, pathFlow, p);
      Augment(graph, F0, n, s, t, flow0, p, pathFlow);
      FlowBounded(graph, Matrix(flowing), n, s, t, flow);
    }

    /**
     * The walk from t back to s along the parent pointers, which retrace the
     * path p: each pair gets pathFlow more forward and pathFlow less backward.
     */
    method WalkBack(s: int, t: int, parent: array<int>, pathFlow: int, ghost p: seq<int>)
      requires Shape() && parent.Length == n && SimplePath(p, n) && |p| >= 1 && p[0] == s && p[|p| - 1] == t
      requires Retraces(parent[..], p)
      modifies flowing
      ensures Matrix(flowing) == AugmentFrom(old(Matrix(flowing)), n, p, pathFlow, 0)
    {
      ghost var F0 := Matrix(flowing);
      var curr := t;
      ghost var i := |p| - 1;
      while curr != s
        invariant 0 <= i < |p| && curr == p[i]
        invariant Matrix(flowing) == AugmentFrom(F0, n, p, pathFlow, i)
        decreases i
      {
        var prev := parent[curr];
        assert i > 0 && prev == p[i - 1];
        PushFlow(prev, curr, pathFlow);
        curr := prev;
        i := i - 1;
      }
    }

    /** flowing[a][b] += c; flowing[b][a] -= c. */
    method PushFlow(a: int, b: int, c: int)
      requires Shape() && 0 <= a < n && 0 <= b < n
      modifies flowing
      ensures Matrix(flowing) == Push(old(Matrix(flowing)), n, a, b, c)
    {
      ghost var F := Matrix(flowing);
      flowing[a, b] := flowing[a, b] + c;
      flowing[b, a] := flowing[b, a] - c;
      ghost var G := Push(F, n, a, b, c);
      forall x | 0 <= x < n ensures Matrix(flowing)[x] == G[x] {
      }
    }

    /**
     * bfs(s, t, parent): a breadth-first search over the edges with capacity
     * left. A positive result is the bottleneck of a path from s to t through
     * distinct nodes, linked back from t through parent; 0 means no residual
     * walk leads from s to t (or s is t).
     */
    method Bfs(s: int, t: int, parent: array<int>) returns (r: int, ghost w: seq<Step>)
      requires Shape() && 0 <= s < n && 0 <= t < n && parent.Length == n
      modifies parent
      ensures r >= 0
      ensures r > 0 ==> s != t && AugPath(graph, Matrix(flowing), n, s, t, parent[..], w) &&
                        r == Bottleneck(graph, Matrix(flowing), w)
      ensures r == 0 ==> s == t || !ResReach(graph, Matrix(flowing), s, t)
    {
      ghost var F := Matrix(flowing);
      var visited := new bool[n](_ => false);
      var minCapInPath := new int[n](_ => 0);
      var queue: seq<int> := [s];
      visited[s] := true;
      minCapInPath[s] := IntMax;
      ghost var tree: seq<seq<Step>> := seq(n, _ => []);
      BfsStart(graph, F, n, s, t, visited[..], minCapInPath[..], parent[..], tree);
      while |queue| > 0
        invariant visited.Length == n && minCapInPath.Length == n && Matrix(flowing) == F
        invariant BfsInv(graph, F, n, s, t, visited[..], minCapInPath[..], parent[..], queue, tree, -1, 0)
        decreases Unvisited(visited[..]) + |queue|
      {
        var current := queue[0];
        BfsPoll(graph, F, n, s, t, visited[..], minCapInPath[..], parent[..], queue, tree);
        queue := queue[1..];
        var found;
        found, r, w, queue, tree := Scan(s, t, parent, visited, minCapInPath, current, queue, tree);
        if found {
          return;
        }
      }
      BfsNoPath(graph, F, n, s, t, visited[..], minCapInPath[..], parent[..], tree);
      return 0, [];
    }

    /** The loop of bfs over the edges of current. */
    method Scan(s: int, t: int, parent: array<int>, visited: array<bool>, minCapInPath: array<int>, current: int,
                queue: seq<int>, ghost tree: seq<seq<Step>>)
      returns (found: bool, r: int, ghost w: seq<Step>, queue': seq<int>, ghost tree': seq<seq<Step>>)
      requires Shape() && parent.Length == n && visited.Length == n && minCapInPath.Length == n && parent != minCapInPath
      requires 0 <= current < n && visited[current]
      requires BfsInv(graph, Matrix(flowing), n, s, t, visited[..], minCapInPath[..], parent[..], queue, tree, current, 0)
      modifies parent, visited, minCapInPath
      ensures found ==> r > 0 && s != t && AugPath(graph, Matrix(flowing), n, s, t, parent[..], w) &&
                        r == Bottleneck(graph, Matrix(flowing), w)
      ensures !found ==> BfsInv(graph, Matrix(flowing), n, s, t, visited[..], minCapInPath[..], parent[..], queue', tree', -1, 0)
      ensures !found ==> Unvisited(visited[..]) + |queue'| == old(Unvisited(visited[..])) + |queue|
    {
      queue', tree' := queue, tree;
      var j := 0;
      while j < |graph[current]|
        invariant 0 <= j <= |graph[current]| && visited[current]
        invariant BfsInv(graph, Matrix(flowing), n, s, t, visited[..], minCapInPath[..], parent[..], queue', tree', current, j)
        invariant Unvisited(visited[..]) + |queue'| == old(Unvisited(visited[..])) + |queue|
      {
        found, r, w, queue', tree' := ScanEdge(s, t, parent, visited, minCapInPath, current, j, queue', tree');
        if found {
          return;
        }
        j := j + 1;
      }
      BfsScanned(graph, Matrix(flowing), n, s, t, visited[..], minCapInPath[..], parent[..], queue', tree', current);
      found, r, w := false, 0, [];
    }

    /**
     * One edge of current: an unvisited target with capacity left gets
     * current as its parent and the smaller of current's bottleneck and the
     * edge's residual capacity; it is queued and visited or, when it is t,
     * that bottleneck is returned.
     */
    method ScanEdge(s: int, t: int, parent: array<int>, visited: array<bool>, minCapInPath: array<int>, current: int,
                    j: int, queue: seq<int>, ghost tree: seq<seq<Step>>)
      returns (found: bool, r: int, ghost w: seq<Step>, queue': seq<int>, ghost tree': seq<seq<Step>>)
      requires Shape() && parent.Length == n && visited.Length == n && minCapInPath.Length == n && parent != minCapInPath
      requires 0 <= current < n && visited[current] && 0 <= j < |graph[current]|
      requires BfsInv(graph, Matrix(flowing), n, s, t, visited[..], minCapInPath[..], parent[..], queue, tree, current, j)
      modifies parent, visited, minCapInPath
      ensures found ==> r > 0 && s != t && AugPath(graph, Matrix(flowing), n, s, t, parent[..], w) &&
                        r == Bottleneck(graph, Matrix(flowing), w)
      ensures !found ==> visited[current] &&
                         BfsInv(graph, Matrix(flowing), n, s, t, visited[..], minCapInPath[..], parent[..], queue', tree', current, j + 1)
      ensures !found ==> Unvisited(visited[..]) + |queue'| == old(Unvisited(visited[..])) + |queue|
    {
      ghost var F := Matrix(flowing);
      ghost var vis0, min0, par0 := visited[..], minCapInPath[..], parent[..];
      queue', tree' := queue, tree;
      found, r, w := false, 0, [];
      var e := graph[current][j];
      var resFlow := e.cap - flowing[current, e.to];
      assert resFlow == Residual(graph, F, Step(current, j));
      if !visited[e.to] && resFlow > 0 {
        parent[e.to] := current;
        minCapInPath[e.to] := Min(minCapInPath[current], resFlow);
        if e.to != t {
          BfsAdd(graph, F, n, s, t, vis0, min0, par0, queue, tree, current, j);
          UnvisitedDrops(vis0, e.to);
          queue' := queue + [e.to];
          visited[e.to] := true;
          tree' := tree[e.to := tree[current] + [Step(current, j)]];
          assert visited[..] == vis0[e.to := true];
          assert minCapInPath[..] == min0[e.to := Min(min0[current], resFlow)];
          assert parent[..] == par0[e.to := current];
        } else {
          BfsFound(graph, F, n, s, t, vis0, min0, par0, queue, tree, current, j);
          assert parent[..] == par0[t := current];
          return true, minCapInPath[t], tree[current] + [Step(current, j)], queue, tree;
        }
      } else {
        BfsSkip(graph, F, n, s, t, vis0, min0, par0, queue, tree, current, j);
      }
    }

    /** getMaxFlow: the flow pushed, which is the net flow out of s and at most the capacity out of s. */
    function GetMaxFlow(): (r: int)
      reads this, flowing
      requires Valid()
      ensures r == Sum(Matrix(flowing)[s]) && r <= OutCapacity(graph, s, n)
    {
      FlowBounded(graph, Matrix(flowing), n, s, t, flow);
      flow
    }

    /** getFlowingEdges: the edges with a nonzero capacity carrying positive flow, node by node. */
    method GetFlowingEdges() returns (edges: seq<Edge>)
      requires Shape()
      ensures edges == FlowingUpTo(graph, Matrix(flowing), n)
    {
      ghost var F := Matrix(flowing);
      edges := [];
      var i := 0;
      while i < n
        invariant 0 <= i <= n && edges == FlowingUpTo(graph, F, i)
      {
        var row := FlowingRow(i);
        edges := edges + row;
        i := i + 1;
      }
    }

    /** The flowing edges out of node i, in the order of its adjacency list. */
    method FlowingRow(i: int) returns (row: seq<Edge>)
      requires Shape() && 0 <= i < n
      ensures row == FlowingOf(graph[i], Matrix(flowing)[i])
    {
      ghost var F := Matrix(flowing);
      row := [];
      var k := 0;
      while k < |graph[i]|
        invariant 0 <= k <= |graph[i]|
        invariant row == FlowingOf(graph[i][..k], F[i])
      {
        var e := graph[i][k];
        if e.cap != 0 && flowing[i, e.to] > 0 {
          row := row + [e];
        }
        assert graph[i][..k + 1][..k] == graph[i][..k];
        k := k + 1;
      }
      assert graph[i][..k] == graph[i];
    }
  }
}

/**
 * The edge record of graph/Edge.java and the walks over an adjacency list
 * that the graph algorithms are specified against. An edge stores only its
 * target; the node it leaves is the index of the list holding it, so a
 * step of a walk names an edge by that index and its position in the list.
 */
module Graph {

  datatype Edge = Edge(to: int, weight: int, t0: int, tInc: int, cap: int)

  /** Edge(to, weight): the weight doubles as the capacity; t0 and tInc keep their default 0. */
  function WeightedEdge(to: int, weight: int): (e: Edge)
    ensures e.to == to && e.weight == weight && e.cap == weight
    ensures e.t0 == 0 && e.tInc == 0
  {
    Edge(to, weight, 0, 0, weight)
  }

  /** Edge(to, weight, t0, tInc): a timetabled edge; the capacity keeps its default 0. */
  function TimedEdge(to: int, weight: int, t0: int, tInc: int): (e: Edge)
    ensures e.to == to && e.weight == weight && e.t0 == t0 && e.tInc == tInc
    ensures e.cap == 0
  {
    Edge(to, weight, t0, tInc, 0)
  }

  /** Every edge leads to a node of the graph. */
  predicate WellFormed(g: seq<seq<Edge>>)
  {
    forall u, k :: 0 <= u < |g| && 0 <= k < |g[u]| ==> 0 <= g[u][k].to < |g|
  }

  /** No edge has a negative weight. */
  predicate NonNegative(g: seq<seq<Edge>>)
  {
    forall u, k :: 0 <= u < |g| && 0 <= k < |g[u]| ==> g[u][k].weight >= 0
  }

  /** A step takes edge number k out of node from. */
  datatype Step = Step(from: int, k: int)

  predicate ValidStep(g: seq<seq<Edge>>, st: Step)
  {
    0 <= st.from < |g| && 0 <= st.k < |g[st.from]|
  }

  function Target(g: seq<seq<Edge>>, st: Step): int
  {
    if ValidStep(g, st) then g[st.from][st.k].to else -1
  }

  function StepWeight(g: seq<seq<Edge>>, st: Step): int
  {
    if ValidStep(g, st) then g[st.from][st.k].weight else 0
  }

  /** The node a walk from u has reached after i steps. */
  function NodeAt(g: seq<seq<Edge>>, u: int, w: seq<Step>, i: int): int
    requires 0 <= i <= |w|
  {
    if i == 0 then u else Target(g, w[i - 1])
  }

  function End(g: seq<seq<Edge>>, u: int, w: seq<Step>): int
  {
    NodeAt(g, u, w, |w|)
  }

  /** w is a walk from u: every step is an edge leaving the node reached so far. */
  ghost predicate IsWalk(g: seq<seq<Edge>>, u: int, w: seq<Step>)
  {
    forall i {:trigger NodeAt(g, u, w, i)} :: 0 <= i < |w| ==> ValidStep(g, w[i]) && w[i].from == NodeAt(g, u, w, i)
  }

  /** The total weight of a walk. */
  function Weight(g: seq<seq<Edge>>, w: seq<Step>): int
  {
    if |w| == 0 then 0 else Weight(g, w[..|w| - 1]) + StepWeight(g, w[|w| - 1])
  }

  /** Some walk leads from u to v. */
  ghost predicate Reach(g: seq<seq<Edge>>, u: int, v: int)
  {
    exists w :: IsWalk(g, u, w) && End(g, u, w) == v
  }

  /** d is the least weight of a walk from u to v, and some walk has it. */
  ghost predicate IsShortest(g: seq<seq<Edge>>, u: int, v: int, d: int)
  {
    (exists w :: IsWalk(g, u, w) && End(g, u, w) == v && Weight(g, w) == d) &&
    (forall w :: IsWalk(g, u, w) && End(g, u, w) == v ==> d <= Weight(g, w))
  }

  /**
   * An entry of a distance table: a finite distance, or one of the two
   * sentinels the Java code keeps in the same integer (the type's largest
   * value for "not reached", its smallest for "arbitrarily small").
   */
  datatype Dist = Fin(d: int) | Inf | NegInf

  /** Every closed part of a walk from u weighs at least zero. */
  ghost predicate NoNegativeCycle(g: seq<seq<Edge>>, u: int)
  {
    forall w, i, j :: IsWalk(g, u, w) && 0 <= i < j <= |w| && NodeAt(g, u, w, i) == NodeAt(g, u, w, j) ==>
      Weight(g, w[i..j]) >= 0
  }

  /** Extending a walk by an edge out of its end. */
  lemma WalkSnoc(g: seq<seq<Edge>>, u: int, w: seq<Step>, st: Step)
    requires IsWalk(g, u, w) && ValidStep(g, st) && st.from == End(g, u, w)
    ensures IsWalk(g, u, w + [st]) && End(g, u, w + [st]) == Target(g, st)
    ensures Weight(g, w + [st]) == Weight(g, w) + StepWeight(g, st)
  {
    var w' := w + [st];
    assert w'[..|w'| - 1] == w;
    forall i | 0 <= i < |w'| ensures ValidStep(g, w'[i]) && w'[i].from == NodeAt(g, u, w', i) {
      if i < |w| {
        assert w'[i] == w[i];
        assert NodeAt(g, u, w', i) == NodeAt(g, u, w, i);
      }
    }
  }

  /** The empty walk stays at u and weighs nothing. */
  lemma EmptyWalk(g: seq<seq<Edge>>, u: int)
    ensures IsWalk(g, u, []) && End(g, u, []) == u && Weight(g, []) == 0
  {
  }

  /** Weights add up over a concatenation. */
  lemma {:induction false} WeightConcat(g: seq<seq<Edge>>, w1: seq<Step>, w2: seq<Step>)
    ensures Weight(g, w1 + w2) == Weight(g, w1) + Weight(g, w2)
  {
    if |w2| > 0 {
      var w2' := w2[..|w2| - 1];
      assert (w1 + w2)[..|w1 + w2| - 1] == w1 + w2';
      WeightConcat(g, w1, w2');
    } else {
      assert w1 + w2 == w1;
    }
  }

  /** A slice of a walk is a walk between the nodes reached at its ends. */
  lemma WalkSlice(g: seq<seq<Edge>>, u: int, w: seq<Step>, i: int, j: int)
    requires IsWalk(g, u, w) && 0 <= i <= j <= |w|
    ensures IsWalk(g, NodeAt(g, u, w, i), w[i..j]) && End(g, NodeAt(g, u, w, i), w[i..j]) == NodeAt(g, u, w, j)
  {
    var v := NodeAt(g, u, w, i);
    var s := w[i..j];
    forall t | 0 <= t < |s| ensures ValidStep(g, s[t]) && s[t].from == NodeAt(g, v, s, t) {
      assert s[t] == w[i + t];
      assert w[i + t].from == NodeAt(g, u, w, i + t);
      if t > 0 {
        assert s[t - 1] == w[i + t - 1];
      }
    }
    if j > i {
      assert s[|s| - 1] == w[j - 1];
    }
  }

  /** A non-empty walk is its prefix followed by its last step. */
  lemma LastStep(g: seq<seq<Edge>>, s: int, w: seq<Step>) returns (w': seq<Step>, st: Step)
    requires IsWalk(g, s, w) && |w| > 0
    ensures w == w' + [st] && |w'| == |w| - 1
    ensures IsWalk(g, s, w') && ValidStep(g, st) && st.from == End(g, s, w')
    ensures End(g, s, w) == Target(g, st) && Weight(g, w) == Weight(g, w') + StepWeight(g, st)
  {
    w', st := w[..|w| - 1], w[|w| - 1];
    WalkSlice(g, s, w, 0, |w| - 1);
    assert w[0..|w| - 1] == w';
    assert w == w' + [st];
  }

  /** Two walks meeting end to start make one walk. */
  lemma WalkConcat(g: seq<seq<Edge>>, u: int, w1: seq<Step>, w2: seq<Step>)
    requires IsWalk(g, u, w1) && IsWalk(g, End(g, u, w1), w2)
    ensures IsWalk(g, u, w1 + w2) && End(g, u, w1 + w2) == End(g, End(g, u, w1), w2)
    ensures Weight(g, w1 + w2) == Weight(g, w1) + Weight(g, w2)
  {
    var v := End(g, u, w1);
    var w := w1 + w2;
    forall t | 0 <= t < |w| ensures ValidStep(g, w[t]) && w[t].from == NodeAt(g, u, w, t) {
      if t < |w1| {
        assert w[t] == w1[t];
        assert NodeAt(g, u, w, t) == NodeAt(g, u, w1, t);
      } else {
        assert w[t] == w2[t - |w1|];
        assert NodeAt(g, u, w, t) == NodeAt(g, v, w2, t - |w1|);
      }
    }
    if |w2| > 0 {
      assert w[|w| - 1] == w2[|w2| - 1];
    }
    WeightConcat(g, w1, w2);
  }

  /** Reachability is transitive. */
  lemma ReachTrans(g: seq<seq<Edge>>, u: int, v: int, x: int)
    requires Reach(g, u, v) && Reach(g, v, x)
    ensures Reach(g, u, x)
  {
    var w1 :| IsWalk(g, u, w1) && End(g, u, w1) == v;
    var w2 :| IsWalk(g, v, w2) && End(g, v, w2) == x;
    WalkConcat(g, u, w1, w2);
  }

  /** An edge out of a reachable node leads to a reachable node. */
  lemma ReachStep(g: seq<seq<Edge>>, u: int, v: int, k: int)
    requires Reach(g, u, v) && 0 <= v < |g| && 0 <= k < |g[v]|
    ensures Reach(g, u, g[v][k].to)
  {
    var w :| IsWalk(g, u, w) && End(g, u, w) == v;
    WalkSnoc(g, u, w, Step(v, k));
  }

  /** With no negative weights, no walk weighs less than zero. */
  lemma {:induction false} WeightNonNegative(g: seq<seq<Edge>>, w: seq<Step>)
    requires NonNegative(g)
    ensures Weight(g, w) >= 0
  {
    if |w| > 0 {
      WeightNonNegative(g, w[..|w| - 1]);
    }
  }

  /** More than n values below n repeat one (the pigeonhole principle). */
  lemma Pigeonhole(s: seq<int>, n: nat) returns (i: int, j: int)
    requires |s| > n && forall t :: 0 <= t < |s| ==> 0 <= s[t] < n
    ensures 0 <= i < j < |s| && s[i] == s[j]
    decreases n
  {
    var last := s[|s| - 1];
    var t := 0;
    while t < |s| - 1
      invariant 0 <= t <= |s| - 1
      invariant forall r :: 0 <= r < t ==> s[r] != last
    {
      if s[t] == last {
        return t, |s| - 1;
      }
      t := t + 1;
    }
    // The last value appears only once: drop it and renumber the values above it.
    var s' := seq(|s| - 1, r requires 0 <= r < |s| - 1 => if s[r] > last then s[r] - 1 else s[r]);
    i, j := Pigeonhole(s', n - 1);
    assert s[i] == s[j] by {
      assert s[i] != last && s[j] != last;
    }
  }

  /**
   * Every walk can be shortened to one with fewer steps than the graph has
   * nodes and the same ends, by cutting out closed parts; when no closed
   * part of a walk from u weighs less than zero, the weight does not grow.
   */
  lemma {:induction false} ShortWalk(g: seq<seq<Edge>>, u: int, w: seq<Step>) returns (w': seq<Step>)
    requires WellFormed(g) && 0 <= u < |g| && IsWalk(g, u, w)
    ensures IsWalk(g, u, w') && End(g, u, w') == End(g, u, w) && |w'| < |g|
    ensures NoNegativeCycle(g, u) ==> Weight(g, w') <= Weight(g, w)
    decreases |w|
  {
    if |w| < |g| {
      return w;
    }
    var nodes := WalkNodes(g, u, w);
    var i, j := Pigeonhole(nodes, |g|);
    var shorter := CutCycle(g, u, w, i, j);
    w' := ShortWalk(g, u, shorter);
  }

  /** The nodes a walk passes, all of them nodes of the graph. */
  lemma WalkNodes(g: seq<seq<Edge>>, u: int, w: seq<Step>) returns (nodes: seq<int>)
    requires WellFormed(g) && 0 <= u < |g| && IsWalk(g, u, w)
    ensures |nodes| == |w| + 1
    ensures forall t :: 0 <= t <= |w| ==> nodes[t] == NodeAt(g, u, w, t) && 0 <= nodes[t] < |g|
  {
    nodes := seq(|w| + 1, t requires 0 <= t <= |w| => NodeAt(g, u, w, t));
    forall t | 0 <= t <= |w| ensures 0 <= nodes[t] < |g| {
      if t > 0 {
        assert w[t - 1].from == NodeAt(g, u, w, t - 1);
      }
    }
  }

  /** Cutting a closed part out of a walk keeps its ends and removes that part's weight. */
  lemma CutCycle(g: seq<seq<Edge>>, u: int, w: seq<Step>, i: int, j: int) returns (shorter: seq<Step>)
    requires IsWalk(g, u, w) && 0 <= i < j <= |w| && NodeAt(g, u, w, i) == NodeAt(g, u, w, j)
    ensures shorter == w[..i] + w[j..] && |shorter| < |w|
    ensures IsWalk(g, u, shorter) && End(g, u, shorter) == End(g, u, w)
    ensures Weight(g, w) == Weight(g, shorter) + Weight(g, w[i..j])
    ensures NoNegativeCycle(g, u) ==> Weight(g, shorter) <= Weight(g, w)
  {
    shorter := w[..i] + w[j..];
    assert IsWalk(g, u, shorter) && End(g, u, shorter) == End(g, u, w) by {
      WalkSlice(g, u, w, 0, i);
      WalkSlice(g, u, w, j, |w|);
      assert w[0..i] == w[..i];
      assert w[j..|w|] == w[j..];
      WalkConcat(g, u, w[..i], w[j..]);
    }
    assert Weight(g, w) == Weight(g, shorter) + Weight(g, w[i..j]) by {
      assert w == w[..i] + w[i..j] + w[j..];
      WeightConcat(g, w[..i], w[i..j]);
      WeightConcat(g, w[..i] + w[i..j], w[j..]);
      WeightConcat(g, w[..i], w[j..]);
    }
  }

  /** Going round a closed part of a walk twice keeps its ends and adds that part's weight once more. */
  lemma PumpWalk(g: seq<seq<Edge>>, u: int, w: seq<Step>, i: int, j: int) returns (pumped: seq<Step>)
    requires IsWalk(g, u, w) && 0 <= i < j <= |w| && NodeAt(g, u, w, i) == NodeAt(g, u, w, j)
    ensures IsWalk(g, u, pumped) && End(g, u, pumped) == End(g, u, w)
    ensures Weight(g, pumped) == Weight(g, w) + Weight(g, w[i..j])
  {
    WalkSlice(g, u, w, 0, j);
    WalkSlice(g, u, w, i, j);
    WalkSlice(g, u, w, j, |w|);
    assert w[0..j] == w[..j] && w[j..|w|] == w[j..];
    WalkConcat(g, u, w[..j], w[i..j]);
    WalkConcat(g, u, w[..j] + w[i..j], w[j..]);
    pumped := w[..j] + w[i..j] + w[j..];
    assert w == w[..j] + w[j..];
    WeightConcat(g, w[..j], w[j..]);
  }

  /** A shortest walk can be replaced by one of the same weight with fewer steps than the graph has nodes. */
  lemma {:induction false} ShortestIsShort(g: seq<seq<Edge>>, u: int, w: seq<Step>) returns (w': seq<Step>)
    requires WellFormed(g) && 0 <= u < |g| && IsWalk(g, u, w) && IsShortest(g, u, End(g, u, w), Weight(g, w))
    ensures IsWalk(g, u, w') && End(g, u, w') == End(g, u, w) && |w'| < |g| && Weight(g, w') == Weight(g, w)
    decreases |w|
  {
    if |w| < |g| {
      return w;
    }
    var nodes := WalkNodes(g, u, w);
    var i, j := Pigeonhole(nodes, |g|);
    var shorter := CutCycle(g, u, w, i, j);
    var pumped := PumpWalk(g, u, w, i, j);
    // Minimality against the pumped walk: the closed part weighs at least 0; against the cut one: at most 0.
    assert Weight(g, w) <= Weight(g, pumped) && Weight(g, w) <= Weight(g, shorter);
    w' := ShortestIsShort(g, u, shorter);
  }

  /** Some walk from u to v weighs less than b. */
  ghost predicate SomeWalkBelow(g: seq<seq<Edge>>, u: int, v: int, b: int)
  {
    exists w :: IsWalk(g, u, w) && End(g, u, w) == v && Weight(g, w) < b
  }

  /** Walks from u to v weigh arbitrarily little. */
  ghost predicate Unbounded(g: seq<seq<Edge>>, u: int, v: int)
  {
    forall b :: SomeWalkBelow(g, u, v, b)
  }

  /** A node with arbitrarily light walks is reached and has no shortest distance. */
  lemma UnboundedNoShortest(g: seq<seq<Edge>>, u: int, v: int)
    ensures Unbounded(g, u, v) ==> Reach(g, u, v) && forall D :: !IsShortest(g, u, v, D)
  {
    if Unbounded(g, u, v) {
      assert SomeWalkBelow(g, u, v, 0);
      forall D ensures !IsShortest(g, u, v, D) {
        assert SomeWalkBelow(g, u, v, D);
      }
    }
  }

  /** What an unbounded node reaches is unbounded too. */
  lemma UnboundedReach(g: seq<seq<Edge>>, u: int, v: int, x: int)
    requires Unbounded(g, u, v) && Reach(g, v, x)
    ensures Unbounded(g, u, x)
  {
    var c :| IsWalk(g, v, c) && End(g, v, c) == x;
    forall b ensures SomeWalkBelow(g, u, x, b) {
      assert SomeWalkBelow(g, u, v, b - Weight(g, c));
      var w :| IsWalk(g, u, w) && End(g, u, w) == v && Weight(g, w) < b - Weight(g, c);
      WalkConcat(g, u, w, c);
    }
  }

  /** A reached node whose walks are bounded below has a shortest distance. */
  lemma BoundedHasShortest(g: seq<seq<Edge>>, u: int, v: int, w0: seq<Step>)
    requires IsWalk(g, u, w0) && End(g, u, w0) == v
    ensures !Unbounded(g, u, v) ==> exists D :: IsShortest(g, u, v, D)
  {
    if !Unbounded(g, u, v) {
      var b :| !SomeWalkBelow(g, u, v, b);
      var m := LeastWalk(g, u, v, w0, b);
    }
  }

  /** Descending from w0 through lighter walks, bounded below by b, ends at a lightest one. */
  lemma LeastWalk(g: seq<seq<Edge>>, u: int, v: int, w0: seq<Step>, b: int) returns (m: seq<Step>)
    requires IsWalk(g, u, w0) && End(g, u, w0) == v && !SomeWalkBelow(g, u, v, b)
    ensures IsWalk(g, u, m) && End(g, u, m) == v && IsShortest(g, u, v, Weight(g, m))
    decreases Weight(g, w0) - b
  {
    if forall w :: IsWalk(g, u, w) && End(g, u, w) == v ==> Weight(g, w0) <= Weight(g, w) {
      return w0;
    }
    var w1 :| IsWalk(g, u, w1) && End(g, u, w1) == v && Weight(g, w1) < Weight(g, w0);
    m := LeastWalk(g, u, v, w1, b);
  }

  /** With no negative weights there is no closed walk of negative weight. */
  lemma NonNegativeNoCycle(g: seq<seq<Edge>>, u: int)
    requires NonNegative(g)
    ensures NoNegativeCycle(g, u)
  {
    forall w, i, j | IsWalk(g, u, w) && 0 <= i < j <= |w| && NodeAt(g, u, w, i) == NodeAt(g, u, w, j)
      ensures Weight(g, w[i..j]) >= 0
    {
      WeightNonNegative(g, w[i..j]);
    }
  }

  /** x is finite and at most y. */
  predicate Below(x: Dist, y: int)
  {
    x.Fin? && x.d <= y
  }

  /** p improves on the entry x: x is Inf, or finite and above p. */
  predicate Improves(p: int, x: Dist)
  {
    x == Inf || (x.Fin? && p < x.d)
  }

  /** Each finite entry is the weight of the witness walk from s to its node. */
  ghost predicate Witnessed(g: seq<seq<Edge>>, s: int, d: seq<Dist>, wit: seq<seq<Step>>)
  {
    |wit| == |d| &&
    forall v :: 0 <= v < |d| && d[v].Fin? ==>
      IsWalk(g, s, wit[v]) && End(g, s, wit[v]) == v && Weight(g, wit[v]) == d[v].d
  }

  /** Lowering entry v to the weight of a walk to v keeps every finite entry witnessed. */
  lemma WitnessedLower(g: seq<seq<Edge>>, s: int, d: seq<Dist>, wit: seq<seq<Step>>, v: int, p: int, w: seq<Step>)
    requires Witnessed(g, s, d, wit) && 0 <= v < |d|
    requires IsWalk(g, s, w) && End(g, s, w) == v && Weight(g, w) == p
    ensures Witnessed(g, s, d[v := Fin(p)], wit[v := w])
  {
  }

  /** The number of nodes not yet visited. */
  function Unvisited(vis: seq<bool>): nat
  {
    if |vis| == 0 then 0 else Unvisited(vis[..|vis| - 1]) + (if vis[|vis| - 1] then 0 else 1)
  }

  /** Visiting an unvisited node lowers the count by one. */
  lemma {:induction false} UnvisitedDrops(vis: seq<bool>, v: int)
    requires 0 <= v < |vis| && !vis[v]
    ensures Unvisited(vis[v := true]) == Unvisited(vis) - 1
  {
    var m := |vis| - 1;
    if v < m {
      assert vis[v := true][..m] == vis[..m][v := true];
      UnvisitedDrops(vis[..m], v);
    } else {
      assert vis[v := true][..m] == vis[..m];
    }
  }
}

/**
 * Dijkstra's algorithm from one source (graph/Dijkstra.java) over a graph
 * whose edge weights are not negative. Each node's accumulated weight is
 * an `int` starting at Integer.MAX_VALUE; here it is a Dist, Inf standing
 * for that sentinel. The priority queue holds copies of nodes taken when
 * they were improved, so a node can be on it several times; a copy polled
 * after its node was visited is skipped.
 */
module Dijkstra {
  import opened Graph

  const IntMax: int := 0x7fff_ffff
  const LongMax: int := 0x7fff_ffff_ffff_ffff

  /** A copy of a node as put on the queue: its index and its weight at that moment. */
  datatype Node = Node(index: int, accWeight: int)

  /** Node.compareTo: by accumulated weight. */
  function CompareTo(x: Node, y: Node): (r: int)
    ensures r == -1 <==> x.accWeight < y.accWeight
    ensures r == 0 <==> x.accWeight == y.accWeight
    ensures r == 1 <==> x.accWeight > y.accWeight
  {
    if x.accWeight < y.accWeight then -1
    else if x.accWeight > y.accWeight then 1
    else 0
  }

  /** m is a node poll may return: on the queue, and no node there compares below it. */
  predicate IsMin(m: Node, q: multiset<Node>)
  {
    m in q && forall x :: x in q ==> CompareTo(m, x) <= 0
  }

  /** A non-empty queue has a least node. */
  lemma MinExists(q: multiset<Node>) returns (m: Node)
    requires |q| > 0
    ensures IsMin(m, q)
    decreases |q|
  {
    var x :| x in q;
    var rest := q - multiset{x};
    assert q == rest + multiset{x};
    if |rest| == 0 {
      m := x;
    } else {
      var m' := MinExists(rest);
      m := if x.accWeight <= m'.accWeight then x else m';
    }
  }

  /** getAccWeight's `int`: the weight, or Integer.MAX_VALUE for a node not reached. */
  function AsInt(x: Dist): (r: int)
    requires x != NegInf
    ensures x == Inf ==> r == IntMax
    ensures x.Fin? ==> r == x.d
  {
    if x.Fin? then x.d else IntMax
  }

  /** Every node on the queue has a finite weight at most the copy's. */
  predicate Queued(d: seq<Dist>, q: multiset<Node>)
  {
    forall e :: e in q ==> 0 <= e.index < |d| && d[e.index].Fin? && d[e.index].d <= e.accWeight
  }

  /** Every unvisited node with a finite weight is on the queue with that weight. */
  predicate Pending(d: seq<Dist>, vis: seq<bool>, q: multiset<Node>)
    requires |vis| == |d|
  {
    forall v :: 0 <= v < |d| && !vis[v] && d[v].Fin? ==> Node(v, d[v].d) in q
  }

  /** Every visited node's weight is the least weight of a walk from s. */
  ghost predicate Final(g: seq<seq<Edge>>, s: int, d: seq<Dist>, vis: seq<bool>)
    requires |vis| == |d|
  {
    forall v :: 0 <= v < |d| && vis[v] ==> d[v].Fin? && IsShortest(g, s, v, d[v].d)
  }

  /**
   * Every edge out of a visited node, other than the edges of cur from the
   * k-th on, leads to a visited node or to one whose weight it cannot improve.
   */
  predicate Relaxed(g: seq<seq<Edge>>, d: seq<Dist>, vis: seq<bool>, cur: int, k: int)
    requires WellFormed(g) && |d| == |vis| == |g|
  {
    forall v, j :: 0 <= v < |g| && 0 <= j < |g[v]| && vis[v] && (v != cur || j < k) ==>
      vis[g[v][j].to] || (d[v].Fin? && Below(d[g[v][j].to], d[v].d + g[v][j].weight))
  }

  /** No copy on the queue weighs less than a visited node. */
  predicate KeysAbove(d: seq<Dist>, vis: seq<bool>, q: multiset<Node>)
    requires |vis| == |d|
  {
    forall v, e :: 0 <= v < |d| && vis[v] && e in q ==> d[v].Fin? && d[v].d <= e.accWeight
  }

  /** The invariant of the search, while the edges of cur from the k-th on are still to be relaxed. */
  ghost predicate SearchInv(g: seq<seq<Edge>>, s: int, d: seq<Dist>, wit: seq<seq<Step>>, vis: seq<bool>,
                            q: multiset<Node>, cur: int, k: int)
  {
    WellFormed(g) && NonNegative(g) && 0 <= s < |g| && |d| == |vis| == |g| &&
    Witnessed(g, s, d, wit) &&
    (forall v :: 0 <= v < |d| ==> d[v] != NegInf && (d[v].Fin? ==> d[v].d >= 0)) &&
    (!vis[s] ==> d[s] == Fin(0)) &&
    Queued(d, q) && Pending(d, vis, q) && Final(g, s, d, vis) &&
    Relaxed(g, d, vis, cur, k) && KeysAbove(d, vis, q)
  }

  /** The invariant of the loop over the edges of the node cur, visited last. */
  ghost predicate EdgeInv(g: seq<seq<Edge>>, s: int, d: seq<Dist>, wit: seq<seq<Step>>, vis: seq<bool>,
                          q: multiset<Node>, cur: int, k: int)
  {
    SearchInv(g, s, d, wit, vis, q, cur, k) &&
    0 <= cur < |g| && 0 <= k <= |g[cur]| && vis[cur] && d[cur].Fin? &&
    forall v :: 0 <= v < |d| && vis[v] ==> d[v].Fin? && d[v].d <= d[cur].d
  }

  /** The table the search leaves: Inf exactly for the nodes s does not reach, the least walk weight elsewhere. */
  ghost predicate ShortestTable(g: seq<seq<Edge>>, s: int, d: seq<Dist>)
  {
    forall v :: 0 <= v < |d| ==>
      d[v] != NegInf && (d[v] == Inf <==> !Reach(g, s, v)) && (d[v].Fin? ==> IsShortest(g, s, v, d[v].d))
  }

  class Dijkstra {
    var tentative: multiset<Node>
    /** parents[v]: the index of the node polled just before the last copy of v was polled. */
    const parents: array<int>
    /** nodes[v].accWeight; a node's index is its position. */
    const nodes: array<Dist>
    const s: int
    ghost const graph: seq<seq<Edge>>
    /** A walk of each finite weight. */
    ghost var wit: seq<seq<Step>>

    ghost predicate Solved()
      reads this, nodes
    {
      0 <= s < |graph| && nodes.Length == |graph| && ShortestTable(graph, s, nodes[..])
    }

    /**
     * Dijkstra(nb, s): afterwards a node's weight is Inf iff s does not
     * reach it, and otherwise the least weight of a walk from s to it.
     */
    constructor (nb: seq<seq<Edge>>, s: int)
      requires WellFormed(nb) && NonNegative(nb) && 0 <= s < |nb|
      ensures graph == nb && this.s == s
      ensures Solved()
    {
      this.s := s;
      graph := nb;
      tentative := multiset{};
      parents := new int[|nb|];
      nodes := new Dist[|nb|](_ => Inf);
      wit := seq(|nb|, _ => []);
      new;
      nodes[s] := Fin(0);
      var current := Node(s, 0);
      tentative := tentative + multiset{current};
      var visited := new bool[|nb|](_ => false);
      Start(nb, s, nodes[..], wit, visited[..]);
      while |tentative| > 0
        invariant visited.Length == nodes.Length == parents.Length == |graph| && graph == nb
        invariant SearchInv(graph, s, nodes[..], wit, visited[..], tentative, -1, 0)
        decreases Unvisited(visited[..]), |tentative|
      {
        current := Poll(nb, current, visited);
      }
      Done(graph, s, nodes[..], wit, visited[..]);
    }

    /**
     * One turn of the search: poll the least copy, record the node polled
     * before it as its parent, and, if its node is not yet visited, visit it
     * and relax its edges; a copy of a visited node is dropped.
     */
    method Poll(nb: seq<seq<Edge>>, parent: Node, visited: array<bool>) returns (current: Node)
      requires nb == graph && visited.Length == nodes.Length == parents.Length == |graph|
      requires SearchInv(graph, s, nodes[..], wit, visited[..], tentative, -1, 0) && |tentative| > 0
      modifies this, nodes, parents, visited
      ensures SearchInv(graph, s, nodes[..], wit, visited[..], tentative, -1, 0)
      ensures Unvisited(visited[..]) < old(Unvisited(visited[..])) ||
              (Unvisited(visited[..]) == old(Unvisited(visited[..])) && |tentative| < old(|tentative|))
    {
      ghost var q0, d0, vis0 := tentative, nodes[..], visited[..];
      ghost var least := MinExists(tentative);
      current :| IsMin(current, tentative);
      assert IsMin(current, tentative);
      QueuedIndex(d0, q0, current);
      tentative := tentative - multiset{current};
      parents[current.index] := parent.index;
      assert nodes[..] == d0 && visited[..] == vis0;
      if !visited[current.index] {
        visited[current.index] := true;
        assert visited[..] == vis0[current.index := true] && nodes[..] == d0;
        UnvisitedDrops(vis0, current.index);
        Visit(graph, s, d0, wit, vis0, q0, current);
        RelaxAll(nb, current, visited);
        EdgesDone(graph, s, nodes[..], wit, visited[..], tentative, current.index);
      } else {
        Stale(graph, s, d0, wit, vis0, q0, current);
      }
    }

    /** The loop over the edges of the node just visited: relax each one into an unvisited node. */
    method RelaxAll(nb: seq<seq<Edge>>, current: Node, visited: array<bool>)
      requires nb == graph && visited.Length == nodes.Length == |graph|
      requires EdgeInv(graph, s, nodes[..], wit, visited[..], tentative, current.index, 0)
      requires current.accWeight == nodes[current.index].d
      modifies this, nodes
      ensures EdgeInv(graph, s, nodes[..], wit, visited[..], tentative, current.index, |graph[current.index]|)
    {
      var k := 0;
      while k < |nb[current.index]|
        invariant 0 <= k <= |nb[current.index]|
        invariant EdgeInv(graph, s, nodes[..], wit, visited[..], tentative, current.index, k)
        invariant current.accWeight == nodes[current.index].d
      {
        RelaxEdge(nb, current, k, visited);
        k := k + 1;
      }
    }

    /** One edge of the node just visited. */
    method RelaxEdge(nb: seq<seq<Edge>>, current: Node, k: int, visited: array<bool>)
      requires nb == graph && visited.Length == nodes.Length == |graph|
      requires EdgeInv(graph, s, nodes[..], wit, visited[..], tentative, current.index, k)
      requires k < |graph[current.index]| && current.accWeight == nodes[current.index].d
      modifies this, nodes
      ensures EdgeInv(graph, s, nodes[..], wit, visited[..], tentative, current.index, k + 1)
      ensures current.accWeight == nodes[current.index].d
    {
      var edge := nb[current.index][k];
      if !visited[edge.to] && Improves(current.accWeight + edge.weight, nodes[edge.to]) {
        Lower(nb, current, k, visited, edge.to, current.accWeight + edge.weight);
      } else {
        RelaxSkip(graph, s, nodes[..], wit, visited[..], tentative, current.index, k);
      }
    }

    /** Lower the weight of edge k's unvisited target to the weight over that edge, and queue it with that weight. */
    method Lower(nb: seq<seq<Edge>>, current: Node, k: int, visited: array<bool>, v: int, better: int)
      requires nb == graph && visited.Length == nodes.Length == |graph|
      requires EdgeInv(graph, s, nodes[..], wit, visited[..], tentative, current.index, k)
      requires k < |graph[current.index]| && current.accWeight == nodes[current.index].d
      requires v == graph[current.index][k].to && better == current.accWeight + graph[current.index][k].weight
      requires !visited[v] && Improves(better, nodes[v])
      modifies this, nodes
      ensures EdgeInv(graph, s, nodes[..], wit, visited[..], tentative, current.index, k + 1)
      ensures current.accWeight == nodes[current.index].d
      ensures nodes[..] == old(nodes[..])[v := Fin(better)]
      ensures tentative == old(tentative) + multiset{Node(v, better)}
    {
      var queued := tentative + multiset{Node(v, better)};
      ghost var vis, d', wit' := visited[..], nodes[..][v := Fin(better)], wit[v := wit[current.index] + [Step(current.index, k)]];
      RelaxLower(graph, s, nodes[..], wit, vis, tentative, current.index, k, d', wit', queued);
      Store(v, Fin(better), wit', queued);
      assert nodes[..] == d' && visited[..] == vis;
    }

    /** Write one entry of the table, and the walks and queue that go with it. */
    method Store(v: int, dv: Dist, ghost w: seq<seq<Step>>, q: multiset<Node>)
      requires 0 <= v < nodes.Length
      modifies this, nodes
      ensures nodes[..] == old(nodes[..])[v := dv] && wit == w && tentative == q
    {
      nodes[v] := dv;
      wit := w;
      tentative := q;
    }

    /** getAccWeight(index): the least weight of a walk from s, or Integer.MAX_VALUE when there is none. */
    function GetAccWeight(index: int): (r: int)
      requires Solved() && 0 <= index < nodes.Length
      reads this, nodes
      ensures !Reach(graph, s, index) ==> r == IntMax
      ensures Reach(graph, s, index) ==> IsShortest(graph, s, index, r)
    {
      assert nodes[..][index] == nodes[index];
      AsInt(nodes[index])
    }

    /**
     * shortestPath's test for "no path", as written: the `int` weight is
     * compared with Long.MAX_VALUE, which it never equals, so a target s
     * does not reach is not reported.
     */
    function ShortestPathIsNullAsWritten(t: int): (r: bool)
      requires Solved() && 0 <= t < nodes.Length
      reads this, nodes
      ensures !Reach(graph, s, t) ==> !r
    {
      assert nodes[..][t] == nodes[t];
      AsInt(nodes[t]) == LongMax
    }

    /** shortestPath's test for "no path" as intended: the weight is the not-reached sentinel. */
    function ShortestPathIsNull(t: int): (r: bool)
      requires Solved() && 0 <= t < nodes.Length
      reads this, nodes
      ensures r <==> !Reach(graph, s, t)
    {
      assert nodes[..][t] == nodes[t];
      nodes[t] == Inf
    }
  }

  /** The state before the first poll: only s has a weight, 0, and only s is queued. */
  lemma Start(g: seq<seq<Edge>>, s: int, d: seq<Dist>, wit: seq<seq<Step>>, vis: seq<bool>)
    requires WellFormed(g) && NonNegative(g) && 0 <= s < |g| && |d| == |vis| == |wit| == |g|
    requires forall v :: 0 <= v < |g| ==> !vis[v] && wit[v] == []
    requires forall v :: 0 <= v < |g| ==> d[v] == if v == s then Fin(0) else Inf
    ensures SearchInv(g, s, d, wit, vis, multiset{Node(s, 0)}, -1, 0)
  {
    EmptyWalk(g, s);
  }

  /**
   * A walk from s to an unvisited node passes an unvisited node with a
   * finite weight at most the walk's.
   */
  lemma {:induction false} Crossing(g: seq<seq<Edge>>, s: int, d: seq<Dist>, wit: seq<seq<Step>>, vis: seq<bool>,
                                    q: multiset<Node>, w: seq<Step>) returns (u: int)
    requires SearchInv(g, s, d, wit, vis, q, -1, 0)
    requires IsWalk(g, s, w) && 0 <= End(g, s, w) < |g|
    ensures !vis[End(g, s, w)] ==> 0 <= u < |g| && !vis[u] && d[u].Fin? && d[u].d <= Weight(g, w)
  {
    if |w| == 0 {
      u := s;
    } else {
      var w', st := LastStep(g, s, w);
      var y := st.from;
      assert StepWeight(g, st) >= 0;
      if vis[y] {
        assert d[y].d <= Weight(g, w') by {
          assert IsShortest(g, s, y, d[y].d);
        }
        assert Relaxed(g, d, vis, -1, 0);
        u := End(g, s, w);
      } else {
        u := Crossing(g, s, d, wit, vis, q, w');
      }
    }
  }

  /** A copy on the queue names a node of the graph. */
  lemma QueuedIndex(d: seq<Dist>, q: multiset<Node>, m: Node)
    requires Queued(d, q) && m in q
    ensures 0 <= m.index < |d| && |q - multiset{m}| < |q|
  {
  }

  /** The node polled, when not yet visited, has its weight on the queue copy, and that weight is final. */
  lemma PolledFinal(g: seq<seq<Edge>>, s: int, d: seq<Dist>, wit: seq<seq<Step>>, vis: seq<bool>,
                    q: multiset<Node>, m: Node)
    requires SearchInv(g, s, d, wit, vis, q, -1, 0) && IsMin(m, q) && !vis[m.index]
    ensures d[m.index] == Fin(m.accWeight) && IsShortest(g, s, m.index, m.accWeight)
  {
    var v := m.index;
    assert Node(v, d[v].d) in q;
    assert CompareTo(m, Node(v, d[v].d)) <= 0;
    forall w | IsWalk(g, s, w) && End(g, s, w) == v ensures m.accWeight <= Weight(g, w) {
      var u := Crossing(g, s, d, wit, vis, q, w);
      assert Node(u, d[u].d) in q;
      assert CompareTo(m, Node(u, d[u].d)) <= 0;
    }
    assert IsWalk(g, s, wit[v]) && End(g, s, wit[v]) == v && Weight(g, wit[v]) == m.accWeight;
  }

  /** Visiting the polled node keeps the invariant, with all its edges still to relax. */
  lemma Visit(g: seq<seq<Edge>>, s: int, d: seq<Dist>, wit: seq<seq<Step>>, vis: seq<bool>,
              q: multiset<Node>, m: Node)
    requires SearchInv(g, s, d, wit, vis, q, -1, 0) && IsMin(m, q) && !vis[m.index]
    ensures d[m.index] == Fin(m.accWeight)
    ensures EdgeInv(g, s, d, wit, vis[m.index := true], q - multiset{m}, m.index, 0)
  {
    PolledFinal(g, s, d, wit, vis, q, m);
    VisitQueue(d, vis, q, m);
    VisitFinal(g, s, d, vis, m.index);
    VisitRelaxed(g, d, vis, m.index);
  }

  /** Taking the least copy off the queue and visiting its node keeps the queue invariants. */
  lemma VisitQueue(d: seq<Dist>, vis: seq<bool>, q: multiset<Node>, m: Node)
    requires |vis| == |d| && IsMin(m, q) && 0 <= m.index < |d| && !vis[m.index] && d[m.index] == Fin(m.accWeight)
    requires Queued(d, q) && Pending(d, vis, q) && KeysAbove(d, vis, q)
    ensures var vis', q' := vis[m.index := true], q - multiset{m};
            Queued(d, q') && Pending(d, vis', q') && KeysAbove(d, vis', q') &&
            forall x :: 0 <= x < |d| && vis'[x] ==> d[x].Fin? && d[x].d <= d[m.index].d
  {
    var v := m.index;
    var vis', q' := vis[v := true], q - multiset{m};
    assert q == q' + multiset{m};
    forall x | 0 <= x < |d| && !vis'[x] && d[x].Fin? ensures Node(x, d[x].d) in q' {
      assert Node(x, d[x].d) in q;
    }
    forall x, e | 0 <= x < |d| && vis'[x] && e in q' ensures d[x].Fin? && d[x].d <= e.accWeight {
      if x == v {
        assert CompareTo(m, e) <= 0;
      }
    }
  }

  /** The visited node's weight is final (proved by PolledFinal), so Final holds with it. */
  lemma VisitFinal(g: seq<seq<Edge>>, s: int, d: seq<Dist>, vis: seq<bool>, v: int)
    requires |vis| == |d| && 0 <= v < |d| && Final(g, s, d, vis) && d[v].Fin? && IsShortest(g, s, v, d[v].d)
    ensures Final(g, s, d, vis[v := true])
  {
  }

  /** Visiting v keeps the edges relaxed so far relaxed, with all of v's edges still to go. */
  lemma VisitRelaxed(g: seq<seq<Edge>>, d: seq<Dist>, vis: seq<bool>, v: int)
    requires WellFormed(g) && |d| == |vis| == |g| && 0 <= v < |g| && Relaxed(g, d, vis, -1, 0)
    ensures Relaxed(g, d, vis[v := true], v, 0)
  {
  }

  /** Polling a copy of a visited node and dropping it keeps the invariant. */
  lemma Stale(g: seq<seq<Edge>>, s: int, d: seq<Dist>, wit: seq<seq<Step>>, vis: seq<bool>,
              q: multiset<Node>, m: Node)
    requires SearchInv(g, s, d, wit, vis, q, -1, 0) && m in q && 0 <= m.index < |vis| && vis[m.index]
    ensures SearchInv(g, s, d, wit, vis, q - multiset{m}, -1, 0)
  {
    var q' := q - multiset{m};
    forall x | 0 <= x < |d| && !vis[x] && d[x].Fin? ensures Node(x, d[x].d) in q' {
      assert Node(x, d[x].d) in q;
    }
  }

  /** Relaxing an edge into an unvisited node whose weight it improves keeps the invariant. */
  lemma RelaxLower(g: seq<seq<Edge>>, s: int, d: seq<Dist>, wit: seq<seq<Step>>, vis: seq<bool>,
                   q: multiset<Node>, cur: int, k: int, d': seq<Dist>, wit': seq<seq<Step>>, q': multiset<Node>)
    requires EdgeInv(g, s, d, wit, vis, q, cur, k) && k < |g[cur]|
    requires !vis[g[cur][k].to] && Improves(d[cur].d + g[cur][k].weight, d[g[cur][k].to])
    requires d' == d[g[cur][k].to := Fin(d[cur].d + g[cur][k].weight)]
    requires wit' == wit[g[cur][k].to := wit[cur] + [Step(cur, k)]]
    requires q' == q + multiset{Node(g[cur][k].to, d[cur].d + g[cur][k].weight)}
    ensures EdgeInv(g, s, d', wit', vis, q', cur, k + 1)
  {
    var v, p := g[cur][k].to, d[cur].d + g[cur][k].weight;
    assert g[cur][k].weight >= 0;
    assert Witnessed(g, s, d', wit') by {
      WalkSnoc(g, s, wit[cur], Step(cur, k));
      WitnessedLower(g, s, d, wit, v, p, wit[cur] + [Step(cur, k)]);
    }
    assert d[cur].d <= p;
    BoundsLower(s, d, vis, cur, v, p, d');
    QueueLower(d, vis, q, v, p, d', q');
    FinalLower(g, s, d, vis, v, p, d');
    RelaxedLower(g, d, vis, cur, k, d');
  }

  /**
   * Lowering an unvisited node's weight to p, no less than cur's, keeps every
   * weight finite and not negative and leaves the visited nodes' weights at most cur's.
   */
  lemma BoundsLower(s: int, d: seq<Dist>, vis: seq<bool>, cur: int, v: int, p: int, d': seq<Dist>)
    requires |vis| == |d| && 0 <= s < |d| && 0 <= cur < |d| && 0 <= v < |d| && !vis[v] && vis[cur]
    requires forall x :: 0 <= x < |d| ==> d[x] != NegInf && (d[x].Fin? ==> d[x].d >= 0)
    requires !vis[s] ==> d[s] == Fin(0)
    requires d[cur].Fin? && 0 <= d[cur].d <= p && Improves(p, d[v])
    requires forall x :: 0 <= x < |d| && vis[x] ==> d[x].Fin? && d[x].d <= d[cur].d
    requires d' == d[v := Fin(p)]
    ensures forall x :: 0 <= x < |d'| ==> d'[x] != NegInf && (d'[x].Fin? ==> d'[x].d >= 0)
    ensures !vis[s] ==> d'[s] == Fin(0)
    ensures d'[cur] == d[cur]
    ensures forall x :: 0 <= x < |d'| && vis[x] ==> d'[x].Fin? && d'[x].d <= d'[cur].d
  {
  }

  /** Lowering an unvisited node's weight to p and queueing a copy keeps the queue invariants. */
  lemma QueueLower(d: seq<Dist>, vis: seq<bool>, q: multiset<Node>, v: int, p: int, d': seq<Dist>, q': multiset<Node>)
    requires |vis| == |d| && 0 <= v < |d| && !vis[v] && Improves(p, d[v])
    requires Queued(d, q) && Pending(d, vis, q) && KeysAbove(d, vis, q)
    requires forall x :: 0 <= x < |d| && vis[x] ==> d[x].Fin? && d[x].d <= p
    requires d' == d[v := Fin(p)] && q' == q + multiset{Node(v, p)}
    ensures Queued(d', q') && Pending(d', vis, q') && KeysAbove(d', vis, q')
  {
    forall e | e in q' ensures 0 <= e.index < |d'| && d'[e.index].Fin? && d'[e.index].d <= e.accWeight {
      if e != Node(v, p) {
        assert e in q;
      }
    }
    forall x | 0 <= x < |d'| && !vis[x] && d'[x].Fin? ensures Node(x, d'[x].d) in q' {
      if x != v {
        assert Node(x, d[x].d) in q;
      }
    }
    forall x, e | 0 <= x < |d'| && vis[x] && e in q' ensures d'[x].Fin? && d'[x].d <= e.accWeight {
      assert d'[x] == d[x];
      if e != Node(v, p) {
        assert e in q;
      }
    }
  }

  /** Lowering an unvisited node's weight leaves the visited nodes' weights final. */
  lemma FinalLower(g: seq<seq<Edge>>, s: int, d: seq<Dist>, vis: seq<bool>, v: int, p: int, d': seq<Dist>)
    requires |vis| == |d| && 0 <= v < |d| && !vis[v] && Final(g, s, d, vis) && d' == d[v := Fin(p)]
    ensures Final(g, s, d', vis)
  {
    forall x | 0 <= x < |d'| && vis[x] ensures d'[x].Fin? && IsShortest(g, s, x, d'[x].d) {
      assert d'[x] == d[x];
    }
  }

  /** Lowering an unvisited node's weight over edge k of cur keeps the relaxed edges relaxed and adds that one. */
  lemma RelaxedLower(g: seq<seq<Edge>>, d: seq<Dist>, vis: seq<bool>, cur: int, k: int, d': seq<Dist>)
    requires WellFormed(g) && |d| == |vis| == |g| && 0 <= cur < |g| && 0 <= k < |g[cur]|
    requires Relaxed(g, d, vis, cur, k) && vis[cur] && d[cur].Fin?
    requires !vis[g[cur][k].to] && Improves(d[cur].d + g[cur][k].weight, d[g[cur][k].to])
    requires d' == d[g[cur][k].to := Fin(d[cur].d + g[cur][k].weight)]
    ensures Relaxed(g, d', vis, cur, k + 1)
  {
    var v := g[cur][k].to;
    forall x, j | 0 <= x < |g| && 0 <= j < |g[x]| && vis[x] && (x != cur || j < k + 1)
      ensures vis[g[x][j].to] || (d'[x].Fin? && Below(d'[g[x][j].to], d'[x].d + g[x][j].weight))
    {
      assert d'[x] == d[x];
      if x != cur || j < k {
        assert vis[g[x][j].to] || (d[x].Fin? && Below(d[g[x][j].to], d[x].d + g[x][j].weight));
      }
    }
  }

  /** Passing over an edge into a visited node, or one it does not improve, keeps the invariant. */
  lemma RelaxSkip(g: seq<seq<Edge>>, s: int, d: seq<Dist>, wit: seq<seq<Step>>, vis: seq<bool>,
                  q: multiset<Node>, cur: int, k: int)
    requires EdgeInv(g, s, d, wit, vis, q, cur, k) && k < |g[cur]|
    requires vis[g[cur][k].to] || !Improves(d[cur].d + g[cur][k].weight, d[g[cur][k].to])
    ensures EdgeInv(g, s, d, wit, vis, q, cur, k + 1)
  {
  }

  /** With every edge of cur relaxed, the invariant between polls holds again. */
  lemma EdgesDone(g: seq<seq<Edge>>, s: int, d: seq<Dist>, wit: seq<seq<Step>>, vis: seq<bool>,
                  q: multiset<Node>, cur: int)
    requires 0 <= cur < |g| && EdgeInv(g, s, d, wit, vis, q, cur, |g[cur]|)
    ensures SearchInv(g, s, d, wit, vis, q, -1, 0)
  {
  }

  /**
   * When the queue is empty, the visited nodes are exactly the nodes s
   * reaches, each with its least walk weight, and every other node is Inf.
   */
  lemma Done(g: seq<seq<Edge>>, s: int, d: seq<Dist>, wit: seq<seq<Step>>, vis: seq<bool>)
    requires SearchInv(g, s, d, wit, vis, multiset{}, -1, 0)
    ensures ShortestTable(g, s, d)
  {
    forall v | 0 <= v < |d| ensures d[v] == Inf <==> !Reach(g, s, v) {
      if Reach(g, s, v) {
        var w :| IsWalk(g, s, w) && End(g, s, w) == v;
        var u := Crossing(g, s, d, wit, vis, multiset{}, w);
        assert vis[v];
      }
    }
  }
}

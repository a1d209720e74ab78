/**
 * The timetabled variant of Dijkstra's algorithm (graph/DijkTimed.java).
 * An edge with first departure t0 and period tInc can be taken at times
 * t0, t0 + tInc, t0 + 2 * tInc, ... (only at t0 when tInc is 0), and takes
 * `weight` time units; a traveller waits for the next departure. Each node's
 * accumulated time is a `long` starting at Long.MAX_VALUE; here it is a Dist,
 * Inf standing for that sentinel. The priority queue holds node indices, each
 * at most once: an improved node is removed and put back.
 */
module DijkTimed {
  import opened Graph
  import opened Arith

  const LongMax: int := 0x7fff_ffff_ffff_ffff

  /** No edge has a negative period. */
  predicate Periodic(g: seq<seq<Edge>>)
  {
    forall u, k :: 0 <= u < |g| && 0 <= k < |g[u]| ==> g[u][k].tInc >= 0
  }

  /** The edge departs at time t: at t0, and every tInc after it when tInc is not 0. */
  predicate Departs(e: Edge, t: int)
  {
    t == e.t0 || (e.tInc > 0 && t > e.t0 && (t - e.t0) % e.tInc == 0)
  }

  /**
   * The wait rule: how long a traveller at the edge's start at currTime
   * waits for its next departure, or Inf when the edge does not depart
   * again (t0 has passed and tInc is 0), which is when the Java loop skips
   * the edge.
   */
  function Wait(currTime: int, e: Edge): (r: Dist)
  {
    if currTime <= e.t0 then Fin(e.t0 - currTime)
    else if e.tInc != 0 && currTime > e.t0 then
      if JavaRem(currTime - e.t0, e.tInc) == 0 then Fin(0)
      else Fin(e.tInc - JavaRem(currTime - e.t0, e.tInc))
    else Inf
  }

  /**
   * With a period that is not negative, the wait rule leads to the first
   * departure at or after currTime, and reports Inf exactly when there is
   * none.
   */
  lemma WaitIsNextDeparture(currTime: int, e: Edge)
    requires e.tInc >= 0
    ensures Wait(currTime, e) != NegInf
    ensures Wait(currTime, e) == Inf ==> forall t :: t >= currTime ==> !Departs(e, t)
    ensures Wait(currTime, e).Fin? ==>
              Wait(currTime, e).d >= 0 && Departs(e, currTime + Wait(currTime, e).d) &&
              forall t :: currTime <= t < currTime + Wait(currTime, e).d ==> !Departs(e, t)
  {
    if currTime > e.t0 && e.tInc > 0 {
      var m, x := e.tInc, currTime - e.t0;
      var r := x % m;
      assert JavaRem(x, m) == r;
      assert x == m * (x / m) + r;
      if r != 0 {
        var w := m - r;
        SameRemainder(x + w, 0, m, x / m + 1);
        forall t | currTime <= t < currTime + w ensures !Departs(e, t) {
          BetweenMultiples(m, x / m, t - e.t0);
        }
      }
    }
  }

  /**
   * The timetable is first-in first-out: arriving at an edge's start no
   * later never means leaving later, nor being left without a departure.
   */
  lemma WaitMonotone(e: Edge, t1: int, t2: int)
    requires e.tInc >= 0 && t1 <= t2 && Wait(t2, e).Fin?
    ensures Wait(t1, e).Fin? && t1 + Wait(t1, e).d <= t2 + Wait(t2, e).d
  {
    WaitIsNextDeparture(t1, e);
    WaitIsNextDeparture(t2, e);
  }

  /** The time a traveller at the edge's start at time T arrives at its end, taking the next departure. */
  function Arrive(e: Edge, T: int): (r: Dist)
    ensures r != NegInf
  {
    var w := Wait(T, e);
    if w.Fin? then Fin(T + w.d + e.weight) else Inf
  }

  /** Arrival over one edge is monotone in the time one starts, and never earlier than the start. */
  lemma ArriveMonotone(e: Edge, t1: int, t2: int)
    requires e.tInc >= 0 && e.weight >= 0 && t1 <= t2 && Arrive(e, t2).Fin?
    ensures Arrive(e, t1).Fin? && Arrive(e, t1).d <= Arrive(e, t2).d
    ensures Arrive(e, t2).d >= t2
  {
    WaitMonotone(e, t1, t2);
    WaitIsNextDeparture(t2, e);
  }

  /**
   * The time a walk leaving at time 0 arrives at its end, taking every edge
   * at its next departure; Inf when some edge has no departure left.
   * Waiting for a later departure never helps (WaitMonotone), so these
   * walks are the only ones that matter.
   */
  function ArrivalAt(g: seq<seq<Edge>>, w: seq<Step>): (r: Dist)
    ensures r != NegInf
  {
    if |w| == 0 then Fin(0)
    else
      var prev, st := ArrivalAt(g, w[..|w| - 1]), w[|w| - 1];
      if prev.Fin? && ValidStep(g, st) then Arrive(g[st.from][st.k], prev.d) else Inf
  }

  /** The arrival time of a walk extended by one edge. */
  lemma ArrivalSnoc(g: seq<seq<Edge>>, w: seq<Step>, st: Step)
    requires ValidStep(g, st)
    ensures ArrivalAt(g, w + [st]) ==
            if ArrivalAt(g, w).Fin? then Arrive(g[st.from][st.k], ArrivalAt(g, w).d) else Inf
  {
    assert (w + [st])[..|w|] == w;
  }

  /** Some walk from s reaches v in finite time. */
  ghost predicate TimedReach(g: seq<seq<Edge>>, s: int, v: int)
  {
    exists w :: IsWalk(g, s, w) && End(g, s, w) == v && ArrivalAt(g, w).Fin?
  }

  /** t is the earliest time a walk from s (leaving at time 0) arrives at v, and some walk does. */
  ghost predicate Earliest(g: seq<seq<Edge>>, s: int, v: int, t: int)
  {
    (exists w :: IsWalk(g, s, w) && End(g, s, w) == v && ArrivalAt(g, w) == Fin(t)) &&
    (forall w :: IsWalk(g, s, w) && End(g, s, w) == v && ArrivalAt(g, w).Fin? ==> t <= ArrivalAt(g, w).d)
  }

  /** getAccWeight's `long`: the time, or Long.MAX_VALUE for a node not reached. */
  function AccWeight(x: Dist): (r: int)
    ensures x.Fin? ==> r == x.d
    ensures x == Inf ==> r == LongMax
  {
    if x.Fin? then x.d else LongMax
  }

  /** m is a node poll may return: on the queue, and no node there has a smaller time. */
  predicate IsMin(m: int, d: seq<Dist>, q: set<nat>)
  {
    m in q && 0 <= m < |d| && forall x :: x in q && 0 <= x < |d| ==> AccWeight(d[m]) <= AccWeight(d[x])
  }

  /** A non-empty queue of nodes has a least node. */
  lemma MinExists(d: seq<Dist>, q: set<nat>) returns (m: int)
    requires |q| > 0 && forall x :: x in q ==> 0 <= x < |d|
    ensures IsMin(m, d, q)
    decreases |q|
  {
    var x :| x in q;
    var rest := q - {x};
    if |rest| == 0 {
      assert q == {x};
      m := x;
    } else {
      var m' := MinExists(d, rest);
      m := if AccWeight(d[x]) <= AccWeight(d[m']) then x else m';
    }
  }

  /** x is finite and no later than the arrival a, when a is finite. */
  predicate Within(x: Dist, a: Dist)
  {
    a.Fin? ==> Below(x, a.d)
  }

  /** Each finite time is the arrival time of the witness walk from s to its node. */
  ghost predicate TimeWitnessed(g: seq<seq<Edge>>, s: int, d: seq<Dist>, wit: seq<seq<Step>>)
  {
    |wit| == |d| &&
    forall v :: 0 <= v < |d| && d[v].Fin? ==>
      IsWalk(g, s, wit[v]) && End(g, s, wit[v]) == v && ArrivalAt(g, wit[v]) == d[v]
  }

  /** Every node on the queue is unvisited and has a finite time. */
  predicate Queued(d: seq<Dist>, vis: seq<bool>, q: set<nat>)
    requires |vis| == |d|
  {
    forall v :: v in q ==> 0 <= v < |d| && d[v].Fin? && !vis[v]
  }

  /** Every unvisited node with a finite time is on the queue. */
  predicate Pending(d: seq<Dist>, vis: seq<bool>, q: set<nat>)
    requires |vis| == |d|
  {
    forall v :: 0 <= v < |d| && !vis[v] && d[v].Fin? ==> v in q
  }

  /** Every visited node's time is the earliest arrival at it. */
  ghost predicate Final(g: seq<seq<Edge>>, s: int, d: seq<Dist>, vis: seq<bool>)
    requires |vis| == |d|
  {
    forall v :: 0 <= v < |d| && vis[v] ==> d[v].Fin? && Earliest(g, s, v, d[v].d)
  }

  /**
   * Every edge out of a visited node, other than the edges of cur from the
   * k-th on, leads to a visited node or to one whose time is no later than
   * taking that edge.
   */
  predicate Relaxed(g: seq<seq<Edge>>, d: seq<Dist>, vis: seq<bool>, cur: int, k: int)
    requires WellFormed(g) && |d| == |vis| == |g|
  {
    forall v, j :: 0 <= v < |g| && 0 <= j < |g[v]| && vis[v] && (v != cur || j < k) ==>
      vis[g[v][j].to] || (d[v].Fin? && Within(d[g[v][j].to], Arrive(g[v][j], d[v].d)))
  }

  /** No node on the queue has an earlier time than a visited node. */
  predicate KeysAbove(d: seq<Dist>, vis: seq<bool>, q: set<nat>)
    requires |vis| == |d|
  {
    forall v, u :: 0 <= v < |d| && vis[v] && u in q && 0 <= u < |d| ==> d[v].Fin? && d[u].Fin? && d[v].d <= d[u].d
  }

  /** The invariant of the search, while the edges of cur from the k-th on are still to be relaxed. */
  ghost predicate SearchInv(g: seq<seq<Edge>>, s: int, d: seq<Dist>, wit: seq<seq<Step>>, vis: seq<bool>,
                            q: set<nat>, cur: int, k: int)
  {
    WellFormed(g) && NonNegative(g) && Periodic(g) && 0 <= s < |g| && |d| == |vis| == |g| &&
    TimeWitnessed(g, s, d, wit) &&
    (forall v :: 0 <= v < |d| ==> d[v] != NegInf && (d[v].Fin? ==> d[v].d >= 0)) &&
    (!vis[s] ==> d[s] == Fin(0)) &&
    Queued(d, vis, q) && Pending(d, vis, q) && Final(g, s, d, vis) &&
    Relaxed(g, d, vis, cur, k) && KeysAbove(d, vis, q)
  }

  /** The invariant of the loop over the edges of the node cur, visited last. */
  ghost predicate EdgeInv(g: seq<seq<Edge>>, s: int, d: seq<Dist>, wit: seq<seq<Step>>, vis: seq<bool>,
                          q: set<nat>, cur: int, k: int)
  {
    SearchInv(g, s, d, wit, vis, q, cur, k) &&
    0 <= cur < |g| && 0 <= k <= |g[cur]| && vis[cur] && d[cur].Fin? &&
    forall v :: 0 <= v < |d| && vis[v] ==> d[v].Fin? && d[v].d <= d[cur].d
  }

  /** The table the search leaves: Inf exactly for the nodes no walk reaches in time, the earliest arrival elsewhere. */
  ghost predicate EarliestTable(g: seq<seq<Edge>>, s: int, d: seq<Dist>)
  {
    forall v :: 0 <= v < |d| ==>
      d[v] != NegInf && (d[v] == Inf <==> !TimedReach(g, s, v)) && (d[v].Fin? ==> Earliest(g, s, v, d[v].d))
  }

  class DijkTimed {
    var tentative: set<nat>
    /** parents[v]: the index of the node polled just before v. */
    const parents: array<int>
    /** nodes[v].accWeight; a node's index is its position. */
    const nodes: array<Dist>
    /** nodes[v].visited. */
    const visited: array<bool>
    const s: int
    ghost const graph: seq<seq<Edge>>
    /** A walk arriving at each finite time. */
    ghost var wit: seq<seq<Step>>

    /** The fixed shape of the object: its fields are constants. */
    ghost predicate Shape()
    {
      WellFormed(graph) && NonNegative(graph) && Periodic(graph) && 0 <= s < |graph| &&
      nodes.Length == visited.Length == parents.Length == |graph|
    }

    ghost predicate Solved()
      reads this, nodes
    {
      Shape() && EarliestTable(graph, s, nodes[..])
    }

    /**
     * DijkTimed(nb, s): afterwards a node's time is Inf iff no walk from s
     * reaches it in time, and otherwise the earliest time a walk leaving s
     * at time 0 arrives there.
     */
    constructor (nb: seq<seq<Edge>>, s: int)
      requires WellFormed(nb) && NonNegative(nb) && Periodic(nb) && 0 <= s < |nb|
      ensures graph == nb && this.s == s
      ensures Solved()
    {
      this.s := s;
      graph := nb;
      tentative := {};
      parents := new int[|nb|];
      nodes := new Dist[|nb|](_ => Inf);
      visited := new bool[|nb|](_ => false);
      wit := seq(|nb|, _ => []);
      new;
      nodes[s] := Fin(0);
      var current := s;
      tentative := tentative + {s};
      Start(nb, s, nodes[..], wit, visited[..]);
      while |tentative| > 0
        invariant Shape() && graph == nb
        invariant SearchInv(graph, s, nodes[..], wit, visited[..], tentative, -1, 0)
        decreases Unvisited(visited[..])
      {
        current := Poll(nb, current);
      }
      Done(graph, s, nodes[..], wit, visited[..]);
    }

    /**
     * One turn of the search: poll a node with the least time, record the
     * node polled before it as its parent, visit it and relax its edges.
     */
    method Poll(nb: seq<seq<Edge>>, parent: int) returns (current: int)
      requires nb == graph && Shape()
      requires SearchInv(graph, s, nodes[..], wit, visited[..], tentative, -1, 0) && |tentative| > 0
      modifies this, nodes, parents, visited
      ensures SearchInv(graph, s, nodes[..], wit, visited[..], tentative, -1, 0)
      ensures Unvisited(visited[..]) < old(Unvisited(visited[..]))
    {
      ghost var q0 := tentative;
      ghost var least := MinExists(nodes[..], tentative);
      current :| IsMin(current, nodes[..], tentative);
      assert IsMin(current, nodes[..], tentative);
      tentative := tentative - {current};
      parents[current] := parent;
      ghost var vis0 := visited[..];
      visited[current] := true;
      assert visited[..] == vis0[current := true];
      UnvisitedDrops(vis0, current);
      Visit(graph, s, nodes[..], wit, vis0, q0, current);
      RelaxAll(nb, current);
      EdgesDone(graph, s, nodes[..], wit, visited[..], tentative, current);
    }

    /** The loop over the edges of the node just visited, leaving it at its time currTime. */
    method RelaxAll(nb: seq<seq<Edge>>, current: int)
      requires nb == graph && Shape()
      requires EdgeInv(graph, s, nodes[..], wit, visited[..], tentative, current, 0)
      modifies this, nodes
      ensures EdgeInv(graph, s, nodes[..], wit, visited[..], tentative, current, |graph[current]|)
    {
      var currTime := nodes[current].d;
      var k := 0;
      while k < |nb[current]|
        invariant 0 <= k <= |nb[current]|
        invariant EdgeInv(graph, s, nodes[..], wit, visited[..], tentative, current, k)
        invariant nodes[current] == Fin(currTime)
      {
        RelaxEdge(nb, current, currTime, k);
        k := k + 1;
      }
    }

    /**
     * One edge of the node just visited: into an unvisited node, wait for
     * the next departure (skip the edge when there is none), and lower the
     * neighbour's time to the arrival when that is earlier, taking it off
     * the queue and putting it back.
     */
    method RelaxEdge(nb: seq<seq<Edge>>, current: int, currTime: int, k: int)
      requires nb == graph && Shape()
      requires EdgeInv(graph, s, nodes[..], wit, visited[..], tentative, current, k)
      requires k < |graph[current]| && nodes[current] == Fin(currTime)
      modifies this, nodes
      ensures EdgeInv(graph, s, nodes[..], wit, visited[..], tentative, current, k + 1)
      ensures nodes[current] == Fin(currTime)
      ensures var e := graph[current][k];
              if !visited[e.to] && Arrive(e, currTime).Fin? && Improves(Arrive(e, currTime).d, old(nodes[e.to]))
              then nodes[..] == old(nodes[..])[e.to := Arrive(e, currTime)] && tentative == old(tentative) + {e.to}
              else nodes[..] == old(nodes[..]) && tentative == old(tentative)
    {
      var edge := nb[current][k];
      if visited[edge.to] {
        RelaxSkip(graph, s, nodes[..], wit, visited[..], tentative, current, k);
        return;
      }
      var waitTime := Wait(currTime, edge);
      if waitTime == Inf {
        RelaxSkip(graph, s, nodes[..], wit, visited[..], tentative, current, k);
        return;
      }
      var arrivalTime := currTime + edge.weight + waitTime.d;
      if Improves(arrivalTime, nodes[edge.to]) {
        Lower(nb, current, currTime, k, arrivalTime);
      } else {
        RelaxSkip(graph, s, nodes[..], wit, visited[..], tentative, current, k);
      }
    }

    /** Lower the time of edge k's unvisited target to the arrival over that edge: off the queue, new time, back on. */
    method Lower(nb: seq<seq<Edge>>, current: int, currTime: int, k: int, arrivalTime: int)
      requires nb == graph && Shape()
      requires EdgeInv(graph, s, nodes[..], wit, visited[..], tentative, current, k)
      requires k < |graph[current]| && nodes[current] == Fin(currTime)
      requires !visited[graph[current][k].to] && Arrive(graph[current][k], currTime) == Fin(arrivalTime)
      requires Improves(arrivalTime, nodes[graph[current][k].to])
      modifies this, nodes
      ensures EdgeInv(graph, s, nodes[..], wit, visited[..], tentative, current, k + 1)
      ensures nodes[current] == Fin(currTime)
      ensures nodes[..] == old(nodes[..])[graph[current][k].to := Fin(arrivalTime)]
      ensures tentative == old(tentative) + {graph[current][k].to}
    {
      var v := nb[current][k].to;
      ghost var vis, d', wit' := visited[..], nodes[..][v := Fin(arrivalTime)], wit[v := wit[current] + [Step(current, k)]];
      ghost var q' := tentative + {v};
      RelaxLower(graph, s, nodes[..], wit, vis, tentative, current, k, d', wit', q');
      if v in tentative {
        tentative := tentative - {v};
      }
      nodes[v] := Fin(arrivalTime);
      wit := wit';
      tentative := tentative + {v};
      assert nodes[..] == d' && visited[..] == vis && tentative == q';
    }

    /** getAccWeight(index): the earliest arrival time, or Long.MAX_VALUE when the node is not reached. */
    function GetAccWeight(index: int): (r: int)
      requires Solved() && 0 <= index < nodes.Length
      reads this, nodes
      ensures !TimedReach(graph, s, index) ==> r == LongMax
      ensures TimedReach(graph, s, index) ==> Earliest(graph, s, index, r)
    {
      assert nodes[..][index] == nodes[index];
      AccWeight(nodes[index])
    }

    /**
     * shortestPath's test for "no path": the time is Long.MAX_VALUE, which
     * holds for a node not reached and for one reached at exactly that time.
     */
    function ShortestPathIsNull(t: int): (r: bool)
      requires Solved() && 0 <= t < nodes.Length
      reads this, nodes
      ensures r <==> !TimedReach(graph, s, t) || Earliest(graph, s, t, LongMax)
    {
      assert nodes[..][t] == nodes[t];
      AccWeight(nodes[t]) == LongMax
    }
  }

  /** The state before the first poll: only s has a time, 0, and only s is queued. */
  lemma Start(g: seq<seq<Edge>>, s: int, d: seq<Dist>, wit: seq<seq<Step>>, vis: seq<bool>)
    requires WellFormed(g) && NonNegative(g) && Periodic(g) && 0 <= s < |g| && |d| == |vis| == |wit| == |g|
    requires forall v :: 0 <= v < |g| ==> !vis[v] && wit[v] == []
    requires forall v :: 0 <= v < |g| ==> d[v] == if v == s then Fin(0) else Inf
    ensures SearchInv(g, s, d, wit, vis, {s}, -1, 0)
  {
    EmptyWalk(g, s);
  }

  /** A walk whose arrival is finite had a finite arrival before its last step, and no later. */
  lemma ArrivalPrefix(g: seq<seq<Edge>>, w': seq<Step>, st: Step)
    requires NonNegative(g) && Periodic(g) && ValidStep(g, st) && ArrivalAt(g, w' + [st]).Fin?
    ensures ArrivalAt(g, w').Fin? && ArrivalAt(g, w').d <= ArrivalAt(g, w' + [st]).d
    ensures ArrivalAt(g, w' + [st]) == Arrive(g[st.from][st.k], ArrivalAt(g, w').d)
  {
    ArrivalSnoc(g, w', st);
    var T := ArrivalAt(g, w').d;
    ArriveMonotone(g[st.from][st.k], T, T);
  }

  /**
   * A walk from s arriving in finite time at an unvisited node passes an
   * unvisited node whose finite time is no later than that arrival.
   */
  lemma {:induction false} Crossing(g: seq<seq<Edge>>, s: int, d: seq<Dist>, wit: seq<seq<Step>>, vis: seq<bool>,
                                    q: set<nat>, w: seq<Step>) returns (u: int)
    requires SearchInv(g, s, d, wit, vis, q, -1, 0)
    requires IsWalk(g, s, w) && 0 <= End(g, s, w) < |g| && ArrivalAt(g, w).Fin?
    ensures !vis[End(g, s, w)] ==> 0 <= u < |g| && !vis[u] && d[u].Fin? && d[u].d <= ArrivalAt(g, w).d
  {
    if |w| == 0 {
      u := s;
    } else {
      var w', st := LastStep(g, s, w);
      var y := st.from;
      ArrivalPrefix(g, w', st);
      var e := g[y][st.k];
      if vis[y] {
        assert d[y].d <= ArrivalAt(g, w').d by {
          assert Earliest(g, s, y, d[y].d);
        }
        assert e.tInc >= 0 && e.weight >= 0;
        ArriveMonotone(e, d[y].d, ArrivalAt(g, w').d);
        assert Relaxed(g, d, vis, -1, 0);
        u := End(g, s, w);
      } else {
        u := Crossing(g, s, d, wit, vis, q, w');
      }
    }
  }

  /** The node polled has a time no walk beats, and a walk arriving at that time. */
  lemma PolledFinal(g: seq<seq<Edge>>, s: int, d: seq<Dist>, wit: seq<seq<Step>>, vis: seq<bool>,
                    q: set<nat>, m: int)
    requires SearchInv(g, s, d, wit, vis, q, -1, 0) && IsMin(m, d, q)
    ensures d[m].Fin? && !vis[m] && Earliest(g, s, m, d[m].d)
  {
    forall w | IsWalk(g, s, w) && End(g, s, w) == m && ArrivalAt(g, w).Fin? ensures d[m].d <= ArrivalAt(g, w).d {
      var u := Crossing(g, s, d, wit, vis, q, w);
      assert u in q;
      assert AccWeight(d[m]) <= AccWeight(d[u]);
    }
    assert IsWalk(g, s, wit[m]) && End(g, s, wit[m]) == m && ArrivalAt(g, wit[m]) == d[m];
  }

  /** Visiting the polled node keeps the invariant, with all its edges still to relax. */
  lemma Visit(g: seq<seq<Edge>>, s: int, d: seq<Dist>, wit: seq<seq<Step>>, vis: seq<bool>,
              q: set<nat>, m: int)
    requires SearchInv(g, s, d, wit, vis, q, -1, 0) && IsMin(m, d, q)
    ensures 0 <= m < |vis| && !vis[m]
    ensures EdgeInv(g, s, d, wit, vis[m := true], q - {m}, m, 0)
  {
    PolledFinal(g, s, d, wit, vis, q, m);
    VisitQueue(d, vis, q, m);
    VisitFinal(g, s, d, vis, m);
    VisitRelaxed(g, d, vis, m);
  }

  /** Taking the least node off the queue and visiting it keeps the queue invariants. */
  lemma VisitQueue(d: seq<Dist>, vis: seq<bool>, q: set<nat>, m: int)
    requires |vis| == |d| && IsMin(m, d, q) && !vis[m] && d[m].Fin?
    requires Queued(d, vis, q) && Pending(d, vis, q) && KeysAbove(d, vis, q)
    ensures var vis', q' := vis[m := true], q - {m};
            Queued(d, vis', q') && Pending(d, vis', q') && KeysAbove(d, vis', q') &&
            forall x :: 0 <= x < |d| && vis'[x] ==> d[x].Fin? && d[x].d <= d[m].d
  {
    var vis', q' := vis[m := true], q - {m};
    forall x, u | 0 <= x < |d| && vis'[x] && u in q' && 0 <= u < |d| ensures d[x].Fin? && d[u].Fin? && d[x].d <= d[u].d {
      if x == m {
        assert AccWeight(d[m]) <= AccWeight(d[u]);
      }
    }
  }

  /** The visited node's time is final (proved by PolledFinal), so Final holds with it. */
  lemma VisitFinal(g: seq<seq<Edge>>, s: int, d: seq<Dist>, vis: seq<bool>, v: int)
    requires |vis| == |d| && 0 <= v < |d| && Final(g, s, d, vis) && d[v].Fin? && Earliest(g, s, v, d[v].d)
    ensures Final(g, s, d, vis[v := true])
  {
  }

  /** Visiting v keeps the edges relaxed so far relaxed, with all of v's edges still to go. */
  lemma VisitRelaxed(g: seq<seq<Edge>>, d: seq<Dist>, vis: seq<bool>, v: int)
    requires WellFormed(g) && |d| == |vis| == |g| && 0 <= v < |g| && Relaxed(g, d, vis, -1, 0)
    ensures Relaxed(g, d, vis[v := true], v, 0)
  {
  }

  /** Relaxing an edge into an unvisited node whose time it improves keeps the invariant. */
  lemma RelaxLower(g: seq<seq<Edge>>, s: int, d: seq<Dist>, wit: seq<seq<Step>>, vis: seq<bool>,
                   q: set<nat>, cur: int, k: int, d': seq<Dist>, wit': seq<seq<Step>>, q': set<nat>)
    requires EdgeInv(g, s, d, wit, vis, q, cur, k) && k < |g[cur]|
    requires !vis[g[cur][k].to] && Arrive(g[cur][k], d[cur].d).Fin?
    requires Improves(Arrive(g[cur][k], d[cur].d).d, d[g[cur][k].to])
    requires d' == d[g[cur][k].to := Arrive(g[cur][k], d[cur].d)]
    requires wit' == wit[g[cur][k].to := wit[cur] + [Step(cur, k)]]
    requires q' == q + {g[cur][k].to}
    ensures EdgeInv(g, s, d', wit', vis, q', cur, k + 1)
  {
    var e := g[cur][k];
    var v, p := e.to, Arrive(e, d[cur].d).d;
    assert e.tInc >= 0 && e.weight >= 0;
    ArriveMonotone(e, d[cur].d, d[cur].d);
    assert TimeWitnessed(g, s, d', wit') by {
      WalkSnoc(g, s, wit[cur], Step(cur, k));
      ArrivalSnoc(g, wit[cur], Step(cur, k));
      TimeWitnessedLower(g, s, d, wit, v, p, wit[cur] + [Step(cur, k)]);
    }
    assert d[cur].d <= p;
    BoundsLower(s, d, vis, cur, v, p, d');
    QueueLower(d, vis, q, v, p, d', q');
    FinalLower(g, s, d, vis, v, p, d');
    RelaxedLower(g, d, vis, cur, k, d');
  }

  /** Lowering entry v to the arrival time of a walk to v keeps every finite entry witnessed. */
  lemma TimeWitnessedLower(g: seq<seq<Edge>>, s: int, d: seq<Dist>, wit: seq<seq<Step>>, v: int, p: int, w: seq<Step>)
    requires TimeWitnessed(g, s, d, wit) && 0 <= v < |d|
    requires IsWalk(g, s, w) && End(g, s, w) == v && ArrivalAt(g, w) == Fin(p)
    ensures TimeWitnessed(g, s, d[v := Fin(p)], wit[v := w])
  {
  }

  /**
   * Lowering an unvisited node's time to p, no earlier than cur's, keeps
   * every time finite and not negative and leaves the visited nodes' times
   * at most cur's.
   */
  lemma BoundsLower(s: int, d: seq<Dist>, vis: seq<bool>, cur: int, v: int, p: int, d': seq<Dist>)
    requires |vis| == |d| && 0 <= s < |d| && 0 <= cur < |d| && 0 <= v < |d| && !vis[v] && vis[cur]
    requires forall x :: 0 <= x < |d| ==> d[x] != NegInf && (d[x].Fin? ==> d[x].d >= 0)
    requires !vis[s] ==> d[s] == Fin(0)
    requires d[cur].Fin? && 0 <= d[cur].d <= p && Improves(p, d[v])
    requires forall x :: 0 <= x < |d| && vis[x] ==> d[x].Fin? && d[x].d <= d[cur].d
    requires d' == d[v := Fin(p)]
    ensures forall x :: 0 <= x < |d'| ==> d'[x] != NegInf && (d'[x].Fin? ==> d'[x].d >= 0)
    ensures !vis[s] ==> d'[s] == Fin(0)
    ensures d'[cur] == d[cur]
    ensures forall x :: 0 <= x < |d'| && vis[x] ==> d'[x].Fin? && d'[x].d <= d'[cur].d
  {
  }

  /** Lowering an unvisited node's time to p and queueing it keeps the queue invariants. */
  lemma QueueLower(d: seq<Dist>, vis: seq<bool>, q: set<nat>, v: int, p: int, d': seq<Dist>, q': set<nat>)
    requires |vis| == |d| && 0 <= v < |d| && !vis[v] && Improves(p, d[v])
    requires Queued(d, vis, q) && Pending(d, vis, q) && KeysAbove(d, vis, q)
    requires forall x :: 0 <= x < |d| && vis[x] ==> d[x].Fin? && d[x].d <= p
    requires d' == d[v := Fin(p)] && q' == q + {v}
    ensures Queued(d', vis, q') && Pending(d', vis, q') && KeysAbove(d', vis, q')
  {
    forall x, u | 0 <= x < |d'| && vis[x] && u in q' && 0 <= u < |d'| ensures d'[x].Fin? && d'[u].Fin? && d'[x].d <= d'[u].d {
      assert d'[x] == d[x];
    }
  }

  /** Lowering an unvisited node's time leaves the visited nodes' times final. */
  lemma FinalLower(g: seq<seq<Edge>>, s: int, d: seq<Dist>, vis: seq<bool>, v: int, p: int, d': seq<Dist>)
    requires |vis| == |d| && 0 <= v < |d| && !vis[v] && Final(g, s, d, vis) && d' == d[v := Fin(p)]
    ensures Final(g, s, d', vis)
  {
    forall x | 0 <= x < |d'| && vis[x] ensures d'[x].Fin? && Earliest(g, s, x, d'[x].d) {
      assert d'[x] == d[x];
    }
  }

  /** Lowering an unvisited node's time over edge k of cur keeps the relaxed edges relaxed and adds that one. */
  lemma RelaxedLower(g: seq<seq<Edge>>, d: seq<Dist>, vis: seq<bool>, cur: int, k: int, d': seq<Dist>)
    requires WellFormed(g) && |d| == |vis| == |g| && 0 <= cur < |g| && 0 <= k < |g[cur]|
    requires Relaxed(g, d, vis, cur, k) && vis[cur] && d[cur].Fin?
    requires !vis[g[cur][k].to] && Arrive(g[cur][k], d[cur].d).Fin?
    requires Improves(Arrive(g[cur][k], d[cur].d).d, d[g[cur][k].to])
    requires d' == d[g[cur][k].to := Arrive(g[cur][k], d[cur].d)]
    ensures Relaxed(g, d', vis, cur, k + 1)
  {
    forall x, j | 0 <= x < |g| && 0 <= j < |g[x]| && vis[x] && (x != cur || j < k + 1)
      ensures vis[g[x][j].to] || (d'[x].Fin? && Within(d'[g[x][j].to], Arrive(g[x][j], d'[x].d)))
    {
      assert d'[x] == d[x];
      if x != cur || j < k {
        assert vis[g[x][j].to] || (d[x].Fin? && Within(d[g[x][j].to], Arrive(g[x][j], d[x].d)));
      }
    }
  }

  /** Passing over an edge into a visited node, one with no departure left, or one it does not improve, keeps the invariant. */
  lemma RelaxSkip(g: seq<seq<Edge>>, s: int, d: seq<Dist>, wit: seq<seq<Step>>, vis: seq<bool>,
                  q: set<nat>, cur: int, k: int)
    requires EdgeInv(g, s, d, wit, vis, q, cur, k) && k < |g[cur]|
    requires vis[g[cur][k].to] || Arrive(g[cur][k], d[cur].d) == Inf ||
             !Improves(Arrive(g[cur][k], d[cur].d).d, d[g[cur][k].to])
    ensures EdgeInv(g, s, d, wit, vis, q, cur, k + 1)
  {
  }

  /** With every edge of cur relaxed, the invariant between polls holds again. */
  lemma EdgesDone(g: seq<seq<Edge>>, s: int, d: seq<Dist>, wit: seq<seq<Step>>, vis: seq<bool>,
                  q: set<nat>, cur: int)
    requires 0 <= cur < |g| && EdgeInv(g, s, d, wit, vis, q, cur, |g[cur]|)
    ensures SearchInv(g, s, d, wit, vis, q, -1, 0)
  {
  }

  /**
   * When the queue is empty, the visited nodes are exactly the nodes reached
   * in time, each with its earliest arrival, and every other node is Inf.
   */
  lemma Done(g: seq<seq<Edge>>, s: int, d: seq<Dist>, wit: seq<seq<Step>>, vis: seq<bool>)
    requires SearchInv(g, s, d, wit, vis, {}, -1, 0)
    ensures EarliestTable(g, s, d)
  {
    forall v | 0 <= v < |d| ensures d[v] == Inf <==> !TimedReach(g, s, v) {
      if TimedReach(g, s, v) {
        var w :| IsWalk(g, s, w) && End(g, s, w) == v && ArrivalAt(g, w).Fin?;
        var u := Crossing(g, s, d, wit, vis, {}, w);
        assert vis[v];
      }
    }
  }
}

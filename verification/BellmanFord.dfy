/**
 * Bellman-Ford shortest paths from one source (graph/BellmanFord.java):
 * n rounds of relaxing every edge, then one more pass in which every node
 * that can still be improved, and everything reachable from it, is marked
 * as arbitrarily small. The `long` table with its two sentinels becomes a
 * table of Dist; sums are exact (no overflow).
 */
module BellmanFord {
  import opened Graph

  const LongMax: int := 0x7fff_ffff_ffff_ffff
  const LongMin: int := -0x8000_0000_0000_0000

  /** The `long` the Java table holds for an entry. */
  function AsLong(x: Dist): (r: int)
    ensures x == Inf ==> r == LongMax
    ensures x == NegInf ==> r == LongMin
    ensures x.Fin? ==> r == x.d
  {
    match x
    case Fin(d) => d
    case Inf => LongMax
    case NegInf => LongMin
  }

  /** Entries only ever decrease: NegInf < Fin(_) < Inf. */
  predicate AtMost(x: Dist, y: Dist)
  {
    x == NegInf || y == Inf || (x.Fin? && y.Fin? && x.d <= y.d)
  }

  /** Every walk from s of at most i steps weighs at least the entry of its end. */
  ghost predicate BoundedBy(g: seq<seq<Edge>>, s: int, d: seq<Dist>, i: int)
  {
    forall w :: IsWalk(g, s, w) && |w| <= i && 0 <= End(g, s, w) < |d| ==> Below(d[End(g, s, w)], Weight(g, w))
  }

  /** After relaxing edge k of u in a round that started from d0. */
  predicate Settled(g: seq<seq<Edge>>, d0: seq<Dist>, d: seq<Dist>, u: int, k: int)
    requires WellFormed(g) && |d0| == |d| == |g| && 0 <= u < |g| && 0 <= k < |g[u]|
  {
    d0[u].Fin? ==> Below(d[g[u][k].to], d0[u].d + g[u][k].weight)
  }

  /** No edge out of a finite node leads to a finite entry above the sum. */
  predicate NoImprovement(g: seq<seq<Edge>>, d: seq<Dist>, u: int, k: int)
    requires WellFormed(g) && |d| == |g| && 0 <= u < |g| && 0 <= k < |g[u]|
  {
    d[u].Fin? ==> d[g[u][k].to] == NegInf || Below(d[g[u][k].to], d[u].d + g[u][k].weight)
  }

  /** Every finite entry other than the source's came over the edge via[v] from parent[v]. */
  ghost predicate ParentsBelow(g: seq<seq<Edge>>, s: int, d: seq<Dist>, parent: seq<int>, via: seq<int>)
    requires |d| == |g| == |parent| == |via|
  {
    forall v :: 0 <= v < |d| && v != s && d[v].Fin? ==>
      0 <= parent[v] < |g| && d[parent[v]].Fin? && 0 <= via[v] < |g[parent[v]]| &&
      g[parent[v]][via[v]].to == v && d[parent[v]].d + g[parent[v]][via[v]].weight <= d[v].d
  }

  /** The marked (NegInf) nodes are closed under edges. */
  predicate MarkedClosed(g: seq<seq<Edge>>, d: seq<Dist>)
    requires WellFormed(g) && |d| == |g|
  {
    forall v, k :: 0 <= v < |g| && 0 <= k < |g[v]| && d[v] == NegInf ==> d[g[v][k].to] == NegInf
  }

  /**
   * What the constructor promises of the table: a node is Inf iff the
   * source does not reach it; a finite entry is the least weight of a walk
   * from the source; a node is NegInf iff walks from the source to it weigh
   * arbitrarily little; the NegInf nodes are closed under edges, and there
   * are none when no walk from the source has a closed part of negative
   * weight; each finite node other than the source has its parent over a
   * tight edge.
   */
  ghost predicate SolvedTable(g: seq<seq<Edge>>, s: int, d: seq<Dist>, parent: seq<int>)
  {
    WellFormed(g) && 0 <= s < |g| && |d| == |g| == |parent| &&
    (forall v :: 0 <= v < |d| ==> (d[v] == Inf <==> !Reach(g, s, v))) &&
    (forall v :: 0 <= v < |d| && d[v].Fin? ==> IsShortest(g, s, v, d[v].d)) &&
    (forall v :: 0 <= v < |d| ==> (d[v] == NegInf <==> Unbounded(g, s, v))) &&
    MarkedClosed(g, d) &&
    (NoNegativeCycle(g, s) ==> forall v :: 0 <= v < |d| ==> d[v] != NegInf) &&
    (forall v :: 0 <= v < |d| && v != s && d[v].Fin? ==>
       0 <= parent[v] < |d| && d[parent[v]].Fin? &&
       exists k :: 0 <= k < |g[parent[v]]| && g[parent[v]][k].to == v &&
         d[v].d == d[parent[v]].d + g[parent[v]][k].weight)
  }

  /** Edge j of u comes before edge k of `from` in the order the loops visit edges. */
  predicate Earlier(u: int, j: int, from: int, k: int)
  {
    u < from || (u == from && j < k)
  }

  /** What holds throughout the n rounds. */
  ghost predicate RoundState(g: seq<seq<Edge>>, s: int, d: seq<Dist>, wit: seq<seq<Step>>, parent: seq<int>, via: seq<int>)
  {
    |d| == |g| == |parent| == |via| && 0 <= s < |g| &&
    Witnessed(g, s, d, wit) &&
    (forall v :: 0 <= v < |d| ==> d[v] != NegInf) &&
    Below(d[s], 0) &&
    ParentsBelow(g, s, d, parent, via)
  }

  /** Within a round that started from d0, up to edge k of `from`. */
  ghost predicate RelaxInv(g: seq<seq<Edge>>, s: int, d0: seq<Dist>, d: seq<Dist>, wit: seq<seq<Step>>,
                           parent: seq<int>, via: seq<int>, from: int, k: int)
  {
    WellFormed(g) && RoundState(g, s, d, wit, parent, via) && |d0| == |d| &&
    (forall v :: 0 <= v < |d| ==> AtMost(d[v], d0[v])) &&
    (forall u, j :: 0 <= u < |g| && 0 <= j < |g[u]| && Earlier(u, j, from, k) ==> Settled(g, d0, d, u, j))
  }

  /** Within the last pass, starting from the table dR of the rounds, up to edge k of `from`. */
  ghost predicate PassInv(g: seq<seq<Edge>>, s: int, dR: seq<Dist>, d: seq<Dist>, from: int, k: int)
  {
    WellFormed(g) && 0 <= s < |g| && |dR| == |d| == |g| &&
    (forall v :: 0 <= v < |d| ==> d[v] == dR[v] || d[v] == NegInf) &&
    (forall v :: 0 <= v < |d| ==> (d[v] == Inf <==> !Reach(g, s, v))) &&
    (forall v :: 0 <= v < |d| && d[v] == NegInf ==> Unbounded(g, s, v)) &&
    MarkedClosed(g, d) &&
    (forall u, j :: 0 <= u < |g| && 0 <= j < |g[u]| && Earlier(u, j, from, k) ==> NoImprovement(g, d, u, j)) &&
    (NoNegativeCycle(g, s) ==> d == dR)
  }

  /** What the rounds leave for the last pass. */
  ghost predicate RoundsDone(g: seq<seq<Edge>>, s: int, dR: seq<Dist>)
  {
    WellFormed(g) && 0 <= s < |g| && |dR| == |g| &&
    (forall v :: 0 <= v < |dR| ==> (dR[v] == Inf <==> !Reach(g, s, v))) &&
    (NoNegativeCycle(g, s) ==>
       forall u, k :: 0 <= u < |g| && 0 <= k < |g[u]| ==> NoImprovement(g, dR, u, k)) &&
    (forall u, k :: 0 <= u < |g| && 0 <= k < |g[u]| && !NoImprovement(g, dR, u, k) ==> Unbounded(g, s, u))
  }

  class BellmanFord {
    const parent: array<int>
    const dist: array<Dist>
    const edges: seq<seq<Edge>>
    const s: int
    /** A walk of each finite entry's weight, and the edge each parent was taken over. */
    ghost var wit: seq<seq<Step>>
    ghost var via: seq<int>

    /** The fixed shape of the object: its fields are constants. */
    ghost predicate Shape()
    {
      WellFormed(edges) && 0 <= s < |edges| && dist.Length == parent.Length == |edges|
    }

    /** The table once the constructor is done. */
    ghost predicate Solved()
      reads this, dist, parent
    {
      Shape() && SolvedTable(edges, s, dist[..], parent[..])
    }

    /**
     * BellmanFord(edges, source): a node is Inf iff the source does not
     * reach it; a finite entry is the least weight of a walk from the
     * source; a node is marked NegInf iff walks from the source to it weigh
     * arbitrarily little, so those nodes are closed under edges and there
     * are none when no walk from the source has a closed part of negative
     * weight; each finite node other than the source has its parent over a
     * tight edge.
     */
    constructor (edges: seq<seq<Edge>>, source: int)
      requires WellFormed(edges) && 0 <= source < |edges|
      ensures this.edges == edges && s == source
      ensures Solved()
    {
      var n := |edges|;
      this.s := source;
      this.edges := edges;
      parent := new int[n];
      dist := new Dist[n](_ => Inf);
      wit := seq(n, _ => []);
      via := seq(n, _ => 0);
      new;
      dist[source] := Fin(0);
      EmptyWalk(edges, source);
      assert RoundState(edges, s, dist[..], wit, parent[..], via);
      for i := 0 to n
        invariant RoundState(edges, s, dist[..], wit, parent[..], via)
        invariant BoundedBy(edges, s, dist[..], i)
      {
        ghost var d0 := dist[..];
        RoundStart(edges, s, d0, wit, parent[..], via);
        RelaxRound();
        RoundEnd(edges, s, d0, dist[..], wit, parent[..], via, i);
      }
      AfterRounds(edges, s, dist[..], wit);
      ghost var dR := dist[..];
      PassStart(edges, s, dR, wit, parent[..], via);
      FinalPass(dR);
      PassDone(dR, dist[..], parent[..]);
    }

    /** One round: the loop over every node's edges; afterwards every edge is settled against the table before it. */
    method RelaxRound()
      requires Shape() && RelaxInv(edges, s, dist[..], dist[..], wit, parent[..], via, 0, 0)
      modifies this, dist, parent
      ensures RelaxInv(edges, s, old(dist[..]), dist[..], wit, parent[..], via, |edges|, 0)
    {
      ghost var d0 := dist[..];
      for from := 0 to |edges|
        invariant RelaxInv(edges, s, d0, dist[..], wit, parent[..], via, from, 0)
      {
        RelaxEdges(from, d0);
      }
    }

    /** The iterator loop over the edges of one node. */
    method RelaxEdges(from: int, ghost d0: seq<Dist>)
      requires Shape() && 0 <= from < |edges| && RelaxInv(edges, s, d0, dist[..], wit, parent[..], via, from, 0)
      modifies this, dist, parent
      ensures RelaxInv(edges, s, d0, dist[..], wit, parent[..], via, from + 1, 0)
    {
      for k := 0 to |edges[from]|
        invariant RelaxInv(edges, s, d0, dist[..], wit, parent[..], via, from, k)
      {
        RelaxEdge(from, k, d0);
      }
      NextNode(edges, s, d0, dist[..], wit, parent[..], via, from);
    }

    /** The body of the iterator loop: relax edge k of `from`. */
    method RelaxEdge(from: int, k: int, ghost d0: seq<Dist>)
      requires Shape() && 0 <= from < |edges| && 0 <= k < |edges[from]|
      requires RelaxInv(edges, s, d0, dist[..], wit, parent[..], via, from, k)
      modifies this, dist, parent
      ensures RelaxInv(edges, s, d0, dist[..], wit, parent[..], via, from, k + 1)
    {
      var e := edges[from][k];
      if dist[from] != Inf {
        var potentialBetterDist := dist[from].d + e.weight;
        if Improves(potentialBetterDist, dist[e.to]) {
          ghost var d, p, w0, v0 := dist[..], parent[..], wit, via;
          wit := wit[e.to := wit[from] + [Step(from, k)]];
          via := via[e.to := k];
          dist[e.to] := Fin(potentialBetterDist);
          parent[e.to] := from;
          ghost var d', p' := dist[..], parent[..];
          assert d' == d[e.to := Fin(potentialBetterDist)];
          assert p' == p[e.to := from];
          RelaxLower(edges, s, d0, d, w0, p, v0, from, k, e.to, potentialBetterDist, d', wit, p', via);
        } else {
          RelaxSkip(edges, s, d0, dist[..], wit, parent[..], via, from, k);
        }
      } else {
        RelaxSkip(edges, s, d0, dist[..], wit, parent[..], via, from, k);
      }
    }

    /** After the last pass the table is solved, and each entry is the one of the rounds or NegInf. */
    lemma PassDone(dR: seq<Dist>, d: seq<Dist>, p: seq<int>)
      requires Shape() && d == dist[..] && p == parent[..]
      requires PassInv(edges, s, dR, d, |edges|, 0) && RoundState(edges, s, dR, wit, p, via)
      ensures Solved()
      ensures forall v :: 0 <= v < dist.Length ==> dist[v] == dR[v] || dist[v] == NegInf
    {
      Finish(edges, s, dR, d, wit, p, via);
    }

    /**
     * The last pass over every node, starting from the table dR of the rounds:
     * every node an edge can still improve is marked, and what it reaches.
     */
    method FinalPass(ghost dR: seq<Dist>)
      requires Shape() && RoundsDone(edges, s, dR) && PassInv(edges, s, dR, dist[..], 0, 0)
      modifies dist
      ensures PassInv(edges, s, dR, dist[..], |edges|, 0)
    {
      for from := 0 to |edges|
        invariant PassInv(edges, s, dR, dist[..], from, 0)
      {
        CheckEdges(from, dR);
        PassNextNode(edges, s, dR, dist[..], from);
      }
    }

    /** The iterator loop of the last pass over the edges of one node. */
    method CheckEdges(from: int, ghost dR: seq<Dist>)
      requires Shape() && 0 <= from < |edges| && RoundsDone(edges, s, dR)
      requires PassInv(edges, s, dR, dist[..], from, 0)
      modifies dist
      ensures PassInv(edges, s, dR, dist[..], from, |edges[from]|)
    {
      for k := 0 to |edges[from]|
        invariant PassInv(edges, s, dR, dist[..], from, k)
      {
        ghost var before := dist[..];
        var e := edges[from][k];
        if dist[from] != NegInf && dist[from] != Inf {
          var potentialBetterDist := dist[from].d + e.weight;
          if Improves(potentialBetterDist, dist[e.to]) {
            dist[from] := NegInf;
            MarkInf(from);
            PassMark(edges, s, dR, before, dist[..], from, k);
          } else {
            PassSkip(edges, s, dR, before, from, k);
          }
        } else {
          PassSkip(edges, s, dR, before, from, k);
        }
      }
    }

    /** markInf: a depth-first search from `from` marking every node it reaches. */
    method MarkInf(from: int)
      requires Shape() && 0 <= from < |edges| && dist[from] == NegInf
      modifies dist
      ensures forall x :: 0 <= x < dist.Length && Reach(edges, from, x) ==> dist[x] == NegInf
      ensures OnlyMarks(edges, from, old(dist[..]), dist[..])
    {
      var visited := new bool[|edges|](_ => false);
      var stack := [from];
      ghost var d0 := dist[..];
      EmptyWalk(edges, from);
      while |stack| > 0
        invariant visited.Length == |edges| && dist.Length == |edges|
        invariant SearchInv(edges, from, d0, dist[..], visited[..], stack)
        decreases Unvisited(visited[..]), TopFlag(visited[..], stack), |stack|
      {
        var current := stack[|stack| - 1];
        ghost var full := stack;
        stack := stack[..|stack| - 1];
        assert full == stack + [current];
        ghost var vis0 := visited[..];
        ghost var stack0 := stack;
        assert 0 <= current < |vis0| by {
          assert full[|stack0|] == current;
        }
        visited[current] := true;
        assert visited[..] == vis0[current := true];
        PopStart(edges, from, d0, dist[..], vis0, stack0, current);
        stack := PushUnvisited(visited, current, stack, from, d0);
        PopEnd(edges, from, d0, dist[..], visited[..], stack0, stack, current);
        PopDecreases(vis0, current, stack0, stack);
      }
      SearchDone(edges, from, d0, dist[..], visited[..]);
    }

    /** markInf's loop over the edges of `current`: mark and push every unvisited neighbour. */
    method PushUnvisited(visited: array<bool>, current: int, stack: seq<int>, ghost from: int, ghost d0: seq<Dist>)
        returns (stack': seq<int>)
      requires 0 <= current < |edges|
      requires NeighboursInv(edges, from, d0, dist[..], visited[..], stack, stack, current, 0)
      modifies dist
      ensures NeighboursInv(edges, from, d0, dist[..], visited[..], stack, stack', current, |edges[current]|)
      ensures forall t :: |stack| <= t < |stack'| ==> !visited[stack'[t]]
    {
      stack' := stack;
      var k := 0;
      while k < |edges[current]|
        invariant NeighboursInv(edges, from, d0, dist[..], visited[..], stack, stack', current, k)
      {
        var neigh := edges[current][k].to;
        if !visited[neigh] {
          ghost var d := dist[..];
          dist[neigh] := NegInf;
          Push(edges, from, d0, d, dist[..], visited[..], stack, stack', current, k);
          stack' := stack' + [neigh];
        } else {
          Skip(edges, from, d0, dist[..], visited[..], stack, stack', current, k);
        }
        k := k + 1;
      }
    }

    /** The first part of getMinDistTo's answer: what the table says about target. */
    function MinDistTo(target: int): (r: int)
      requires Solved() && 0 <= target < dist.Length
      reads this, dist, parent
      ensures !Reach(edges, s, target) ==> r == LongMax
      ensures Reach(edges, s, target) && !Unbounded(edges, s, target) ==> IsShortest(edges, s, target, r)
      ensures Unbounded(edges, s, target) ==> r == LongMin
    {
      AsLong(dist[target])
    }
  }

  /** Skipping an edge that does not improve its target keeps the round's invariant. */
  lemma RelaxSkip(g: seq<seq<Edge>>, s: int, d0: seq<Dist>, d: seq<Dist>, wit: seq<seq<Step>>,
                  parent: seq<int>, via: seq<int>, from: int, k: int)
    requires RelaxInv(g, s, d0, d, wit, parent, via, from, k) && 0 <= from < |g| && 0 <= k < |g[from]|
    requires d[from] == Inf || !Improves(d[from].d + g[from][k].weight, d[g[from][k].to])
    ensures RelaxInv(g, s, d0, d, wit, parent, via, from, k + 1)
  {
    assert Settled(g, d0, d, from, k);
  }

  /** Lowering an entry over edge k of `from` keeps the round's invariant. */
  lemma RelaxLower(g: seq<seq<Edge>>, s: int, d0: seq<Dist>, d: seq<Dist>, wit: seq<seq<Step>>,
                   parent: seq<int>, via: seq<int>, from: int, k: int, v: int, p: int,
                   d': seq<Dist>, wit': seq<seq<Step>>, parent': seq<int>, via': seq<int>)
    requires RelaxInv(g, s, d0, d, wit, parent, via, from, k) && 0 <= from < |g| && 0 <= k < |g[from]|
    requires v == g[from][k].to && d[from] != Inf && p == d[from].d + g[from][k].weight && Improves(p, d[v])
    requires d' == d[v := Fin(p)] && wit' == wit[v := wit[from] + [Step(from, k)]]
    requires parent' == parent[v := from] && via' == via[v := k]
    ensures RelaxInv(g, s, d0, d', wit', parent', via', from, k + 1)
  {
    assert Witnessed(g, s, d', wit') by {
      WalkSnoc(g, s, wit[from], Step(from, k));
      WitnessedLower(g, s, d, wit, v, p, wit[from] + [Step(from, k)]);
    }
    assert ParentsBelow(g, s, d', parent', via') by {
      ParentsLower(g, s, d, parent, via, from, k);
    }
    assert RoundState(g, s, d', wit', parent', via');
    assert forall x :: 0 <= x < |d'| ==> AtMost(d'[x], d0[x]);
    assert forall u, j :: 0 <= u < |g| && 0 <= j < |g[u]| && Earlier(u, j, from, k + 1) ==> Settled(g, d0, d', u, j) by {
      assert d[from].Fin? && AtMost(d[from], d0[from]);
      SettledLower(g, d0, d, d', from, k, v, p);
    }
  }

  lemma ParentsLower(g: seq<seq<Edge>>, s: int, d: seq<Dist>, parent: seq<int>, via: seq<int>, from: int, k: int)
    requires WellFormed(g) && |d| == |g| == |parent| == |via| && 0 <= from < |g| && 0 <= k < |g[from]|
    requires ParentsBelow(g, s, d, parent, via) && d[from].Fin?
    requires Improves(d[from].d + g[from][k].weight, d[g[from][k].to])
    ensures var v, p := g[from][k].to, d[from].d + g[from][k].weight;
            ParentsBelow(g, s, d[v := Fin(p)], parent[v := from], via[v := k])
  {
    var v, p := g[from][k].to, d[from].d + g[from][k].weight;
    var d', parent', via' := d[v := Fin(p)], parent[v := from], via[v := k];
    forall x | 0 <= x < |d'| && x != s && d'[x].Fin?
      ensures 0 <= parent'[x] < |g| && d'[parent'[x]].Fin? && 0 <= via'[x] < |g[parent'[x]]| &&
              g[parent'[x]][via'[x]].to == x && d'[parent'[x]].d + g[parent'[x]][via'[x]].weight <= d'[x].d
    {
      if x != v {
        assert d'[x] == d[x] && parent'[x] == parent[x] && via'[x] == via[x];
      }
    }
  }

  lemma SettledLower(g: seq<seq<Edge>>, d0: seq<Dist>, d: seq<Dist>, d': seq<Dist>, from: int, k: int, v: int, p: int)
    requires WellFormed(g) && |d0| == |d| == |g| && 0 <= from < |g| && 0 <= k < |g[from]|
    requires forall u, j :: 0 <= u < |g| && 0 <= j < |g[u]| && Earlier(u, j, from, k) ==> Settled(g, d0, d, u, j)
    requires d[from].Fin? && AtMost(d[from], d0[from])
    requires v == g[from][k].to && p == d[from].d + g[from][k].weight && Improves(p, d[v])
    requires d' == d[v := Fin(p)]
    ensures forall u, j :: 0 <= u < |g| && 0 <= j < |g[u]| && Earlier(u, j, from, k + 1) ==> Settled(g, d0, d', u, j)
  {
    forall u, j | 0 <= u < |g| && 0 <= j < |g[u]| && Earlier(u, j, from, k + 1)
      ensures Settled(g, d0, d', u, j)
    {
      if Earlier(u, j, from, k) {
        assert Settled(g, d0, d, u, j);
      }
    }
  }

  /** A round starts with nothing relaxed yet. */
  lemma RoundStart(g: seq<seq<Edge>>, s: int, d: seq<Dist>, wit: seq<seq<Step>>, parent: seq<int>, via: seq<int>)
    requires WellFormed(g) && RoundState(g, s, d, wit, parent, via)
    ensures RelaxInv(g, s, d, d, wit, parent, via, 0, 0)
  {
  }

  /** After every edge of a round, one more step of every walk is bounded. */
  lemma RoundEnd(g: seq<seq<Edge>>, s: int, d0: seq<Dist>, d: seq<Dist>, wit: seq<seq<Step>>,
                 parent: seq<int>, via: seq<int>, i: nat)
    requires RelaxInv(g, s, d0, d, wit, parent, via, |g|, 0) && BoundedBy(g, s, d0, i)
    ensures RoundState(g, s, d, wit, parent, via) && BoundedBy(g, s, d, i + 1)
  {
    forall u, k | 0 <= u < |g| && 0 <= k < |g[u]| ensures Settled(g, d0, d, u, k) {
      assert Earlier(u, k, |g|, 0);
    }
    RoundBound(g, s, d0, d, i);
  }

  /** Finishing a node's edges is starting the next node's. */
  lemma NextNode(g: seq<seq<Edge>>, s: int, d0: seq<Dist>, d: seq<Dist>, wit: seq<seq<Step>>,
                 parent: seq<int>, via: seq<int>, from: int)
    requires 0 <= from < |g| && RelaxInv(g, s, d0, d, wit, parent, via, from, |g[from]|)
    ensures RelaxInv(g, s, d0, d, wit, parent, via, from + 1, 0)
  {
    forall u, j | 0 <= u < |g| && 0 <= j < |g[u]| && Earlier(u, j, from + 1, 0) ensures Settled(g, d0, d, u, j) {
      assert Earlier(u, j, from, |g[from]|);
    }
  }

  /** Skipping an edge in the last pass keeps its invariant. */
  lemma PassSkip(g: seq<seq<Edge>>, s: int, dR: seq<Dist>, d: seq<Dist>, from: int, k: int)
    requires PassInv(g, s, dR, d, from, k) && 0 <= from < |g| && 0 <= k < |g[from]|
    requires d[from] == NegInf || d[from] == Inf || !Improves(d[from].d + g[from][k].weight, d[g[from][k].to])
    ensures PassInv(g, s, dR, d, from, k + 1)
  {
    if d[from].Fin? {
      assert Reach(g, s, from);
      ReachStep(g, s, from, k);
    }
    assert NoImprovement(g, d, from, k);
  }

  /** Marking `from` and everything it reaches keeps the last pass's invariant. */
  lemma PassMark(g: seq<seq<Edge>>, s: int, dR: seq<Dist>, before: seq<Dist>, after: seq<Dist>, from: int, k: int)
    requires PassInv(g, s, dR, before, from, k) && RoundsDone(g, s, dR) && 0 <= from < |g| && 0 <= k < |g[from]|
    requires before[from].Fin? && Improves(before[from].d + g[from][k].weight, before[g[from][k].to])
    requires |after| == |g| && after[from] == NegInf
    requires forall x :: 0 <= x < |g| && Reach(g, from, x) ==> after[x] == NegInf
    requires forall v :: 0 <= v < |g| && v != from ==> after[v] == before[v] || (after[v] == NegInf && Reach(g, from, v))
    ensures PassInv(g, s, dR, after, from, k + 1)
  {
    assert Reach(g, s, from);
    assert !NoImprovement(g, before, from, k);
    assert !NoImprovement(g, dR, from, k);
    assert !NoNegativeCycle(g, s);
    MarkSound(g, s, before, after, from);
    MarkReach(g, s, before, after, from);
    MarkClosed(g, before, after, from);
    MarkEarlier(g, before, after, from, k);
  }

  /**
   * An edge that still improves its target after the rounds leaves a node
   * without a shortest distance: a shortest walk to `from` can be taken
   * with fewer than n steps, so the rounds would already have relaxed the
   * edge after it.
   */
  lemma ImprovableUnbounded(g: seq<seq<Edge>>, s: int, dR: seq<Dist>, wit: seq<seq<Step>>, from: int, k: int)
    requires WellFormed(g) && 0 <= s < |g| && |dR| == |g| && BoundedBy(g, s, dR, |g|) && Witnessed(g, s, dR, wit)
    requires 0 <= from < |g| && 0 <= k < |g[from]|
    requires dR[from].Fin? && dR[g[from][k].to].Fin? && dR[from].d + g[from][k].weight < dR[g[from][k].to].d
    ensures Unbounded(g, s, from)
  {
    BoundedHasShortest(g, s, from, wit[from]);
    ShortestBlocks(g, s, dR, wit, from, k);
  }

  /** When `from` has a shortest distance, the table after the rounds leaves no improvement over its edge k. */
  lemma ShortestBlocks(g: seq<seq<Edge>>, s: int, dR: seq<Dist>, wit: seq<seq<Step>>, from: int, k: int)
    requires WellFormed(g) && 0 <= s < |g| && |dR| == |g| && BoundedBy(g, s, dR, |g|) && Witnessed(g, s, dR, wit)
    requires 0 <= from < |g| && 0 <= k < |g[from]| && dR[from].Fin?
    ensures forall D :: IsShortest(g, s, from, D) ==> Below(dR[g[from][k].to], dR[from].d + g[from][k].weight)
  {
    forall D | IsShortest(g, s, from, D) ensures Below(dR[g[from][k].to], dR[from].d + g[from][k].weight) {
      var m :| IsWalk(g, s, m) && End(g, s, m) == from && Weight(g, m) == D;
      var m' := ShortestIsShort(g, s, m);
      WalkSnoc(g, s, m', Step(from, k));
      assert Below(dR[g[from][k].to], Weight(g, m' + [Step(from, k)]));
      assert D <= Weight(g, wit[from]);
    }
  }

  /** Marking only nodes that an unbounded `from` reaches keeps every mark on an unbounded node. */
  lemma MarkSound(g: seq<seq<Edge>>, s: int, before: seq<Dist>, after: seq<Dist>, from: int)
    requires |before| == |after| == |g| && 0 <= from < |g|
    requires forall v :: 0 <= v < |g| && before[v] == NegInf ==> Unbounded(g, s, v)
    requires Unbounded(g, s, from)
    requires forall v :: 0 <= v < |g| && v != from ==> after[v] == before[v] || (after[v] == NegInf && Reach(g, from, v))
    ensures forall v :: 0 <= v < |g| && after[v] == NegInf ==> Unbounded(g, s, v)
  {
    forall v | 0 <= v < |g| && after[v] == NegInf ensures Unbounded(g, s, v) {
      if v != from && after[v] != before[v] {
        UnboundedReach(g, s, from, v);
      }
    }
  }

  /** Marking keeps "Inf iff unreachable": the marked nodes are reachable. */
  lemma MarkReach(g: seq<seq<Edge>>, s: int, before: seq<Dist>, after: seq<Dist>, from: int)
    requires WellFormed(g) && 0 <= s < |g| && |before| == |after| == |g| && 0 <= from < |g|
    requires forall v :: 0 <= v < |g| ==> (before[v] == Inf <==> !Reach(g, s, v))
    requires Reach(g, s, from) && after[from] == NegInf
    requires forall v :: 0 <= v < |g| && v != from ==> after[v] == before[v] || (after[v] == NegInf && Reach(g, from, v))
    ensures forall v :: 0 <= v < |g| ==> (after[v] == Inf <==> !Reach(g, s, v))
  {
    forall v | 0 <= v < |g| ensures after[v] == Inf <==> !Reach(g, s, v) {
      if v != from && after[v] != before[v] {
        ReachTrans(g, s, from, v);
      }
    }
  }

  /** Marking everything `from` reaches keeps the marked nodes closed under edges. */
  lemma MarkClosed(g: seq<seq<Edge>>, before: seq<Dist>, after: seq<Dist>, from: int)
    requires WellFormed(g) && |before| == |after| == |g| && 0 <= from < |g|
    requires MarkedClosed(g, before) && after[from] == NegInf
    requires forall x :: 0 <= x < |g| && Reach(g, from, x) ==> after[x] == NegInf
    requires forall v :: 0 <= v < |g| && v != from ==> after[v] == before[v] || (after[v] == NegInf && Reach(g, from, v))
    requires forall v :: 0 <= v < |g| && before[v] == NegInf ==> after[v] == NegInf
    ensures MarkedClosed(g, after)
  {
    forall v, j | 0 <= v < |g| && 0 <= j < |g[v]| && after[v] == NegInf
      ensures after[g[v][j].to] == NegInf
    {
      if before[v] != NegInf {
        if v == from {
          EmptyWalk(g, from);
        }
        ReachStep(g, from, v, j);
      }
    }
  }

  /** Marking only lowers entries to NegInf, which keeps the edges already checked unimprovable. */
  lemma MarkEarlier(g: seq<seq<Edge>>, before: seq<Dist>, after: seq<Dist>, from: int, k: int)
    requires WellFormed(g) && |before| == |after| == |g| && 0 <= from < |g| && 0 <= k < |g[from]|
    requires forall u, j :: 0 <= u < |g| && 0 <= j < |g[u]| && Earlier(u, j, from, k) ==> NoImprovement(g, before, u, j)
    requires after[from] == NegInf
    requires forall v :: 0 <= v < |g| && v != from ==> after[v] == before[v] || after[v] == NegInf
    ensures forall u, j :: 0 <= u < |g| && 0 <= j < |g[u]| && Earlier(u, j, from, k + 1) ==> NoImprovement(g, after, u, j)
  {
    forall u, j | 0 <= u < |g| && 0 <= j < |g[u]| && Earlier(u, j, from, k + 1)
      ensures NoImprovement(g, after, u, j)
    {
      if Earlier(u, j, from, k) {
        assert NoImprovement(g, before, u, j);
      }
    }
  }

  /** The table the rounds leave is where the last pass starts. */
  lemma PassStart(g: seq<seq<Edge>>, s: int, d: seq<Dist>, wit: seq<seq<Step>>, parent: seq<int>, via: seq<int>)
    requires RoundState(g, s, d, wit, parent, via) && RoundsDone(g, s, d)
    ensures PassInv(g, s, d, d, 0, 0)
  {
  }

  /** Finishing a node's edges in the last pass is starting the next node's. */
  lemma PassNextNode(g: seq<seq<Edge>>, s: int, dR: seq<Dist>, d: seq<Dist>, from: int)
    requires 0 <= from < |g| && PassInv(g, s, dR, d, from, |g[from]|)
    ensures PassInv(g, s, dR, d, from + 1, 0)
  {
    forall u, j | 0 <= u < |g| && 0 <= j < |g[u]| && Earlier(u, j, from + 1, 0) ensures NoImprovement(g, d, u, j) {
      assert Earlier(u, j, from, |g[from]|);
    }
  }

  /** The last pass leaves the table the constructor promises. */
  lemma Finish(g: seq<seq<Edge>>, s: int, dR: seq<Dist>, d: seq<Dist>, wit: seq<seq<Step>>, parent: seq<int>, via: seq<int>)
    requires PassInv(g, s, dR, d, |g|, 0) && RoundState(g, s, dR, wit, parent, via)
    ensures SolvedTable(g, s, d, parent)
  {
    FinishShortest(g, s, dR, d, wit);
    FinishParents(g, s, dR, d, parent, via);
    forall v | 0 <= v < |d| ensures Unbounded(g, s, v) ==> d[v] == NegInf {
      UnboundedNoShortest(g, s, v);
    }
  }

  /** After the last pass every finite entry is the least weight of a walk to its node. */
  lemma FinishShortest(g: seq<seq<Edge>>, s: int, dR: seq<Dist>, d: seq<Dist>, wit: seq<seq<Step>>)
    requires PassInv(g, s, dR, d, |g|, 0) && Witnessed(g, s, dR, wit) && Below(dR[s], 0)
    ensures forall v :: 0 <= v < |d| && d[v].Fin? ==> IsShortest(g, s, v, d[v].d)
  {
    forall u, j | 0 <= u < |g| && 0 <= j < |g[u]| ensures NoImprovement(g, d, u, j) {
      assert Earlier(u, j, |g|, 0);
    }
    forall v | 0 <= v < |d| && d[v].Fin? ensures IsShortest(g, s, v, d[v].d) {
      forall w | IsWalk(g, s, w) && End(g, s, w) == v ensures d[v].d <= Weight(g, w) {
        WalkBelow(g, s, d, w);
      }
      assert d[v] == dR[v];
      assert IsWalk(g, s, wit[v]) && End(g, s, wit[v]) == v && Weight(g, wit[v]) == d[v].d;
    }
  }

  /** After the last pass each finite node other than the source has its parent over a tight edge. */
  lemma FinishParents(g: seq<seq<Edge>>, s: int, dR: seq<Dist>, d: seq<Dist>, parent: seq<int>, via: seq<int>)
    requires PassInv(g, s, dR, d, |g|, 0) && |parent| == |via| == |g| && ParentsBelow(g, s, dR, parent, via)
    ensures forall v :: 0 <= v < |d| && v != s && d[v].Fin? ==>
              0 <= parent[v] < |d| && d[parent[v]].Fin? &&
              exists k :: 0 <= k < |g[parent[v]]| && g[parent[v]][k].to == v &&
                d[v].d == d[parent[v]].d + g[parent[v]][k].weight
  {
    forall v | 0 <= v < |d| && v != s && d[v].Fin?
      ensures 0 <= parent[v] < |d| && d[parent[v]].Fin? &&
              exists k :: 0 <= k < |g[parent[v]]| && g[parent[v]][k].to == v &&
                d[v].d == d[parent[v]].d + g[parent[v]][k].weight
    {
      var p, k := parent[v], via[v];
      assert dR[v] == d[v];
      assert Earlier(p, k, |g|, 0);
      assert NoImprovement(g, d, p, k);
    }
  }

  /** The stack holds marked nodes that `from` reaches. */
  ghost predicate StackOk(g: seq<seq<Edge>>, from: int, d: seq<Dist>, stack: seq<int>)
  {
    forall t :: 0 <= t < |stack| ==> 0 <= stack[t] < |d| && d[stack[t]] == NegInf && Reach(g, from, stack[t])
  }

  /** The visited nodes are marked nodes that `from` reaches. */
  ghost predicate VisitedOk(g: seq<seq<Edge>>, from: int, d: seq<Dist>, vis: seq<bool>)
    requires |vis| == |d|
  {
    forall v :: 0 <= v < |d| && vis[v] ==> d[v] == NegInf && Reach(g, from, v)
  }

  /** Each edge out of a visited node other than `skip` leads to a visited node or one on the stack. */
  predicate Frontier(g: seq<seq<Edge>>, vis: seq<bool>, stack: seq<int>, skip: int)
    requires WellFormed(g) && |vis| == |g|
  {
    forall v, k :: 0 <= v < |g| && 0 <= k < |g[v]| && vis[v] && v != skip ==> vis[g[v][k].to] || g[v][k].to in stack
  }

  /** Every entry is as it was in d0, or marked and reachable from `from`. */
  ghost predicate OnlyMarks(g: seq<seq<Edge>>, from: int, d0: seq<Dist>, d: seq<Dist>)
  {
    |d0| == |d| && forall v :: 0 <= v < |d| ==> d[v] == d0[v] || (d[v] == NegInf && Reach(g, from, v))
  }

  /** The invariant of markInf's outer loop. */
  ghost predicate SearchInv(g: seq<seq<Edge>>, from: int, d0: seq<Dist>, d: seq<Dist>, vis: seq<bool>, stack: seq<int>)
  {
    WellFormed(g) && 0 <= from < |g| && |d| == |vis| == |g| &&
    StackOk(g, from, d, stack) && VisitedOk(g, from, d, vis) && Frontier(g, vis, stack, -1) &&
    (vis[from] || from in stack) && OnlyMarks(g, from, d0, d)
  }

  /** The invariant of markInf's loop over the edges of `current`, which was popped off stack0. */
  ghost predicate NeighboursInv(g: seq<seq<Edge>>, from: int, d0: seq<Dist>, d: seq<Dist>, vis: seq<bool>,
                                stack0: seq<int>, stack: seq<int>, current: int, k: int)
  {
    WellFormed(g) && 0 <= from < |g| && |d| == |vis| == |g| &&
    0 <= current < |g| && vis[current] && 0 <= k <= |g[current]| &&
    |stack0| <= |stack| && stack[..|stack0|] == stack0 &&
    StackOk(g, from, d, stack) && (forall t :: |stack0| <= t < |stack| ==> 0 <= stack[t] < |vis| && !vis[stack[t]]) &&
    VisitedOk(g, from, d, vis) &&
    (forall j :: 0 <= j < k ==> vis[g[current][j].to] || g[current][j].to in stack) &&
    Frontier(g, vis, stack, current) && (vis[from] || from in stack) && OnlyMarks(g, from, d0, d)
  }

  /** Popping `current` and visiting it starts the loop over its edges. */
  lemma PopStart(g: seq<seq<Edge>>, from: int, d0: seq<Dist>, d: seq<Dist>, vis: seq<bool>, stack0: seq<int>, current: int)
    requires SearchInv(g, from, d0, d, vis, stack0 + [current]) && 0 <= current < |vis|
    ensures NeighboursInv(g, from, d0, d, vis[current := true], stack0, stack0, current, 0)
  {
    var stack := stack0 + [current];
    assert stack[|stack0|] == current;
    forall t | 0 <= t < |stack0| ensures 0 <= stack0[t] < |d| && d[stack0[t]] == NegInf && Reach(g, from, stack0[t]) {
      assert stack[t] == stack0[t];
    }
    var vis' := vis[current := true];
    forall v, k | 0 <= v < |g| && 0 <= k < |g[v]| && vis'[v] && v != current
      ensures vis'[g[v][k].to] || g[v][k].to in stack0
    {
      assert vis[g[v][k].to] || g[v][k].to in stack;
    }
    assert vis'[from] || from in stack0;
  }

  /** Marking and pushing an unvisited neighbour keeps the edge loop's invariant. */
  lemma Push(g: seq<seq<Edge>>, from: int, d0: seq<Dist>, d: seq<Dist>, d': seq<Dist>, vis: seq<bool>,
             stack0: seq<int>, stack: seq<int>, current: int, k: int)
    requires NeighboursInv(g, from, d0, d, vis, stack0, stack, current, k) && k < |g[current]|
    requires !vis[g[current][k].to] && d' == d[g[current][k].to := NegInf]
    ensures NeighboursInv(g, from, d0, d', vis, stack0, stack + [g[current][k].to], current, k + 1)
  {
    var neigh := g[current][k].to;
    var stack' := stack + [neigh];
    assert Reach(g, from, current) by {
      assert vis[current];
    }
    ReachStep(g, from, current, k);
    assert stack'[..|stack0|] == stack0 by {
      assert stack'[..|stack|] == stack;
    }
    PushStack(g, from, d, d', stack, neigh);
    PushFresh(vis, stack0, stack, neigh);
    PushMarks(g, from, d0, d, d', vis, neigh);
    PushFrontier(g, from, vis, stack, current, k);
  }

  lemma PushFrontier(g: seq<seq<Edge>>, from: int, vis: seq<bool>, stack: seq<int>, current: int, k: int)
    requires WellFormed(g) && |vis| == |g| && 0 <= current < |g| && 0 <= k < |g[current]| && 0 <= from < |g|
    requires forall j :: 0 <= j < k ==> vis[g[current][j].to] || g[current][j].to in stack
    requires Frontier(g, vis, stack, current) && (vis[from] || from in stack)
    ensures var stack' := stack + [g[current][k].to];
            (forall j :: 0 <= j < k + 1 ==> vis[g[current][j].to] || g[current][j].to in stack') &&
            Frontier(g, vis, stack', current) && (vis[from] || from in stack')
  {
    var stack' := stack + [g[current][k].to];
    assert forall x :: x in stack ==> x in stack';
  }

  lemma PushStack(g: seq<seq<Edge>>, from: int, d: seq<Dist>, d': seq<Dist>, stack: seq<int>, neigh: int)
    requires StackOk(g, from, d, stack) && 0 <= neigh < |d| && Reach(g, from, neigh) && d' == d[neigh := NegInf]
    ensures StackOk(g, from, d', stack + [neigh])
  {
    var stack' := stack + [neigh];
    forall t | 0 <= t < |stack'| ensures 0 <= stack'[t] < |d'| && d'[stack'[t]] == NegInf && Reach(g, from, stack'[t]) {
      if t < |stack| {
        assert stack'[t] == stack[t];
      }
    }
  }

  lemma PushFresh(vis: seq<bool>, stack0: seq<int>, stack: seq<int>, neigh: int)
    requires forall t :: |stack0| <= t < |stack| ==> 0 <= stack[t] < |vis| && !vis[stack[t]]
    requires 0 <= neigh < |vis| && !vis[neigh]
    ensures forall t :: |stack0| <= t < |stack + [neigh]| ==> 0 <= (stack + [neigh])[t] < |vis| && !vis[(stack + [neigh])[t]]
  {
    var stack' := stack + [neigh];
    forall t | |stack0| <= t < |stack'| ensures 0 <= stack'[t] < |vis| && !vis[stack'[t]] {
      if t < |stack| {
        assert stack'[t] == stack[t];
      }
    }
  }

  lemma PushMarks(g: seq<seq<Edge>>, from: int, d0: seq<Dist>, d: seq<Dist>, d': seq<Dist>, vis: seq<bool>, neigh: int)
    requires OnlyMarks(g, from, d0, d) && |vis| == |d| && VisitedOk(g, from, d, vis)
    requires 0 <= neigh < |d| && Reach(g, from, neigh) && d' == d[neigh := NegInf]
    ensures OnlyMarks(g, from, d0, d') && VisitedOk(g, from, d', vis)
  {
  }

  /** Passing over a visited neighbour keeps the edge loop's invariant. */
  lemma Skip(g: seq<seq<Edge>>, from: int, d0: seq<Dist>, d: seq<Dist>, vis: seq<bool>,
             stack0: seq<int>, stack: seq<int>, current: int, k: int)
    requires NeighboursInv(g, from, d0, d, vis, stack0, stack, current, k) && k < |g[current]|
    requires vis[g[current][k].to]
    ensures NeighboursInv(g, from, d0, d, vis, stack0, stack, current, k + 1)
  {
  }

  /** Done with the edges of `current`: back to the outer loop's invariant. */
  lemma PopEnd(g: seq<seq<Edge>>, from: int, d0: seq<Dist>, d: seq<Dist>, vis: seq<bool>,
               stack0: seq<int>, stack: seq<int>, current: int)
    requires 0 <= current < |g| && NeighboursInv(g, from, d0, d, vis, stack0, stack, current, |g[current]|)
    ensures SearchInv(g, from, d0, d, vis, stack)
  {
  }

  /** When the stack is empty, every node `from` reaches is marked. */
  lemma SearchDone(g: seq<seq<Edge>>, from: int, d0: seq<Dist>, d: seq<Dist>, vis: seq<bool>)
    requires SearchInv(g, from, d0, d, vis, [])
    ensures forall x :: 0 <= x < |d| && Reach(g, from, x) ==> d[x] == NegInf
  {
    forall x | 0 <= x < |d| && Reach(g, from, x) ensures d[x] == NegInf {
      ClosedReach(g, vis, from, x);
    }
  }

  /** One round of markInf's outer loop lowers (Unvisited, TopFlag, |stack|) lexicographically. */
  lemma PopDecreases(vis0: seq<bool>, current: int, stack0: seq<int>, stack: seq<int>)
    requires 0 <= current < |vis0|
    requires |stack| >= |stack0| && stack[..|stack0|] == stack0
    requires forall t :: |stack0| <= t < |stack| ==> 0 <= stack[t] < |vis0| && !vis0[current := true][stack[t]]
    ensures var vis, before := vis0[current := true], stack0 + [current];
            Unvisited(vis) < Unvisited(vis0) ||
            (Unvisited(vis) == Unvisited(vis0) &&
             (TopFlag(vis, stack) < TopFlag(vis0, before) ||
              (TopFlag(vis, stack) == TopFlag(vis0, before) && |stack| < |before|)))
  {
    var before := stack0 + [current];
    if !vis0[current] {
      UnvisitedDrops(vis0, current);
    } else {
      assert vis0[current := true] == vis0;
      assert before[|before| - 1] == current;
      if |stack| == |stack0| {
        assert stack == stack0;
      }
    }
  }

  /** 0 when the top of the stack is an unvisited node, 1 otherwise. */
  function TopFlag(vis: seq<bool>, stack: seq<int>): nat
  {
    if |stack| > 0 && 0 <= stack[|stack| - 1] < |vis| && !vis[stack[|stack| - 1]] then 0 else 1
  }

  /** A set of nodes containing u and closed under edges contains all u reaches. */
  lemma ClosedReach(g: seq<seq<Edge>>, vis: seq<bool>, u: int, x: int)
    requires WellFormed(g) && |vis| == |g| && 0 <= u < |g| && vis[u]
    requires forall v, k :: 0 <= v < |g| && 0 <= k < |g[v]| && vis[v] ==> vis[g[v][k].to]
    requires Reach(g, u, x)
    ensures 0 <= x < |g| && vis[x]
  {
    var w :| IsWalk(g, u, w) && End(g, u, w) == x;
    ClosedWalk(g, vis, u, w);
  }

  lemma {:induction false} ClosedWalk(g: seq<seq<Edge>>, vis: seq<bool>, u: int, w: seq<Step>)
    requires WellFormed(g) && |vis| == |g| && 0 <= u < |g| && vis[u]
    requires forall v, k :: 0 <= v < |g| && 0 <= k < |g[v]| && vis[v] ==> vis[g[v][k].to]
    requires IsWalk(g, u, w)
    ensures 0 <= End(g, u, w) < |g| && vis[End(g, u, w)]
  {
    if |w| > 0 {
      var w' := w[..|w| - 1];
      WalkSlice(g, u, w, 0, |w| - 1);
      assert w[0..|w| - 1] == w';
      ClosedWalk(g, vis, u, w');
      assert w[|w| - 1].from == NodeAt(g, u, w, |w| - 1);
    }
  }

  /** A round turns a bound for walks of i steps into one for walks of i + 1 steps. */
  lemma RoundBound(g: seq<seq<Edge>>, s: int, d0: seq<Dist>, d: seq<Dist>, i: nat)
    requires WellFormed(g) && 0 <= s < |g| && |d0| == |d| == |g|
    requires BoundedBy(g, s, d0, i)
    requires forall v :: 0 <= v < |d| ==> AtMost(d[v], d0[v]) && d[v] != NegInf
    requires forall u, k :: 0 <= u < |g| && 0 <= k < |g[u]| ==> Settled(g, d0, d, u, k)
    ensures BoundedBy(g, s, d, i + 1)
  {
    forall w | IsWalk(g, s, w) && |w| <= i + 1 && 0 <= End(g, s, w) < |d|
      ensures Below(d[End(g, s, w)], Weight(g, w))
    {
      if |w| <= i {
        assert Below(d0[End(g, s, w)], Weight(g, w));
      } else {
        LastStepBound(g, s, d0, d, w);
      }
    }
  }

  /** A walk whose last edge was relaxed after its prefix was bounded is bounded. */
  lemma LastStepBound(g: seq<seq<Edge>>, s: int, d0: seq<Dist>, d: seq<Dist>, w: seq<Step>)
    requires WellFormed(g) && 0 <= s < |g| && |d0| == |d| == |g|
    requires IsWalk(g, s, w) && |w| > 0
    requires BoundedBy(g, s, d0, |w| - 1)
    requires forall u, k :: 0 <= u < |g| && 0 <= k < |g[u]| ==> Settled(g, d0, d, u, k)
    ensures 0 <= End(g, s, w) < |d| && Below(d[End(g, s, w)], Weight(g, w))
  {
    var w', st := LastStep(g, s, w);
    assert Below(d0[st.from], Weight(g, w'));
    assert Settled(g, d0, d, st.from, st.k);
  }

  /**
   * After n rounds: a node is Inf iff the source does not reach it, and
   * when no walk from the source has a closed part of negative weight,
   * no edge can improve any entry.
   */
  lemma AfterRounds(g: seq<seq<Edge>>, s: int, d: seq<Dist>, wit: seq<seq<Step>>)
    requires WellFormed(g) && 0 <= s < |g| && |d| == |g|
    requires BoundedBy(g, s, d, |g|) && Witnessed(g, s, d, wit)
    requires forall v :: 0 <= v < |d| ==> d[v] != NegInf
    ensures forall v :: 0 <= v < |d| ==> (d[v] == Inf <==> !Reach(g, s, v))
    ensures NoNegativeCycle(g, s) ==>
              forall u, k :: 0 <= u < |g| && 0 <= k < |g[u]| ==> NoImprovement(g, d, u, k)
    ensures forall u, k :: 0 <= u < |g| && 0 <= k < |g[u]| && !NoImprovement(g, d, u, k) ==> Unbounded(g, s, u)
  {
    forall v | 0 <= v < |d| ensures d[v] == Inf <==> !Reach(g, s, v) {
      if Reach(g, s, v) {
        var w :| IsWalk(g, s, w) && End(g, s, w) == v;
        var w' := ShortWalk(g, s, w);
      }
    }
    if NoNegativeCycle(g, s) {
      forall u, k | 0 <= u < |g| && 0 <= k < |g[u]| ensures NoImprovement(g, d, u, k) {
        if d[u].Fin? {
          WalkSnoc(g, s, wit[u], Step(u, k));
          var w' := ShortWalk(g, s, wit[u] + [Step(u, k)]);
        }
      }
    }
    forall u, k | 0 <= u < |g| && 0 <= k < |g[u]| && !NoImprovement(g, d, u, k) ensures Unbounded(g, s, u) {
      var v := g[u][k].to;
      if d[v] == Inf {
        WalkSnoc(g, s, wit[u], Step(u, k));
        var w' := ShortWalk(g, s, wit[u] + [Step(u, k)]);
      }
      ImprovableUnbounded(g, s, d, wit, u, k);
    }
  }

  /**
   * When no edge out of a finite node improves an entry and the marked
   * nodes are closed, a walk from the source to a finite node weighs at
   * least its entry.
   */
  lemma {:induction false} WalkBelow(g: seq<seq<Edge>>, s: int, d: seq<Dist>, w: seq<Step>)
    requires WellFormed(g) && 0 <= s < |g| && |d| == |g|
    requires forall v :: 0 <= v < |d| ==> (d[v] == Inf <==> !Reach(g, s, v))
    requires MarkedClosed(g, d) && (d[s] == NegInf || Below(d[s], 0))
    requires forall u, k :: 0 <= u < |g| && 0 <= k < |g[u]| ==> NoImprovement(g, d, u, k)
    requires IsWalk(g, s, w) && 0 <= End(g, s, w) < |d|
    ensures d[End(g, s, w)] == NegInf || Below(d[End(g, s, w)], Weight(g, w))
  {
    if |w| > 0 {
      var w' := w[..|w| - 1];
      WalkSlice(g, s, w, 0, |w| - 1);
      assert w[0..|w| - 1] == w';
      var st: Step := w[|w| - 1];
      assert st.from == End(g, s, w') && ValidStep(g, st);
      WalkBelow(g, s, d, w');
      assert Reach(g, s, st.from);
      assert NoImprovement(g, d, st.from, st.k);
    }
  }
}

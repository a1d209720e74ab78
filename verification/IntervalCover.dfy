/**
 * The greedy interval cover of Intervalcover.java. The input is copied and
 * sorted by lower bound; then each round scans the intervals whose lower
 * bound is at most L, keeps the first one reaching furthest right beyond
 * the best so far, records its id and moves L to its upper bound, until
 * L reaches R. The `Double.NEGATIVE_INFINITY` start of maxB becomes the
 * flag "no candidate yet"; Java's null result becomes None.
 */
module IntervalCover {
  import opened Intervals

  datatype Option<T> = None | Some(value: T)

  /** Non-decreasing lower bounds. */
  predicate SortedByLower(s: seq<Interval>)
  {
    forall i, j :: 0 <= i < j < |s| ==> s[i].a <= s[j].a
  }

  /** Insert x before the first element whose lower bound is at least x's. */
  function Insert(x: Interval, s: seq<Interval>): (r: seq<Interval>)
    ensures multiset(r) == multiset(s) + multiset{x}
    ensures SortedByLower(s) ==> SortedByLower(r)
  {
    if |s| == 0 || x.a <= s[0].a then
      SortedCons(x, s);
      [x] + s
    else
      assert s == [s[0]] + s[1..];
      var rest := Insert(x, s[1..]);
      MembersOfSum(rest, s[1..], x);
      SortedCons(s[0], rest);
      [s[0]] + rest
  }

  /** A list holding t's elements and x holds nothing else. */
  lemma MembersOfSum(r: seq<Interval>, t: seq<Interval>, x: Interval)
    requires multiset(r) == multiset(t) + multiset{x}
    ensures forall y :: y in r ==> y == x || y in t
  {
    forall y | y in r ensures y == x || y in t {
      assert y in multiset(r);
    }
  }

  /** A head no greater than every element of a sorted tail keeps it sorted. */
  lemma SortedCons(h: Interval, t: seq<Interval>)
    ensures SortedByLower(t) && (forall y :: y in t ==> h.a <= y.a) ==> SortedByLower([h] + t)
  {
    if SortedByLower(t) && (forall y :: y in t ==> h.a <= y.a) {
      var r := [h] + t;
      forall i, j | 0 <= i < j < |r| ensures r[i].a <= r[j].a {
        if i == 0 {
          assert r[j] == t[j - 1];
          assert t[j - 1] in t;
        } else {
          assert r[i] == t[i - 1] && r[j] == t[j - 1];
        }
      }
    }
  }

  /**
   * The sorted copy: Collections.sort is a stable sort on compareTo, and a
   * stable sort's result is unique, so an insertion sort that keeps equal
   * lower bounds in input order gives the same list.
   */
  function SortByLower(s: seq<Interval>): (r: seq<Interval>)
    ensures SortedByLower(r) && multiset(r) == multiset(s) && |r| == |s|
  {
    if |s| == 0 then []
    else
      assert s == [s[0]] + s[1..];
      Insert(s[0], SortByLower(s[1..]))
  }

  /** Point x lies in one of the intervals. */
  ghost predicate Covered(x: real, ivs: seq<Interval>)
  {
    exists I :: I in ivs && I.a <= x <= I.b
  }

  /** Every point of [L, R] lies in one of the intervals. */
  ghost predicate Coverable(L: real, R: real, ivs: seq<Interval>)
  {
    forall x :: L <= x <= R ==> Covered(x, ivs)
  }

  /**
   * The chosen intervals form a chain from L: the first starts at or before
   * L, each next one starts at or before the previous one's end, and the
   * ends strictly increase.
   */
  predicate Chain(ch: seq<Interval>, L: real)
  {
    (|ch| > 0 ==> ch[0].a <= L) &&
    forall t :: 0 < t < |ch| ==> ch[t].a <= ch[t - 1].b && ch[t - 1].b < ch[t].b
  }

  /** A chain from L covers every point from L up to the end of its last interval. */
  lemma {:induction false} ChainCovers(ch: seq<Interval>, L: real, x: real)
    requires |ch| > 0 && Chain(ch, L) && L <= x <= ch[|ch| - 1].b
    ensures exists t :: 0 <= t < |ch| && ch[t].a <= x <= ch[t].b
  {
    var n := |ch|;
    if n > 1 && x <= ch[n - 2].b {
      ChainCovers(ch[..n - 1], L, x);
      var t :| 0 <= t < n - 1 && ch[..n - 1][t].a <= x <= ch[..n - 1][t].b;
      assert ch[t] == ch[..n - 1][t];
    } else if n > 1 {
      assert ch[n - 1].a <= x;
    }
  }

  /** An interval starting within the chain's reach and ending beyond it extends the chain. */
  lemma ChainExtend(ch: seq<Interval>, L: real, I: Interval)
    requires Chain(ch, L)
    requires |ch| == 0 ==> I.a <= L
    requires |ch| > 0 ==> I.a <= ch[|ch| - 1].b < I.b
    ensures Chain(ch + [I], L)
  {
    var r := ch + [I];
    forall t | 0 < t < |r| ensures r[t].a <= r[t - 1].b && r[t - 1].b < r[t].b {
      if t < |ch| {
        assert r[t] == ch[t] && r[t - 1] == ch[t - 1];
      }
    }
  }

  /** The number of intervals still reaching beyond the best end so far. */
  function CountAbove(s: seq<Interval>, hasMax: bool, maxB: real): nat
  {
    if |s| == 0 then 0
    else CountAbove(s[1..], hasMax, maxB) + (if !hasMax || s[0].b > maxB then 1 else 0)
  }

  /** Raising the best end to one of the intervals beyond it lowers the count. */
  lemma {:induction false} CountDrops(s: seq<Interval>, hasMax: bool, maxB: real, maxB': real, at: int)
    requires 0 <= at < |s| && s[at].b == maxB' && (!hasMax || maxB' > maxB)
    ensures CountAbove(s, true, maxB') < CountAbove(s, hasMax, maxB)
  {
    if at > 0 {
      CountDrops(s[1..], hasMax, maxB, maxB', at - 1);
    } else {
      CountNoMore(s[1..], hasMax, maxB, maxB');
    }
  }

  /** Raising the best end never raises the count. */
  lemma {:induction false} CountNoMore(s: seq<Interval>, hasMax: bool, maxB: real, maxB': real)
    requires !hasMax || maxB' >= maxB
    ensures CountAbove(s, true, maxB') <= CountAbove(s, hasMax, maxB)
  {
    if |s| > 0 {
      CountNoMore(s[1..], hasMax, maxB, maxB');
    }
  }

  /**
   * One round's for loop over the sorted intervals whose lower bound is at
   * most L. It reports a candidate iff one of them reaches beyond the best
   * end so far (any does when there is none yet); the new best is then the
   * largest end among them, taken from the first interval (index `at`) that
   * reaches it. Without a candidate nothing changes.
   */
  method ScanRound(iv: seq<Interval>, L: real, hasMax: bool, maxB: real, maxIndex: int)
    returns (foundMax: bool, hasMax': bool, maxB': real, maxIndex': int, ghost at: int)
    requires SortedByLower(iv)
    ensures !foundMax <==> forall j :: 0 <= j < |iv| && iv[j].a <= L ==> hasMax && iv[j].b <= maxB
    ensures !foundMax ==> hasMax' == hasMax && maxB' == maxB && maxIndex' == maxIndex
    ensures foundMax ==>
              hasMax' && (!hasMax || maxB' > maxB) &&
              0 <= at < |iv| && iv[at].a <= L && iv[at].b == maxB' && iv[at].id == maxIndex' &&
              (forall j :: 0 <= j < at ==> iv[j].b < maxB') &&
              (forall j :: 0 <= j < |iv| && iv[j].a <= L ==> iv[j].b <= maxB')
  {
    foundMax, hasMax', maxB', maxIndex', at := false, hasMax, maxB, maxIndex, 0;
    var i := 0;
    while i < |iv| && iv[i].a <= L
      invariant 0 <= i <= |iv|
      invariant forall j :: 0 <= j < i ==> iv[j].a <= L
      invariant !foundMax ==> hasMax' == hasMax && maxB' == maxB && maxIndex' == maxIndex
      invariant !foundMax ==> forall j :: 0 <= j < i ==> hasMax && iv[j].b <= maxB
      invariant foundMax ==>
                  hasMax' && (!hasMax || maxB' > maxB) &&
                  0 <= at < i && iv[at].b == maxB' && iv[at].id == maxIndex' &&
                  (forall j :: 0 <= j < at ==> iv[j].b < maxB') &&
                  (forall j :: 0 <= j < i ==> iv[j].b <= maxB')
    {
      var I := iv[i];
      if I.a <= L {
        if !hasMax' || I.b > maxB' {
          maxB', maxIndex', foundMax, hasMax', at := I.b, I.id, true, true, i;
        }
      }
      i := i + 1;
    }
    if i < |iv| {
      forall j | i <= j < |iv| ensures iv[j].a > L {
        assert iv[i].a <= iv[j].a;
      }
    }
  }

  /**
   * When a round finds no candidate, some point of [L0, R] lies in no
   * interval. `L` is the current left end (L0 in the first round, the best
   * end so far afterwards), and the intervals starting at or before L0 end
   * at or before it.
   */
  lemma StuckUncovered(iv: seq<Interval>, L0: real, R: real, hasMax: bool, L: real)
    requires SortedByLower(iv) && L0 <= R
    requires !hasMax ==> L == L0
    requires hasMax ==> L < R && forall j :: 0 <= j < |iv| && iv[j].a <= L0 ==> iv[j].b <= L
    requires forall j :: 0 <= j < |iv| && iv[j].a <= L ==> hasMax && iv[j].b <= L
    ensures !Coverable(L0, R, iv)
  {
    if !hasMax || L < L0 {
      assert !Covered(L0, iv);
    } else {
      var k := 0;
      while k < |iv| && iv[k].a <= L
        invariant 0 <= k <= |iv|
        invariant forall j :: 0 <= j < k ==> iv[j].a <= L
      {
        k := k + 1;
      }
      var m := if k < |iv| && iv[k].a < R then iv[k].a else R;
      var x := (L + m) / 2.0;
      forall I | I in iv ensures !(I.a <= x <= I.b) {
        var j :| 0 <= j < |iv| && iv[j] == I;
        if j >= k {
          assert iv[k].a <= iv[j].a;
        }
      }
      assert !Covered(x, iv);
    }
  }

  /**
   * cover(L, R, intervals): on success, the ids of the chosen intervals in
   * the order chosen (at least one); each chosen interval is one of the
   * input, they form a chain from L whose last one reaches R, so together
   * they cover [L, R]. On None (Java's null) and L <= R, some point of
   * [L, R] lies in no input interval, so no cover exists.
   */
  method Cover(L: real, R: real, unsortedIntervals: seq<Interval>) returns (res: Option<seq<int>>, ghost chosen: seq<Interval>)
    ensures res.Some? ==>
              |res.value| == |chosen| >= 1 &&
              (forall t :: 0 <= t < |chosen| ==> res.value[t] == chosen[t].id && chosen[t] in unsortedIntervals) &&
              Chain(chosen, L) && chosen[|chosen| - 1].b >= R
    ensures res.Some? && L <= R ==> Coverable(L, R, chosen) && Coverable(L, R, unsortedIntervals)
    ensures res.None? && L <= R ==> !Coverable(L, R, unsortedIntervals)
  {
    var intervals := SortByLower(unsortedIntervals);
    var left := L;
    var S: seq<int> := [];
    var hasMax := false;
    var maxB := 0.0;
    var maxIndex := 0;
    chosen := [];
    while true
      invariant Progress(L, intervals, S, chosen, hasMax, maxB, left)
      invariant hasMax ==> left < R
      decreases CountAbove(intervals, hasMax, maxB)
    {
      var foundMax, hasMax', maxB', maxIndex';
      ghost var at;
      foundMax, hasMax', maxB', maxIndex', at := ScanRound(intervals, left, hasMax, maxB, maxIndex);
      if !foundMax {
        if L <= R {
          StuckUncovered(intervals, L, R, hasMax, left);
          UncoveredInInput(intervals, unsortedIntervals, L, R);
        }
        return None, chosen;
      }
      TakeCandidate(L, intervals, S, chosen, hasMax, maxB, left, maxB', maxIndex', at);
      hasMax, maxB, maxIndex := hasMax', maxB', maxIndex';
      S := S + [maxIndex];
      chosen := chosen + [intervals[at]];
      left := maxB;
      if !(left < R) {
        break;
      }
    }
    FromInput(chosen, intervals, unsortedIntervals);
    res := Some(S);
    if L <= R {
      ChainCoverable(chosen, L, R, unsortedIntervals);
    }
  }

  /**
   * The state of cover's loop: S holds the ids of the chosen intervals of
   * the sorted list, which form a chain from L; once one is chosen, left is
   * the end of the last one, and no interval starting at or before L ends
   * beyond it.
   */
  ghost predicate Progress(L: real, iv: seq<Interval>, S: seq<int>, chosen: seq<Interval>, hasMax: bool, maxB: real, left: real)
  {
    |S| == |chosen| && (hasMax <==> |chosen| > 0) &&
    (forall t :: 0 <= t < |chosen| ==> S[t] == chosen[t].id && chosen[t] in iv) &&
    Chain(chosen, L) &&
    (!hasMax ==> left == L) &&
    (hasMax ==> maxB == left == chosen[|chosen| - 1].b) &&
    (hasMax ==> forall j :: 0 <= j < |iv| && iv[j].a <= L ==> iv[j].b <= maxB)
  }

  /** Taking the round's candidate extends the chain and lowers the count of intervals reaching beyond the best end. */
  lemma TakeCandidate(L: real, iv: seq<Interval>, S: seq<int>, chosen: seq<Interval>, hasMax: bool, maxB: real, left: real,
                      maxB': real, maxIndex': int, at: int)
    requires Progress(L, iv, S, chosen, hasMax, maxB, left)
    requires (!hasMax || maxB' > maxB) && 0 <= at < |iv| && iv[at].a <= left
    requires iv[at].b == maxB' && iv[at].id == maxIndex'
    requires forall j :: 0 <= j < |iv| && iv[j].a <= left ==> iv[j].b <= maxB'
    ensures Progress(L, iv, S + [maxIndex'], chosen + [iv[at]], true, maxB', maxB')
    ensures CountAbove(iv, true, maxB') < CountAbove(iv, hasMax, maxB)
  {
    CountDrops(iv, hasMax, maxB, maxB', at);
    ChainExtend(chosen, L, iv[at]);
    var S', chosen' := S + [maxIndex'], chosen + [iv[at]];
    forall t | 0 <= t < |chosen'| ensures S'[t] == chosen'[t].id && chosen'[t] in iv {
      if t < |chosen| {
        assert S'[t] == S[t] && chosen'[t] == chosen[t];
      }
    }
    forall j | 0 <= j < |iv| && iv[j].a <= L ensures iv[j].b <= maxB' {
      if !hasMax {
        assert iv[j].a <= left;
      }
    }
  }

  /** Elements of the sorted copy are elements of the input. */
  lemma FromInput(chosen: seq<Interval>, iv: seq<Interval>, input: seq<Interval>)
    requires multiset(iv) == multiset(input)
    requires forall t :: 0 <= t < |chosen| ==> chosen[t] in iv
    ensures forall t :: 0 <= t < |chosen| ==> chosen[t] in input
  {
    forall t | 0 <= t < |chosen| ensures chosen[t] in input {
      assert chosen[t] in multiset(iv);
    }
  }

  /** A chain from L reaching R, taken from the input, covers [L, R]. */
  lemma ChainCoverable(chosen: seq<Interval>, L: real, R: real, input: seq<Interval>)
    requires |chosen| >= 1 && Chain(chosen, L) && chosen[|chosen| - 1].b >= R
    requires forall t :: 0 <= t < |chosen| ==> chosen[t] in input
    ensures Coverable(L, R, chosen) && Coverable(L, R, input)
  {
    forall x | L <= x <= R ensures Covered(x, chosen) && Covered(x, input) {
      ChainCovers(chosen, L, x);
      var t :| 0 <= t < |chosen| && chosen[t].a <= x <= chosen[t].b;
      assert chosen[t] in chosen;
    }
  }

  /** Sorting does not change which points are covered. */
  lemma UncoveredInInput(iv: seq<Interval>, input: seq<Interval>, L: real, R: real)
    requires multiset(iv) == multiset(input)
    requires !Coverable(L, R, iv)
    ensures !Coverable(L, R, input)
  {
    var x :| L <= x <= R && !Covered(x, iv);
    forall I | I in input ensures !(I.a <= x <= I.b) {
      assert I in multiset(input);
      assert I in iv;
    }
    assert !Covered(x, input);
  }
}

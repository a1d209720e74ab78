/**
 * Suffix array by prefix doubling (SuffixArray.java). Every suffix carries
 * a key (r1, r2); the list sa is sorted by key, r1 is replaced by the dense
 * rank of the key in sorted order, r2 by the new r1 of the suffix k/2
 * places further on (or -1), and sa is sorted again, k doubling each round.
 * A key for k/2 characters orders the suffixes as their first k/2
 * characters do; once k/2 reaches the length of the string it orders the
 * suffixes themselves.
 */
module SuffixArray {

  // ---------------------------------------------------------------------------
  // Dictionary order

  /** a comes strictly before b in dictionary order; a proper prefix comes first. */
  predicate LexLess(a: string, b: string)
    decreases |a|
  {
    if |a| == 0 then |b| > 0
    else |b| > 0 && (a[0] < b[0] || (a[0] == b[0] && LexLess(a[1..], b[1..])))
  }

  /** No string comes before itself. */
  lemma {:induction false} LexIrreflexive(a: string)
    ensures !LexLess(a, a)
    decreases |a|
  {
    if |a| > 0 {
      LexIrreflexive(a[1..]);
    }
  }

  /** At most one of two strings comes before the other. */
  lemma {:induction false} LexAsymmetric(a: string, b: string)
    ensures !(LexLess(a, b) && LexLess(b, a))
    decreases |a|
  {
    if |a| > 0 && |b| > 0 && a[0] == b[0] {
      LexAsymmetric(a[1..], b[1..]);
    }
  }

  /** A common prefix does not change the order. */
  lemma {:induction false} LexCommon(p: string, a: string, b: string)
    ensures LexLess(p + a, p + b) <==> LexLess(a, b)
    decreases |p|
  {
    if |p| > 0 {
      assert (p + a)[0] == p[0] && (p + b)[0] == p[0];
      assert (p + a)[1..] == p[1..] + a && (p + b)[1..] == p[1..] + b;
      LexCommon(p[1..], a, b);
    } else {
      assert p + a == a && p + b == b;
    }
  }

  /** The first L characters of a, or all of a when it is shorter. */
  function Trunc(a: string, L: nat): (r: string)
    ensures |r| <= L && |r| <= |a|
  {
    if L <= |a| then a[..L] else a
  }

  /** When the first L characters already differ, they decide the order. */
  lemma {:induction false} LexTrunc(a: string, b: string, L: nat)
    requires Trunc(a, L) != Trunc(b, L)
    ensures LexLess(a, b) <==> LexLess(Trunc(a, L), Trunc(b, L))
    decreases L
  {
    var ta, tb := Trunc(a, L), Trunc(b, L);
    if L > 0 && |a| > 0 && |b| > 0 {
      assert ta[0] == a[0] && tb[0] == b[0];
      if a[0] == b[0] {
        assert ta[1..] == Trunc(a[1..], L - 1) && tb[1..] == Trunc(b[1..], L - 1);
        LexTrunc(a[1..], b[1..], L - 1);
      }
    }
  }

  // ---------------------------------------------------------------------------
  // Prefixes of suffixes, and keys

  /** The suffix of s starting at i, cut to its first L characters. */
  function Pre(s: string, i: int, L: int): (r: string)
    requires 0 <= i <= |s| && L >= 0
    ensures |r| == if i + L <= |s| then L else |s| - i
  {
    if i + L <= |s| then s[i..i + L] else s[i..]
  }

  /** Suffix.compareTo: r1 first, then r2, as a difference whose sign is the order. */
  function CompareTo(r1: seq<int>, r2: seq<int>, x: int, y: int): (c: int)
    requires 0 <= x < |r1| && 0 <= y < |r1| && |r2| == |r1|
    ensures c == 0 <==> r1[x] == r1[y] && r2[x] == r2[y]
    ensures c < 0 <==> r1[x] < r1[y] || (r1[x] == r1[y] && r2[x] < r2[y])
  {
    if r1[x] == r1[y] then r2[x] - r2[y] else r1[x] - r1[y]
  }

  /** The key of x is at most the key of y. */
  predicate KeyLE(r1: seq<int>, r2: seq<int>, x: int, y: int)
    requires 0 <= x < |r1| && 0 <= y < |r1| && |r2| == |r1|
  {
    CompareTo(r1, r2, x, y) <= 0
  }

  /** r orders the suffixes of s as their first L characters do, and is never negative. */
  ghost predicate RankOK(s: string, r: seq<int>, L: int)
  {
    |r| == |s| && L >= 1 &&
    (forall x :: 0 <= x < |s| ==> r[x] >= 0) &&
    forall x, y :: 0 <= x < |s| && 0 <= y < |s| ==>
      (r[x] < r[y] <==> LexLess(Pre(s, x, L), Pre(s, y, L))) &&
      (r[x] == r[y] <==> Pre(s, x, L) == Pre(s, y, L))
  }

  /** The keys (r1, r2) order the suffixes of s as their first L characters do. */
  ghost predicate KeyOK(s: string, r1: seq<int>, r2: seq<int>, L: int)
  {
    |r1| == |s| && |r2| == |s| && L >= 0 &&
    forall x, y :: 0 <= x < |s| && 0 <= y < |s| ==>
      (CompareTo(r1, r2, x, y) < 0 <==> LexLess(Pre(s, x, L), Pre(s, y, L))) &&
      (CompareTo(r1, r2, x, y) == 0 <==> Pre(s, x, L) == Pre(s, y, L))
  }

  /** The r2 the loop over suffix assigns: the r1 of the suffix h places on, or -1 past the end. */
  function NextKey(r: seq<int>, h: int): (r2: seq<int>)
    ensures |r2| == |r|
  {
    seq(|r|, i requires 0 <= i < |r| => if 0 <= i + h < |r| then r[i + h] else -1)
  }

  /** The character codes of s. */
  function Codes(s: string): (r: seq<int>)
    ensures |r| == |s|
  {
    seq(|s|, i requires 0 <= i < |s| => s[i] as int)
  }

  /** Character codes rank the first character of each suffix. */
  lemma CodesRank(s: string)
    ensures |s| > 0 ==> RankOK(s, Codes(s), 1)
  {
    forall x, y | 0 <= x < |s| && 0 <= y < |s|
      ensures (Codes(s)[x] < Codes(s)[y] <==> LexLess(Pre(s, x, 1), Pre(s, y, 1))) &&
              (Codes(s)[x] == Codes(s)[y] <==> Pre(s, x, 1) == Pre(s, y, 1))
    {
      assert Pre(s, x, 1) == [s[x]] && Pre(s, y, 1) == [s[y]];
      assert LexLess([s[x]], [s[y]]) <==> s[x] < s[y];
    }
  }

  /** The first 2L characters of the suffix at i: its first L, then the first L of the suffix L places on. */
  lemma PreSplit(s: string, i: int, L: int)
    requires 0 <= i && i + L <= |s| && L >= 0
    ensures Pre(s, i, 2 * L) == Pre(s, i, L) + Pre(s, i + L, L)
    ensures Trunc(Pre(s, i, 2 * L), L) == Pre(s, i, L)
  {
  }

  /** The doubling step for two suffixes whose first L characters differ: those decide. */
  lemma DoublingDiffer(s: string, r: seq<int>, L: int, x: int, y: int)
    requires RankOK(s, r, L) && 0 <= x < |s| && 0 <= y < |s|
    requires Pre(s, x, L) != Pre(s, y, L)
    ensures var r2 := NextKey(r, L);
            (CompareTo(r, r2, x, y) < 0 <==> LexLess(Pre(s, x, 2 * L), Pre(s, y, 2 * L))) &&
            (CompareTo(r, r2, x, y) == 0 <==> Pre(s, x, 2 * L) == Pre(s, y, 2 * L))
  {
    var A2, B2 := Pre(s, x, 2 * L), Pre(s, y, 2 * L);
    assert Trunc(A2, L) == Pre(s, x, L);
    assert Trunc(B2, L) == Pre(s, y, L);
    LexTrunc(A2, B2, L);
  }

  /** The rest after the first L characters compares as the r2 keys do. */
  lemma RestRank(s: string, r: seq<int>, L: int, x: int, y: int)
    requires RankOK(s, r, L) && 0 <= x && x + L <= |s| && 0 <= y && y + L <= |s|
    ensures var r2 := NextKey(r, L);
            (r2[x] < r2[y] <==> LexLess(Pre(s, x + L, L), Pre(s, y + L, L))) &&
            (r2[x] == r2[y] <==> Pre(s, x + L, L) == Pre(s, y + L, L))
  {
    var r2 := NextKey(r, L);
    var C, D := Pre(s, x + L, L), Pre(s, y + L, L);
    assert r2[x] == if x + L < |s| then r[x + L] else -1;
    assert r2[y] == if y + L < |s| then r[y + L] else -1;
    if x + L < |s| && y + L < |s| {
      assert (r[x + L] < r[y + L] <==> LexLess(C, D)) && (r[x + L] == r[y + L] <==> C == D);
    } else if x + L < |s| {
      assert D == [] && |C| > 0 && r[x + L] >= 0;
    } else if y + L < |s| {
      assert C == [] && |D| > 0 && r[y + L] >= 0;
    } else {
      assert C == [] && D == [];
    }
  }

  /** The doubling step for two suffixes whose first L characters agree: the rest decides. */
  lemma DoublingSame(s: string, r: seq<int>, L: int, x: int, y: int)
    requires RankOK(s, r, L) && 0 <= x < |s| && 0 <= y < |s|
    requires Pre(s, x, L) == Pre(s, y, L)
    ensures var r2 := NextKey(r, L);
            (CompareTo(r, r2, x, y) < 0 <==> LexLess(Pre(s, x, 2 * L), Pre(s, y, 2 * L))) &&
            (CompareTo(r, r2, x, y) == 0 <==> Pre(s, x, 2 * L) == Pre(s, y, 2 * L))
  {
    if x + L > |s| || y + L > |s| {
      assert x == y;
      LexIrreflexive(Pre(s, x, 2 * L));
    } else {
      var A := Pre(s, x, L);
      var C, D := Pre(s, x + L, L), Pre(s, y + L, L);
      PreSplit(s, x, L);
      PreSplit(s, y, L);
      LexCommon(A, C, D);
      assert A + C == A + D <==> C == D by {
        if A + C == A + D {
          assert (A + C)[L..] == C && (A + D)[L..] == D;
        }
      }
      RestRank(s, r, L, x, y);
    }
  }

  /**
   * Prefix doubling: when r ranks the first L characters, the keys
   * (r, r shifted by L) order the first 2L characters.
   */
  lemma Doubling(s: string, r: seq<int>, L: int)
    requires RankOK(s, r, L)
    ensures KeyOK(s, r, NextKey(r, L), 2 * L)
  {
    forall x, y | 0 <= x < |s| && 0 <= y < |s|
      ensures (CompareTo(r, NextKey(r, L), x, y) < 0 <==> LexLess(Pre(s, x, 2 * L), Pre(s, y, 2 * L))) &&
              (CompareTo(r, NextKey(r, L), x, y) == 0 <==> Pre(s, x, 2 * L) == Pre(s, y, 2 * L))
    {
      if Pre(s, x, L) != Pre(s, y, L) {
        DoublingDiffer(s, r, L, x, y);
      } else {
        DoublingSame(s, r, L, x, y);
      }
    }
  }

  // ---------------------------------------------------------------------------
  // The list sa: one entry per suffix index

  /** Every entry of sa is a suffix index below n. */
  predicate InRange(sa: seq<int>, n: int)
  {
    forall m :: 0 <= m < |sa| ==> 0 <= sa[m] < n
  }

  /** The indices 0 .. n-1 in increasing order, as the first loop adds them. */
  function Iota(n: nat): (r: seq<int>)
    ensures |r| == n && forall i :: 0 <= i < n ==> r[i] == i
  {
    seq(n, i requires 0 <= i < n => i)
  }

  /** sa holds every suffix index 0 .. n-1 exactly once. */
  ghost predicate IsPerm(sa: seq<int>, n: nat)
  {
    multiset(sa) == multiset(Iota(n))
  }

  /** Each index below n occurs once in Iota(n), others not at all. */
  lemma {:induction false} IotaCount(n: nat, v: int)
    ensures multiset(Iota(n))[v] == if 0 <= v < n then 1 else 0
  {
    if n > 0 {
      assert Iota(n) == Iota(n - 1) + [n - 1];
      IotaCount(n - 1, v);
    }
  }

  /** A value at two positions is counted twice. */
  lemma TwiceCounted(sa: seq<int>, a: int, b: int)
    requires 0 <= a < b < |sa| && sa[a] == sa[b]
    ensures multiset(sa)[sa[a]] >= 2
  {
    assert sa == sa[..b] + sa[b..];
    assert sa[a] in sa[..b] && sa[b] in sa[b..];
  }

  /** A permutation of 0 .. n-1 has length n, stays in range, has no repeats and misses no index. */
  lemma PermFacts(sa: seq<int>, n: nat)
    requires IsPerm(sa, n)
    ensures |sa| == n && InRange(sa, n)
    ensures forall a, b :: 0 <= a < b < |sa| ==> sa[a] != sa[b]
    ensures forall x :: 0 <= x < n ==> x in sa
  {
    assert |sa| == |multiset(sa)| == |multiset(Iota(n))| == n;
    forall m | 0 <= m < |sa|
      ensures 0 <= sa[m] < n
    {
      assert sa[m] in multiset(Iota(n));
    }
    forall a, b | 0 <= a < b < |sa|
      ensures sa[a] != sa[b]
    {
      if sa[a] == sa[b] {
        TwiceCounted(sa, a, b);
        IotaCount(n, sa[a]);
      }
    }
    forall x | 0 <= x < n
      ensures x in sa
    {
      assert Iota(n)[x] == x;
      assert x in multiset(Iota(n));
    }
  }

  /** Where x sits in sa. */
  lemma PositionOf(sa: seq<int>, x: int) returns (a: int)
    requires x in sa
    ensures 0 <= a < |sa| && sa[a] == x
  {
    a :| 0 <= a < |sa| && sa[a] == x;
  }

  /** sa is in key order: no suffix has a smaller key than one before it. */
  predicate Sorted(sa: seq<int>, r1: seq<int>, r2: seq<int>)
    requires |r2| == |r1| && InRange(sa, |r1|)
  {
    forall a, b :: 0 <= a < b < |sa| ==> KeyLE(r1, r2, sa[a], sa[b])
  }

  /** Inserts x after every entry whose key is not larger (so equal keys keep their order). */
  function Insert(x: int, sa: seq<int>, r1: seq<int>, r2: seq<int>): (r: seq<int>)
    requires 0 <= x < |r1| && |r2| == |r1| && InRange(sa, |r1|)
    ensures InRange(r, |r1|) && multiset(r) == multiset(sa) + multiset{x}
  {
    if |sa| == 0 then [x]
    else if CompareTo(r1, r2, x, sa[0]) < 0 then [x] + sa
    else
      assert sa == [sa[0]] + sa[1..];
      [sa[0]] + Insert(x, sa[1..], r1, r2)
  }

  /** Inserting into a sorted list keeps it sorted. */
  lemma {:induction false} InsertSorted(x: int, sa: seq<int>, r1: seq<int>, r2: seq<int>)
    requires 0 <= x < |r1| && |r2| == |r1| && InRange(sa, |r1|)
    requires Sorted(sa, r1, r2)
    ensures Sorted(Insert(x, sa, r1, r2), r1, r2)
    decreases |sa|
  {
    if |sa| > 0 && CompareTo(r1, r2, x, sa[0]) >= 0 {
      var rest := Insert(x, sa[1..], r1, r2);
      InsertSorted(x, sa[1..], r1, r2);
      forall b | 0 <= b < |rest|
        ensures KeyLE(r1, r2, sa[0], rest[b])
      {
        assert rest[b] in multiset(rest);
        if rest[b] != x {
          assert rest[b] in sa[1..];
        }
      }
    }
  }

  /** Collections.sort: a stable sort of sa by compareTo, as insertion sort. */
  function Sort(sa: seq<int>, r1: seq<int>, r2: seq<int>): (r: seq<int>)
    requires |r2| == |r1| && InRange(sa, |r1|)
    ensures InRange(r, |r1|) && multiset(r) == multiset(sa)
    ensures Sorted(r, r1, r2)
  {
    if |sa| == 0 then []
    else
      var prefix := Sort(sa[..|sa| - 1], r1, r2);
      assert sa == sa[..|sa| - 1] + [sa[|sa| - 1]];
      InsertSorted(sa[|sa| - 1], prefix, r1, r2);
      Insert(sa[|sa| - 1], prefix, r1, r2)
  }

  // ---------------------------------------------------------------------------
  // Re-ranking

  /**
   * The rank the re-ranking loop gives the suffix at position m of sa: 0 for
   * the first, then one more each time the key differs from its neighbour's.
   */
  function Dense(r1: seq<int>, r2: seq<int>, sa: seq<int>, m: int): (d: int)
    requires |r2| == |r1| && InRange(sa, |r1|) && 0 <= m < |sa|
    ensures 0 <= d <= m
  {
    if m == 0 then 0
    else Dense(r1, r2, sa, m - 1) + (if CompareTo(r1, r2, sa[m], sa[m - 1]) == 0 then 0 else 1)
  }

  /** Along a sorted list dense ranks never fall, and two agree exactly when the keys do. */
  lemma {:induction false} DenseMono(r1: seq<int>, r2: seq<int>, sa: seq<int>, a: int, b: int)
    requires |r2| == |r1| && InRange(sa, |r1|) && Sorted(sa, r1, r2)
    requires 0 <= a <= b < |sa|
    ensures Dense(r1, r2, sa, a) <= Dense(r1, r2, sa, b)
    ensures Dense(r1, r2, sa, a) == Dense(r1, r2, sa, b) <==> CompareTo(r1, r2, sa[a], sa[b]) == 0
    decreases b
  {
    if a < b {
      DenseMono(r1, r2, sa, a, b - 1);
      if a < b - 1 {
        assert KeyLE(r1, r2, sa[a], sa[b - 1]) && KeyLE(r1, r2, sa[b - 1], sa[b]);
      }
    }
  }

  /** Dense ranks of two suffixes at positions a and b compare as their keys do. */
  lemma DenseRankPair(r1: seq<int>, r2: seq<int>, sa: seq<int>, a: int, b: int)
    requires |r2| == |r1| && InRange(sa, |r1|) && Sorted(sa, r1, r2)
    requires 0 <= a < |sa| && 0 <= b < |sa|
    ensures Dense(r1, r2, sa, a) < Dense(r1, r2, sa, b) <==> CompareTo(r1, r2, sa[a], sa[b]) < 0
    ensures Dense(r1, r2, sa, a) == Dense(r1, r2, sa, b) <==> CompareTo(r1, r2, sa[a], sa[b]) == 0
  {
    if a <= b {
      DenseMono(r1, r2, sa, a, b);
      if a < b {
        assert KeyLE(r1, r2, sa[a], sa[b]);
      }
    } else {
      DenseMono(r1, r2, sa, b, a);
      assert KeyLE(r1, r2, sa[b], sa[a]);
    }
  }

  /**
   * Re-ranking a sorted permutation whose keys order the first L characters
   * yields ranks that order the first L characters.
   */
  lemma DenseRanks(s: string, r1: seq<int>, r2: seq<int>, sa: seq<int>, R: seq<int>, L: int)
    requires KeyOK(s, r1, r2, L) && L >= 1 && IsPerm(sa, |s|)
    requires InRange(sa, |s|) && Sorted(sa, r1, r2) && |R| == |s|
    requires forall m :: 0 <= m < |sa| ==> R[sa[m]] == Dense(r1, r2, sa, m)
    ensures RankOK(s, R, L)
  {
    PermFacts(sa, |s|);
    forall x | 0 <= x < |s|
      ensures R[x] >= 0
    {
      var a := PositionOf(sa, x);
    }
    forall x, y | 0 <= x < |s| && 0 <= y < |s|
      ensures (R[x] < R[y] <==> LexLess(Pre(s, x, L), Pre(s, y, L))) &&
              (R[x] == R[y] <==> Pre(s, x, L) == Pre(s, y, L))
    {
      var a := PositionOf(sa, x);
      var b := PositionOf(sa, y);
      DenseRankPair(r1, r2, sa, a, b);
    }
  }

  /**
   * The re-ranking loop: walking sa in order, each suffix's r1 becomes the
   * running rank, which goes up by one whenever its old (r1, r2) differs from
   * its predecessor's. r2 is only read.
   */
  method ReRank(sa: seq<int>, r1: array<int>, r2: array<int>)
    requires r1 != r2 && r1.Length == r2.Length && |sa| >= 1
    requires IsPerm(sa, r1.Length) && InRange(sa, r1.Length)
    modifies r1
    ensures forall m :: 0 <= m < |sa| ==> r1[sa[m]] == Dense(old(r1[..]), r2[..], sa, m)
  {
    PermFacts(sa, r1.Length);
    ghost var R1, R2 := r1[..], r2[..];
    var rank := 0;
    var previousRank := r1[sa[0]];
    r1[sa[0]] := rank;
    for i := 1 to |sa|
      invariant r2[..] == R2
      invariant forall m :: 0 <= m < i ==> r1[sa[m]] == Dense(R1, R2, sa, m)
      invariant forall m :: i <= m < |sa| ==> r1[sa[m]] == R1[sa[m]]
      invariant rank == Dense(R1, R2, sa, i - 1) && previousRank == R1[sa[i - 1]]
    {
      var x := sa[i];
      ghost var before := r1[..];
      if r1[x] == previousRank && r2[x] == r2[sa[i - 1]] {
        r1[x] := rank;
      } else {
        rank := rank + 1;
        previousRank := r1[x];
        r1[x] := rank;
      }
      assert r1[..] == before[x := rank];
      assert rank == Dense(R1, R2, sa, i);
    }
  }

  /** The loop over suffix: r2 of suffix i becomes r1 of suffix i + h, or -1 past the end. */
  method ShiftRanks(r1: array<int>, r2: array<int>, h: int)
    requires r1 != r2 && r1.Length == r2.Length && h >= 0
    modifies r2
    ensures r2[..] == NextKey(r1[..], h)
  {
    var n := r1.Length;
    for i := 0 to n
      invariant forall j :: 0 <= j < i ==> r2[j] == NextKey(r1[..], h)[j]
    {
      var r := i + h;
      if r < n {
        r2[i] := r1[r];
      } else {
        r2[i] := -1;
      }
    }
  }

  // ---------------------------------------------------------------------------
  // The suffix array

  /** Once L covers the whole string, a key order for L characters orders whole suffixes. */
  lemma WholeSuffixes(s: string, r1: seq<int>, r2: seq<int>, sa: seq<int>, L: int)
    requires KeyOK(s, r1, r2, L) && L >= |s| && IsPerm(sa, |s|)
    requires InRange(sa, |s|) && Sorted(sa, r1, r2)
    ensures forall a, b :: 0 <= a < b < |sa| ==> LexLess(s[sa[a]..], s[sa[b]..])
  {
    PermFacts(sa, |s|);
    forall a, b | 0 <= a < b < |sa|
      ensures LexLess(s[sa[a]..], s[sa[b]..])
    {
      assert KeyLE(r1, r2, sa[a], sa[b]);
      assert Pre(s, sa[a], L) == s[sa[a]..] && Pre(s, sa[b], L) == s[sa[b]..];
      assert |s[sa[a]..]| != |s[sa[b]..]|;
    }
  }

  /**
   * The first loop of the constructor and the last suffix: suffix i gets key
   * (str[i], str[i+1]), the last one (str[n-1], -1), and sa lists 0 .. n-1.
   */
  method InitialKeys(str: string, r1: array<int>, r2: array<int>) returns (sa: seq<int>)
    requires |str| >= 1 && r1 != r2 && r1.Length == |str| && r2.Length == |str|
    modifies r1, r2
    ensures sa == Iota(|str|)
    ensures r1[..] == Codes(str) && r2[..] == NextKey(Codes(str), 1)
  {
    var n := |str|;
    sa := [];
    for i := 0 to n - 1
      invariant sa == Iota(i)
      invariant forall j :: 0 <= j < i ==> r1[j] == Codes(str)[j] && r2[j] == NextKey(Codes(str), 1)[j]
    {
      r1[i], r2[i] := str[i] as int, str[i + 1] as int;
      sa := sa + [i];
    }
    r1[n - 1], r2[n - 1] := str[n - 1] as int, -1;
    sa := sa + [n - 1];
  }

  /**
   * One round of the doubling loop with step k: re-rank along sa, shift the
   * ranks into r2 by k/2, and sort again. Keys for k/2 characters become
   * keys for k characters.
   */
  method Round(str: string, sa: seq<int>, r1: array<int>, r2: array<int>, k: int) returns (sorted: seq<int>)
    requires r1 != r2 && r1.Length == |str| && r2.Length == |str| && |str| >= 1
    requires k >= 2 && k % 2 == 0
    requires IsPerm(sa, |str|) && InRange(sa, |str|) && Sorted(sa, r1[..], r2[..])
    requires KeyOK(str, r1[..], r2[..], k / 2)
    modifies r1, r2
    ensures forall m :: 0 <= m < |sa| ==> r1[sa[m]] == Dense(old(r1[..]), old(r2[..]), sa, m)
    ensures r2[..] == NextKey(r1[..], k / 2)
    ensures sorted == Sort(sa, r1[..], r2[..])
    ensures IsPerm(sorted, |str|) && InRange(sorted, |str|) && Sorted(sorted, r1[..], r2[..])
    ensures KeyOK(str, r1[..], r2[..], k)
  {
    ghost var R1 := r1[..];
    ReRank(sa, r1, r2);
    DenseRanks(str, R1, r2[..], sa, r1[..], k / 2);
    ShiftRanks(r1, r2, k / 2);
    assert 2 * (k / 2) == k;
    Doubling(str, r1[..], k / 2);
    sorted := Sort(sa, r1[..], r2[..]);
  }

  class SuffixArray {
    /** The suffix indices in the order of sa (each Suffix object stands for its index). */
    var sa: seq<int>
    /** The string the array was built from. */
    ghost const str: string

    /** sa is a permutation of 0 .. |str|-1 listing the suffixes in strictly increasing order. */
    ghost predicate Valid()
      reads this
    {
      |str| >= 1 && IsPerm(sa, |str|) && |sa| == |str| && InRange(sa, |str|) &&
      forall a, b :: 0 <= a < b < |sa| ==> LexLess(str[sa[a]..], str[sa[b]..])
    }

    /**
     * Builds the suffix array. The Suffix objects' r1 and r2 fields are the
     * arrays r1 and r2, indexed by suffix index: sa and the list suffix share
     * those objects, so suffix.get(i) is entry i of each array.
     */
    constructor (str: string)
      requires |str| >= 1
      ensures this.str == str && Valid()
    {
      this.str := str;
      var n := |str|;
      var r1 := new int[n];
      var r2 := new int[n];
      var list := InitialKeys(str, r1, r2);
      CodesRank(str);
      Doubling(str, Codes(str), 1);
      list := Sort(list, r1[..], r2[..]);
      var k := 4;
      while k < 2 * n
        invariant k >= 4 && k % 2 == 0
        invariant IsPerm(list, n) && InRange(list, n) && Sorted(list, r1[..], r2[..])
        invariant KeyOK(str, r1[..], r2[..], k / 2)
        decreases 2 * n - k
      {
        list := Round(str, list, r1, r2, k);
        ghost var half := k;
        k := k * 2;
        assert k / 2 == half && k % 2 == 0;
      }
      WholeSuffixes(str, r1[..], r2[..], list, k / 2);
      sa := list;
    }

    /** getSuffix: the start of the i-th suffix in dictionary order. */
    function GetSuffix(i: int): (r: int)
      reads this
      requires Valid() && 0 <= i < |str|
      ensures 0 <= r < |str|
      ensures forall j :: 0 <= j < |str| ==> (j < i <==> LexLess(str[sa[j]..], str[r..]))
    {
      PermFacts(sa, |str|);
      assert forall j :: 0 <= j < |str| && i < j ==> !LexLess(str[sa[j]..], str[sa[i]..]) by {
        forall j | 0 <= j < |str| && i < j
          ensures !LexLess(str[sa[j]..], str[sa[i]..])
        {
          LexAsymmetric(str[sa[i]..], str[sa[j]..]);
        }
      }
      LexIrreflexive(str[sa[i]..]);
      sa[i]
    }
  }
}

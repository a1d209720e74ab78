/**
 * Prefix sums over a 1-indexed array with a Fenwick (binary indexed) tree,
 * as in FenwickTree.java: slot m of `sums` holds the sum of the elements
 * (m - LowBit(m), m]; `add` walks up the low-bit chain and `sum` walks down.
 * Java's `long` is modelled by unbounded integers.
 */
module Fenwick {

  /** The lowest set bit of a positive integer, i.e. Java's `i & (-i)`. */
  function LowBit(i: int): (r: int)
    requires i > 0
    ensures 1 <= r <= i
  {
    if i % 2 == 1 then 1 else 2 * LowBit(i / 2)
  }

  /** What is left of i once its trailing zero bits are removed. */
  function OddPart(i: int): int
    requires i > 0
  {
    if i % 2 == 1 then i else OddPart(i / 2)
  }

  /** LowBit(i) is the largest power of two dividing i: i is LowBit(i) times an odd number. */
  lemma {:induction false} LowBitDivides(i: int)
    requires i > 0
    ensures i == LowBit(i) * OddPart(i) && OddPart(i) % 2 == 1
  {
    if i % 2 == 0 {
      LowBitDivides(i / 2);
      var h, k := LowBit(i / 2), OddPart(i / 2);
      calc {
        LowBit(i) * OddPart(i);
        (2 * h) * k;
        { assert (2 * h) * k == 2 * (h * k); }
        2 * (i / 2);
      }
    }
  }

  /** Below the low bit of j, adding t to j does not disturb t's low bit. */
  lemma {:induction false} LowBitShift(j: int, t: int)
    requires j > 0 && 0 < t < LowBit(j)
    ensures LowBit(j + t) == LowBit(t)
  {
    if j % 2 == 0 && t % 2 == 0 {
      LowBitShift(j / 2, t / 2);
      assert (j + t) / 2 == j / 2 + t / 2;
    }
  }

  /** Stepping up by the low bit at least doubles it. */
  lemma {:induction false} LowBitNext(j: int)
    requires j > 0
    ensures LowBit(j + LowBit(j)) >= 2 * LowBit(j)
  {
    if j % 2 == 0 {
      LowBitNext(j / 2);
      assert (j + LowBit(j)) / 2 == j / 2 + LowBit(j / 2);
    }
  }

  /** The sum of the first i elements a[1..i] of the 1-indexed array a (a[0] is unused). */
  function Total(a: seq<int>, i: nat): int
    requires i < |a|
  {
    if i == 0 then 0 else Total(a, i - 1) + a[i]
  }

  /** Adding d to element i raises every prefix sum that includes it by d and leaves the others. */
  lemma {:induction false} TotalUpdate(a: seq<int>, i: nat, d: int, k: nat)
    requires 1 <= i < |a| && k < |a|
    ensures Total(a[i := a[i] + d], k) == Total(a, k) + (if k >= i then d else 0)
  {
    if k > 0 {
      TotalUpdate(a, i, d, k - 1);
    }
  }

  /** Every prefix sum of an all-zero array is 0. */
  lemma {:induction false} TotalZero(a: seq<int>, k: nat)
    requires k < |a| && forall m :: 0 <= m < |a| ==> a[m] == 0
    ensures Total(a, k) == 0
  {
    if k > 0 {
      TotalZero(a, k - 1);
    }
  }

  /** Slot m of the tree is responsible for the elements (m - LowBit(m), m]. */
  function Range(a: seq<int>, m: int): int
    requires 0 < m < |a|
  {
    Total(a, m) - Total(a, m - LowBit(m))
  }

  /** Slot m is on the update chain of element i: i lies in (m - LowBit(m), m]. */
  predicate Covers(m: int, i: int)
    requires m > 0
  {
    m - LowBit(m) < i <= m
  }

  /** Adding d to element i grows exactly the slots covering i, by d. */
  lemma RangeUpdate(a: seq<int>, i: nat, d: int, m: int)
    requires 1 <= i < |a| && 0 < m < |a|
    ensures Range(a[i := a[i] + d], m) == Range(a, m) + (if Covers(m, i) then d else 0)
  {
    TotalUpdate(a, i, d, m);
    TotalUpdate(a, i, d, m - LowBit(m));
  }

  /** No slot strictly between j and the next chain slot j + LowBit(j) covers an element up to j. */
  lemma ChainGap(j: int, i: int, m: int)
    requires 0 < i <= j < m < j + LowBit(j)
    ensures !Covers(m, i)
  {
    LowBitShift(j, m - j);
  }

  /** The next chain slot still covers i. */
  lemma ChainNext(j: int, i: int)
    requires 0 < i && j > 0 && Covers(j, i)
    ensures Covers(j + LowBit(j), i)
  {
    LowBitNext(j);
  }

  class FenwickTree {
    /** The tree slots; slot 0 is unused. */
    var sums: array<int>
    /** n + 1, one more than the number of elements. */
    var size: int
    /** The underlying 1-indexed array the tree summarises (elems[0] is unused and 0). */
    ghost var elems: seq<int>

    ghost predicate Valid()
      reads this, sums
    {
      sums.Length == size >= 1 && |elems| == size && elems[0] == 0 &&
      forall m :: 0 < m < size ==> sums[m] == Range(elems, m)
    }

    /** A tree over n elements, all 0. */
    constructor(n: int)
      requires n >= 0
      ensures Valid() && fresh(sums)
      ensures size == n + 1 && elems == seq(n + 1, _ => 0)
    {
      size := n + 1;
      sums := new int[n + 1](_ => 0);
      elems := seq(n + 1, _ => 0);
      new;
      forall m | 0 < m < size ensures sums[m] == Range(elems, m) {
        TotalZero(elems, m);
        TotalZero(elems, m - LowBit(m));
      }
    }

    /** Add d to element i: every slot whose range contains i, and only those, grows by d. */
    method Add(i: int, d: int)
      requires Valid() && 1 <= i < size
      modifies this, sums
      ensures Valid() && size == old(size) && sums == old(sums)
      ensures elems == old(elems)[i := old(elems)[i] + d]
    {
      ghost var a := elems;
      elems := elems[i := elems[i] + d];
      forall m | 0 < m < size ensures Range(elems, m) == Range(a, m) + (if Covers(m, i) then d else 0) {
        RangeUpdate(a, i, d, m);
      }
      var j := i;
      while j < size
        modifies sums
        invariant i <= j && Covers(j, i)
        invariant forall m :: 0 < m < size && !(m >= j && Covers(m, i)) ==> sums[m] == Range(elems, m)
        invariant forall m :: 0 < m < size && m >= j && Covers(m, i) ==> sums[m] == Range(a, m)
        decreases size - j
      {
        sums[j] := sums[j] + d;
        forall m | j < m < j + LowBit(j) ensures !Covers(m, i) {
          ChainGap(j, i, m);
        }
        ChainNext(j, i);
        j := j + LowBit(j);
      }
    }

    /** The sum of the first i elements; 0 when i <= 0. */
    method Sum(i: int) returns (sum: int)
      requires Valid() && i < size
      ensures sum == if i <= 0 then 0 else Total(elems, i)
    {
      sum := 0;
      var j := i;
      while j > 0
        invariant j <= i && (j > 0 ==> sum + Total(elems, j) == Total(elems, i))
        invariant j <= 0 ==> sum == if i <= 0 then 0 else Total(elems, i)
        decreases j
      {
        sum := sum + sums[j];
        j := j - LowBit(j);
      }
    }
  }

  /** A new tree: every prefix sum is 0. */
  lemma NewTreeSumsZero(n: nat, i: nat)
    requires i <= n
    ensures Total(seq(n + 1, _ => 0), i) == 0
  {
    TotalZero(seq(n + 1, _ => 0), i);
  }

  /** After add(i, d), sum(j) grows by d for j >= i and is unchanged for j < i. */
  lemma AddShiftsSums(a: seq<int>, i: nat, d: int)
    requires 1 <= i < |a|
    ensures forall j :: 0 <= j < |a| ==> Total(a[i := a[i] + d], j) == Total(a, j) + (if j >= i then d else 0)
  {
    forall j | 0 <= j < |a| ensures Total(a[i := a[i] + d], j) == Total(a, j) + (if j >= i then d else 0) {
      TotalUpdate(a, i, d, j);
    }
  }
}

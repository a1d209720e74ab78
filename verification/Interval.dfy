/**
 * The immutable interval record of Interval.java: a lower bound a, an
 * upper bound b and an id that survives sorting. Java's doubles are
 * modelled by reals (no NaN, no infinities); the ordering compares lower
 * bounds only.
 */
module Intervals {

  datatype Interval = Interval(a: real, b: real, id: int)

  /** compareTo: 0 on equal lower bounds, -1 when this one's is smaller, 1 otherwise. */
  function CompareTo(x: Interval, y: Interval): (r: int)
    ensures r == 0 <==> x.a == y.a
    ensures r == -1 <==> x.a < y.a
    ensures r == 1 <==> x.a > y.a
  {
    if x.a == y.a then 0
    else if x.a < y.a then -1
    else 1
  }

  /**
   * compareTo is a total preorder on the lower bound, as Comparable asks:
   * it is antisymmetric in sign, transitive, and consistent with equality
   * of lower bounds (it ignores b and id).
   */
  lemma CompareToPreorder(x: Interval, y: Interval, z: Interval)
    ensures CompareTo(x, y) == -CompareTo(y, x)
    ensures CompareTo(x, y) <= 0 && CompareTo(y, z) <= 0 ==> CompareTo(x, z) <= 0
    ensures CompareTo(x, y) == 0 ==> CompareTo(x, z) == CompareTo(y, z)
    ensures x.a == y.a ==> CompareTo(x, z) == CompareTo(y, z)
  {
  }
}

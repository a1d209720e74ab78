/**
 * The brute-force meaning of "a pattern occurs in a text", shared by the
 * single-pattern (KMP) and the multi-pattern (Aho-Corasick) matchers.
 * Texts and patterns are Java strings, i.e. sequences of chars.
 */
module StringSpec {

  /** `pat` occurs in `text` starting at offset `p`. */
  predicate OccursAt(text: string, pat: string, p: int)
  {
    0 <= p && p + |pat| <= |text| && text[p..p + |pat|] == pat
  }

  /** `pat` is a suffix of `s`. */
  predicate IsSuffix(pat: string, s: string)
  {
    |pat| <= |s| && s[|s| - |pat|..] == pat
  }

  /**
   * The start offsets, in increasing order, of the occurrences of `pat`
   * that end at or before position `end` of `text`.
   */
  function OccurrencesBefore(text: string, pat: string, end: nat): (r: seq<int>)
    requires |pat| >= 1 && end <= |text|
    decreases end
  {
    if end == 0 then []
    else
      OccurrencesBefore(text, pat, end - 1) +
      (if end >= |pat| && text[end - |pat|..end] == pat then [end - |pat|] else [])
  }

  /** Every start offset of `pat` in `text`, overlaps included, ascending. */
  function Occurrences(text: string, pat: string): seq<int>
    requires |pat| >= 1
  {
    OccurrencesBefore(text, pat, |text|)
  }

  /** The list is strictly increasing. */
  predicate StrictlyIncreasing(s: seq<int>)
  {
    forall a, b :: 0 <= a < b < |s| ==> s[a] < s[b]
  }

  /** An occurrence ending at `end` is the same thing as `pat` being a suffix of `text[..end]`. */
  lemma EndingAtIsSuffix(text: string, pat: string, end: nat)
    requires end <= |text|
    ensures (end >= |pat| && text[end - |pat|..end] == pat) <==> IsSuffix(pat, text[..end])
  {
    if end >= |pat| {
      assert text[..end][end - |pat|..] == text[end - |pat|..end];
    }
  }

  /**
   * OccurrencesBefore lists exactly the offsets of occurrences that end by
   * `end`, in strictly increasing order, each below `end`.
   */
  lemma {:induction false} OccurrencesBeforeSpec(text: string, pat: string, end: nat)
    requires |pat| >= 1 && end <= |text|
    ensures forall p :: p in OccurrencesBefore(text, pat, end) <==> OccursAt(text, pat, p) && p + |pat| <= end
    ensures StrictlyIncreasing(OccurrencesBefore(text, pat, end))
    ensures forall p :: p in OccurrencesBefore(text, pat, end) ==> p + |pat| <= end
    decreases end
  {
    if end > 0 {
      OccurrencesBeforeSpec(text, pat, end - 1);
      var prev := OccurrencesBefore(text, pat, end - 1);
      forall p
        ensures p in OccurrencesBefore(text, pat, end) <==> OccursAt(text, pat, p) && p + |pat| <= end
      {
        if p + |pat| == end {
          assert p !in prev;
        }
      }
      var r := OccurrencesBefore(text, pat, end);
      forall a, b | 0 <= a < b < |r| ensures r[a] < r[b] {
        if b >= |prev| {
          assert r[a] == prev[a] && prev[a] in prev;
        }
      }
    }
  }

  /**
   * The defining property of the matchers: Occurrences(text, pat) is the
   * strictly increasing list of every offset p at which `pat` occurs.
   */
  lemma OccurrencesSpec(text: string, pat: string)
    requires |pat| >= 1
    ensures forall p :: p in Occurrences(text, pat) <==> OccursAt(text, pat, p)
    ensures StrictlyIncreasing(Occurrences(text, pat))
  {
    OccurrencesBeforeSpec(text, pat, |text|);
  }
}

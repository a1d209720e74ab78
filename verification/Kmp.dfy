/**
 * Single-pattern matching with Knuth-Morris-Pratt, as in
 * StringMatch.find(String pattern, String text): a failure ("jump") table
 * is filled in one loop, then the text is scanned once with two cursors.
 */
module Kmp {
  import opened StringSpec

  /** `k` is a border of the first `m` symbols of `p`: a proper prefix that is also a suffix. */
  ghost predicate IsBorder(p: string, m: nat, k: nat)
    requires m <= |p|
  {
    k < m && forall t :: 0 <= t < k ==> p[t] == p[m - k + t]
  }

  /** `k` is the longest border of the first `m` symbols of `p`. */
  ghost predicate IsLongestBorder(p: string, m: nat, k: nat)
    requires m <= |p|
  {
    IsBorder(p, m, k) && forall k': nat :: IsBorder(p, m, k') ==> k' <= k
  }

  /** The meaning of the jump table: jump[i] is the longest border of p[..i+1]. */
  ghost predicate IsJumpTable(p: string, jump: seq<int>)
  {
    |jump| == |p| &&
    forall i :: 0 <= i < |p| ==> 0 <= jump[i] && IsLongestBorder(p, i + 1, jump[i])
  }

  /** The first `k` symbols of `p` equal the `k` symbols of `text` just before position `i`. */
  ghost predicate Matched(p: string, text: string, i: nat, k: nat)
  {
    k <= |p| && k <= i <= |text| && forall t :: 0 <= t < k ==> p[t] == text[i - k + t]
  }

  /** A border of a border is a border. */
  lemma BorderTrans(p: string, m: nat, j: nat, k: nat)
    requires m <= |p| && IsBorder(p, m, j) && IsBorder(p, j, k)
    ensures IsBorder(p, m, k)
  {
    forall t | 0 <= t < k ensures p[t] == p[m - k + t] {
      assert p[t] == p[j - k + t];
      assert p[j - k + t] == p[m - j + (j - k + t)];
    }
  }

  /** A shorter border of p[..m] is a border of the longer border p[..j]. */
  lemma BorderOfBorder(p: string, m: nat, j: nat, k: nat)
    requires m <= |p| && IsBorder(p, m, j) && IsBorder(p, m, k) && k < j
    ensures IsBorder(p, j, k)
  {
    forall t | 0 <= t < k ensures p[t] == p[j - k + t] {
      assert p[t] == p[m - k + t];
      assert p[j - k + t] == p[m - j + (j - k + t)];
    }
  }

  /** Matching the jump-table shape: jump[i] <= i, so a jump always shrinks the candidate. */
  lemma JumpBelowIndex(p: string, jump: seq<int>, i: nat)
    requires IsJumpTable(p, jump) && i < |p|
    ensures 0 <= jump[i] <= i
  {
  }

  /**
   * Fill the jump table: jump[0] == 0, and for each i, jump[i] is the length
   * of the longest proper prefix of p that is also a suffix of p[..i+1].
   */
  method BuildJump(p: string) returns (jump: array<int>)
    ensures fresh(jump)
    ensures IsJumpTable(p, jump[..])
  {
    var n := |p|;
    jump := new int[n](_ => 0);
    if n == 0 {
      return;
    }
    var i := 1;
    while i < n
      invariant 1 <= i <= n
      invariant forall i' :: 0 <= i' < i ==> 0 <= jump[i'] && IsLongestBorder(p, i' + 1, jump[i'])
    {
      var j := LongestBorderAt(p, jump, i);
      jump[i] := j;
      i := i + 1;
    }
  }

  /**
   * One entry of the jump table from the entries before it: the longest
   * proper border of p[..i+1], found by falling back through the borders
   * of p[..i] until one extends by p[i].
   */
  method LongestBorderAt(p: string, jump: array<int>, i: int) returns (j: int)
    requires 1 <= i < |p| == jump.Length
    requires forall i' :: 0 <= i' < i ==> 0 <= jump[i'] && IsLongestBorder(p, i' + 1, jump[i'])
    ensures 0 <= j && IsLongestBorder(p, i + 1, j)
  {
    j := jump[i - 1];
    ghost var m := i + 1;
    forall k: nat | IsBorder(p, m, k) && k > 0 ensures k - 1 <= j {
      assert p[k - 1] == p[i];
      assert IsBorder(p, i, k - 1);
    }
    while j > 0 && p[i] != p[j]
      invariant 0 <= j < i
      invariant IsBorder(p, i, j)
      invariant forall k: nat :: IsBorder(p, m, k) && k > 0 ==> k - 1 <= j
      decreases j
    {
      forall k: nat | IsBorder(p, m, k) && k > 0
        ensures k - 1 <= jump[j - 1]
      {
        assert p[k - 1] == p[i];
        assert IsBorder(p, i, k - 1);
        if k - 1 < j {
          BorderOfBorder(p, i, j, k - 1);
        }
      }
      BorderTrans(p, i, j, jump[j - 1]);
      j := jump[j - 1];
    }
    if p[i] == p[j] {
      j := j + 1;
    } else {
      forall k: nat | IsBorder(p, m, k) ensures k == 0 {
      }
    }
  }

  /** Nothing longer than `j` (and shorter than the pattern) can still be extended at position `i`. */
  ghost predicate DeadAbove(p: string, text: string, i: nat, j: nat)
  {
    forall k: nat :: j < k <= |p| && Matched(p, text, i, k) ==>
      k == |p| || (i < |text| && p[k] != text[i])
  }

  /** After consuming text[i], no prefix longer than j+1 ends at i+1, and j+1 only if text[i] extends the match. */
  lemma Advance(p: string, text: string, i: nat, j: nat, next: nat)
    requires next == i + 1
    requires j < |p| && i < |text| && Matched(p, text, i, j) && DeadAbove(p, text, i, j)
    ensures forall k: nat :: Matched(p, text, next, k) && k > 0 ==>
      k <= j + 1 && (k == j + 1 ==> p[j] == text[i])
  {
    forall k: nat | Matched(p, text, next, k) && k > 0
      ensures k <= j + 1 && (k == j + 1 ==> p[j] == text[i])
    {
      assert p[k - 1] == text[i];
      assert Matched(p, text, i, k - 1);
    }
  }

  /** Two prefixes ending at the same place: the shorter one is a border of the longer one. */
  lemma MatchedBorder(p: string, text: string, i: nat, j: nat, k: nat)
    requires Matched(p, text, i, j) && Matched(p, text, i, k) && k < j
    ensures IsBorder(p, j, k)
  {
    forall t | 0 <= t < k ensures p[t] == p[j - k + t] {
      assert p[j - k + t] == text[i - j + (j - k + t)];
    }
  }

  /** Jumping to the border of a matched prefix keeps it matched. */
  lemma MatchedJump(p: string, text: string, i: nat, j: nat, k: nat)
    requires Matched(p, text, i, j) && j <= |p| && IsBorder(p, j, k)
    ensures Matched(p, text, i, k)
  {
    forall t | 0 <= t < k ensures p[t] == text[i - k + t] {
      assert p[t] == p[j - k + t];
    }
  }

  /** A full match ending at `end` is an occurrence ending there. */
  lemma MatchedFull(p: string, text: string, end: nat)
    requires |p| >= 1 && end <= |text|
    ensures Matched(p, text, end, |p|) <==> (end >= |p| && text[end - |p|..end] == p)
  {
    if end >= |p| && text[end - |p|..end] == p {
      forall t | 0 <= t < |p| ensures p[t] == text[end - |p| + t] {
        assert text[end - |p|..end][t] == text[end - |p| + t];
      }
    }
  }

  /** The scan's loop invariant, with `ans` the offsets recorded so far. */
  ghost predicate ScanInv(p: string, text: string, i: nat, j: nat, ans: seq<int>)
  {
    |p| >= 1 && j < |p| && i <= |text| &&
    Matched(p, text, i, j) && DeadAbove(p, text, i, j) &&
    ans == OccurrencesBefore(text, p, i)
  }

  /** text[i] extends the current match: both cursors advance, recording an occurrence iff the whole pattern is now matched. */
  lemma StepMatch(p: string, text: string, i: nat, j: nat, ans: seq<int>, next: nat)
    requires next == i + 1
    requires ScanInv(p, text, i, j, ans) && i < |text| && p[j] == text[i]
    ensures Matched(p, text, next, j + 1)
    ensures forall k: nat :: Matched(p, text, next, k) ==> k <= j + 1
    ensures OccurrencesBefore(text, p, next) == ans + (if j + 1 == |p| then [next - |p|] else [])
  {
    Advance(p, text, i, j, next);
    forall t | 0 <= t < j + 1 ensures p[t] == text[next - (j + 1) + t] {
      if t < j {
        assert p[t] == text[i - j + t];
      }
    }
    assert Matched(p, text, next, j + 1);
    MatchedFull(p, text, next);
    if j + 1 < |p| {
      assert !Matched(p, text, next, |p|);
      assert !(next >= |p| && text[next - |p|..next] == p);
    } else {
      assert next >= |p| && text[next - |p|..next] == p;
    }
  }

  /**
   * The state between the two halves of a scan step: j symbols matched
   * before i, possibly the whole pattern, whose occurrence ans does not
   * list yet.
   */
  ghost predicate MidInv(p: string, text: string, i: nat, j: nat, ans: seq<int>)
  {
    |p| >= 1 && j <= |p| && i <= |text| &&
    Matched(p, text, i, j) && (j < |p| ==> DeadAbove(p, text, i, j)) &&
    ans + (if j == |p| then [i - |p|] else []) == OccurrencesBefore(text, p, i)
  }

  /** The first half of a step when text[i] extends the match. */
  lemma Consume(p: string, text: string, i: nat, j: nat, ans: seq<int>)
    requires ScanInv(p, text, i, j, ans) && i < |text| && p[j] == text[i]
    ensures MidInv(p, text, i + 1, j + 1, ans)
  {
    StepMatch(p, text, i, j, ans, i + 1);
    if j + 1 < |p| {
      MaxIsDead(p, text, i + 1, j + 1);
    }
  }

  /** The first half of a step when text[i] does not extend the match. */
  lemma Pause(p: string, text: string, i: nat, j: nat, ans: seq<int>)
    requires ScanInv(p, text, i, j, ans)
    ensures MidInv(p, text, i, j, ans)
  {
  }

  /** Short of a full match, the mid-step state is the scan's invariant. */
  lemma Resume(p: string, text: string, i: nat, j: nat, ans: seq<int>)
    requires MidInv(p, text, i, j, ans) && j < |p|
    ensures ScanInv(p, text, i, j, ans)
  {
  }

  /** Without a longer candidate, the state is dead above j. */
  lemma MaxIsDead(p: string, text: string, i: nat, j: nat)
    requires forall k: nat :: Matched(p, text, i, k) ==> k <= j
    ensures DeadAbove(p, text, i, j)
  {
  }

  /** After a full match, resuming at the longest border of the pattern re-establishes the invariant. */
  lemma ResumeAfterMatch(p: string, text: string, jump: seq<int>, i: nat, ans: seq<int>)
    requires IsJumpTable(p, jump) && |p| >= 1 && i <= |text|
    requires Matched(p, text, i, |p|) && ans == OccurrencesBefore(text, p, i)
    ensures 0 <= jump[|p| - 1] < |p|
    ensures ScanInv(p, text, i, jump[|p| - 1], ans)
  {
    var n := |p|;
    var b := jump[n - 1];
    forall k: nat | b < k <= n && Matched(p, text, i, k) ensures k == n {
      if k < n {
        MatchedBorder(p, text, i, n, k);
      }
    }
    MatchedJump(p, text, i, n, b);
  }

  /** On a mismatch after a partial match, falling back to jump[j-1] re-establishes the invariant. */
  lemma FallBack(p: string, text: string, jump: seq<int>, i: nat, j: nat, ans: seq<int>)
    requires IsJumpTable(p, jump) && ScanInv(p, text, i, j, ans)
    requires 0 < j && i < |text| && p[j] != text[i]
    ensures 0 <= jump[j - 1] < j
    ensures ScanInv(p, text, i, jump[j - 1], ans)
  {
    var b := jump[j - 1];
    forall k: nat | b < k <= |p| && Matched(p, text, i, k)
      ensures k == |p| || (i < |text| && p[k] != text[i])
    {
      if k < j {
        MatchedBorder(p, text, i, j, k);
      }
    }
    MatchedJump(p, text, i, j, b);
  }

  /** On a mismatch with nothing matched, the text cursor alone advances. */
  lemma Skip(p: string, text: string, i: nat, ans: seq<int>)
    requires ScanInv(p, text, i, 0, ans) && i < |text| && p[0] != text[i]
    ensures ScanInv(p, text, i + 1, 0, ans)
  {
    Advance(p, text, i, 0, i + 1);
    assert DeadAbove(p, text, i + 1, 0);
    MatchedFull(p, text, i + 1);
    assert !(i + 1 >= |p| && text[i + 1 - |p|..i + 1] == p);
  }

  /**
   * One turn of the scan loop: when text[i] extends the match, both
   * cursors advance; then the second half of the turn follows.
   */
  method ScanStep(pattern: string, text: string, jump: seq<int>, i0: nat, j0: nat, ans0: seq<int>)
    returns (i: nat, j: nat, ans: seq<int>)
    requires IsJumpTable(pattern, jump) && ScanInv(pattern, text, i0, j0, ans0) && i0 < |text|
    ensures ScanInv(pattern, text, i, j, ans)
    ensures i0 < i || (i == i0 && j < j0)
  {
    if pattern[j0] == text[i0] {
      Consume(pattern, text, i0, j0, ans0);
      i, j, ans := Settle(pattern, text, jump, i0 + 1, j0 + 1, ans0);
    } else {
      Pause(pattern, text, i0, j0, ans0);
      i, j, ans := Settle(pattern, text, jump, i0, j0, ans0);
    }
  }

  /**
   * The second half of a turn: record a full match and resume at the
   * pattern's longest border; on a mismatch, fall back along the jump
   * table, or move the text cursor when nothing is matched.
   */
  method Settle(pattern: string, text: string, jump: seq<int>, i0: nat, j0: nat, ans0: seq<int>)
    returns (i: nat, j: nat, ans: seq<int>)
    requires IsJumpTable(pattern, jump) && MidInv(pattern, text, i0, j0, ans0)
    ensures ScanInv(pattern, text, i, j, ans)
    ensures i0 < i || (i == i0 && (j < j0 || (j == j0 && (i == |text| || pattern[j] == text[i]))))
  {
    i, j, ans := i0, j0, ans0;
    if j == |pattern| {
      ans := ans + [i - j];
      ResumeAfterMatch(pattern, text, jump, i, ans);
      j := jump[j - 1];
    } else {
      Resume(pattern, text, i, j, ans);
      if i < |text| && pattern[j] != text[i] {
        if j != 0 {
          FallBack(pattern, text, jump, i, j, ans);
          j := jump[j - 1];
        } else {
          Skip(pattern, text, i, ans);
          i := i + 1;
        }
      }
    }
  }

  /**
   * KMP find: with a non-empty pattern, returns exactly the offsets p where
   * text[p..p+|pattern|) equals the pattern, in strictly increasing order,
   * overlapping occurrences included.
   */
  method Find(pattern: string, text: string) returns (ans: seq<int>)
    requires |pattern| >= 1
    ensures ans == Occurrences(text, pattern)
    ensures forall p :: p in ans <==> OccursAt(text, pattern, p)
    ensures StrictlyIncreasing(ans)
  {
    var n := |pattern|;
    var jumpArray := BuildJump(pattern);
    var jump := jumpArray[..];
    var i: nat, j: nat := 0, 0;
    ans := [];
    while i < |text|
      invariant IsJumpTable(pattern, jump)
      invariant ScanInv(pattern, text, i, j, ans)
      decreases |text| - i, j
    {
      i, j, ans := ScanStep(pattern, text, jump, i, j, ans);
    }
    OccurrencesSpec(text, pattern);
  }
}

/**
 * `String.trimmingCharacters(while:)` (Extensions/String+trimmingCharacters.swift):
 * drop the characters satisfying a predicate from both ends. The result is a
 * substring, modelled by its bounds in the original string.
 */
module Trimming {
  /** Where the forward scan from i stops: the first index from i on whose character fails `pred`. */
  function FrontIndex(s: string, pred: char -> bool, i: nat): (r: nat)
    requires i <= |s|
    ensures i <= r <= |s|
    ensures forall k :: i <= k < r ==> pred(s[k])
    ensures r < |s| ==> !pred(s[r])
    decreases |s| - i
  {
    if i < |s| && pred(s[i]) then FrontIndex(s, pred, i + 1) else i
  }

  /**
   * Where the backward scan from the exclusive end j stops, never going
   * below lo: one past the last character before j that fails `pred`.
   */
  function BackIndex(s: string, pred: char -> bool, lo: nat, j: nat): (r: nat)
    requires lo <= j <= |s|
    ensures lo <= r <= j
    ensures forall k :: r <= k < j ==> pred(s[k])
    ensures r > lo ==> !pred(s[r - 1])
    decreases j
  {
    if j > lo && pred(s[j - 1]) then BackIndex(s, pred, lo, j - 1) else j
  }

  /** The characters the trimmed substring keeps. */
  function Trim(s: string, pred: char -> bool): string
  {
    var a := FrontIndex(s, pred, 0);
    s[a..BackIndex(s, pred, a, |s|)]
  }

  /**
   * The two `while` loops of the source: `idx` forward past the leading
   * matches, then (when at least two characters remain) `backIdx` backward
   * from the last character. The back loop has no bound check: it stops at
   * the latest at `idx`, whose character fails the predicate.
   */
  method TrimmingCharacters(s: string, pred: char -> bool) returns (start: nat, end: nat)
    ensures start <= end <= |s|
    ensures s[start..end] == Trim(s, pred)
    ensures forall k :: 0 <= k < start ==> pred(s[k])
    ensures forall k :: end <= k < |s| ==> pred(s[k])
    ensures start < end ==> !pred(s[start]) && !pred(s[end - 1])
    ensures start == end <==> forall k :: 0 <= k < |s| ==> pred(s[k])
  {
    var idx := 0;
    while idx < |s| && pred(s[idx])
      invariant idx <= |s|
      invariant forall k :: 0 <= k < idx ==> pred(s[k])
      invariant FrontIndex(s, pred, idx) == FrontIndex(s, pred, 0)
    {
      idx := idx + 1;
    }
    if idx == |s| {
      return |s|, |s|;
    }
    var beforeEnd := |s| - 1;
    if !(idx < beforeEnd) {
      assert BackIndex(s, pred, idx, |s|) == |s|;
      return idx, |s|;
    }
    var backIdx := beforeEnd;
    while pred(s[backIdx])
      invariant idx <= backIdx < |s|
      invariant forall k :: backIdx < k < |s| ==> pred(s[k])
      invariant BackIndex(s, pred, idx, backIdx + 1) == BackIndex(s, pred, idx, |s|)
      decreases backIdx
    {
      backIdx := backIdx - 1;
    }
    return idx, backIdx + 1;
  }

  /** The forward scan of a string that starts with a non-match does not move. */
  lemma {:induction false} FrontIndexOfTrimmed(t: string, pred: char -> bool)
    requires t != [] ==> !pred(t[0])
    ensures FrontIndex(t, pred, 0) == 0
  {
  }

  /**
   * Trimming is idempotent: what is left starts and ends with a character
   * that fails the predicate, so neither scan moves the second time.
   */
  lemma TrimIdempotent(s: string, pred: char -> bool)
    ensures Trim(Trim(s, pred), pred) == Trim(s, pred)
  {
    var a := FrontIndex(s, pred, 0);
    var b := BackIndex(s, pred, a, |s|);
    var t := s[a..b];
    if a < b {
      assert t[0] == s[a];
      assert t[|t| - 1] == s[b - 1];
    }
    FrontIndexOfTrimmed(t, pred);
    assert BackIndex(t, pred, 0, |t|) == |t|;
    assert t[0..|t|] == t;
  }
}

/**
 * Utility.swift: the prefix sum `scan` and `withArrayOfIovecs`, which lays
 * a list of strings out NUL-terminated in one buffer and describes each by
 * an iovec (base offset and length without the NUL). Strings are modelled
 * by their UTF-8 bytes; the buffer's address is left out, so an iovec's
 * base is an offset into the buffer.
 */
module Utility {
  newtype byte = b: int | 0 <= b < 256

  /** The fold of the first n elements: what `scan` holds after n steps. */
  function FoldPrefix<U, E>(xs: seq<E>, initial: U, combine: (U, E) -> U, n: nat): U
    requires n <= |xs|
  {
    if n == 0 then initial else combine(FoldPrefix(xs, initial, combine, n - 1), xs[n - 1])
  }

  /** `scan`: the running result after each element, in order. */
  method Scan<U, E>(xs: seq<E>, initial: U, combine: (U, E) -> U) returns (result: seq<U>)
    ensures |result| == |xs|
    ensures forall i :: 0 <= i < |xs| ==> result[i] == FoldPrefix(xs, initial, combine, i + 1)
  {
    result := [];
    var runningResult := initial;
    for n := 0 to |xs|
      invariant |result| == n
      invariant runningResult == FoldPrefix(xs, initial, combine, n)
      invariant forall i :: 0 <= i < n ==> result[i] == FoldPrefix(xs, initial, combine, i + 1)
    {
      runningResult := combine(runningResult, xs[n]);
      result := result + [runningResult];
    }
  }

  /** Where argument i starts in the buffer: the lengths of the arguments before it, each plus its NUL. */
  function Offset(args: seq<seq<byte>>, i: nat): (off: nat)
    requires i <= |args|
    ensures off >= i
  {
    if i == 0 then 0 else Offset(args, i - 1) + |args[i - 1]| + 1
  }

  /** What `iovec(iov_base:iov_len:)` is given, with the base as an offset into the buffer. */
  datatype Iovec = Iovec(base: nat, len: nat)

  function Plus(a: int, b: int): int { a + b }

  /** The running sums of the counts are the argument offsets. */
  lemma {:induction false} CountSumsAreOffsets(args: seq<seq<byte>>, counts: seq<int>, n: nat)
    requires |counts| == |args| && n <= |args|
    requires forall i :: 0 <= i < |args| ==> counts[i] == |args[i]| + 1
    ensures FoldPrefix(counts, 0, Plus, n) == Offset(args, n)
  {
    if n > 0 {
      CountSumsAreOffsets(args, counts, n - 1);
    }
  }

  /** The offsets `[0] + scan(counts, 0, +)` of `withArrayOfIovecs`, with the counts they sum. */
  method ArgsOffsets(args: seq<seq<byte>>) returns (counts: seq<int>, offsets: seq<int>)
    ensures |counts| == |args| && forall i :: 0 <= i < |args| ==> counts[i] == |args[i]| + 1
    ensures |offsets| == |args| + 1
    ensures forall i :: 0 <= i <= |args| ==> offsets[i] == Offset(args, i)
  {
    counts := seq(|args|, i requires 0 <= i < |args| => |args[i]| + 1);
    var sums := Scan(counts, 0, Plus);
    offsets := [0] + sums;
    forall i | 0 <= i <= |args|
      ensures offsets[i] == Offset(args, i)
    {
      CountSumsAreOffsets(args, counts, i);
    }
  }

  /** Argument i lies at its offset in the buffer, followed by a NUL. */
  predicate Placed(buffer: seq<byte>, args: seq<seq<byte>>, i: nat)
    requires i < |args|
  {
    Offset(args, i) + |args[i]| < |buffer|
    && buffer[Offset(args, i)..Offset(args, i) + |args[i]|] == args[i]
    && buffer[Offset(args, i) + |args[i]|] == 0
  }

  /** The appending loop: each argument's bytes, then a NUL. */
  method FillBuffer(args: seq<seq<byte>>) returns (buffer: seq<byte>)
    ensures |buffer| == Offset(args, |args|)
    ensures forall i :: 0 <= i < |args| ==> Placed(buffer, args, i)
  {
    buffer := [];
    for n := 0 to |args|
      invariant |buffer| == Offset(args, n)
      invariant forall i :: 0 <= i < n ==> Placed(buffer, args, i)
    {
      var next := buffer + args[n] + [0];
      forall i | 0 <= i < n
        ensures Placed(next, args, i)
      {
        PlacedInPrefix(buffer, next, args, i);
      }
      assert next[Offset(args, n)..Offset(args, n) + |args[n]|] == args[n];
      buffer := next;
    }
  }

  /** Extending the buffer keeps what it already holds in place. */
  lemma PlacedInPrefix(buffer: seq<byte>, next: seq<byte>, args: seq<seq<byte>>, i: nat)
    requires i < |args| && Placed(buffer, args, i)
    requires |buffer| <= |next| && next[..|buffer|] == buffer
    ensures Placed(next, args, i)
  {
    var lo := Offset(args, i);
    var hi := lo + |args[i]|;
    assert next[lo..hi] == next[..|buffer|][lo..hi];
    assert next[hi] == next[..|buffer|][hi];
  }

  /**
   * `withArrayOfIovecs` up to the call of its body: the offsets, the buffer
   * and one iovec per argument made from its count and offset.
   */
  method WithArrayOfIovecs(args: seq<seq<byte>>) returns (offsets: seq<int>, buffer: seq<byte>, iovecs: seq<Iovec>)
    ensures |offsets| == |args| + 1 && offsets[0] == 0
    ensures forall i :: 0 <= i < |args| ==> offsets[i + 1] == offsets[i] + |args[i]| + 1
    ensures |buffer| == offsets[|args|]
    ensures forall i :: 0 <= i < |args| ==> Placed(buffer, args, i)
    ensures |iovecs| == |args|
    ensures forall i :: 0 <= i < |args| ==> iovecs[i] == Iovec(Offset(args, i), |args[i]|)
  {
    var counts;
    counts, offsets := ArgsOffsets(args);
    buffer := FillBuffer(args);
    iovecs := seq(|args|, i requires 0 <= i < |args| => Iovec(offsets[i], counts[i] - 1));
  }
}

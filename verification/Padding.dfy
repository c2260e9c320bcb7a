/** How base 32 makes a remainder up to a block (`pad_remainder` in src/uucore/src/lib/features/encoding.rs). */
module Padding {
  import opened Bytes
  import opened Codec
  import opened FastDecode

  const PAD: byte := 61

  predicate IsWhole(length: nat) {
    length == 2 || length == 4 || length == 5 || length == 7
  }

  /** The longest length up to `length` at which an encoding can end, or 0. */
  function WholeLength(length: nat): (n: nat)
    ensures n <= length && (n == 0 || IsWhole(n))
    ensures forall k :: n < k <= length ==> !IsWhole(k)
  {
    if length == 0 || IsWhole(length) then length else WholeLength(length - 1)
  }

  function Pads(n: nat): (r: bytes)
    ensures |r| == n && forall i :: 0 <= i < n ==> r[i] == PAD
  {
    seq(n, i => PAD)
  }

  /** Nothing for a remainder with padding of its own, or too short; else a block, and whether bytes had to go. */
  function Padded(remainder: bytes): Option<PadResult> {
    var n := WholeLength(|remainder|);
    if PAD in remainder || n == 0 then None
    else Some(PadResult(remainder[..n] + Pads(8 - n), n < |remainder|))
  }

  method PadRemainder(remainder: bytes) returns (r: Option<PadResult>)
    ensures r == Padded(remainder)
  {
    if remainder == [] || PAD in remainder {
      return None;
    }
    var length: nat, trimmed := |remainder|, false;
    while length > 0 && !IsWhole(length)
      invariant length <= |remainder| && WholeLength(length) == WholeLength(|remainder|)
      invariant trimmed <==> length < |remainder|
    {
      length, trimmed := length - 1, true;
    }
    if length == 0 {
      return None;
    }
    return Some(PadResult(remainder[..length] + Pads(8 - length), trimmed));
  }

  /** An encoding in blocks of eight that ends in `p` padding bytes, as many as base 32 can have. */
  ghost predicate EndsInPadding(e: bytes, p: nat) {
    && (p == 1 || p == 3 || p == 4 || p == 6)
    && |e| % 8 == 0 && p <= |e| && e[|e| - p..] == Pads(p)
    && forall i :: 0 <= i < |e| - p ==> e[i] != PAD
  }

  /** Flushing early, base 32 puts all lost padding back. */
  lemma {:induction false} Base32RestoresPadding(codec: Codec, e: bytes, p: nat)
    requires codec.partialDecode && codec.validDecodingMultiple == 8 && EndsInPadding(e, p)
    requires forall r: bytes :: codec.padRemainder(r) == Padded(r)
    ensures RestoresPadding(codec, e, p)
  {
    forall start: nat | IsTail(codec, e, p, start) ensures Restores(codec, e[start..|e| - p], e[start..]) {
      var rest := e[start..|e| - p];
      TailLength(|e|, p, start);
      assert rest[..|rest|] == rest && PAD !in rest;
      assert e[start..] == rest + e[|e| - p..];
      assert codec.padRemainder(rest) == Padded(rest);
    }
  }

  lemma TailLength(length: nat, p: nat, start: nat)
    requires length % 8 == 0 && start % 8 == 0 && start < length - p && length - p - start < 8 && 0 < p < 8
    ensures length - start == 8
  {}

  /** What is left of a block when bytes are lost beyond the padding is told from what can be an encoding. */
  lemma CutRemainder(remainder: bytes)
    requires PAD !in remainder && 0 < |remainder| < 8
    ensures |remainder| == 1 ==> Padded(remainder) == None
    ensures |remainder| == 3 ==> Padded(remainder) == Some(PadResult(remainder[..2] + Pads(6), true))
    ensures |remainder| == 6 ==> Padded(remainder) == Some(PadResult(remainder[..5] + Pads(3), true))
    ensures IsWhole(|remainder|) ==> Padded(remainder) == Some(PadResult(remainder + Pads(8 - |remainder|), false))
  {
    assert remainder[..|remainder|] == remainder;
  }
}

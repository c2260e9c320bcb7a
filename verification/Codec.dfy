/** A base-N codec and what the streaming code relies on (uucore's `SupportsFastDecodeAndEncode`). */
module Codec {
  import opened Bytes
  import opened LineWrap

  /** A remainder made up to a whole block, and whether part of it had to be thrown away. */
  datatype PadResult = PadResult(chunk: bytes, hadInvalidTail: bool)

  datatype Codec = Codec(
    encode: bytes -> Option<bytes>,
    decode: bytes -> Option<bytes>,
    unpaddedMultiple: nat,
    validDecodingMultiple: nat,
    alphabet: bytes,
    partialDecode: bool,
    padRemainder: bytes -> Option<PadResult>)

  function Append(a: Option<bytes>, b: Option<bytes>): Option<bytes> {
    if a.Some? && b.Some? then Some(a.value + b.value) else None
  }

  /** Whole units encode on their own, whatever follows them. */
  ghost predicate EncodesByBlocks(codec: Codec) {
    && codec.unpaddedMultiple > 0
    && codec.encode([]) == Some([])
    && forall a: bytes, b: bytes :: |a| % codec.unpaddedMultiple == 0 ==> SplitsBetween(codec, a, b)
  }

  ghost predicate SplitsBetween(codec: Codec, a: bytes, b: bytes) {
    codec.encode(a).Some? && codec.encode(a + b) == Append(codec.encode(a), codec.encode(b))
  }

  lemma EncodesAppended(codec: Codec, a: bytes, b: bytes)
    requires EncodesByBlocks(codec) && |a| % codec.unpaddedMultiple == 0
    ensures codec.encode(a).Some? && codec.encode(a + b) == Append(codec.encode(a), codec.encode(b))
  {
    assert SplitsBetween(codec, a, b);
  }

  /** A padded block codec: what it encodes is whole blocks of its alphabet that decode to the input. */
  ghost predicate IsBlockCodec(codec: Codec) {
    && EncodesByBlocks(codec)
    && codec.validDecodingMultiple > 0
    && (forall i :: 0 <= i < |codec.alphabet| ==> !IsBreak(codec.alphabet[i]))
    && (forall x: bytes :: codec.encode(x).Some? ==> EncodesWell(codec, x))
    && (!codec.partialDecode ==>
          forall r: bytes :: |r| % codec.validDecodingMultiple == 0 ==>
            codec.padRemainder(r) == None || codec.padRemainder(r) == Some(PadResult(r, false)))
  }

  ghost predicate EncodesWell(codec: Codec, x: bytes)
    requires codec.encode(x).Some? && codec.unpaddedMultiple > 0
  {
    var e := codec.encode(x).value;
    && |e| == codec.validDecodingMultiple * ((|x| + codec.unpaddedMultiple - 1) / codec.unpaddedMultiple)
    && codec.decode(e) == Some(x)
    && forall i :: 0 <= i < |e| ==> e[i] in codec.alphabet
  }

  /** Whole multiples decode on their own, whatever follows them; no padding ends a text early. */
  ghost predicate DecodesByBlocks(codec: Codec) {
    && codec.validDecodingMultiple > 0
    && codec.decode([]) == Some([])
    && forall a: bytes, b: bytes :: |a| % codec.validDecodingMultiple == 0 ==> DecodesBetween(codec, a, b)
  }

  ghost predicate DecodesBetween(codec: Codec, a: bytes, b: bytes) {
    codec.decode(a + b) == Append(codec.decode(a), codec.decode(b))
  }

  lemma DecodesAppended(codec: Codec, a: bytes, b: bytes)
    requires DecodesByBlocks(codec) && |a| % codec.validDecodingMultiple == 0
    ensures codec.decode(a + b) == Append(codec.decode(a), codec.decode(b))
  {
    assert DecodesBetween(codec, a, b);
  }

  // ----- base 16 is one -----

  function HexDigit(n: nat): (b: byte)
    requires n < 16
    ensures b in HEX
  {
    HEX[n]
  }

  /** `0123456789ABCDEF`, then the small letters the decoder also takes. */
  const HEX: bytes := [48, 49, 50, 51, 52, 53, 54, 55, 56, 57, 65, 66, 67, 68, 69, 70, 97, 98, 99, 100, 101, 102]

  function HexValue(b: byte): (v: Option<nat>)
    ensures v.Some? ==> v.value < 16
  {
    if 48 <= b <= 57 then Some((b - 48) as nat)
    else if 65 <= b <= 70 then Some((b - 55) as nat)
    else if 97 <= b <= 102 then Some((b - 87) as nat)
    else None
  }

  function HexPair(b: byte): (e: bytes)
    ensures |e| == 2 && e[0] in HEX && e[1] in HEX
  {
    [HexDigit(b as nat / 16), HexDigit(b as nat % 16)]
  }

  function HexByte(high: byte, low: byte): Option<byte> {
    var h, l := HexValue(high), HexValue(low);
    if h.None? || l.None? then None else Some((h.value * 16 + l.value) as byte)
  }

  function HexEncode(x: bytes): (e: bytes)
    ensures |e| == 2 * |x| && forall i :: 0 <= i < |e| ==> e[i] in HEX
  {
    if x == [] then [] else HexPair(x[0]) + HexEncode(x[1..])
  }

  function HexDecode(e: bytes): Option<bytes> {
    if e == [] then Some([])
    else if |e| == 1 then None
    else
      var b := HexByte(e[0], e[1]);
      if b.None? then None else Append(Some([b.value]), HexDecode(e[2..]))
  }

  const BASE16: Codec :=
    Codec((x: bytes) => Some(HexEncode(x)), (e: bytes) => HexDecode(e), 1, 2, HEX, false, (r: bytes) => None)

  lemma {:induction false} HexEncodeAppend(a: bytes, b: bytes)
    ensures HexEncode(a + b) == HexEncode(a) + HexEncode(b)
    decreases |a|
  {
    if a == [] {
      assert a + b == b;
    } else {
      assert (a + b)[1..] == a[1..] + b;
      HexEncodeAppend(a[1..], b);
    }
  }

  lemma HexDigitValue(n: nat)
    requires n < 16
    ensures HexValue(HexDigit(n)) == Some(n)
  {}

  lemma HexDigitIs(n: nat)
    requires n < 16
    ensures HexDigit(n) as nat == if n < 10 then 48 + n else 55 + n
  {}

  /** A byte is written as its high and its low digit, in capitals. */
  lemma HexPairIs(b: byte)
    ensures var h, l := b as nat / 16, b as nat % 16;
            && HexPair(b)[0] as nat == (if h < 10 then 48 + h else 55 + h)
            && HexPair(b)[1] as nat == if l < 10 then 48 + l else 55 + l
  {
    hide HexDigit;
    HexDigitIs(b as nat / 16);
    HexDigitIs(b as nat % 16);
  }

  /** Small letters are read like capitals. */
  lemma SmallHexDigits(b: byte)
    requires 65 <= b <= 70
    ensures HexValue(b) == HexValue(b + 32) == Some((b - 55) as nat)
  {}

  lemma {:induction false} HexByteOfPair(b: byte)
    ensures HexByte(HexPair(b)[0], HexPair(b)[1]) == Some(b)
  {
    hide HexValue, HexDigit;
    HexDigitValue(b as nat / 16);
    HexDigitValue(b as nat % 16);
  }

  lemma {:induction false} HexDecodeEncode(x: bytes)
    ensures HexDecode(HexEncode(x)) == Some(x)
  {
    hide HexPair, HexByte;
    if x != [] {
      HexByteOfPair(x[0]);
      HexDecodeEncode(x[1..]);
      assert HexEncode(x)[2..] == HexEncode(x[1..]);
      assert x == [x[0]] + x[1..];
    }
  }

  lemma {:induction false} HexDecodeAppend(a: bytes, b: bytes)
    requires |a| % 2 == 0
    ensures HexDecode(a + b) == Append(HexDecode(a), HexDecode(b))
    decreases |a|
  {
    hide HexByte;
    if a == [] {
      assert a + b == b;
      if HexDecode(b).Some? { assert [] + HexDecode(b).value == HexDecode(b).value; }
    } else {
      assert (a + b)[2..] == a[2..] + b;
      HexDecodeAppend(a[2..], b);
      HexDecodeStep(a);
      HexDecodeStep(a + b);
      AppendAssociates(if HexByte(a[0], a[1]).Some? then Some([HexByte(a[0], a[1]).value]) else None,
                       HexDecode(a[2..]), HexDecode(b));
    }
  }

  lemma HexDecodeStep(e: bytes)
    requires |e| >= 2
    ensures HexDecode(e) == Append(if HexByte(e[0], e[1]).Some? then Some([HexByte(e[0], e[1]).value]) else None,
                                   HexDecode(e[2..]))
  {}

  lemma AppendAssociates(a: Option<bytes>, b: Option<bytes>, c: Option<bytes>)
    ensures Append(Append(a, b), c) == Append(a, Append(b, c))
  {
    if a.Some? && b.Some? && c.Some? {
      assert a.value + b.value + c.value == a.value + (b.value + c.value);
    }
  }

  lemma {:induction false} Base16DecodesByBlocks()
    ensures DecodesByBlocks(BASE16)
  {
    hide HexDecode;
    assert BASE16.decode([]) == Some([]) by { assert HexDecode([]) == Some([]) by { HexDecodeNothing(); } }
    forall a: bytes, b: bytes | |a| % 2 == 0 ensures DecodesBetween(BASE16, a, b) {
      HexDecodeAppend(a, b);
    }
  }

  lemma HexDecodeNothing()
    ensures HexDecode([]) == Some([])
  {}

  /** The laws can be met: base 16 (section 8 of RFC 4648) is a block codec. */
  lemma {:induction false} Base16IsABlockCodec()
    ensures IsBlockCodec(BASE16)
  {
    hide HexEncode, HexDecode;
    assert BASE16.encode([]) == Some([]);
    forall a: bytes, b: bytes
      ensures SplitsBetween(BASE16, a, b)
    {
      HexEncodeAppend(a, b);
    }
    forall x: bytes
      ensures EncodesWell(BASE16, x)
    {
      HexDecodeEncode(x);
    }
  }
}

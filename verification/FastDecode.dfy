/** Decoding a stream block by block (`fast_decode` in src/uu/base_common/src/lib.rs). */
module FastDecode {
  import opened Bytes
  import opened LineWrap
  import opened Codec
  import opened FastEncode

  const DECODE_IN_CHUNKS_OF_SIZE_MULTIPLE: nat := 1024

  // ----- what decoding a text means -----

  /** The output written, and whether the text was decoded to its end. */
  datatype Decoding = Decoding(output: bytes, ok: bool)

  datatype Filtered = Filtered(kept: bytes, clean: bool)

  /** The bytes of the alphabet up to the first byte that is neither a line break nor ignored. */
  function Filter(text: bytes, alphabet: bytes, ignoreGarbage: bool): Filtered {
    if text == [] then Filtered([], true)
    else
      var rest := Filter(text[1..], alphabet, ignoreGarbage);
      if IsBreak(text[0]) then rest
      else if text[0] in alphabet then Filtered([text[0]] + rest.kept, rest.clean)
      else if ignoreGarbage then rest
      else Filtered([], false)
  }

  /** What the whole blocks decode to, and what is left after them: nothing when one is refused. */
  datatype Blocks = Blocks(output: bytes, rest: Option<bytes>)

  function DecodeBlocks(codec: Codec, kept: bytes, size: nat): Blocks
    requires size > 0
  {
    if |kept| < size then Blocks([], Some(kept))
    else
      match codec.decode(kept[..size])
      case None => Blocks([], None)
      case Some(d) =>
        var more := DecodeBlocks(codec, kept[size..], size);
        Blocks(d + more.output, more.rest)
  }

  function DecodeTail(codec: Codec, rest: bytes): Decoding {
    if rest == [] then Decoding([], true)
    else
      var padded := codec.padRemainder(rest);
      match codec.decode(if padded.Some? then padded.value.chunk else rest)
      case None => Decoding([], false)
      case Some(d) => Decoding(d, !(padded.Some? && padded.value.hadInvalidTail))
  }

  function BlockSize(codec: Codec): nat {
    if codec.partialDecode then codec.validDecodingMultiple
    else codec.validDecodingMultiple * DECODE_IN_CHUNKS_OF_SIZE_MULTIPLE
  }

  function Decoded(codec: Codec, text: bytes, ignoreGarbage: bool): Decoding
    requires codec.validDecodingMultiple > 0
  {
    var f := Filter(text, codec.alphabet, ignoreGarbage);
    var b := DecodeBlocks(codec, f.kept, BlockSize(codec));
    if b.rest.None? || !f.clean then Decoding(b.output, false)
    else
      var tail := DecodeTail(codec, b.rest.value);
      Decoding(b.output + tail.output, tail.ok)
  }

  // ----- a byte at a time -----

  lemma {:induction false} FilterGrows(text: bytes, more: bytes, alphabet: bytes, ignoreGarbage: bool)
    ensures var f, all := Filter(text, alphabet, ignoreGarbage), Filter(text + more, alphabet, ignoreGarbage);
            var rest := Filter(more, alphabet, ignoreGarbage);
            all == if f.clean then Filtered(f.kept + rest.kept, rest.clean) else f
    decreases |text|
  {
    if text == [] {
      assert text + more == more;
    } else {
      assert (text + more)[1..] == text[1..] + more;
      FilterGrows(text[1..], more, alphabet, ignoreGarbage);
    }
  }

  lemma {:induction false} BlocksGrow(codec: Codec, kept: bytes, more: bytes, size: nat)
    requires size > 0
    ensures var b, all := DecodeBlocks(codec, kept, size), DecodeBlocks(codec, kept + more, size);
            if b.rest.None? then all == b
            else
              && |b.rest.value| < size
              && var then_ := DecodeBlocks(codec, b.rest.value + more, size);
                 all == Blocks(b.output + then_.output, then_.rest)
    decreases |kept|
  {
    hide DecodeBlocks;
    BlocksStep(codec, kept, size);
    if |kept| < size {
      var all := DecodeBlocks(codec, kept + more, size);
      assert [] + all.output == all.output;
    } else {
      BlocksStep(codec, kept + more, size);
      assert (kept + more)[..size] == kept[..size] && (kept + more)[size..] == kept[size..] + more;
      if codec.decode(kept[..size]).Some? {
        BlocksGrow(codec, kept[size..], more, size);
        var d, b := codec.decode(kept[..size]).value, DecodeBlocks(codec, kept[size..], size);
        if b.rest.Some? {
          var then_ := DecodeBlocks(codec, b.rest.value + more, size);
          assert d + (b.output + then_.output) == d + b.output + then_.output;
        }
      }
    }
  }

  lemma BlocksStep(codec: Codec, kept: bytes, size: nat)
    requires size > 0
    ensures DecodeBlocks(codec, kept, size)
            == if |kept| < size then Blocks([], Some(kept))
               else
                 match codec.decode(kept[..size])
                 case None => Blocks([], None)
                 case Some(d) =>
                   var more := DecodeBlocks(codec, kept[size..], size);
                   Blocks(d + more.output, more.rest)
  {}

  /** The text so far was clean, its blocks are out and the rest is buffered. */
  ghost predicate Reached(codec: Codec, text: bytes, ignoreGarbage: bool, output: bytes, buffer: bytes)
    requires codec.validDecodingMultiple > 0
    ensures Reached(codec, text, ignoreGarbage, output, buffer) ==> |buffer| < BlockSize(codec)
  {
    var f := Filter(text, codec.alphabet, ignoreGarbage);
    && f.clean
    && DecodeBlocks(codec, f.kept, BlockSize(codec)) == Blocks(output, Some(buffer))
    && |buffer| < BlockSize(codec)
  }

  lemma ReachedNothing(codec: Codec, ignoreGarbage: bool)
    requires codec.validDecodingMultiple > 0
    ensures Reached(codec, [], ignoreGarbage, [], [])
  {}

  /** One more byte, and what the text decodes to once it ends the run. */
  lemma OneMoreByte(codec: Codec, text: bytes, b: byte, after: bytes, ignoreGarbage: bool, output: bytes, buffer: bytes)
    requires codec.validDecodingMultiple > 0 && Reached(codec, text, ignoreGarbage, output, buffer)
    ensures var full := buffer + [b];
            if IsBreak(b) then Reached(codec, text + [b], ignoreGarbage, output, buffer)
            else if b in codec.alphabet then
              if |full| < BlockSize(codec) then Reached(codec, text + [b], ignoreGarbage, output, full)
              else
                var d := codec.decode(full);
                if d.Some? then Reached(codec, text + [b], ignoreGarbage, output + d.value, [])
                else Decoded(codec, text + [b] + after, ignoreGarbage) == Decoding(output, false)
            else if ignoreGarbage then Reached(codec, text + [b], ignoreGarbage, output, buffer)
            else Decoded(codec, text + [b] + after, ignoreGarbage) == Decoding(output, false)
  {
    var size := BlockSize(codec);
    var f := Filter(text, codec.alphabet, ignoreGarbage);
    FilterGrows(text, [b], codec.alphabet, ignoreGarbage);
    FilterGrows(text + [b], after, codec.alphabet, ignoreGarbage);
    OneByteFilter(b, codec.alphabet, ignoreGarbage);
    var g, h := Filter(text + [b], codec.alphabet, ignoreGarbage), Filter(after, codec.alphabet, ignoreGarbage);
    hide Filter, IsBreak, BlockSize;
    if b in codec.alphabet && !IsBreak(b) {
      BlocksGrow(codec, f.kept, [b], size);
      BlocksGrow(codec, f.kept + [b], h.kept, size);
      OneBlock(codec, buffer + [b], size);
    } else {
      assert f.kept + [] == f.kept;
    }
  }

  lemma OneByteFilter(b: byte, alphabet: bytes, ignoreGarbage: bool)
    ensures Filter([b], alphabet, ignoreGarbage)
            == if IsBreak(b) then Filtered([], true)
               else if b in alphabet then Filtered([b], true)
               else Filtered([], ignoreGarbage)
  {
    assert [b][1..] == [];
  }

  lemma OneBlock(codec: Codec, kept: bytes, size: nat)
    requires 0 < |kept| <= size
    ensures DecodeBlocks(codec, kept, size)
            == if |kept| < size then Blocks([], Some(kept))
               else if codec.decode(kept).None? then Blocks([], None)
               else Blocks(codec.decode(kept).value, Some([]))
  {
    if |kept| == size {
      assert kept[..size] == kept && kept[size..] == [];
      if codec.decode(kept).Some? {
        assert codec.decode(kept).value + [] == codec.decode(kept).value;
      }
    }
  }

  lemma TheEnd(codec: Codec, text: bytes, ignoreGarbage: bool, output: bytes, buffer: bytes)
    requires codec.validDecodingMultiple > 0 && Reached(codec, text, ignoreGarbage, output, buffer)
    ensures var tail := DecodeTail(codec, buffer);
            Decoded(codec, text, ignoreGarbage) == Decoding(output + tail.output, tail.ok)
  {}

  // ----- the decoder -----

  method AlphabetLookup(alphabet: bytes) returns (table: array<bool>)
    ensures fresh(table) && table.Length == 256
    ensures forall b: byte :: table[b] <==> b in alphabet
  {
    table := new bool[256](i => false);
    for i := 0 to |alphabet|
      invariant forall b: byte :: table[b] <==> b in alphabet[..i]
    {
      table[alphabet[i]] := true;
    }
    assert alphabet[..|alphabet|] == alphabet;
  }

  /** What a flush makes of a buffer: whole multiples, no more than `limit` bytes at a time. */
  function Flushed(codec: Codec, buffer: bytes, limit: nat): Blocks
    requires 0 < codec.validDecodingMultiple <= limit
    decreases |buffer|
  {
    var multiple := codec.validDecodingMultiple;
    if |buffer| < multiple then Blocks([], Some(buffer))
    else
      var take := AlignedTake(|buffer|, limit, multiple);
      match codec.decode(buffer[..take])
      case None => Blocks([], None)
      case Some(d) =>
        var more := Flushed(codec, buffer[take..], limit);
        Blocks(d + more.output, more.rest)
  }

  function AlignedTake(length: nat, limit: nat, multiple: nat): (take: nat)
    requires 0 < multiple <= limit && multiple <= length
    ensures multiple <= take <= length && take <= limit
  {
    var take := if length < limit then length else limit;
    ModuloSmall(take, multiple);
    take - take % multiple
  }

  lemma FlushUnfold(codec: Codec, buffer: bytes, limit: nat)
    requires 0 < codec.validDecodingMultiple <= limit
    ensures |buffer| < codec.validDecodingMultiple ==> Flushed(codec, buffer, limit) == Blocks([], Some(buffer))
    ensures |buffer| >= codec.validDecodingMultiple ==>
              var take := AlignedTake(|buffer|, limit, codec.validDecodingMultiple);
              Flushed(codec, buffer, limit)
              == match codec.decode(buffer[..take])
                 case None => Blocks([], None)
                 case Some(d) =>
                   var more := Flushed(codec, buffer[take..], limit);
                   Blocks(d + more.output, more.rest)
  {
    hide AlignedTake;
  }

  lemma ModuloSmall(n: nat, m: nat)
    requires 0 < m <= n
    ensures m <= n - n % m
  {
    assert n == n / m * m + n % m;
    if n / m >= 1 {
      assert n / m * m >= m by { LinearMultiple(n / m, m); }
    }
  }

  lemma LinearMultiple(k: nat, m: nat)
    requires k >= 1
    ensures k * m >= m
  {}

  class Decoder {
    const codec: Codec
    var buffer: bytes
    var decodedBuffer: bytes
    var output: bytes

    constructor (codec: Codec)
      ensures this.codec == codec && buffer == [] && decodedBuffer == [] && output == []
    {
      this.codec := codec;
      buffer, decodedBuffer, output := [], [], [];
    }

    method DecodeInChunksToBuffer(chunk: bytes) returns (ok: bool)
      modifies this`decodedBuffer
      ensures ok <==> codec.decode(chunk).Some?
      ensures decodedBuffer == if ok then old(decodedBuffer) + codec.decode(chunk).value else old(decodedBuffer)
    {
      match codec.decode(chunk)
      case None =>
        ok := false;
      case Some(d) =>
        decodedBuffer := decodedBuffer + d;
        ok := true;
    }

    method WriteToOutput()
      modifies this`decodedBuffer, this`output
      ensures output == old(output) + old(decodedBuffer) && decodedBuffer == []
    {
      output := output + decodedBuffer;
      decodedBuffer := [];
    }

    /** Decodes and drains the first `take` bytes. */
    method FlushChunk(take: nat) returns (ok: bool)
      requires decodedBuffer == [] && take <= |buffer|
      modifies this
      ensures match codec.decode(old(buffer)[..take])
              case Some(d) =>
                ok && decodedBuffer == [] && output == old(output) + d && buffer == old(buffer)[take..]
              case None => !ok && output == old(output)
    {
      ok := DecodeInChunksToBuffer(buffer[..take]);
      if ok {
        assert [] + decodedBuffer == decodedBuffer;
        WriteToOutput();
        buffer := buffer[take..];
      }
    }

    /** Drains every whole multiple from the buffer. */
    method FlushReadyChunks(limit: nat) returns (ok: bool)
      requires decodedBuffer == [] && 0 < codec.validDecodingMultiple <= limit
      modifies this
      ensures var f := Flushed(codec, old(buffer), limit);
              && output == old(output) + f.output
              && ok == f.rest.Some?
              && (ok ==> buffer == f.rest.value && decodedBuffer == [])
    {
      hide AlignedTake, Flushed;
      ghost var whole := Flushed(codec, buffer, limit);
      ghost var written: bytes := [];
      assert [] + whole.output == whole.output;
      while |buffer| >= codec.validDecodingMultiple
        invariant decodedBuffer == [] && output == old(output) + written
        invariant whole.output == written + Flushed(codec, buffer, limit).output
        invariant whole.rest == Flushed(codec, buffer, limit).rest
        decreases |buffer|
      {
        var take := AlignedTake(|buffer|, limit, codec.validDecodingMultiple);
        FlushUnfold(codec, buffer, limit);
        ghost var before := buffer;
        ok := FlushChunk(take);
        if !ok {
          assert written + [] == written;
          return;
        }
        ghost var d, more := codec.decode(before[..take]).value, Flushed(codec, buffer, limit);
        assert written + (d + more.output) == written + d + more.output;
        written := written + d;
      }
      FlushUnfold(codec, buffer, limit);
      assert written + [] == written;
      ok := true;
    }

    /** Takes in one byte of the alphabet: a block is decoded as soon as it is full. */
    method Push(b: byte) returns (ok: bool)
      requires decodedBuffer == [] && codec.validDecodingMultiple > 0 && |buffer| < BlockSize(codec)
      modifies this
      ensures var full := old(buffer) + [b];
              if |full| < BlockSize(codec) then
                ok && buffer == full && output == old(output) && decodedBuffer == []
              else
                var d := codec.decode(full);
                && ok == d.Some?
                && (ok ==> buffer == [] && output == old(output) + d.value && decodedBuffer == [])
                && (!ok ==> output == old(output))
    {
      buffer := buffer + [b];
      var limit := codec.validDecodingMultiple * DECODE_IN_CHUNKS_OF_SIZE_MULTIPLE;
      if codec.partialDecode {
        OneFlush(codec, buffer, limit);
        ok := FlushReadyChunks(limit);
      } else if |buffer| == limit {
        ok := DecodeInChunksToBuffer(buffer);
        if ok {
          WriteToOutput();
          buffer := [];
        }
      } else {
        ok := true;
      }
    }

    /** Whole blocks still buffered would be decoded first; there are none. */
    method FlushBeforeError() returns (ok: bool)
      requires decodedBuffer == [] && codec.validDecodingMultiple > 0 && |buffer| < BlockSize(codec)
      modifies this
      ensures ok && output == old(output) && buffer == old(buffer) && decodedBuffer == []
    {
      var limit := codec.validDecodingMultiple * DECODE_IN_CHUNKS_OF_SIZE_MULTIPLE;
      ok := true;
      if codec.partialDecode {
        OneFlush(codec, buffer, limit);
        ok := FlushReadyChunks(limit);
      }
    }

    /** One byte of the stream, after `text` and before `after`. */
    method TakeByte(b: byte, table: array<bool>, ignoreGarbage: bool, ghost text: bytes, ghost after: bytes)
      returns (ok: bool)
      requires decodedBuffer == [] && codec.validDecodingMultiple > 0
      requires Reached(codec, text, ignoreGarbage, output, buffer)
      requires table.Length == 256 && forall c: byte :: table[c] <==> c in codec.alphabet
      modifies this
      ensures ok ==> Reached(codec, text + [b], ignoreGarbage, output, buffer) && decodedBuffer == []
      ensures !ok ==> Decoded(codec, text + [b] + after, ignoreGarbage) == Decoding(output, false)
    {
      hide Reached, Decoded, BlockSize;
      OneMoreByte(codec, text, b, after, ignoreGarbage, output, buffer);
      if IsBreak(b) {
        return true;
      }
      if table[b] {
        ok := Push(b);
      } else if ignoreGarbage {
        ok := true;
      } else {
        var _ := FlushBeforeError();
        ok := false;
      }
    }

    /** What is left is padded if the codec can, decoded and written. */
    method Finish() returns (ok: bool)
      requires decodedBuffer == []
      modifies this
      ensures var tail := DecodeTail(codec, old(buffer));
              output == old(output) + tail.output && ok == tail.ok
    {
      if buffer != [] {
        var finalChunk, hadInvalidTail := buffer, false;
        var padded := codec.padRemainder(buffer);
        if padded.Some? {
          hadInvalidTail := padded.value.hadInvalidTail;
          finalChunk := padded.value.chunk;
        }
        ok := DecodeInChunksToBuffer(finalChunk);
        if !ok {
          return;
        }
        WriteToOutput();
        if hadInvalidTail {
          return false;
        }
      }
      ok := true;
    }
  }

  lemma OneFlush(codec: Codec, buffer: bytes, limit: nat)
    requires 0 < codec.validDecodingMultiple <= limit && |buffer| <= codec.validDecodingMultiple
    ensures Flushed(codec, buffer, limit)
            == if |buffer| < codec.validDecodingMultiple then Blocks([], Some(buffer))
               else if codec.decode(buffer).None? then Blocks([], None)
               else Blocks(codec.decode(buffer).value, Some([]))
  {
    if |buffer| == codec.validDecodingMultiple {
      assert AlignedTake(|buffer|, limit, |buffer|) == |buffer|;
      assert buffer[..|buffer|] == buffer && buffer[|buffer|..] == [];
      if codec.decode(buffer).Some? {
        assert codec.decode(buffer).value + [] == codec.decode(buffer).value;
      }
    }
  }

  lemma {:induction false} DropMultiple(n: nat, take: nat, m: nat)
    requires m > 0 && take <= n && take % m == 0
    ensures (n - take) % m == n % m
    decreases take
  {
    if take < m {
      BelowModulus(take, m);
    } else {
      ModuloStep(take, m);
      ModuloStep(n, m);
      DropMultiple(n - m, take - m, m);
    }
  }

  /** The length of the whole multiples. */
  function Ready(n: nat, m: nat): (ready: nat)
    requires m > 0
    ensures ready <= n
  {
    n - n % m
  }

  lemma ReadyDrop(n: nat, take: nat, m: nat)
    requires m > 0 && take <= n && take % m == 0
    ensures take <= Ready(n, m) && Ready(n - take, m) == Ready(n, m) - take
  {
    DropMultiple(n, take, m);
  }

  lemma ReadyNothing(n: nat, m: nat)
    requires n < m
    ensures Ready(n, m) == 0
  {
    BelowModulus(n, m);
  }

  lemma TakesMultiples(length: nat, limit: nat, multiple: nat)
    requires 0 < multiple <= limit && multiple <= length
    ensures AlignedTake(length, limit, multiple) % multiple == 0
  {
    var take := if length < limit then length else limit;
    MultipleOf(take / multiple, multiple);
    assert take == take / multiple * multiple + take % multiple;
  }

  /** The first `ready` bytes decoded at once; if they are refused, the first `kept` of them. */
  ghost predicate DecodedAtOnce(codec: Codec, f: Blocks, buffer: bytes, ready: nat, kept: nat) {
    kept <= ready <= |buffer| &&
    match codec.decode(buffer[..ready])
    case Some(d) => f == Blocks(d, Some(buffer[ready..]))
    case None => f.rest == None && codec.decode(buffer[..kept]) == Some(f.output)
  }

  lemma FlushStep(codec: Codec, buffer: bytes, take: nat, ready: nat)
    requires DecodesByBlocks(codec) && take % codec.validDecodingMultiple == 0 && take <= ready <= |buffer|
    ensures codec.decode(buffer[..ready])
            == Append(codec.decode(buffer[..take]), codec.decode(buffer[take..][..ready - take]))
  {
    assert buffer[..ready] == buffer[..take] + buffer[take..][..ready - take];
    DecodesAppended(codec, buffer[..take], buffer[take..][..ready - take]);
  }

  lemma FlushNothing(codec: Codec, buffer: bytes)
    requires DecodesByBlocks(codec)
    ensures DecodedAtOnce(codec, Blocks([], Some(buffer)), buffer, 0, 0)
  {
    assert buffer[..0] == [] && buffer[0..] == buffer;
  }

  lemma FlushRefused(codec: Codec, buffer: bytes, take: nat, ready: nat)
    requires DecodesByBlocks(codec) && take % codec.validDecodingMultiple == 0 && take <= ready <= |buffer|
    requires codec.decode(buffer[..take]).None?
    ensures DecodedAtOnce(codec, Blocks([], None), buffer, ready, 0)
  {
    FlushStep(codec, buffer, take, ready);
    assert buffer[..0] == [];
  }

  lemma FlushOneMore(codec: Codec, buffer: bytes, take: nat, ready: nat, more: Blocks, kept: nat)
    requires DecodesByBlocks(codec) && take % codec.validDecodingMultiple == 0 && take <= ready <= |buffer|
    requires codec.decode(buffer[..take]).Some?
    requires DecodedAtOnce(codec, more, buffer[take..], ready - take, kept)
    ensures DecodedAtOnce(codec, Blocks(codec.decode(buffer[..take]).value + more.output, more.rest),
                          buffer, ready, take + kept)
  {
    hide DecodesByBlocks;
    FlushStep(codec, buffer, take, ready);
    FlushStep(codec, buffer, take, take + kept);
    assert buffer[take..][..take + kept - take] == buffer[take..][..kept];
    assert buffer[take..][ready - take..] == buffer[ready..];
  }

  /**
    Of a codec that decodes by blocks a flush decodes all whole multiples of any
    buffer as if at once, whatever the limit; refused, it has still decoded a
    beginning of them.
  */
  lemma {:induction false} FlushDecodesAtOnce(codec: Codec, buffer: bytes, limit: nat) returns (kept: nat)
    requires DecodesByBlocks(codec) && 0 < codec.validDecodingMultiple <= limit
    ensures var ready := Ready(|buffer|, codec.validDecodingMultiple);
            DecodedAtOnce(codec, Flushed(codec, buffer, limit), buffer, ready, kept)
    ensures kept % codec.validDecodingMultiple == 0
    decreases |buffer|
  {
    hide AlignedTake, DecodedAtOnce, DecodesByBlocks, Ready;
    var multiple := codec.validDecodingMultiple;
    var ready := Ready(|buffer|, multiple);
    kept := 0;
    if |buffer| < multiple {
      ReadyNothing(|buffer|, multiple);
      FlushNothing(codec, buffer);
    } else {
      var take := AlignedTake(|buffer|, limit, multiple);
      TakesMultiples(|buffer|, limit, multiple);
      ReadyDrop(|buffer|, take, multiple);
      if codec.decode(buffer[..take]).None? {
        FlushRefused(codec, buffer, take, ready);
      } else {
        var more := FlushDecodesAtOnce(codec, buffer[take..], limit);
        FlushOneMore(codec, buffer, take, ready, Flushed(codec, buffer[take..], limit), more);
        kept := take + more;
        DropMultiple(kept, take, multiple);
      }
    }
  }

  /** However the reader cuts the text, its blocks are decoded in order and output before an error stays. */
  method FastDecodeStream(pulls: seq<bytes>, codec: Codec, ignoreGarbage: bool) returns (ok: bool, output: bytes)
    requires codec.validDecodingMultiple > 0
    ensures Decoding(output, ok) == Decoded(codec, Delivered(pulls), ignoreGarbage)
  {
    hide Reached, Decoded, BlockSize, DecodeTail, Delivered;
    var table := AlphabetLookup(codec.alphabet);
    var decoder := new Decoder(codec);
    ghost var text: bytes := [];
    ReachedNothing(codec, ignoreGarbage);
    var i := 0;
    DeliveredInParts(pulls, 0, 0);
    while i < |pulls| && pulls[i] != []
      invariant i <= |pulls| && forall k :: 0 <= k < i ==> pulls[k] != []
      invariant fresh(decoder) && decoder.codec == codec && decoder.decodedBuffer == []
      invariant forall c: byte :: table[c] <==> c in codec.alphabet
      invariant text == Delivered(pulls[..i])
      invariant Reached(codec, text, ignoreGarbage, decoder.output, decoder.buffer)
    {
      var read := pulls[i];
      DeliveredInParts(pulls, i, 0);
      for j := 0 to |read|
        invariant fresh(decoder) && decoder.codec == codec && decoder.decodedBuffer == []
        invariant forall c: byte :: table[c] <==> c in codec.alphabet
        invariant text == Delivered(pulls[..i]) + read[..j]
        invariant Reached(codec, text, ignoreGarbage, decoder.output, decoder.buffer)
      {
        DeliveredInParts(pulls, i, j);
        ghost var after := read[j + 1..] + Delivered(pulls[i + 1..]);
        ok := decoder.TakeByte(read[j], table, ignoreGarbage, text, after);
        if !ok {
          return false, decoder.output;
        }
        text := text + [read[j]];
      }
      DeliveredSnoc(pulls, i);
      i := i + 1;
    }
    DeliveredEnds(pulls, i);
    if codec.partialDecode {
      // The last flush, which finds no whole block either.
      var _ := decoder.FlushBeforeError();
    }
    TheEnd(codec, text, ignoreGarbage, decoder.output, decoder.buffer);
    ok := decoder.Finish();
    output := decoder.output;
  }

  lemma {:induction false} DeliveredInParts(pulls: seq<bytes>, i: nat, j: nat)
    requires i <= |pulls| && forall k :: 0 <= k < i ==> pulls[k] != []
    requires if i == |pulls| then j == 0 else j <= |pulls[i]|
    ensures Delivered(pulls[..0]) == []
    ensures i < |pulls| && j < |pulls[i]| ==>
              Delivered(pulls)
              == Delivered(pulls[..i]) + pulls[i][..j] + [pulls[i][j]] + (pulls[i][j + 1..] + Delivered(pulls[i + 1..]))
    decreases i
  {
    if i < |pulls| && j < |pulls[i]| {
      var read := pulls[i];
      if i == 0 {
        assert pulls[..0] == [];
        assert read == read[..j] + [read[j]] + read[j + 1..];
        assert Delivered(pulls) == read + Delivered(pulls[1..]);
        assert [] + read[..j] + [read[j]] + (read[j + 1..] + Delivered(pulls[1..])) == read + Delivered(pulls[1..]);
      } else {
        DeliveredInParts(pulls[1..], i - 1, j);
        assert pulls[..i][1..] == pulls[1..][..i - 1] && pulls[1..][i..] == pulls[i + 1..];
        var front, rest := Delivered(pulls[1..][..i - 1]), read[j + 1..] + Delivered(pulls[i + 1..]);
        assert pulls[0] + (front + read[..j] + [read[j]] + rest) == (pulls[0] + front) + read[..j] + [read[j]] + rest;
      }
    }
  }

  lemma DeliveredEnds(pulls: seq<bytes>, i: nat)
    requires i <= |pulls| && (i < |pulls| ==> pulls[i] == []) && forall k :: 0 <= k < i ==> pulls[k] != []
    ensures Delivered(pulls[..i]) == Delivered(pulls)
  {
    if i < |pulls| {
      DeliveredSnoc(pulls, i);
    } else {
      assert pulls[..i] == pulls;
    }
  }

  // ----- decoding undoes encoding -----

  lemma {:induction false} FilterOfLines(text: bytes, alphabet: bytes, ignoreGarbage: bool)
    requires forall i :: 0 <= i < |text| ==> IsBreak(text[i]) || text[i] in alphabet
    ensures Filter(text, alphabet, ignoreGarbage) == Filtered(WithoutBreaks(text), true)
    decreases |text|
  {
    if text != [] {
      FilterOfLines(text[1..], alphabet, ignoreGarbage);
    }
  }

  lemma {:induction false} WrappedBytes(e: bytes, width: nat, alphabet: bytes)
    requires forall i :: 0 <= i < |e| ==> e[i] in alphabet
    ensures forall i :: 0 <= i < |Wrapped(e, width)| ==>
              IsBreak(Wrapped(e, width)[i]) || Wrapped(e, width)[i] in alphabet
    decreases |e|
  {
    if width > 0 && |e| > width {
      var rest := e[width..];
      assert forall i :: 0 <= i < |rest| ==> rest[i] == e[i + width];
      WrappedBytes(rest, width, alphabet);
    }
  }

  function Units(length: nat, unit: nat): nat
    requires unit > 0
  {
    (length + unit - 1) / unit
  }

  lemma {:induction false} UnitsOfMultiple(unit: nat, m: nat)
    requires unit > 0
    ensures Units(unit * m, unit) == m
  {
    var n := unit * m + unit - 1;
    var q := n / unit;
    assert n == q * unit + n % unit;
    assert (q - m) * unit == unit - 1 - n % unit;
    SmallMultiple(q - m, unit);
  }

  lemma {:induction false} UnitsOfLess(length: nat, unit: nat, m: nat)
    requires unit > 0 && length < unit * m
    ensures Units(length, unit) <= m
  {
    var n := length + unit - 1;
    var q := n / unit;
    assert n == q * unit + n % unit;
    assert q * unit < (m + 1) * unit;
    LessMultiple(q, m + 1, unit);
  }

  lemma LessMultiple(a: int, b: int, m: nat)
    requires a * m < b * m
    ensures a < b
  {}

  /** Whole units in front encode to whole multiples that decode on their own. */
  lemma FirstUnits(codec: Codec, a: bytes, b: bytes, m: nat) returns (first: bytes, f: bytes)
    requires IsBlockCodec(codec) && codec.encode(a + b).Some? && |a| == codec.unpaddedMultiple * m
    ensures codec.encode(a) == Some(first) && codec.encode(b) == Some(f) && codec.encode(a + b) == Some(first + f)
    ensures |first| == codec.validDecodingMultiple * m && |first| % codec.validDecodingMultiple == 0
    ensures codec.decode(first) == Some(a)
  {
    MultipleOf(m, codec.unpaddedMultiple);
    EncodesAppended(codec, a, b);
    first, f := codec.encode(a).value, codec.encode(b).value;
    hide IsBlockCodec, Units;
    Encoding(codec, a);
    UnitsOfMultiple(codec.unpaddedMultiple, m);
    MultipleOf(m, codec.validDecodingMultiple);
  }

  /** Less than `m` units encode to `m` blocks at most. */
  lemma FewUnitsEncode(codec: Codec, x: bytes, m: nat)
    requires IsBlockCodec(codec) && codec.encode(x).Some? && |x| < codec.unpaddedMultiple * m
    ensures |codec.encode(x).value| <= codec.validDecodingMultiple * m
  {
    Encoding(codec, x);
    UnitsOfLess(|x|, codec.unpaddedMultiple, m);
    LessMultipleOrEqual(Units(|x|, codec.unpaddedMultiple), m, codec.validDecodingMultiple);
  }

  lemma EncodingIsBlocks(codec: Codec, x: bytes)
    requires IsBlockCodec(codec) && codec.encode(x).Some?
    ensures |codec.encode(x).value| % codec.validDecodingMultiple == 0
    ensures codec.decode(codec.encode(x).value) == Some(x)
  {
    Encoding(codec, x);
    hide IsBlockCodec, Units;
    MultipleOf(Units(|x|, codec.unpaddedMultiple), codec.validDecodingMultiple);
  }

  lemma BlocksStepOf(codec: Codec, first: bytes, after: bytes, decoded: bytes)
    requires first != [] && codec.decode(first) == Some(decoded)
    ensures var rest := DecodeBlocks(codec, after, |first|);
            DecodeBlocks(codec, first + after, |first|) == Blocks(decoded + rest.output, rest.rest)
  {
    hide DecodeBlocks;
    BlocksStep(codec, first + after, |first|);
    assert (first + after)[..|first|] == first && (first + after)[|first|..] == after;
  }

  /** The blocks of an encoding decode to the input, up to a last one that decodes to the rest of it. */
  lemma {:induction false} BlocksOfEncoding(codec: Codec, x: bytes, m: nat)
    requires IsBlockCodec(codec) && codec.encode(x).Some? && m > 0 && codec.validDecodingMultiple * m > 0
    ensures var b := DecodeBlocks(codec, codec.encode(x).value, codec.validDecodingMultiple * m);
            && b.rest.Some? && |b.rest.value| % codec.validDecodingMultiple == 0
            && |b.rest.value| < codec.validDecodingMultiple * m
            && codec.decode(b.rest.value).Some?
            && b.output + codec.decode(b.rest.value).value == x
    decreases |x|
  {
    var e, n, size := codec.encode(x).value, codec.unpaddedMultiple * m, codec.validDecodingMultiple * m;
    EncodingIsBlocks(codec, x);
    NothingEncodes(codec);
    PositiveProduct(codec.unpaddedMultiple, m);
    hide IsBlockCodec, DecodeBlocks;
    BlocksStep(codec, e, size);
    if |e| < size {
      assert [] + x == x;
    } else if |x| < n {
      FewUnitsEncode(codec, x, m);
      BlocksStepOf(codec, e, [], x);
      BlocksStep(codec, [], size);
      assert e + [] == e && x + [] + [] == x;
    } else {
      var a, b := x[..n], x[n..];
      assert x == a + b;
      var first, f := FirstUnits(codec, a, b, m);
      BlocksOfEncoding(codec, b, m);
      BlocksStepOf(codec, first, f, a);
      var rest := DecodeBlocks(codec, f, size);
      var last := codec.decode(rest.rest.value).value;
      assert a + rest.output + last == a + (rest.output + last) == x;
    }
  }

  lemma NothingEncodes(codec: Codec)
    requires IsBlockCodec(codec)
    ensures codec.encode([]) == Some([]) && codec.decode([]) == Some([])
    ensures 0 % codec.validDecodingMultiple == 0
  {
    assert codec.encode([]) == Some([]);
    Encoding(codec, []);
  }

  lemma {:induction false} LessMultipleOrEqual(a: int, b: int, m: nat)
    requires m > 0 && m * a <= m * b
    ensures a <= b
  {
    assert a * m < (b + 1) * m;
    LessMultiple(a, b + 1, m);
  }

  lemma PositiveProduct(a: nat, b: nat)
    requires a > 0 && b > 0
    ensures a * b > 0
  {}

  lemma Encoding(codec: Codec, x: bytes)
    requires IsBlockCodec(codec) && codec.encode(x).Some?
    ensures var e := codec.encode(x).value;
            && |e| == codec.validDecodingMultiple * Units(|x|, codec.unpaddedMultiple)
            && codec.decode(e) == Some(x)
            && (forall i :: 0 <= i < |e| ==> e[i] in codec.alphabet)
            && (forall i :: 0 <= i < |e| ==> !IsBreak(e[i]))
  {
    assert EncodesWell(codec, x);
    var e := codec.encode(x).value;
    forall i | 0 <= i < |e| ensures !IsBreak(e[i]) {
      assert e[i] in codec.alphabet;
    }
  }

  /** The text of any encoded input, wrapped at any width, decodes to that input, ignoring garbage or not. */
  lemma {:induction false} DecodeUndoesEncode(codec: Codec, x: bytes, width: nat, ignoreGarbage: bool)
    requires IsBlockCodec(codec) && codec.encode(x).Some?
    ensures Decoded(codec, Wrapped(codec.encode(x).value, width), ignoreGarbage) == Decoding(x, true)
  {
    var e, multiple := codec.encode(x).value, codec.validDecodingMultiple;
    Encoding(codec, x);
    UnwrapWrapped(e, width);
    WrappedBytes(e, width, codec.alphabet);
    FilterOfLines(Wrapped(e, width), codec.alphabet, ignoreGarbage);
    var m := if codec.partialDecode then 1 else DECODE_IN_CHUNKS_OF_SIZE_MULTIPLE;
    assert BlockSize(codec) == multiple * m;
    BlocksOfEncoding(codec, x, m);
    var b := DecodeBlocks(codec, e, multiple * m);
    hide DecodeBlocks, Filter, Wrapped;
    assert codec.encode([]) == Some([]);
    Encoding(codec, []);
    if b.rest.value != [] && codec.partialDecode {
      SmallModulo(|b.rest.value|, multiple);
    }
    assert b.output + [] == b.output;
  }

  lemma SmallModulo(n: nat, m: nat)
    requires n < m && n % m == 0
    ensures n == 0
  {}

  // ----- garbage -----

  /** The bytes of the alphabet, in order. */
  function Clean(text: bytes, alphabet: bytes): bytes {
    if text == [] then []
    else (if text[0] in alphabet && text[0] != 10 && text[0] != 13 then [text[0]] else []) + Clean(text[1..], alphabet)
  }

  ghost predicate Legal(text: bytes, alphabet: bytes) {
    forall i :: 0 <= i < |text| ==> text[i] in alphabet || text[i] == 10 || text[i] == 13
  }

  lemma {:induction false} FilterIsClean(text: bytes, alphabet: bytes, ignoreGarbage: bool)
    requires ignoreGarbage || Legal(text, alphabet)
    ensures Filter(text, alphabet, ignoreGarbage) == Filtered(Clean(text, alphabet), true)
  {
    if text != [] {
      FilterIsClean(text[1..], alphabet, ignoreGarbage);
    }
  }

  lemma {:induction false} CleanIsLegal(text: bytes, alphabet: bytes)
    ensures Legal(Clean(text, alphabet), alphabet) && Clean(Clean(text, alphabet), alphabet) == Clean(text, alphabet)
  {
    if text != [] {
      CleanIsLegal(text[1..], alphabet);
      var rest := Clean(text[1..], alphabet);
      assert ([text[0]] + rest)[1..] == rest;
      assert [] + rest == rest;
    }
  }

  /** Ignoring garbage, a text decodes as its bytes of the alphabet alone. */
  lemma GarbageIsIgnored(codec: Codec, text: bytes)
    requires codec.validDecodingMultiple > 0
    ensures Decoded(codec, text, true) == Decoded(codec, Clean(text, codec.alphabet), false)
  {
    hide Filter, Clean;
    CleanIsLegal(text, codec.alphabet);
    FilterIsClean(text, codec.alphabet, true);
    FilterIsClean(Clean(text, codec.alphabet), codec.alphabet, false);
  }

  /** Otherwise the first byte that is neither of the alphabet nor a line break ends the run as a failure. */
  lemma {:induction false} GarbageFails(codec: Codec, before: bytes, garbage: byte, after: bytes)
    requires codec.validDecodingMultiple > 0 && Legal(before, codec.alphabet)
    requires garbage !in codec.alphabet && garbage != 10 && garbage != 13
    ensures Decoded(codec, before + [garbage] + after, false)
            == Decoding(DecodeBlocks(codec, Clean(before, codec.alphabet), BlockSize(codec)).output, false)
  {
    hide DecodeBlocks, BlockSize, Clean;
    FilterIsClean(before, codec.alphabet, false);
    FilterGrows(before, [garbage] + after, codec.alphabet, false);
    assert before + [garbage] + after == before + ([garbage] + after);
    assert Filter([garbage] + after, codec.alphabet, false) == Filtered([], false);
    assert Clean(before, codec.alphabet) + [] == Clean(before, codec.alphabet);
  }

  /** Of a codec that decodes by blocks the whole blocks decode as if at once. */
  lemma {:induction false} BlocksAtOnce(codec: Codec, kept: bytes, size: nat)
    requires DecodesByBlocks(codec) && size > 0 && size % codec.validDecodingMultiple == 0
    requires codec.decode(kept[..Ready(|kept|, size)]).Some?
    ensures var ready := Ready(|kept|, size);
            DecodeBlocks(codec, kept, size) == Blocks(codec.decode(kept[..ready]).value, Some(kept[ready..]))
    decreases |kept|
  {
    hide Ready, DecodesByBlocks;
    if |kept| < size {
      ReadyNothing(|kept|, size);
      EmptyDecodes(codec);
      assert kept[..0] == [] && kept[0..] == kept;
    } else {
      SelfMultiple(size);
      ReadyDrop(|kept|, size, size);
      var ready := Ready(|kept|, size);
      FlushStep(codec, kept, size, ready);
      BlocksAtOnce(codec, kept[size..], size);
      assert kept[size..][ready - size..] == kept[ready..];
    }
  }

  lemma EmptyDecodes(codec: Codec)
    requires DecodesByBlocks(codec)
    ensures codec.decode([]) == Some([])
  {}

  lemma SelfMultiple(m: nat)
    requires m > 0
    ensures m % m == 0
  {
    MultipleOf(1, m);
  }

  /**
    What is out when garbage ends the run: the legal bytes before it, decoded up to the
    last whole block, which is the codec's multiple if it flushes early and 1024 of them
    if not.
  */
  lemma OutputBeforeGarbage(codec: Codec, before: bytes, garbage: byte, after: bytes)
    requires DecodesByBlocks(codec) && Legal(before, codec.alphabet)
    requires garbage !in codec.alphabet && garbage != 10 && garbage != 13
    ensures BlockSize(codec) == codec.validDecodingMultiple * (if codec.partialDecode then 1 else 1024) > 0
    ensures var kept := Clean(before, codec.alphabet);
            var ready := Ready(|kept|, BlockSize(codec));
            codec.decode(kept[..ready]).Some? ==>
              Decoded(codec, before + [garbage] + after, false) == Decoding(codec.decode(kept[..ready]).value, false)
  {
    hide DecodeBlocks, Clean, DecodesByBlocks, Decoded, BlockSize, Ready, Legal;
    var kept, block := Clean(before, codec.alphabet), BlockSize(codec);
    BlockSizeIs(codec);
    GarbageFails(codec, before, garbage, after);
    if codec.decode(kept[..Ready(|kept|, block)]).Some? {
      BlocksAtOnce(codec, kept, block);
    }
  }

  lemma BlockSizeIs(codec: Codec)
    requires DecodesByBlocks(codec)
    ensures BlockSize(codec) == codec.validDecodingMultiple * if codec.partialDecode then 1 else 1024
    ensures BlockSize(codec) > 0 && BlockSize(codec) % codec.validDecodingMultiple == 0
  {
    var m := if codec.partialDecode then 1 else 1024;
    PositiveProduct(codec.validDecodingMultiple, m);
    MultipleOf(m, codec.validDecodingMultiple);
  }

  // ----- the tail -----

  /**
    How a text ends whose kept bytes are whole blocks that decode to `out`, and a rest:
    what the codec makes of the rest by padding is decoded and written last, and the run
    fails iff it says the rest was invalid, or the padded rest is refused.
  */
  lemma TailIsPadded(codec: Codec, text: bytes, ignoreGarbage: bool, out: bytes, rest: bytes)
    requires codec.validDecodingMultiple > 0
    requires var f := Filter(text, codec.alphabet, ignoreGarbage);
             f.clean && DecodeBlocks(codec, f.kept, BlockSize(codec)) == Blocks(out, Some(rest))
    ensures rest == [] ==> Decoded(codec, text, ignoreGarbage) == Decoding(out, true)
    ensures rest != [] && codec.padRemainder(rest).None? ==>
              Decoded(codec, text, ignoreGarbage)
              == match codec.decode(rest) case Some(d) => Decoding(out + d, true) case None => Decoding(out, false)
    ensures forall chunk: bytes, bad: bool ::
              rest != [] && codec.padRemainder(rest) == Some(PadResult(chunk, bad)) ==>
                Decoded(codec, text, ignoreGarbage)
                == match codec.decode(chunk) case Some(d) => Decoding(out + d, !bad) case None => Decoding(out, false)
  {
    hide Filter, DecodeBlocks, BlockSize;
    assert out + [] == out;
  }

  /**
    Where the last `p` bytes of `e` were padding, the codec decodes what is left in the
    buffer as if they stood there: it puts them back, or needs none.
  */
  ghost predicate RestoresPadding(codec: Codec, e: bytes, p: nat)
    requires p <= |e| && codec.validDecodingMultiple > 0
  {
    forall start: nat :: IsTail(codec, e, p, start) ==> Restores(codec, e[start..|e| - p], e[start..])
  }

  ghost predicate Restores(codec: Codec, rest: bytes, padded: bytes) {
    || codec.padRemainder(rest) == Some(PadResult(padded, false))
    || (codec.padRemainder(rest) == None && codec.decode(rest) == codec.decode(padded))
  }

  /** The buffer holds what follows `start`: less than a block, from a whole multiple on. */
  ghost predicate IsTail(codec: Codec, e: bytes, p: nat, start: nat)
    requires p <= |e| && codec.validDecodingMultiple > 0
  {
    start < |e| - p && start % codec.validDecodingMultiple == 0 && |e| - p - start < BlockSize(codec)
  }

  /** An encoding without its last `p` bytes is whole blocks and a rest; with those bytes, the rest decodes too. */
  ghost predicate StrippedAt(codec: Codec, x: bytes, e: bytes, p: nat, size: nat, start: nat)
    requires size > 0 && codec.validDecodingMultiple > 0 && p <= |e|
  {
    && start < |e| - p && start % codec.validDecodingMultiple == 0 && |e| - p - start < size
    && var b := DecodeBlocks(codec, e[..|e| - p], size);
       && b.rest == Some(e[start..|e| - p])
       && codec.decode(e[start..]).Some? && b.output + codec.decode(e[start..]).value == x
  }

  lemma StrippedLater(codec: Codec, a: bytes, b: bytes, first: bytes, f: bytes, p: nat, size: nat, more: nat)
    requires codec.validDecodingMultiple > 0 && size > 0 && |first| == size && p <= |f|
    requires size % codec.validDecodingMultiple == 0 && codec.decode(first) == Some(a)
    requires StrippedAt(codec, b, f, p, size, more)
    ensures StrippedAt(codec, a + b, first + f, p, size, size + more)
  {
    var e, start := first + f, size + more;
    AddMultiple(size, more, codec.validDecodingMultiple);
    var stripped := e[..|e| - p];
    assert stripped == first + f[..|f| - p];
    assert stripped[..size] == first && stripped[size..] == f[..|f| - p];
    assert e[start..] == f[more..] && e[start..|e| - p] == f[more..|f| - p];
    var rest, last := DecodeBlocks(codec, f[..|f| - p], size), codec.decode(f[more..]).value;
    assert a + rest.output + last == a + (rest.output + last);
  }

  lemma {:induction false} BlocksOfStripped(codec: Codec, x: bytes, p: nat, m: nat) returns (start: nat)
    requires IsBlockCodec(codec) && codec.encode(x).Some? && m > 0
    requires 0 < p < codec.validDecodingMultiple && p <= |codec.encode(x).value|
    ensures codec.validDecodingMultiple * m > 0
    ensures StrippedAt(codec, x, codec.encode(x).value, p, codec.validDecodingMultiple * m, start)
    decreases |x|
  {
    hide StrippedAt, Units, IsBlockCodec, DecodeBlocks;
    var e, unit, multiple := codec.encode(x).value, codec.unpaddedMultiple, codec.validDecodingMultiple;
    PositiveUnits(codec);
    PositiveProduct(multiple, m);
    PositiveProduct(unit, m);
    Encoding(codec, x);
    var size, length := multiple * m, unit * m;
    if |e| - p < size {
      start := 0;
      NotAllPadding(|e|, Units(|x|, unit), multiple, p);
      WholeTail(codec, x, e, p, size);
    } else {
      LongerThan(|x|, |e|, unit, multiple, m, p);
      var a, b := x[..length], x[length..];
      assert x == a + b;
      var first, f := FirstUnits(codec, a, b, m);
      var more := BlocksOfStripped(codec, b, p, m);
      StrippedLater(codec, a, b, first, f, p, size, more);
      start := size + more;
    }
  }

  lemma PositiveUnits(codec: Codec)
    requires IsBlockCodec(codec)
    ensures codec.unpaddedMultiple > 0 && codec.validDecodingMultiple > 0
  {}

  /** More than `m` multiples are the encoding of more than `m` units; as many bytes as padding follow them. */
  lemma LongerThan(length: nat, encoded: nat, unit: nat, multiple: nat, m: nat, p: nat)
    requires unit > 0 && 0 < p < multiple && encoded == multiple * Units(length, unit)
    requires encoded - p >= multiple * m
    ensures length > unit * m && p <= encoded - multiple * m
  {
    hide Units;
    MoreThanBlocks(Units(length, unit), m, multiple, p);
    ManyUnits(length, unit, m);
    StrippedFits(encoded, encoded - multiple * m, Units(length, unit), m, multiple, p);
  }

  lemma WholeTail(codec: Codec, x: bytes, e: bytes, p: nat, size: nat)
    requires codec.validDecodingMultiple > 0 && p < |e| && |e| - p < size && codec.decode(e) == Some(x)
    ensures StrippedAt(codec, x, e, p, size, 0)
  {
    assert e[0..|e| - p] == e[..|e| - p] && e[0..] == e && [] + x == x;
  }

  lemma StrippedFits(length: nat, rest: nat, units: nat, m: nat, multiple: nat, p: nat)
    requires length == multiple * units && units > m && 0 < p < multiple && length == multiple * m + rest
    ensures p <= rest
  {
    LessMultipleOrEqual(m + 1, units, multiple);
    assert multiple * (m + 1) == multiple * m + multiple;
  }

  lemma NotAllPadding(length: nat, units: nat, multiple: nat, p: nat)
    requires length == multiple * units && 0 < p < multiple && p <= length
    ensures p < length
  {
    if units > 0 { PositiveProduct(multiple, units); }
    LessMultipleOrEqual(1, units, multiple);
  }

  lemma MoreThanBlocks(units: nat, m: nat, multiple: nat, p: nat)
    requires multiple * units - p >= multiple * m && 0 < p < multiple
    ensures units > m
  {
    LessMultiple(m, units, multiple);
  }

  lemma {:induction false} ManyUnits(length: nat, unit: nat, m: nat)
    requires unit > 0 && Units(length, unit) > m
    ensures length > unit * m
  {
    var n := length + unit - 1;
    var q := n / unit;
    assert n == q * unit + n % unit;
    MultiplesGrow(m + 1, q, unit);
    assert (m + 1) * unit == m * unit + unit;
  }

  lemma MultiplesGrow(a: nat, b: nat, m: nat)
    requires a <= b
    ensures a * m <= b * m
  {
    assert b * m == a * m + (b - a) * m;
  }

  lemma AddMultiple(a: nat, b: nat, m: nat)
    requires m > 0 && a % m == 0 && b % m == 0
    ensures (a + b) % m == 0
  {
    DropMultiple(a + b, a, m);
  }

  /** A wrapped encoding without its padding decodes to the same input as with it, in both modes. */
  lemma {:induction false} DecodesUnpadded(codec: Codec, x: bytes, p: nat, width: nat, ignoreGarbage: bool)
    requires IsBlockCodec(codec) && codec.encode(x).Some?
    requires 0 < p < codec.validDecodingMultiple && p <= |codec.encode(x).value|
    requires RestoresPadding(codec, codec.encode(x).value, p)
    ensures var e := codec.encode(x).value;
            Decoded(codec, Wrapped(e[..|e| - p], width), ignoreGarbage) == Decoding(x, true)
    ensures Decoded(codec, Wrapped(codec.encode(x).value, width), ignoreGarbage) == Decoding(x, true)
  {
    hide DecodeBlocks, Filter, Wrapped;
    var e := codec.encode(x).value;
    var stripped := e[..|e| - p];
    Encoding(codec, x);
    DecodeUndoesEncode(codec, x, width, ignoreGarbage);
    WrappedBytes(stripped, width, codec.alphabet);
    FilterOfLines(Wrapped(stripped, width), codec.alphabet, ignoreGarbage);
    UnwrapWrapped(stripped, width);
    var m := if codec.partialDecode then 1 else DECODE_IN_CHUNKS_OF_SIZE_MULTIPLE;
    assert BlockSize(codec) == codec.validDecodingMultiple * m;
    var start := BlocksOfStripped(codec, x, p, m);
    assert IsTail(codec, e, p, start);
    assert Restores(codec, e[start..|e| - p], e[start..]);
    var b := DecodeBlocks(codec, stripped, BlockSize(codec));
    TailIsPadded(codec, Wrapped(stripped, width), ignoreGarbage, b.output, e[start..|e| - p]);
  }

  /** So, however it is read, a wrapped encoding that lost its padding still gives the input back. */
  method DecodeStripped(pulls: seq<bytes>, codec: Codec, ignoreGarbage: bool, ghost x: bytes, ghost p: nat,
                        ghost width: nat)
    returns (ok: bool, output: bytes)
    requires IsBlockCodec(codec) && codec.encode(x).Some?
    requires 0 < p < codec.validDecodingMultiple && p <= |codec.encode(x).value|
    requires RestoresPadding(codec, codec.encode(x).value, p)
    requires Delivered(pulls) == Wrapped(codec.encode(x).value[..|codec.encode(x).value| - p], width)
    ensures ok && output == x
  {
    hide RestoresPadding, Decoded, Wrapped;
    DecodesUnpadded(codec, x, p, width, ignoreGarbage);
    ok, output := FastDecodeStream(pulls, codec, ignoreGarbage);
  }

  /** The two streams together: whatever the reads, what goes in comes out. */
  method RoundTrip(pulls: seq<bytes>, codec: Codec, wrap: Option<nat>, cut: bytes -> seq<bytes>, ignoreGarbage: bool)
    returns (ok: bool, output: bytes)
    requires IsBlockCodec(codec) && codec.encode(Delivered(pulls)).Some?
    requires forall text: bytes :: Delivered(cut(text)) == text
    ensures ok && output == Delivered(pulls)
  {
    var encoded, text := FastEncodeStream(pulls, codec, wrap);
    DecodeUndoesEncode(codec, Delivered(pulls), Width(wrap), ignoreGarbage);
    ok, output := FastDecodeStream(cut(text), codec, ignoreGarbage);
  }
}

/** Encoding a stream in chunks and wrapping it on the way out (`fast_encode` in src/uu/base_common/src/lib.rs). */
module FastEncode {
  import opened Bytes
  import opened LineWrap
  import opened Codec

  const ENCODE_IN_CHUNKS_OF_SIZE_MULTIPLE: nat := 1024
  const WRAP_DEFAULT: nat := 76

  function Width(wrap: Option<nat>): nat {
    match wrap case Some(n) => n case None => WRAP_DEFAULT
  }

  /** What a sequence of reads delivers: an empty read is the end. */
  function Delivered(pulls: seq<bytes>): bytes {
    if pulls == [] || pulls[0] == [] then [] else pulls[0] + Delivered(pulls[1..])
  }

  function ChunkSize(codec: Codec): nat {
    codec.unpaddedMultiple * ENCODE_IN_CHUNKS_OF_SIZE_MULTIPLE
  }

  lemma PositiveSize(codec: Codec)
    requires codec.unpaddedMultiple > 0
    ensures ChunkSize(codec) > 0
  {}

  /** Whole chunks are whole units, and one more chunk leaves them whole. */
  lemma {:induction false} WholeChunks(unit: nat, length: nat)
    requires unit > 0 && length % (unit * 1024) == 0
    ensures length % unit == 0 && (length + unit * 1024) % (unit * 1024) == 0 && (unit * 1024) % unit == 0
  {
    var size := unit * 1024;
    var q := length / size;
    assert length == q * size && q * size == q * 1024 * unit;
    MultipleOf(q * 1024, unit);
    MultipleOf(1024, unit);
    assert length + size == (q + 1) * size;
    MultipleOf(q + 1, size);
  }

  lemma {:induction false} MultipleOf(k: nat, m: nat)
    requires m > 0
    ensures k * m % m == 0
  {
    var q, r := k * m / m, k * m % m;
    assert k * m == q * m + r;
    assert (k - q) * m == r;
    SmallMultiple(k - q, m);
  }

  class Encoder {
    const codec: Codec
    const width: nat
    var leftoverBuffer: bytes
    var encodedBuffer: bytes
    var printBuffer: bytes
    var output: bytes

    constructor (codec: Codec, wrap: Option<nat>)
      requires codec.unpaddedMultiple > 0
      ensures this.codec == codec && width == Width(wrap) && leftoverBuffer == [] && output == []
      ensures Wrote([])
    {
      this.codec := codec;
      this.width := Width(wrap);
      leftoverBuffer, encodedBuffer, printBuffer, output := [], [], [], [];
    }

    /** Of the encoded text `e`, the complete lines are out and the rest is buffered. */
    ghost predicate Wrote(e: bytes)
      reads this`printBuffer, this`output, this`encodedBuffer
    {
      && printBuffer == []
      && (if width == 0 then output == e && encodedBuffer == []
          else output == FullLines(e, width) && encodedBuffer == Unfinished(e, width))
    }

    method WriteWithoutLineBreaks(isCleanup: bool)
      modifies this`encodedBuffer, this`output
      ensures output == old(output) + old(encodedBuffer)
      ensures encodedBuffer == if isCleanup then old(encodedBuffer) else []
    {
      output := output + encodedBuffer;
      if !isCleanup {
        encodedBuffer := [];
      }
    }

    method WriteWithLineBreaks(isCleanup: bool)
      requires width > 0 && printBuffer == []
      modifies this`encodedBuffer, this`printBuffer, this`output
      ensures var lines, rest := FullLines(old(encodedBuffer), width), Unfinished(old(encodedBuffer), width);
              && encodedBuffer == rest
              && (isCleanup ==> output == old(output) + lines + if rest == [] then [] else rest + [LF])
              && (!isCleanup ==> output == old(output) + lines && printBuffer == [])
    {
      hide FullLines, Unfinished;
      ghost var e := encodedBuffer;
      assert e[0..] == e;
      var added: nat := 0;
      while |encodedBuffer| - added >= width
        invariant added <= |encodedBuffer| && encodedBuffer == e && output == old(output)
        invariant FullLines(e, width) == printBuffer + FullLines(e[added..], width)
        invariant Unfinished(e, width) == Unfinished(e[added..], width)
      {
        var line := encodedBuffer[added..added + width];
        NextLine(e[added..], width);
        assert e[added..][..width] == line && e[added..][width..] == e[added + width..];
        printBuffer := printBuffer + line + [LF];
        added := added + width;
      }
      NextLine(e[added..], width);
      output := output + printBuffer;
      encodedBuffer := encodedBuffer[added..];
      if isCleanup {
        if encodedBuffer != [] {
          output := output + encodedBuffer + [LF];
        }
      } else {
        printBuffer := [];
      }
    }

    method WriteToOutput(isCleanup: bool)
      requires printBuffer == []
      modifies this`encodedBuffer, this`printBuffer, this`output
      ensures var e := old(encodedBuffer);
              if width == 0 then output == old(output) + e && (!isCleanup ==> encodedBuffer == [] && printBuffer == [])
              else
                var lines, rest := FullLines(e, width), Unfinished(e, width);
                && (isCleanup ==> output == old(output) + lines + if rest == [] then [] else rest + [LF])
                && (!isCleanup ==> output == old(output) + lines && encodedBuffer == rest && printBuffer == [])
    {
      if width != 0 {
        WriteWithLineBreaks(isCleanup);
      } else {
        WriteWithoutLineBreaks(isCleanup);
      }
    }

    /** Whole chunks, encoded. */
    ghost predicate Encoded(done: bytes)
      reads this`printBuffer, this`output, this`encodedBuffer
    {
      && ChunkSize(codec) > 0 && |done| % ChunkSize(codec) == 0
      && codec.encode(done).Some? && Wrote(codec.encode(done).value)
    }

    /** Of the data read, whole chunks are encoded and less than a chunk is left over. */
    ghost predicate Took(data: bytes)
      reads this
    {
      var kept := |data| - |leftoverBuffer|;
      && |leftoverBuffer| < ChunkSize(codec) && kept >= 0
      && data[kept..] == leftoverBuffer && Encoded(data[..kept])
    }

    /** Encodes one chunk of whole units and writes the lines it completes. */
    method EncodeChunk(chunk: bytes, ghost done: bytes)
      requires EncodesByBlocks(codec) && |chunk| == ChunkSize(codec) && Encoded(done)
      modifies this`encodedBuffer, this`printBuffer, this`output
      ensures Encoded(done + chunk)
    {
      hide FullLines, Unfinished;
      WholeChunks(codec.unpaddedMultiple, |done|);
      EncodesAppended(codec, done, chunk);
      EncodesAppended(codec, chunk, []);
      hide EncodesByBlocks;
      ghost var e, more := codec.encode(done).value, codec.encode(chunk).value;
      encodedBuffer := encodedBuffer + codec.encode(chunk).value;
      if width > 0 {
        LinesGrow(e, more, width);
      } else {
        assert [] + more == more;
      }
      WriteToOutput(false);
    }

    /** Fills the leftover up to a chunk, which is then encoded. */
    method TopUp(read: bytes, ghost done: bytes) returns (consumed: nat, ghost now: bytes)
      requires EncodesByBlocks(codec) && Encoded(done) && |leftoverBuffer| < ChunkSize(codec)
      modifies this
      ensures consumed <= |read| && (leftoverBuffer == [] || consumed == |read|)
      ensures |leftoverBuffer| < ChunkSize(codec) && Encoded(now)
      ensures now + leftoverBuffer == done + old(leftoverBuffer) + read[..consumed]
    {
      hide EncodesByBlocks, Encoder.Encoded, ChunkSize;
      var size := ChunkSize(codec);
      consumed, now := 0, done;
      if leftoverBuffer != [] {
        var needed := size - |leftoverBuffer|;
        var take := if needed < |read| then needed else |read|;
        leftoverBuffer := leftoverBuffer + read[..take];
        consumed := take;
        if |leftoverBuffer| == size {
          EncodeChunk(leftoverBuffer, done);
          now := done + leftoverBuffer;
          leftoverBuffer := [];
        }
      }
    }

    /** Encodes the whole chunks of the rest of a read. */
    method EncodeChunks(read: bytes, start: nat, ghost done: bytes) returns (consumed: nat, ghost now: bytes)
      requires EncodesByBlocks(codec) && Encoded(done) && start <= |read|
      modifies this`encodedBuffer, this`printBuffer, this`output
      ensures start <= consumed <= |read| && |read| - consumed < ChunkSize(codec)
      ensures Encoded(now) && now == done + read[start..consumed]
    {
      PositiveSize(codec);
      hide EncodesByBlocks, Encoder.Encoded, ChunkSize;
      var size := ChunkSize(codec);
      consumed, now := start, done;
      assert done == done + read[start..start];
      while |read| - consumed >= size
        invariant start <= consumed <= |read| && Encoded(now) && now == done + read[start..consumed]
      {
        EncodeChunk(read[consumed..consumed + size], now);
        now := now + read[consumed..consumed + size];
        SliceJoin(read, start, consumed, consumed + size);
        consumed := consumed + size;
      }
    }

    /** Takes in one read: fills the leftover, encodes the whole chunks, keeps what remains. */
    method Consume(read: bytes, ghost data: bytes)
      requires EncodesByBlocks(codec) && Took(data)
      modifies this
      ensures Took(data + read)
    {
      hide EncodesByBlocks, Encoder.Encoded, ChunkSize;
      ghost var done, held := data[..|data| - |leftoverBuffer|], leftoverBuffer;
      assert data == done + held;
      var from, now := TopUp(read, done);
      ghost var topped := leftoverBuffer;
      var consumed, all := EncodeChunks(read, from, now);
      if consumed < |read| {
        leftoverBuffer := leftoverBuffer + read[consumed..];
      }
      assert read == read[..from] + read[from..consumed] + read[consumed..];
      assert data + read == all + leftoverBuffer by {
        assert data + read == (done + held + read[..from]) + (read[from..consumed] + read[consumed..]);
        if topped == [] {
          assert now + topped == now;
        } else {
          assert read[from..consumed] == [] && read[consumed..] == [];
        }
      }
      assert (data + read)[..|all|] == all;
    }

    /** Encodes what is left over and writes the last line; an odd remainder may be refused. */
    method Finish(ghost data: bytes) returns (ok: bool)
      requires EncodesByBlocks(codec) && Took(data)
      modifies this
      ensures ok <==> codec.encode(data).Some?
      ensures ok ==> output == Wrapped(codec.encode(data).value, width)
      ensures !ok ==> output == old(output)
    {
      hide FullLines, Unfinished;
      ghost var done := data[..|data| - |leftoverBuffer|];
      assert data == done + leftoverBuffer;
      WholeChunks(codec.unpaddedMultiple, |done|);
      EncodesAppended(codec, done, leftoverBuffer);
      hide EncodesByBlocks;
      var last := codec.encode(leftoverBuffer);
      if last.None? {
        return false;
      }
      ghost var e := codec.encode(done).value;
      encodedBuffer := encodedBuffer + last.value;
      if width > 0 {
        LinesGrow(e, last.value, width);
        WrappedIsLines(e + last.value, width);
      } else {
        assert [] + last.value == last.value;
      }
      WriteToOutput(true);
      ok := true;
    }
  }

  lemma {:induction false} DeliveredSnoc(pulls: seq<bytes>, n: nat)
    requires n < |pulls| && forall i :: 0 <= i < n ==> pulls[i] != []
    ensures pulls[n] != [] ==> Delivered(pulls[..n + 1]) == Delivered(pulls[..n]) + pulls[n]
    ensures pulls[n] == [] ==> Delivered(pulls) == Delivered(pulls[..n])
    decreases n
  {
    if n == 0 {
      assert pulls[..1][0] == pulls[0] && pulls[..1][1..] == [] && pulls[..0] == [];
      assert pulls[0] + [] == [] + pulls[0];
    } else {
      DeliveredSnoc(pulls[1..], n - 1);
      assert pulls[..n][1..] == pulls[1..][..n - 1] && pulls[..n + 1][1..] == pulls[1..][..n];
      var middle := Delivered(pulls[1..][..n - 1]);
      assert pulls[0] + (middle + pulls[n]) == pulls[0] + middle + pulls[n];
    }
  }

  /**
    However the reader cuts the input, the output is the whole encoding, wrapped. When the
    codec refuses the input, only complete lines of its whole chunks have been written.
  */
  method FastEncodeStream(pulls: seq<bytes>, codec: Codec, wrap: Option<nat>) returns (ok: bool, output: bytes)
    requires EncodesByBlocks(codec)
    ensures ok <==> codec.encode(Delivered(pulls)).Some?
    ensures ok ==>
              var e := codec.encode(Delivered(pulls)).value;
              output == match wrap case None => Wrapped(e, 76) case Some(n) => if n == 0 then e else Wrapped(e, n)
    ensures !ok ==>
              var data := Delivered(pulls);
              var whole := codec.encode(data[..|data| - |data| % ChunkSize(codec)]);
              whole.Some? && output == if Width(wrap) == 0 then whole.value else FullLines(whole.value, Width(wrap))
  {
    var encoder := new Encoder(codec, wrap);
    var i := 0;
    while i < |pulls| && pulls[i] != []
      invariant i <= |pulls| && forall k :: 0 <= k < i ==> pulls[k] != []
      invariant encoder.codec == codec && encoder.width == Width(wrap)
      invariant encoder.Took(Delivered(pulls[..i]))
    {
      encoder.Consume(pulls[i], Delivered(pulls[..i]));
      DeliveredSnoc(pulls, i);
      i := i + 1;
    }
    ghost var data := Delivered(pulls[..i]);
    if i < |pulls| {
      DeliveredSnoc(pulls, i);
    } else {
      assert pulls[..i] == pulls;
    }
    ChunksOf(|data|, |encoder.leftoverBuffer|, ChunkSize(codec));
    ok := encoder.Finish(data);
    output := encoder.output;
  }

  lemma {:induction false} ChunksOf(length: nat, left: nat, size: nat)
    requires left <= length && left < size && (length - left) % size == 0
    ensures length % size == left
  {
    var q := (length - left) / size;
    var q', r' := length / size, length % size;
    assert length == q * size + left && length == q' * size + r';
    assert (q - q') * size == r' - left;
    SmallMultiple(q - q', size);
  }
}

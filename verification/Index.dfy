/**
  The flat-file index (crates/registry-manual/src/index.rs): which byte images are
  accepted, and what a lookup over an accepted image reads.
*/
module Index {
  import opened Bytes
  import opened Utf8
  import opened LittleEndian
  import opened Anchors

  const MAGIC: bytes := [82, 69, 71, 77, 65, 78, 73, 88]
  const VERSION: nat := 2
  const HEADER_LEN: nat := 48
  const DESC_LEN: nat := 16
  const LOC_LEN: nat := 12
  const WILD_LEN: nat := 4

  /** Where a record is: a fragment file and the byte offset of its fence. */
  datatype Location = Location(file: bytes, offset: nat)

  datatype Index = Index(
    image: bytes,
    files: seq<bytes>,
    entries: nat,
    descOff: nat,
    locsOff: nat,
    wildOff: nat,
    wildN: nat)

  // ----- reading an index -----

  /** The three arrays lie inside the image. */
  ghost predicate Framed(idx: Index, locCount: nat) {
    && idx.descOff + idx.entries * DESC_LEN <= |idx.image|
    && idx.locsOff + locCount * LOC_LEN <= |idx.image|
    && idx.wildOff + idx.wildN * WILD_LEN <= |idx.image|
  }

  lemma {:induction false} RowFits(i: nat, n: nat, width: nat)
    requires i < n
    ensures i * width + width <= n * width
    decreases n - i
  {
    if i + 1 < n {
      RowFits(i + 1, n, width);
    }
  }

  /** Field `k` of descriptor `i`: anchor offset, anchor length, first location, locations. */
  function Field(idx: Index, i: nat, k: nat): (r: nat)
    requires idx.descOff + idx.entries * DESC_LEN <= |idx.image|
    requires i < idx.entries && k < 4
    ensures r < TWO_32
  {
    RowFits(i, idx.entries, DESC_LEN);
    Read32(idx.image, idx.descOff + i * DESC_LEN + 4 * k)
  }

  function AnchorAt(idx: Index, i: nat): bytes
    requires idx.descOff + idx.entries * DESC_LEN <= |idx.image| && i < idx.entries
    requires Field(idx, i, 0) + Field(idx, i, 1) <= |idx.image|
  {
    idx.image[Field(idx, i, 0)..Field(idx, i, 0) + Field(idx, i, 1)]
  }

  function WildAt(idx: Index, k: nat): nat
    requires idx.wildOff + idx.wildN * WILD_LEN <= |idx.image| && k < idx.wildN
  {
    RowFits(k, idx.wildN, WILD_LEN);
    Read32(idx.image, idx.wildOff + k * WILD_LEN)
  }

  function LocationFile(idx: Index, locCount: nat, k: nat): nat
    requires idx.locsOff + locCount * LOC_LEN <= |idx.image| && k < locCount
  {
    RowFits(k, locCount, LOC_LEN);
    Read32(idx.image, idx.locsOff + k * LOC_LEN)
  }

  function LocationOffset(idx: Index, locCount: nat, k: nat): nat
    requires idx.locsOff + locCount * LOC_LEN <= |idx.image| && k < locCount
  {
    RowFits(k, locCount, LOC_LEN);
    Read64(idx.image, idx.locsOff + k * LOC_LEN + 4)
  }

  // ----- acceptance -----

  ghost predicate DescriptorOk(idx: Index, anchOff: nat, locCount: nat, i: nat)
    requires Framed(idx, locCount) && i < idx.entries
  {
    && anchOff <= Field(idx, i, 0)
    && Field(idx, i, 0) + Field(idx, i, 1) <= |idx.image|
    && Field(idx, i, 2) + Field(idx, i, 3) <= locCount
    && IsUtf8(AnchorAt(idx, i))
  }

  ghost predicate DescriptorsOk(idx: Index, anchOff: nat, locCount: nat, n: nat)
    requires Framed(idx, locCount) && n <= idx.entries
  {
    forall i :: 0 <= i < n ==> DescriptorOk(idx, anchOff, locCount, i)
  }

  ghost function AnchorsUpTo(idx: Index, anchOff: nat, locCount: nat, n: nat): (r: seq<bytes>)
    requires Framed(idx, locCount) && n <= idx.entries && DescriptorsOk(idx, anchOff, locCount, n)
    ensures |r| == n
    ensures forall i :: 0 <= i < n ==> DescriptorOk(idx, anchOff, locCount, i) && r[i] == AnchorAt(idx, i)
  {
    seq(n, i requires 0 <= i < n => assert DescriptorOk(idx, anchOff, locCount, i); AnchorAt(idx, i))
  }

  /** The placeholder array starts with `picked`. */
  ghost predicate WildsAre(idx: Index, picked: seq<nat>)
    requires idx.wildOff + idx.wildN * WILD_LEN <= |idx.image|
  {
    |picked| <= idx.wildN && forall k :: 0 <= k < |picked| ==> WildAt(idx, k) == picked[k]
  }

  /** The first `n` descriptors are in bounds, sorted, and their placeholders are listed. */
  ghost predicate ValidUpTo(idx: Index, anchOff: nat, locCount: nat, n: nat)
    requires Framed(idx, locCount) && n <= idx.entries
  {
    && DescriptorsOk(idx, anchOff, locCount, n)
    && var anchors := AnchorsUpTo(idx, anchOff, locCount, n);
       && Sorted(anchors)
       && WildsAre(idx, Pick(anchors, WithPlaceholder))
  }

  ghost predicate LocationsOk(idx: Index, locCount: nat, n: nat)
    requires Framed(idx, locCount) && n <= locCount
  {
    forall k :: 0 <= k < n ==> LocationFile(idx, locCount, k) < |idx.files|
  }

  /** What `validate_records` establishes. */
  ghost predicate Valid(idx: Index, anchOff: nat, locCount: nat) {
    && Framed(idx, locCount)
    && ValidUpTo(idx, anchOff, locCount, idx.entries)
    && |Pick(AnchorsUpTo(idx, anchOff, locCount, idx.entries), WithPlaceholder)| == idx.wildN
    && LocationsOk(idx, locCount, locCount)
  }

  /** `n` length-prefixed paths in UTF-8 that exactly fill `at..end`. */
  function FileTable(b: bytes, at: nat, n: nat, end: nat): Option<seq<bytes>>
    requires at <= end <= |b|
    decreases n
  {
    if n == 0 then (if at == end then Some([]) else None)
    else if at + 4 > end then None
    else
      var stop := at + 4 + Read32(b, at);
      if stop > end || !IsUtf8(b[at + 4..stop]) then None
      else
        match FileTable(b, stop, n - 1, end)
        case None => None
        case Some(rest) => Some([b[at + 4..stop]] + rest)
  }

  function HeaderField(b: bytes, k: nat): (r: nat)
    requires |b| >= HEADER_LEN && k < 10
    ensures r < TWO_32
  {
    Read32(b, 8 + 4 * k)
  }

  /** The header's counts and offsets describe adjacent sections of the image. */
  predicate HeaderOk(b: bytes) {
    && |b| >= HEADER_LEN && b[..8] == MAGIC && HeaderField(b, 0) == VERSION
    && var entries, descOff, locsOff := HeaderField(b, 1), HeaderField(b, 2), HeaderField(b, 3);
       var filesOff, anchOff, fileCount := HeaderField(b, 4), HeaderField(b, 5), HeaderField(b, 6);
       var wildOff, wildN := HeaderField(b, 7), HeaderField(b, 8);
       && descOff == HEADER_LEN
       && descOff + entries * DESC_LEN == locsOff
       && locsOff <= filesOff && (filesOff - locsOff) % LOC_LEN == 0
       && filesOff <= wildOff
       && wildOff + wildN * WILD_LEN == anchOff
       && anchOff <= |b|
       && fileCount <= (wildOff - filesOff) / 4
  }

  /** The accepted headers, byte by byte: the word, version 2, and sections one behind the other. */
  lemma HeaderIs(b: bytes)
    ensures HeaderOk(b) <==>
              && |b| >= 48 && b[..12] == [82, 69, 71, 77, 65, 78, 73, 88, 2, 0, 0, 0]
              && Read32(b, 16) == 48
              && 48 + 16 * Read32(b, 12) == Read32(b, 20) <= Read32(b, 24) <= Read32(b, 36)
              && (Read32(b, 24) - Read32(b, 20)) % 12 == 0
              && Read32(b, 36) + 4 * Read32(b, 40) == Read32(b, 28) <= |b|
              && 4 * Read32(b, 32) <= Read32(b, 36) - Read32(b, 24)
  {
    if |b| >= 48 {
      assert b[..12] == b[..8] + b[8..12];
      assert Read32(b, 8) == 2 <==> b[8..12] == [2, 0, 0, 0];
    }
  }

  function FilesOf(b: bytes): Option<seq<bytes>>
    requires HeaderOk(b)
  {
    FileTable(b, HeaderField(b, 4), HeaderField(b, 6), HeaderField(b, 7))
  }

  function IndexOfImage(b: bytes, files: seq<bytes>): Index
    requires HeaderOk(b)
  {
    Index(b, files, HeaderField(b, 1), HeaderField(b, 2), HeaderField(b, 3), HeaderField(b, 7), HeaderField(b, 8))
  }

  function LocCount(b: bytes): nat
    requires HeaderOk(b)
  {
    (HeaderField(b, 4) - HeaderField(b, 3)) / LOC_LEN
  }

  lemma HeaderFrames(b: bytes, files: seq<bytes>)
    requires HeaderOk(b)
    ensures Framed(IndexOfImage(b, files), LocCount(b))
  {
    var span := HeaderField(b, 4) - HeaderField(b, 3);
    assert span == LOC_LEN * (span / LOC_LEN) + span % LOC_LEN;
  }

  /** The index an image denotes; `None` for every image that is not accepted. */
  ghost function Decoded(b: bytes): Option<Index> {
    if !HeaderOk(b) || FilesOf(b).None? then None
    else
      var idx := IndexOfImage(b, FilesOf(b).value);
      if Valid(idx, HeaderField(b, 5), LocCount(b)) then Some(idx) else None
  }
}

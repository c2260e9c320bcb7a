/** What is written is what is read: `decode` of a serialised index. */
module IndexRoundTrip {
  import opened Bytes
  import opened Utf8
  import opened LittleEndian
  import opened Anchors
  import opened Index
  import opened IndexReader
  import opened IndexWriter

  /** Sorted anchors and paths in UTF-8, locations that name files, and an image of less than 4 GiB. */
  ghost predicate Encodable(entries: seq<Entry>, files: seq<bytes>) {
    && Sorted(AnchorList(entries)) && AllUtf8(AnchorList(entries)) && AllUtf8(files)
    && |Image(entries, files)| < TWO_32
    && LocsInRange(entries, |files|)
  }

  ghost predicate LocsInRange(entries: seq<Entry>, files: nat) {
    forall i, j :: 0 <= i < |entries| && 0 <= j < |entries[i].locs| ==>
      entries[i].locs[j].0 < files && entries[i].locs[j].1 < TWO_64
  }

  ghost function NamedLocations(files: seq<bytes>, locs: seq<(nat, nat)>): (r: seq<Location>)
    requires forall j :: 0 <= j < |locs| ==> locs[j].0 < |files|
    ensures |r| == |locs|
    ensures forall j :: 0 <= j < |locs| ==> r[j] == Location(files[locs[j].0], locs[j].1)
  {
    seq(|locs|, j requires 0 <= j < |locs| => Location(files[locs[j].0], locs[j].1))
  }

  // ----- where the sections are -----

  ghost predicate SectionAt(b: bytes, at: nat, s: bytes) {
    at + |s| <= |b| && b[at..at + |s|] == s
  }

  lemma FiveSections(h: bytes, d: bytes, l: bytes, f: bytes, w: bytes, a: bytes)
    ensures var b := h + d + l + f + w + a;
            && SectionAt(b, 0, h) && SectionAt(b, |h|, d) && SectionAt(b, |h + d|, l)
            && SectionAt(b, |h + d + l|, f) && SectionAt(b, |h + d + l + f|, w)
            && SectionAt(b, |h + d + l + f + w|, a)
            && |b| == |h| + |d| + |l| + |f| + |w| + |a|
  {}

  lemma HeaderLength(l: Layout)
    ensures |Header(l)| == HEADER_LEN
  {
    hide Concat, HeaderRows;
    TableLength(HeaderRows(l), 4);
  }

  lemma {:induction false} SectionsOfImage(entries: seq<Entry>, files: seq<bytes>)
    ensures var b, l := Image(entries, files), LayoutOf(entries, files);
            && SectionAt(b, 0, Header(l)) && |Header(l)| == HEADER_LEN
            && SectionAt(b, HEADER_LEN, Concat(DescRows(entries, l.anchOff)))
            && SectionAt(b, l.locsOff, Concat(LocRows(LocList(entries))))
            && SectionAt(b, l.filesOff, Concat(FileRows(files)))
            && SectionAt(b, l.wildOff, Concat(WildRows(WildList(entries))))
            && SectionAt(b, l.anchOff, Concat(AnchorList(entries)))
            && l.wildOff == l.filesOff + |Concat(FileRows(files))|
            && |b| == l.anchOff + |Concat(AnchorList(entries))|
  {
    hide SectionAt, Header, Concat, DescRows, LocRows, LocList, WildRows, WildList, AnchorList, FileRows;
    var l := LayoutOf(entries, files);
    HeaderLength(l);
    TableLength(DescRows(entries, l.anchOff), DESC_LEN);
    TableLength(LocRows(LocList(entries)), LOC_LEN);
    TableLength(WildRows(WildList(entries)), WILD_LEN);
    FiveSections(Header(l), Concat(DescRows(entries, l.anchOff)), Concat(LocRows(LocList(entries))),
                 Concat(FileRows(files)), Concat(WildRows(WildList(entries))), Concat(AnchorList(entries)));
  }

  // ----- header -----

  ghost function HeaderValue(l: Layout, k: nat): nat
    requires k < 10
  {
    [VERSION, l.entries, HEADER_LEN, l.locsOff, l.filesOff, l.anchOff, l.files, l.wildOff, l.wilds, 0][k]
  }

  lemma HeaderFieldIs(b: bytes, l: Layout, k: nat)
    requires |b| >= HEADER_LEN && SectionAt(b, 0, Header(l)) && |Header(l)| == HEADER_LEN && k < 10
    requires HeaderValue(l, k) < TWO_32
    ensures HeaderField(b, k) == HeaderValue(l, k)
  {
    hide Concat, Le32, Read32;
    TableRow(HeaderRows(l), 4, k);
    var at := 8 + 4 * k;
    SubSlice(b, 0, Header(l), at, at + 4);
    assert Header(l)[at..at + 4] == Concat(HeaderRows(l))[4 * k..4 * k + 4];
    Read32At(b, at, HeaderValue(l, k));
  }

  lemma LayoutBounds(entries: seq<Entry>, files: seq<bytes>)
    requires Encodable(entries, files)
    ensures forall k :: 0 <= k < 10 ==> HeaderValue(LayoutOf(entries, files), k) < TWO_32
    ensures |files| * 4 <= |Concat(FileRows(files))|
  {
    SectionsOfImage(entries, files);
    FileTableLength(files);
    hide Concat, LocList, WildList, Header, DescRows, LocRows, WildRows, AnchorList, FileRows, SectionAt;
  }

  lemma {:induction false} FileTableLength(files: seq<bytes>)
    ensures |files| * 4 <= |Concat(FileRows(files))|
  {
    if files != [] {
      FileTableLength(files[1..]);
      assert FileRows(files)[1..] == FileRows(files[1..]);
    }
  }

  lemma {:induction false} HeaderRoundTrip(entries: seq<Entry>, files: seq<bytes>)
    requires Encodable(entries, files)
    ensures var b, l := Image(entries, files), LayoutOf(entries, files);
            HeaderOk(b) && forall k :: 0 <= k < 10 ==> HeaderField(b, k) == HeaderValue(l, k)
  {
    hide Concat, LocList, WildList, Image, DescRows, LocRows, WildRows, AnchorList, FileRows, HeaderField, HeaderRows;
    var b, l := Image(entries, files), LayoutOf(entries, files);
    SectionsOfImage(entries, files);
    LayoutBounds(entries, files);
    forall k | 0 <= k < 10 ensures HeaderField(b, k) == HeaderValue(l, k) {
      HeaderFieldIs(b, l, k);
    }
    assert b[..8] == Header(l)[..8] == MAGIC;
    var spans := |LocList(entries)|;
    assert (spans * LOC_LEN) % LOC_LEN == 0;
  }

  // ----- file table -----

  lemma FileRowAt(b: bytes, at: nat, file: bytes, rest: bytes)
    requires SectionAt(b, at, Le32(|file|) + file + rest) && |b| < TWO_32
    ensures at + 4 + |file| <= |b| && Read32(b, at) == |file|
    ensures b[at + 4..at + 4 + |file|] == file && SectionAt(b, at + 4 + |file|, rest)
  {
    hide Le32, Read32;
    var row := Le32(|file|) + file + rest;
    SubSlice(b, at, row, 0, 4);
    Read32At(b, at, |file|);
    SubSlice(b, at, row, 4, 4 + |file|);
    SubSlice(b, at, row, 4 + |file|, |row|);
  }

  lemma {:induction false} FileTableRoundTrip(b: bytes, at: nat, files: seq<bytes>)
    requires SectionAt(b, at, Concat(FileRows(files))) && |b| < TWO_32 && AllUtf8(files)
    ensures FileTable(b, at, |files|, at + |Concat(FileRows(files))|) == Some(files)
    decreases |files|
  {
    hide Read32, Le32, SectionAt, Concat, IsUtf8;
    var rows := FileRows(files);
    FitsIn(b, at, Concat(rows));
    if files == [] {
      assert rows[..0] == rows;
      NoParts(rows);
      assert FileTable(b, at, 0, at) == Some([]);
    } else {
      ConcatHead(rows);
      assert rows[1..] == FileRows(files[1..]);
      var rest := Concat(rows[1..]);
      FileRowAt(b, at, files[0], rest);
      FileTableRoundTrip(b, at + 4 + |files[0]|, files[1..]);
      assert [files[0]] + files[1..] == files;
    }
  }

  lemma IsSection(b: bytes, at: nat, s: bytes)
    requires at + |s| <= |b| && b[at..at + |s|] == s
    ensures SectionAt(b, at, s)
  {}

  lemma FitsIn(b: bytes, at: nat, s: bytes)
    requires SectionAt(b, at, s)
    ensures at + |s| <= |b| && b[at..at + |s|] == s
  {}

  // ----- descriptors -----

  lemma {:induction false} DescRowAt(entries: seq<Entry>, anchOff: nat, i: nat)
    requires i < |entries|
    ensures DescRows(entries, anchOff)[i] ==
            DescRow(anchOff + |Concat(AnchorList(entries[..i]))|, entries[i], |LocList(entries[..i])|)
  {
    hide DescRow, Concat, LocList;
    var n := |entries| - 1;
    if i < n {
      DescRowAt(entries[..n], anchOff, i);
      assert entries[..n][..i] == entries[..i];
    }
  }

  lemma {:induction false} DescRowFields(b: bytes, at: nat, anchorOff: nat, entry: Entry, locIdx: nat)
    requires SectionAt(b, at, DescRow(anchorOff, entry, locIdx))
    requires anchorOff < TWO_32 && |entry.anchor| < TWO_32 && locIdx < TWO_32 && |entry.locs| < TWO_32
    ensures at + DESC_LEN <= |b|
    ensures Read32(b, at) == anchorOff && Read32(b, at + 4) == |entry.anchor|
    ensures Read32(b, at + 8) == locIdx && Read32(b, at + 12) == |entry.locs|
  {
    hide Read32, Le32;
    var row := DescRow(anchorOff, entry, locIdx);
    SubSlice(b, at, row, 0, 4);
    SubSlice(b, at, row, 4, 8);
    SubSlice(b, at, row, 8, 12);
    SubSlice(b, at, row, 12, 16);
    Read32At(b, at, anchorOff);
    Read32At(b, at + 4, |entry.anchor|);
    Read32At(b, at + 8, locIdx);
    Read32At(b, at + 12, |entry.locs|);
  }

  /** Rows of a section sit at multiples of their width. */
  lemma {:induction false} RowSection(b: bytes, at: nat, rows: seq<bytes>, width: nat, i: nat)
    requires SectionAt(b, at, Concat(rows)) && Rows(rows, width) && i < |rows|
    ensures SectionAt(b, at + i * width, rows[i])
  {
    hide Concat, SectionAt;
    TableRow(rows, width, i);
    FitsIn(b, at, Concat(rows));
    var from := i * width;
    SubSlice(b, at, Concat(rows), from, from + width);
    IsSection(b, at + from, rows[i]);
  }

  /** The anchors and locations of the first `i` entries are a prefix of all of them. */
  lemma {:induction false} PartsAt(entries: seq<Entry>, i: nat)
    requires i < |entries|
    ensures var pre := |Concat(AnchorList(entries[..i]))|;
            SectionAt(Concat(AnchorList(entries)), pre, entries[i].anchor)
    ensures var pre := |LocList(entries[..i])|;
            pre + |entries[i].locs| <= |LocList(entries)|
            && LocList(entries)[pre..pre + |entries[i].locs|] == entries[i].locs
  {
    AnchorPart(entries, i);
    LocPart(entries, i);
  }

  lemma AnchorPart(entries: seq<Entry>, i: nat)
    requires i < |entries|
    ensures SectionAt(Concat(AnchorList(entries)), |Concat(AnchorList(entries[..i]))|, entries[i].anchor)
  {
    hide Concat;
    var anchors := AnchorList(entries);
    ConcatSplit(anchors, i);
    assert AnchorList(entries[..i]) == anchors[..i];
  }

  lemma {:induction false} LocPart(entries: seq<Entry>, i: nat)
    requires i < |entries|
    ensures var pre := |LocList(entries[..i])|;
            pre + |entries[i].locs| <= |LocList(entries)|
            && LocList(entries)[pre..pre + |entries[i].locs|] == entries[i].locs
  {
    var n := |entries| - 1;
    var front, last := LocList(entries[..n]), entries[n].locs;
    assert LocList(entries) == front + last;
    if i < n {
      LocPart(entries[..n], i);
      assert entries[..n][..i] == entries[..i];
      var pre := |LocList(entries[..i])|;
      hide LocList;
      assert (front + last)[pre..pre + |entries[i].locs|] == front[pre..pre + |entries[i].locs|];
    } else {
      hide LocList;
      assert (front + last)[|front|..|front| + |last|] == last;
    }
  }

  // ----- locations and placeholders -----

  lemma {:induction false} LocRowFields(b: bytes, at: nat, loc: (nat, nat))
    requires SectionAt(b, at, LocRow(loc)) && loc.0 < TWO_32 && loc.1 < TWO_64
    ensures at + LOC_LEN <= |b| && Read32(b, at) == loc.0 && Read64(b, at + 4) == loc.1
  {
    hide Read32, Read64, Le32, Le64;
    SubSlice(b, at, LocRow(loc), 0, 4);
    SubSlice(b, at, LocRow(loc), 4, 12);
    Read32At(b, at, loc.0);
    Read64At(b, at + 4, loc.1);
  }

  lemma {:induction false} WildListIsPick(entries: seq<Entry>)
    ensures WildList(entries) == Pick(AnchorList(entries), WithPlaceholder)
  {
    if entries != [] {
      var n := |entries| - 1;
      WildListIsPick(entries[..n]);
      assert AnchorList(entries)[..n] == AnchorList(entries[..n]);
    }
  }

  // ----- the whole image -----

  /** The index read back, before its records are validated. */
  ghost function ReadBack(entries: seq<Entry>, files: seq<bytes>): Index {
    var l := LayoutOf(entries, files);
    Index(Image(entries, files), files, l.entries, HEADER_LEN, l.locsOff, l.wildOff, l.wilds)
  }

  lemma {:induction false} ReadBackFrame(entries: seq<Entry>, files: seq<bytes>)
    requires Encodable(entries, files)
    ensures var b := Image(entries, files);
            && HeaderOk(b) && FilesOf(b) == Some(files)
            && IndexOfImage(b, files) == ReadBack(entries, files)
            && HeaderField(b, 5) == LayoutOf(entries, files).anchOff
            && LocCount(b) == |LocList(entries)|
            && Framed(ReadBack(entries, files), |LocList(entries)|)
  {
    hide Image, LocList, WildList, Concat, SectionAt, DescRows, LocRows, WildRows, AnchorList, FileRows, HeaderField,
      Header, FileTable, Sorted;
    var b, l := Image(entries, files), LayoutOf(entries, files);
    HeaderRoundTrip(entries, files);
    assert forall k :: 0 <= k < 10 ==> HeaderField(b, k) == HeaderValue(l, k);
    SectionsOfImage(entries, files);
    FileTableRoundTrip(b, l.filesOff, files);
    HeaderFrames(b, files);
    var spans := |LocList(entries)|;
    assert spans * LOC_LEN / LOC_LEN == spans;
  }

  lemma {:induction false} ReadBackFields(entries: seq<Entry>, files: seq<bytes>, i: nat)
    requires Encodable(entries, files) && i < |entries|
    ensures var idx := ReadBack(entries, files);
            && Framed(idx, |LocList(entries)|)
            && Field(idx, i, 0) == LayoutOf(entries, files).anchOff + |Concat(AnchorList(entries[..i]))|
            && Field(idx, i, 1) == |entries[i].anchor|
            && Field(idx, i, 2) == |LocList(entries[..i])|
            && Field(idx, i, 3) == |entries[i].locs|
  {
    hide Image, LocList, WildList, Concat, DescRows, LocRows, WildRows, AnchorList, FileRows, HeaderField, Header,
      FileTable, Sorted, DescRow, Read32, LayoutOf, AllUtf8;
    var b, l := Image(entries, files), LayoutOf(entries, files);
    ReadBackFrame(entries, files);
    SectionsOfImage(entries, files);
    LocListFits(entries, files);
    PartsAt(entries, i);
    var pre := |Concat(AnchorList(entries[..i]))|;
    DescRowAt(entries, l.anchOff, i);
    RowSection(b, HEADER_LEN, DescRows(entries, l.anchOff), DESC_LEN, i);
    DescRowFields(b, HEADER_LEN + i * DESC_LEN, l.anchOff + pre, entries[i], |LocList(entries[..i])|);
  }

  /** Descriptor `i` of the image describes entry `i`. */
  lemma {:induction false} ReadBackDescriptor(entries: seq<Entry>, files: seq<bytes>, i: nat)
    requires Encodable(entries, files) && i < |entries|
    ensures var idx := ReadBack(entries, files);
            && Framed(idx, |LocList(entries)|)
            && Field(idx, i, 2) == |LocList(entries[..i])|
            && Field(idx, i, 3) == |entries[i].locs|
            && DescriptorOk(idx, LayoutOf(entries, files).anchOff, |LocList(entries)|, i)
            && AnchorAt(idx, i) == entries[i].anchor
  {
    hide Image, LocList, WildList, Concat, DescRows, LocRows, WildRows, AnchorList, FileRows, HeaderField, Header,
      FileTable, Sorted, Field, LayoutOf, IsUtf8;
    var b, l := Image(entries, files), LayoutOf(entries, files);
    ReadBackFields(entries, files, i);
    SectionsOfImage(entries, files);
    LocListFits(entries, files);
    PartsAt(entries, i);
    var pre := |Concat(AnchorList(entries[..i]))|;
    SubSlice(b, l.anchOff, Concat(AnchorList(entries)), pre, pre + |entries[i].anchor|);
    assert AnchorList(entries)[i] == entries[i].anchor;
  }

  lemma {:induction false} LocListFits(entries: seq<Entry>, files: seq<bytes>)
    requires Encodable(entries, files)
    ensures |LocList(entries)| < TWO_32 && LayoutOf(entries, files).entries == |entries|
  {
    hide Image, LocList, WildList, Concat, DescRows, LocRows, WildRows, AnchorList, FileRows, Header, SectionAt, Sorted;
    SectionsOfImage(entries, files);
  }

  /** Location `k` of the image is location `k` of the entries. */
  lemma {:induction false} ReadBackLocation(entries: seq<Entry>, files: seq<bytes>, k: nat)
    requires Encodable(entries, files) && k < |LocList(entries)|
    requires LocList(entries)[k].0 < |files| && LocList(entries)[k].1 < TWO_64
    ensures var idx := ReadBack(entries, files);
            && Framed(idx, |LocList(entries)|)
            && LocationFile(idx, |LocList(entries)|, k) == LocList(entries)[k].0
            && LocationOffset(idx, |LocList(entries)|, k) == LocList(entries)[k].1
  {
    hide Image, LocList, WildList, Concat, DescRows, LocRows, WildRows, AnchorList, FileRows, HeaderField, Header,
      FileTable, Sorted, LocRow, Read32, Read64, LayoutOf;
    var b, l := Image(entries, files), LayoutOf(entries, files);
    ReadBackFrame(entries, files);
    SectionsOfImage(entries, files);
    LayoutBounds(entries, files);
    assert HeaderValue(l, 6) < TWO_32;
    FileCount(entries, files);
    RowSection(b, l.locsOff, LocRows(LocList(entries)), LOC_LEN, k);
    LocRowFields(b, l.locsOff + k * LOC_LEN, LocList(entries)[k]);
  }

  lemma FileCount(entries: seq<Entry>, files: seq<bytes>)
    ensures LayoutOf(entries, files).files == |files| && LayoutOf(entries, files).wilds == |WildList(entries)|
  {}

  lemma {:induction false} ReadBackWild(entries: seq<Entry>, files: seq<bytes>, k: nat)
    requires Encodable(entries, files) && k < |WildList(entries)|
    ensures var idx := ReadBack(entries, files);
            && Framed(idx, |LocList(entries)|) && idx.wildN == |WildList(entries)|
            && WildAt(idx, k) == WildList(entries)[k]
  {
    hide Image, LocList, WildList, Concat, DescRows, LocRows, WildRows, AnchorList, FileRows, HeaderField, Header,
      FileTable, Sorted, Read32, LayoutOf, Le32;
    var b, l := Image(entries, files), LayoutOf(entries, files);
    ReadBackFrame(entries, files);
    SectionsOfImage(entries, files);
    LocListFits(entries, files);
    LayoutBounds(entries, files);
    assert HeaderValue(l, 1) < TWO_32;
    FileCount(entries, files);
    WildListBound(entries);
    RowSection(b, l.wildOff, WildRows(WildList(entries)), WILD_LEN, k);
    Read32At(b, l.wildOff + k * WILD_LEN, WildList(entries)[k]);
  }

  lemma {:induction false} WildListBound(entries: seq<Entry>)
    ensures forall k :: 0 <= k < |WildList(entries)| ==> WildList(entries)[k] < |entries|
  {
    if entries != [] { WildListBound(entries[..|entries| - 1]); }
  }

  // ----- the round trip -----

  lemma {:induction false} LocListBounded(entries: seq<Entry>, files: nat)
    requires LocsInRange(entries, files)
    ensures forall k :: 0 <= k < |LocList(entries)| ==> LocList(entries)[k].0 < files && LocList(entries)[k].1 < TWO_64
  {
    if entries != [] {
      LocListBounded(entries[..|entries| - 1], files);
    }
  }

  lemma {:induction false} ReadBackDescriptors(entries: seq<Entry>, files: seq<bytes>)
    requires Encodable(entries, files)
    ensures var idx, anchOff, n := ReadBack(entries, files), LayoutOf(entries, files).anchOff, |LocList(entries)|;
            && Framed(idx, n) && idx.entries == |entries|
            && DescriptorsOk(idx, anchOff, n, idx.entries)
            && AnchorsUpTo(idx, anchOff, n, idx.entries) == AnchorList(entries)
  {
    hide LocList, Field, AnchorAt, Image, LayoutOf, Concat;
    var idx, anchOff, n := ReadBack(entries, files), LayoutOf(entries, files).anchOff, |LocList(entries)|;
    ReadBackFrame(entries, files);
    LocListFits(entries, files);
    forall i | 0 <= i < |entries|
      ensures DescriptorOk(idx, anchOff, n, i) && AnchorAt(idx, i) == entries[i].anchor
    {
      ReadBackDescriptor(entries, files, i);
    }
  }

  lemma ReadBackWilds(entries: seq<Entry>, files: seq<bytes>)
    requires Encodable(entries, files)
    ensures var idx, picked := ReadBack(entries, files), Pick(AnchorList(entries), WithPlaceholder);
            idx.wildOff + idx.wildN * WILD_LEN <= |idx.image| && idx.wildN == |picked| && WildsAre(idx, picked)
  {
    hide LocList, WildList, WildAt, Image, LayoutOf, Pick;
    ReadBackFrame(entries, files);
    FileCount(entries, files);
    WildListIsPick(entries);
    forall k | 0 <= k < |WildList(entries)|
      ensures WildAt(ReadBack(entries, files), k) == WildList(entries)[k]
    {
      ReadBackWild(entries, files, k);
    }
  }

  lemma {:induction false} ReadBackLocations(entries: seq<Entry>, files: seq<bytes>)
    requires Encodable(entries, files)
    ensures var idx, n := ReadBack(entries, files), |LocList(entries)|;
            Framed(idx, n) && LocationsOk(idx, n, n)
  {
    hide LocList, LocationFile, LocationOffset, Framed, Image, LayoutOf;
    ReadBackFrame(entries, files);
    LocListBounded(entries, |files|);
    forall k | 0 <= k < |LocList(entries)|
      ensures LocationFile(ReadBack(entries, files), |LocList(entries)|, k) < |files|
    {
      ReadBackLocation(entries, files, k);
    }
  }

  /** A serialised index is accepted, and is sound. */
  lemma {:induction false} ImageIsAccepted(entries: seq<Entry>, files: seq<bytes>)
    requires Encodable(entries, files)
    ensures Decoded(Image(entries, files)) == Some(ReadBack(entries, files))
    ensures Sound(ReadBack(entries, files))
    ensures AnchorsOf(ReadBack(entries, files)) == AnchorList(entries)
  {
    hide LocList, Image, LayoutOf, Pick, Framed, HeaderOk, LocationsOk, DescriptorsOk, WildsAre, AnchorList,
      HeaderField, FilesOf;
    ReadBackFrame(entries, files);
    ReadBackDescriptors(entries, files);
    ReadBackWilds(entries, files);
    ReadBackLocations(entries, files);
  }

  lemma ReadBackLocationAt(entries: seq<Entry>, files: seq<bytes>, k: nat)
    requires Encodable(entries, files) && k < |LocList(entries)|
    ensures var idx, loc := ReadBack(entries, files), LocList(entries)[k];
            LocationReadable(idx, k) && loc.0 < |files| && ReadLocation(idx, k) == Location(files[loc.0], loc.1)
  {
    hide LocList, Image, LayoutOf, Field, Sound, AnchorsOf, Read32, Read64;
    LocListBounded(entries, |files|);
    LocListFits(entries, files);
    ReadBackLocation(entries, files, k);
    RowFits(k, |LocList(entries)|, LOC_LEN);
  }

  lemma LocationsOfAt(idx: Index, i: nat, j: nat)
    requires Readable(idx, i) && j < Field(idx, i, 3)
    ensures var k := Field(idx, i, 2) + j;
            LocationReadable(idx, k) && LocationsOf(idx, i)[j] == ReadLocation(idx, k)
  {
    hide Field, ReadLocation;
  }

  lemma ReadBackReadable(entries: seq<Entry>, files: seq<bytes>, i: nat)
    requires Encodable(entries, files) && i < |entries|
    ensures var idx := ReadBack(entries, files);
            && Readable(idx, i)
            && Field(idx, i, 2) == |LocList(entries[..i])| && Field(idx, i, 3) == |entries[i].locs|
  {
    hide LocList, Image, LayoutOf, Framed, Field, Sound, AnchorsOf, Readable, AnchorAt, DescriptorOk, Concat;
    ImageIsAccepted(entries, files);
    ReadBackFrame(entries, files);
    SoundIsReadable(ReadBack(entries, files), i);
    ReadBackDescriptor(entries, files, i);
  }

  lemma ReadBackOneLocation(entries: seq<Entry>, files: seq<bytes>, i: nat, j: nat)
    requires Encodable(entries, files) && i < |entries| && j < |entries[i].locs|
    ensures var idx, loc := ReadBack(entries, files), entries[i].locs[j];
            && Readable(idx, i) && j < |LocationsOf(idx, i)| && loc.0 < |files|
            && LocationsOf(idx, i)[j] == Location(files[loc.0], loc.1)
  {
    hide LocList, Field, LocationReadable, ReadLocation, LocationsOf, Readable, Encodable, ReadBack;
    ReadBackReadable(entries, files, i);
    LocPart(entries, i);
    var pre := |LocList(entries[..i])|;
    PartAt(LocList(entries), pre, entries[i].locs, j);
    ReadBackLocationAt(entries, files, pre + j);
    LocationsOfAt(ReadBack(entries, files), i, j);
  }

  lemma ReadBackLocationsOf(entries: seq<Entry>, files: seq<bytes>, i: nat)
    requires Encodable(entries, files) && i < |entries|
    ensures Readable(ReadBack(entries, files), i)
    ensures LocationsOf(ReadBack(entries, files), i) == NamedLocations(files, entries[i].locs)
  {
    hide LocList, Field, LocationsOf, Readable, Image, ReadBack, Sorted, AllUtf8;
    var idx, locs := ReadBack(entries, files), entries[i].locs;
    ReadBackReadable(entries, files, i);
    forall j | 0 <= j < |locs|
      ensures LocationsOf(idx, i)[j] == Location(files[locs[j].0], locs[j].1)
    {
      ReadBackOneLocation(entries, files, i, j);
    }
  }

  lemma PartAt<T>(all: seq<T>, from: nat, part: seq<T>, j: nat)
    requires from + |part| <= |all| && all[from..from + |part|] == part && j < |part|
    ensures all[from + j] == part[j]
  {}

  /**
    Decoding a serialised index reads back the same files, the same anchors in the
    same order, the same locations of each, and the same placeholder anchors.
  */
  lemma {:induction false} RoundTrip(entries: seq<Entry>, files: seq<bytes>)
    requires Encodable(entries, files)
    ensures Decoded(Image(entries, files)).Some?
    ensures var idx := Decoded(Image(entries, files)).value;
            && Sound(idx) && idx.files == files && AnchorsOf(idx) == AnchorList(entries)
            && (forall i :: 0 <= i < |entries| ==>
                  Readable(idx, i) && LocationsOf(idx, i) == NamedLocations(files, entries[i].locs))
            && idx.wildN == |WildList(entries)|
            && idx.wildOff + idx.wildN * WILD_LEN <= |idx.image|
            && forall k :: 0 <= k < idx.wildN ==> WildAt(idx, k) == WildList(entries)[k]
  {
    hide LocList, WildList, Image, LayoutOf, Sound, AnchorsOf, LocationsOf, Readable, WildAt, Decoded, Framed,
      AnchorList;
    ImageIsAccepted(entries, files);
    ReadBackFrame(entries, files);
    ReadBackWilds(entries, files);
    FileCount(entries, files);
    forall i | 0 <= i < |entries|
      ensures Readable(ReadBack(entries, files), i)
      ensures LocationsOf(ReadBack(entries, files), i) == NamedLocations(files, entries[i].locs)
    {
      ReadBackLocationsOf(entries, files, i);
    }
    forall k | 0 <= k < |WildList(entries)|
      ensures WildAt(ReadBack(entries, files), k) == WildList(entries)[k]
    {
      ReadBackWild(entries, files, k);
    }
  }
}

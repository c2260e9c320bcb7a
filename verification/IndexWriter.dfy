/** Writing an index image (`serialize` in crates/registry-manual/src/index.rs). */
module IndexWriter {
  import opened Bytes
  import opened LittleEndian
  import opened Pattern
  import opened Index

  /** One distinct anchor with its `(file index, record offset)` locations. */
  datatype Entry = Entry(anchor: bytes, locs: seq<(nat, nat)>)

  function AnchorList(entries: seq<Entry>): (r: seq<bytes>)
    ensures |r| == |entries| && forall i :: 0 <= i < |r| ==> r[i] == entries[i].anchor
  {
    seq(|entries|, i requires 0 <= i < |entries| => entries[i].anchor)
  }

  function LocList(entries: seq<Entry>): seq<(nat, nat)> {
    if entries == [] then []
    else LocList(entries[..|entries| - 1]) + entries[|entries| - 1].locs
  }

  function WildList(entries: seq<Entry>): seq<nat> {
    if entries == [] then []
    else
      var n := |entries| - 1;
      WildList(entries[..n]) + (if HasWildcard(entries[n].anchor) then [n] else [])
  }

  // ----- the sections of an image -----

  function DescRow(anchorOff: nat, entry: Entry, locIdx: nat): (r: bytes)
    ensures |r| == DESC_LEN
  {
    Le32(anchorOff) + Le32(|entry.anchor|) + Le32(locIdx) + Le32(|entry.locs|)
  }

  function DescRows(entries: seq<Entry>, anchOff: nat): (rows: seq<bytes>)
    ensures |rows| == |entries| && Rows(rows, DESC_LEN)
  {
    if entries == [] then []
    else
      var n := |entries| - 1;
      DescRows(entries[..n], anchOff)
      + [DescRow(anchOff + |Concat(AnchorList(entries[..n]))|, entries[n], |LocList(entries[..n])|)]
  }

  function LocRow(loc: (nat, nat)): (r: bytes)
    ensures |r| == LOC_LEN
  {
    Le32(loc.0) + Le64(loc.1)
  }

  function LocRows(locs: seq<(nat, nat)>): (rows: seq<bytes>)
    ensures |rows| == |locs| && Rows(rows, LOC_LEN)
    ensures forall i :: 0 <= i < |locs| ==> rows[i] == LocRow(locs[i])
  {
    seq(|locs|, i requires 0 <= i < |locs| => LocRow(locs[i]))
  }

  function WildRows(wilds: seq<nat>): (rows: seq<bytes>)
    ensures |rows| == |wilds| && Rows(rows, WILD_LEN)
    ensures forall i :: 0 <= i < |wilds| ==> rows[i] == Le32(wilds[i])
  {
    seq(|wilds|, i requires 0 <= i < |wilds| => Le32(wilds[i]))
  }

  function FileRows(files: seq<bytes>): (rows: seq<bytes>)
    ensures |rows| == |files|
    ensures forall i :: 0 <= i < |files| ==> rows[i] == Le32(|files[i]|) + files[i]
  {
    seq(|files|, i requires 0 <= i < |files| => Le32(|files[i]|) + files[i])
  }

  datatype Layout = Layout(entries: nat, locsOff: nat, filesOff: nat, anchOff: nat,
                           files: nat, wildOff: nat, wilds: nat)

  function LayoutOf(entries: seq<Entry>, files: seq<bytes>): Layout {
    var locsOff := HEADER_LEN + |entries| * DESC_LEN;
    var filesOff := locsOff + |LocList(entries)| * LOC_LEN;
    var wildOff := filesOff + |Concat(FileRows(files))|;
    var wilds := |WildList(entries)|;
    Layout(|entries|, locsOff, filesOff, wildOff + wilds * WILD_LEN, |files|, wildOff, wilds)
  }

  function HeaderRows(l: Layout): (rows: seq<bytes>)
    ensures |rows| == 10 && Rows(rows, 4)
  {
    [Le32(VERSION), Le32(l.entries), Le32(HEADER_LEN), Le32(l.locsOff), Le32(l.filesOff),
     Le32(l.anchOff), Le32(l.files), Le32(l.wildOff), Le32(l.wilds), Le32(0)]
  }

  function Header(l: Layout): bytes {
    MAGIC + Concat(HeaderRows(l))
  }

  /** The whole image: header, descriptors, locations, files, placeholders, anchors. */
  function Image(entries: seq<Entry>, files: seq<bytes>): bytes {
    var l := LayoutOf(entries, files);
    Header(l)
    + Concat(DescRows(entries, l.anchOff))
    + Concat(LocRows(LocList(entries)))
    + Concat(FileRows(files))
    + Concat(WildRows(WildList(entries)))
    + Concat(AnchorList(entries))
  }

  // ----- serialize -----

  lemma ListsSnoc(entries: seq<Entry>, n: nat, anchOff: nat)
    requires n < |entries|
    ensures AnchorList(entries[..n + 1]) == AnchorList(entries[..n]) + [entries[n].anchor]
    ensures LocList(entries[..n + 1]) == LocList(entries[..n]) + entries[n].locs
    ensures WildList(entries[..n + 1]) ==
            WildList(entries[..n]) + (if HasWildcard(entries[n].anchor) then [n] else [])
    ensures DescRows(entries[..n + 1], anchOff) ==
            DescRows(entries[..n], anchOff)
            + [DescRow(anchOff + |Concat(AnchorList(entries[..n]))|, entries[n], |LocList(entries[..n])|)]
  {
    hide DescRow, Concat, HasWildcard;
    assert entries[..n + 1][..n] == entries[..n];
  }

  lemma LocRowsSnoc(locs: seq<(nat, nat)>, loc: (nat, nat))
    ensures Concat(LocRows(locs + [loc])) == Concat(LocRows(locs)) + LocRow(loc)
  {
    hide Concat, LocRow;
    assert LocRows(locs + [loc]) == LocRows(locs) + [LocRow(loc)];
    ConcatSnoc(LocRows(locs), LocRow(loc));
  }

  lemma WildRowsSnoc(wilds: seq<nat>, n: nat)
    ensures Concat(WildRows(wilds + [n])) == Concat(WildRows(wilds)) + Le32(n)
  {
    hide Concat, Le32;
    assert WildRows(wilds + [n]) == WildRows(wilds) + [Le32(n)];
    ConcatSnoc(WildRows(wilds), Le32(n));
  }

  method CountSections(entries: seq<Entry>, files: seq<bytes>) returns (l: Layout)
    ensures l == LayoutOf(entries, files)
  {
    hide Concat, HasWildcard;
    var locCount, wildCount := 0, 0;
    for i := 0 to |entries|
      invariant locCount == |LocList(entries[..i])| && wildCount == |WildList(entries[..i])|
    {
      ListsSnoc(entries, i, 0);
      locCount := locCount + |entries[i].locs|;
      if HasWildcard(entries[i].anchor) {
        wildCount := wildCount + 1;
      }
    }
    assert entries[..|entries|] == entries;
    var filesLen := 0;
    assert Concat(FileRows(files)[..0]) == [] by { NoParts(FileRows(files)); }
    for i := 0 to |files|
      invariant filesLen == |Concat(FileRows(files)[..i])|
    {
      assert FileRows(files)[..i + 1] == FileRows(files)[..i] + [FileRows(files)[i]];
      ConcatSnoc(FileRows(files)[..i], FileRows(files)[i]);
      filesLen := filesLen + 4 + |files[i]|;
    }
    assert FileRows(files)[..|files|] == FileRows(files);
    var locsOff := HEADER_LEN + |entries| * DESC_LEN;
    var filesOff := locsOff + locCount * LOC_LEN;
    var wildOff := filesOff + filesLen;
    l := Layout(|entries|, locsOff, filesOff, wildOff + wildCount * WILD_LEN, |files|, wildOff, wildCount);
  }

  lemma NoParts(parts: seq<bytes>)
    ensures Concat(parts[..0]) == []
  {}

  datatype Sections = Sections(descriptors: bytes, locations: bytes, wildcards: bytes, anchors: bytes)

  ghost function SectionsOf(entries: seq<Entry>, anchOff: nat): Sections {
    Sections(Concat(DescRows(entries, anchOff)), Concat(LocRows(LocList(entries))),
             Concat(WildRows(WildList(entries))), Concat(AnchorList(entries)))
  }

  lemma SectionsStep(entries: seq<Entry>, i: nat, anchOff: nat)
    requires i < |entries|
    ensures var before, after := SectionsOf(entries[..i], anchOff), SectionsOf(entries[..i + 1], anchOff);
            && after.descriptors ==
               before.descriptors + DescRow(anchOff + |before.anchors|, entries[i], |LocList(entries[..i])|)
            && after.wildcards == before.wildcards + (if HasWildcard(entries[i].anchor) then Le32(i) else [])
            && after.anchors == before.anchors + entries[i].anchor
  {
    hide Concat, HasWildcard, Le32, DescRow, LocRow, DescRows, LocRows, WildRows, WildList, LocList, AnchorList;
    ListsSnoc(entries, i, anchOff);
    var row := DescRow(anchOff + |Concat(AnchorList(entries[..i]))|, entries[i], |LocList(entries[..i])|);
    ConcatSnoc(DescRows(entries[..i], anchOff), row);
    ConcatSnoc(AnchorList(entries[..i]), entries[i].anchor);
    WildRowsSnoc(WildList(entries[..i]), i);
    assert WildList(entries[..i]) + [] == WildList(entries[..i]);
  }

  /** Grows the sections side by side, with a running location index. */
  method WriteEntries(entries: seq<Entry>, anchOff: nat) returns (s: Sections)
    ensures s == SectionsOf(entries, anchOff)
  {
    hide Concat, HasWildcard, Le32, DescRow, LocRow, DescRows, LocRows, WildRows, WildList, LocList, AnchorList;
    s := Sections([], [], [], []);
    var locIdx := 0;
    assert entries[..0] == [];
    NoSections(anchOff);
    for i := 0 to |entries|
      invariant locIdx == |LocList(entries[..i])| && s == SectionsOf(entries[..i], anchOff)
    {
      SectionsStep(entries, i, anchOff);
      ListsSnoc(entries, i, anchOff);
      var row := DescRow(anchOff + |s.anchors|, entries[i], locIdx);
      var wild := if HasWildcard(entries[i].anchor) then Le32(i) else [];
      var locations;
      locations, locIdx := WriteLocations(LocList(entries[..i]), entries[i].locs, s.locations, locIdx);
      s := Sections(s.descriptors + row, locations, s.wildcards + wild, s.anchors + entries[i].anchor);
    }
    assert entries[..|entries|] == entries;
  }

  lemma NoSections(anchOff: nat)
    ensures DescRows([], anchOff) == [] && LocList([]) == [] && LocRows([]) == []
    ensures WildList([]) == [] && WildRows([]) == [] && AnchorList([]) == [] && Concat([]) == []
  {}

  method WriteLocations(ghost before: seq<(nat, nat)>, locs: seq<(nat, nat)>, locations0: bytes, locIdx0: nat)
    returns (locations: bytes, locIdx: nat)
    requires locations0 == Concat(LocRows(before)) && locIdx0 == |before|
    ensures locations == Concat(LocRows(before + locs)) && locIdx == |before + locs|
  {
    hide Concat, LocRows, LocRow;
    locations, locIdx := locations0, locIdx0;
    assert before + locs[..0] == before;
    for j := 0 to |locs|
      invariant locations == Concat(LocRows(before + locs[..j])) && locIdx == |before| + j
    {
      LocRowsSnoc(before + locs[..j], locs[j]);
      assert before + locs[..j] + [locs[j]] == before + locs[..j + 1];
      locations := locations + LocRow(locs[j]);
      locIdx := locIdx + 1;
    }
    assert locs[..|locs|] == locs;
  }

  method WriteFiles(files: seq<bytes>) returns (table: bytes)
    ensures table == Concat(FileRows(files))
  {
    hide Concat, Le32;
    table := [];
    NoParts(FileRows(files));
    for i := 0 to |files|
      invariant table == Concat(FileRows(files)[..i])
    {
      ConcatSnoc(FileRows(files)[..i], FileRows(files)[i]);
      assert FileRows(files)[..i + 1] == FileRows(files)[..i] + [FileRows(files)[i]];
      table := table + (Le32(|files[i]|) + files[i]);
    }
    assert FileRows(files)[..|files|] == FileRows(files);
  }

  method Serialize(entries: seq<Entry>, files: seq<bytes>) returns (out: bytes)
    ensures out == Image(entries, files)
  {
    hide Header, Concat, DescRows, LocRows, LocList, WildRows, WildList, AnchorList, FileRows;
    var l := CountSections(entries, files);
    var s := WriteEntries(entries, l.anchOff);
    var fileTable := WriteFiles(files);
    out := Header(l) + s.descriptors + s.locations + fileTable + s.wildcards + s.anchors;
  }

  // ----- one image, byte by byte -----

  /** The page `<a>` at byte 258 of the file `x`, and the page `b` at byte 5 of it. */
  const TWO_PAGES: seq<Entry> := [Entry([60, 97, 62], [(0, 258)]), Entry([98], [(0, 5)])]

  const PAGES_HEADER: bytes :=
    [82, 69, 71, 77, 65, 78, 73, 88]
    + ([2, 0, 0, 0] + ([2, 0, 0, 0] + ([48, 0, 0, 0] + ([80, 0, 0, 0] + ([104, 0, 0, 0]
    + ([113, 0, 0, 0] + ([1, 0, 0, 0] + ([109, 0, 0, 0] + ([1, 0, 0, 0] + ([0, 0, 0, 0] + []))))))))))

  const PAGES_DESCRIPTORS: bytes :=
    [113, 0, 0, 0, 3, 0, 0, 0, 0, 0, 0, 0, 1, 0, 0, 0,
     116, 0, 0, 0, 1, 0, 0, 0, 1, 0, 0, 0, 1, 0, 0, 0]

  const PAGES_LOCATIONS: bytes :=
    [0, 0, 0, 0, 2, 1, 0, 0, 0, 0, 0, 0,
     0, 0, 0, 0, 5, 0, 0, 0, 0, 0, 0, 0]

  /** Header, descriptors, locations, files, placeholders and anchors of its image. */
  lemma PagesImage()
    ensures Image(TWO_PAGES, [[120]])
            == PAGES_HEADER + PAGES_DESCRIPTORS + PAGES_LOCATIONS + [1, 0, 0, 0, 120] + [0, 0, 0, 0] + [60, 97, 62, 98]
  {
    hide DescRows, LocRows, WildRows, FileRows, LocList, WildList, AnchorList, Concat, Header;
    PagesLists();
    PagesSections();
    PagesHeader(LayoutOf(TWO_PAGES, [[120]]));
  }

  lemma PagesLists()
    ensures AnchorList(TWO_PAGES) == [[60, 97, 62], [98]] && LocList(TWO_PAGES) == [(0, 258), (0, 5)]
    ensures WildList(TWO_PAGES) == [0]
  {
    var first := TWO_PAGES[..1];
    assert first == [TWO_PAGES[0]] && first[..0] == [];
    assert LocList(first) == [(0, 258)] && WildList(first) == [0];
  }

  lemma ConcatOf(rows: seq<bytes>)
    ensures |rows| == 1 ==> Concat(rows) == rows[0]
    ensures |rows| == 2 ==> Concat(rows) == rows[0] + rows[1]
  {
    if |rows| == 1 {
      assert rows[1..] == [];
    } else if |rows| == 2 {
      assert rows[1..][0] == rows[1] && rows[1..][1..] == [];
    }
  }

  lemma PagesSections()
    requires LocList(TWO_PAGES) == [(0, 258), (0, 5)] && WildList(TWO_PAGES) == [0]
    requires AnchorList(TWO_PAGES) == [[60, 97, 62], [98]]
    ensures Concat(LocRows(LocList(TWO_PAGES))) == PAGES_LOCATIONS
    ensures Concat(FileRows([[120]])) == [1, 0, 0, 0, 120]
    ensures Concat(WildRows(WildList(TWO_PAGES))) == [0, 0, 0, 0]
    ensures Concat(AnchorList(TWO_PAGES)) == [60, 97, 62, 98]
    ensures Concat(DescRows(TWO_PAGES, 113)) == PAGES_DESCRIPTORS
  {
    hide Concat, LocList, WildList, AnchorList, DescRows;
    ConcatOf(FileRows([[120]]));
    ConcatOf(WildRows(WildList(TWO_PAGES)));
    ConcatOf(AnchorList(TWO_PAGES));
    PagesLocations();
    PagesDescriptors();
  }

  lemma PagesLocations()
    ensures Concat(LocRows([(0, 258), (0, 5)])) == PAGES_LOCATIONS
  {
    hide Concat;
    ConcatOf(LocRows([(0, 258), (0, 5)]));
  }

  lemma PagesDescriptors()
    ensures Concat(DescRows(TWO_PAGES, 113)) == PAGES_DESCRIPTORS
  {
    hide DescRows, Concat;
    PagesDescriptorRows();
    ConcatOf(DescRows(TWO_PAGES, 113));
  }

  lemma PagesDescriptorRows()
    ensures DescRows(TWO_PAGES, 113) == [DescRow(113, TWO_PAGES[0], 0), DescRow(116, TWO_PAGES[1], 1)]
  {
    hide DescRow, Concat, DescRows, LocList, WildList;
    assert TWO_PAGES[..0] == [] && TWO_PAGES[..2] == TWO_PAGES;
    NoEntries(113);
    NoParts([]);
    ListsSnoc(TWO_PAGES, 0, 113);
    ListsSnoc(TWO_PAGES, 1, 113);
    ConcatOf(AnchorList(TWO_PAGES[..1]));
  }

  lemma NoEntries(anchOff: nat)
    ensures AnchorList([]) == [] && LocList([]) == [] && DescRows([], anchOff) == []
  {
  }

  lemma ConcatFrom(rows: seq<bytes>, i: nat)
    requires i <= |rows|
    ensures Concat(rows[i..]) == if i == |rows| then [] else rows[i] + Concat(rows[i + 1..])
  {
    if i < |rows| {
      assert rows[i..][0] == rows[i] && rows[i..][1..] == rows[i + 1..];
    }
  }

  lemma PagesRows(l: Layout)
    requires l == Layout(2, 80, 104, 113, 1, 109, 1)
    ensures HeaderRows(l) == [[2, 0, 0, 0], [2, 0, 0, 0], [48, 0, 0, 0], [80, 0, 0, 0], [104, 0, 0, 0], [113, 0, 0, 0],
                              [1, 0, 0, 0], [109, 0, 0, 0], [1, 0, 0, 0], [0, 0, 0, 0]]
  {}

  lemma PagesHeader(l: Layout)
    requires l == Layout(2, 80, 104, 113, 1, 109, 1)
    ensures Header(l) == PAGES_HEADER
  {
    PagesRows(l);
    var rows := HeaderRows(l);
    hide Concat, HeaderRows;
    ConcatFrom(rows, 0);
    ConcatFrom(rows, 1);
    ConcatFrom(rows, 2);
    ConcatFrom(rows, 3);
    ConcatFrom(rows, 4);
    ConcatFrom(rows, 5);
    ConcatFrom(rows, 6);
    ConcatFrom(rows, 7);
    ConcatFrom(rows, 8);
    ConcatFrom(rows, 9);
    ConcatFrom(rows, 10);
    assert rows[0..] == rows;
  }
}

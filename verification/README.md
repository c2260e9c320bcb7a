# Verified models of the registry manual, csplit, base-N, cat and comm

Dafny models of five components of the repository, each with its state and its
error paths, proved against specifications that a reader can check by hand.

- **Registry manual** (`crates/registry-manual`): a corpus of text fragments, the
  binary index built from it, and the lookups that must agree with a scan of the
  corpus. Modules `Utf8`, `Pattern`, `Fragment`, `FragmentFormat`, `Corpus`, `Scan`,
  `Anchors`, `LittleEndian`, `Index`, `IndexWriter`, `IndexReader`, `IndexRoundTrip`,
  `IndexBuild`, `Specificity`, `Cascade`, `Agreement`, `StaleIndex`.
- **csplit** (`src/uu/csplit`): a rewindable look-ahead over the input lines and a
  writer of split files, driven by line-number and regex patterns. Modules
  `CsplitSpec` (the rounds as a pure fold), `CsplitInput`, `CsplitWriter`,
  `CsplitRun` (the program), `CsplitLaws`, `CsplitCases`, `CsplitFiles`.
- **Base-N streams** (`src/uu/base_common`): encoding and decoding in chunks over
  arbitrary reads, with line wrapping. Modules `LineWrap`, `Codec`, `FastEncode`,
  `FastDecode`, `Padding`.
- **cat** (`src/uu/cat`): the line printer with its state kept across reads and
  files. Modules `Cat` (transducer and display), `CatPrinter` (the program), `CatShown`.
- **comm** (`src/uu/comm`): the merge of two files with order checking. Modules
  `Comm`, `CommColumns`.

Files are byte sequences, the file system is a map from paths to contents, a
regex is any predicate on lines, a codec is a parameter with stated laws, and a
reader is the sequence of reads it delivers. `Bytes` holds the byte order and the
few sequence functions all modules share.

The main results:

- `Agreement.IndexAgreesWithScan`: with the index built from the corpus as it is,
  every query gives the same hits in the same order as with no index at all.
- `Cascade.StaleIndexIsSafe`: with any index file and any later state of the disk, a
  query is answered with current matches, and with some if the corpus documents it, or
  it errs, exactly under a stated condition. `StaleIndexCosts`: a query that the scan
  answers errs exactly when the index names for it a file that cannot be read.
  `StaleIndex.StaleAnswer`, `StaleAnswerIsTheScan` and `LiveAnswerIsTheScan`: what any
  index leads to, and exactly when it is what the scan gives.
- `Cascade.NarrowestAnswer` and `BroaderPageLoses`: with any index, the answer is exactly
  what no other match of its kind is narrower than, component by component from the left:
  a literal one before one with placeholders, that before one that spans.
  `Agreement.OwnPageWins`: a page about the query itself leaves no family page of its kind.
- `FragmentFormat.ParseUndoesFormat`: any records written as fenced documents are read
  back, each at its own place, with no issue. `Corpus.FragmentsInOrder`: which directory
  entries make up the corpus.
- `IndexRoundTrip.RoundTrip`, `IndexReader.Decode` with `SoundIsReadable`, and
  `Anchors.VisitsExactly`: what is written is read back, every accepted image is
  safe to read, and a lookup visits exactly the matching descriptors, each once.
- `Pattern.Walk` and `BacktrackRefined`: the two-row matcher decides the
  backtracking relation, and writes at most 1 + |anchor| * (2 * |query| + 1) cells.
- `CsplitRun.Csplit`: for every input, option and list of patterns, the directory left
  behind and the result, or that the run never ends. `CsplitLaws.EndsInOrder`: it ends
  with its lines in order, none missing and none twice, if and only if every search it
  enters meets a condition on the lines held back (`CsplitSpec.Safe`), and
  `CsplitLaws.UnendingIff`: exactly which runs never end;
  `EveryLineOnce`, `Conserves` and `ConservesAPrefix` say what the files hold.
  `CsplitFiles.FilesAreLeftIn`: with any patterns and options, the files join to the lines
  that no skipping pattern passed over and no suppression dropped; `RegexAlone`,
  `NumberAlone` and `NoMatchAlone` give every file of a single pattern.
- `FastEncode.FastEncodeStream`, `FastDecode.FastDecodeStream` and
  `DecodeUndoesEncode`: both streams are independent of the reads, and inverse, also when
  the padding is lost (`DecodesUnpadded`); `OutputBeforeGarbage` says what is written
  before an error.
- `Cat.WhenReadsShow`, `ShowsTheDisplay` and `CatPrinter.CatFiles`: exactly when the
  output depends on the reads, and what it is otherwise.
- `Comm.Compare` with `MergeClassifies`, `MergeKeepsBothFiles` and `CheckedOrder`;
  `CommColumns.OutputTellsTheColumns`: two outputs are the same iff all shown columns are.

Where the code does not do what its documentation or its own claims suggest, the
model follows the code:

- A placeholder that holds a space in its own spelling is not matched by that
  spelling, as in `<a b>`; the exact lookup still visits the anchor by byte equality
  (`Pattern.OwnSpelling`, `Scan.SpacedAnchorMissesItself`, `Anchors.VisitsExactly`).
- A stale index is to cost speed, never correctness. But an index that names a file
  which is there and cannot be read makes the query err before the scan is reached,
  whatever the corpus documents (`Cascade.StaleIndexCosts`, `StaleIndex.AnyQueryCanErr`;
  `StaleIndex.ScanAnswersIndexErrs` is one disk and one index). An answer it gives holds
  current matches, but can be of other files than the scan's, as `StaleAnswerIsTheScan`
  and `LiveAnswerIsTheScan` say.
- In csplit a regex with a negative offset that is entered while lines are to be
  rewound looks at the first of them and at no line of the input. It never ends if
  that line does not match. If it does match, the line goes back in front of those
  that the offset reaches and any others are written before it. Repeated without
  limit it then never ends, unless so few lines wait that it fails. A run never ends
  iff it comes to such a pattern (`CsplitLaws.NeverReturns`, `RunEndless`,
  `UnendingIff`), and ends in order iff every search is safe (`CsplitSpec.Safe`,
  `CsplitLaws.RunKeepsOrder`, `EndsInOrder`): the first line matches and no more lines
  wait behind it than the offset reaches back. This takes a line-number pattern directly
  before the regex (`CsplitLaws.TameRunsAreSmooth`). `CsplitCases` holds an input that is
  never finished (`NeverEnds`), one that is written out of order (`WrittenOutOfOrder`),
  and `2 2 /re/-1`, which is harmless iff line 2 matches (`RepeatedLine`,
  `RepeatedLineForEver`).
- cat with blank lines squeezed loses a blank line when a read ends inside the line
  before it (`Cat.WhenReadsShow`, `Cat.SplitReadLosesABlankLine`).
- comm compares lines with their terminator. That is the order of the lines without
  it but for a line that goes on from another with a byte below the terminator, which
  then comes first (`Comm.TerminatorOrder`). So a sorted file can fail the check
  (`Comm.SortedFileFails`), and unchecked a line that two sorted files share can be
  missing from column 3 (`Comm.SharedLineIsMissed`); with zero terminators a sorted file
  passes (`Comm.ZeroCheckedOrder`).

## Model

| member | source | states |
|---|---|---|
| `Pattern.Walk` | crates/registry-manual/src/pattern.rs:104-135 | the iterative matcher says yes iff some token boundary has the whole query before it and an accepted rest; counted write by write, it sets at most 1 + \|anchor\| * (2 * \|query\| + 1) cells |
| `Pattern.SetCell` | crates/registry-manual/src/pattern.rs:113-129 | a cell is set and the count of writes raised by one |
| `Pattern.BacktrackRefined` | crates/registry-manual/src/pattern.rs:375-397 | the backtracking search decides the same relation, for every rest predicate |
| `Pattern.RowLiteral` | crates/registry-manual/src/pattern.rs:124-128 | a literal token moves every reachable query prefix on by that byte |
| `Pattern.RowWildcard` | crates/registry-manual/src/pattern.rs:118-123 | a placeholder extends every reachable prefix by any non-empty run of allowed bytes |
| `Pattern.StepRow` | crates/registry-manual/src/pattern.rs:116-129 | one pass clears and fills the next row for the next token, in 2 * \|query\| + 1 writes, and gives the token's width |
| `Pattern.Placeholder` | crates/registry-manual/src/pattern.rs:138-144 | a placeholder is a bracket pair with something before its close; it spans iff its inside ends in dots |
| `Pattern.MatchesExact` | crates/registry-manual/src/pattern.rs:75-80 | with the wildcard-free shortcut, still exactly the token relation over the whole anchor |
| `Pattern.MatchesUnderKey` | crates/registry-manual/src/pattern.rs:85-95 | with the shortcut, still the key itself or a value attached to it |
| `Pattern.ConcreteMatches` | crates/registry-manual/src/pattern.rs:151-173 | without a `<` the two relations are byte equality, and equality or prefix followed by a space |
| `Pattern.ExactIsDenotes` | crates/registry-manual/src/pattern.rs:75-135 | an exact match lays all tokens over all of the query |
| `Pattern.FamilyPage` | crates/registry-manual/src/pattern.rs:75-135 | a page with one placeholder answers exactly the queries that have its text before and behind and, in between, one or more bytes, none a space, and no separator unless it ends in three dots |
| `Pattern.SpacesAreNeverSwallowed` | crates/registry-manual/src/pattern.rs:104-135 | an exactly matched query has as many spaces as the anchor spells in its literals |
| `Pattern.SeparatorsNeedASpanningPlaceholder` | crates/registry-manual/src/pattern.rs:104-135 | the same for separators when no placeholder spans |
| `Pattern.SpansComponents` | crates/registry-manual/src/pattern.rs:52-71 | the bracket scan is true iff the matcher's own tokens hold a spanning placeholder |
| `Pattern.OwnSpelling` | crates/registry-manual/src/pattern.rs:104-135 | when an anchor matches its own spelling: never with a space in a placeholder, and without spanning placeholders iff each holds only bytes it stands for |
| `Pattern.NeighbourStandsIn` | crates/registry-manual/src/pattern.rs:104-135 | with a spanning placeholder an anchor may match its own spelling though another placeholder holds a separator |
| `Scan.SpacedAnchorMissesItself` | crates/registry-manual/src/fragment.rs:178-193 | `<a b>` is the anchor of a fence line and does not match itself |
| `Pattern.Query.Test` | crates/registry-manual/src/scan.rs:37-46 | the predicate a query hands to the scan is the relation of the query |
| `Fragment.FindFences` | crates/registry-manual/src/fragment.rs:117-135 | one pass over the lines finds the fences with their offsets and line numbers |
| `Fragment.Parse` | crates/registry-manual/src/fragment.rs:117-168 | the records and issues of a text, block by block, fields trimmed of Unicode white space |
| `Fragment.FencesAreFenceLines` | crates/registry-manual/src/fragment.rs:178-193 | the fences are exactly the lines that carry an anchor, at their first byte |
| `Fragment.RecordOffsets` | crates/registry-manual/src/fragment.rs:117-168 | a record's offset is the first byte of the line that carries its anchor |
| `Fragment.FenceLinesAreParsed` | crates/registry-manual/src/fragment.rs:117-168 | no fence line is lost: it opens a record or is reported by its line number, which is one more than the newlines before it |
| `Fragment.ParsedOffsetsAscend` | crates/registry-manual/src/fragment.rs:117-168 | record offsets strictly increase |
| `Fragment.ParseCompose` | crates/registry-manual/src/fragment.rs:117-208 | parsing a + b is parsing both, with b's offsets moved by \|a\| and its issue lines by a's line count |
| `FragmentFormat.ParseUndoesFormat` | crates/registry-manual/src/fragment.rs:108-242 | any list of records whose fields are trimmed lines and whose bodies hold no fence, written as fence line, `key: value` lines, blank line and body, parses to the same records at the bytes where they were written, without issues |
| `FragmentFormat.HeaderIsRead` | crates/registry-manual/src/fragment.rs:220-242 | each of the six field names gives its own field, whichever of them are present |
| `FragmentFormat.ValuePages` | crates/registry-manual/src/fragment.rs:57-68 | a record is a value page iff it has a type, default, valid or applies field |
| `Fragment.SplitHeaderBody` | crates/registry-manual/src/fragment.rs:196-208 | header and body are what lies before and behind the first blank line |
| `Fragment.FirstBlankIs` | crates/registry-manual/src/fragment.rs:196-208 | the blank line is the first that holds nothing but maybe a carriage return, the body starts behind its newline, and there is none iff no line is blank |
| `Fragment.SplitColonIs` | crates/registry-manual/src/fragment.rs:226-229 | key and value lie before and behind the first colon; there are none iff there is no colon |
| `Fragment.ParseHeader` | crates/registry-manual/src/fragment.rs:220-242 | each known field has the value of the last line that names it, in letters of any case; other lines are ignored |
| `Fragment.HeaderStep` | crates/registry-manual/src/fragment.rs:222-240 | one more line sets the field it names, and what later lines give goes over it |
| `Utf8.TrimIs` | crates/registry-manual/src/fragment.rs:178-242 | trimming takes white space off both ends, leaves none there, and of UTF-8 leaves UTF-8 |
| `Utf8.WhiteSpaceIs` | crates/registry-manual/src/fragment.rs:178-242 | white space are 25 scalar values and no other |
| `Utf8.Utf8IsEncoded` | crates/registry-manual/src/index.rs:225-294 | a string passes as UTF-8 iff it encodes a sequence of scalar values |
| `Fragment.AnchorsAreUtf8` | crates/registry-manual/src/fragment.rs:117-193 | the anchors of a text in UTF-8 are in UTF-8: no line cut and no trimming splits a character |
| `Corpus.ListFragments` | crates/registry-manual/src/corpus.rs:37-53 | the listing is the one `FragmentsInOrder` pins down, path by path; none for a missing directory, an error for an unlistable one |
| `Corpus.FragmentsInOrder` | crates/registry-manual/src/corpus.rs:37-53 | a path is listed iff it is the directory, a slash and an entry with a fragment's name, as often as that entry, in path order; none for a missing directory and an error for one that cannot be listed |
| `Corpus.FragmentNames` | crates/registry-manual/src/corpus.rs:37-53 | a name is a fragment's iff it is a non-empty stem followed by `.regman` |
| `Corpus.ProviderIsTheStem` | crates/registry-manual/src/corpus.rs:28-34 | the provider of a fragment is its stem, wherever the directory is |
| `Corpus.ProvidersAreDistinct` | crates/registry-manual/src/corpus.rs:29-53 | fragments of one directory have distinct paths and distinct providers |
| `Scan.ScanFile` | crates/registry-manual/src/scan.rs:113-138 | with the byte pre-scan in front, still parse then filter; a missing file gives nothing |
| `Scan.RejectedByPreScan` | crates/registry-manual/src/scan.rs:113-138 | a text the byte pre-scan rejects has no match |
| `Scan.PreScanLosesNothing` | crates/registry-manual/src/scan.rs:113-138 | a file with a match holds the query bytes or a `<` |
| `Scan.ScanCorpus` | crates/registry-manual/src/scan.rs:49-66 | the sorted hits of all fragments, or the first error |
| `Scan.SortHitsSorted` | crates/registry-manual/src/scan.rs:140-146 | the stable sort of hits in file order is strictly sorted by key and offset |
| `Scan.SortHitsInOrder` | crates/registry-manual/src/query.rs:179-185 | any hits sort by provider, and for one provider by anchor |
| `Scan.SortsAgree` | crates/registry-manual/src/query.rs:179-185 | two lists of the same hits, each in file order, sort to the same list |
| `LittleEndian.Read32Le32` | crates/registry-manual/src/index.rs:410-412 | reading undoes writing, modulo 2^32 |
| `LittleEndian.Read64At` | crates/registry-manual/src/index.rs:413-415 | a 64-bit number is read back at any position |
| `IndexWriter.WriteEntries` | crates/registry-manual/src/index.rs:107-132 | the buffers grown with a running location index are the anchor, descriptor, location and placeholder sections |
| `IndexWriter.WriteFiles` | crates/registry-manual/src/index.rs:134-138 | the file section is each path behind its length |
| `IndexWriter.Serialize` | crates/registry-manual/src/index.rs:93-160 | the bytes written are the header followed by the five sections |
| `IndexWriter.PagesImage` | crates/registry-manual/src/index.rs:14-40 | one index of two pages, byte by byte |
| `IndexRoundTrip.ImageIsAccepted` | crates/registry-manual/src/index.rs:93-294 | every serialised index of less than 4 GiB with anchors and paths in UTF-8 is accepted |
| `IndexRoundTrip.RoundTrip` | crates/registry-manual/src/index.rs:93-294 | it reads back the same files, anchors, locations and placeholder list |
| `IndexReader.ValidateRecords` | crates/registry-manual/src/index.rs:261-294 | accepts iff every descriptor is in bounds, anchors are in UTF-8 and strictly ascend, locations name files and the placeholder list is exact |
| `IndexReader.ReadFileTable` | crates/registry-manual/src/index.rs:225-245 | the paths in UTF-8 that exactly fill the file section, or nothing |
| `IndexReader.Decode` | crates/registry-manual/src/index.rs:201-257 | accepts exactly the well-formed images and yields the index they denote |
| `Index.HeaderIs` | crates/registry-manual/src/index.rs:201-223 | the accepted headers by the numbers at their byte positions: the word, version 2, and sections one behind the other |
| `IndexReader.DecodedIsSound` | crates/registry-manual/src/index.rs:201-294 | an accepted image has all that lookups rely on |
| `IndexReader.SoundIsReadable` | crates/registry-manual/src/index.rs:296-325 | every later read of an accepted index is in bounds |
| `IndexReader.LowerBound` | crates/registry-manual/src/index.rs:328-339 | the binary search ends at the first anchor not below the target |
| `IndexReader.PushWildcardMatches` | crates/registry-manual/src/index.rs:352-364 | adds the matching placeholder anchors that are not in the list yet |
| `IndexReader.SearchExact` | crates/registry-manual/src/index.rs:378-387 | the positions visited for an exact query |
| `IndexReader.SearchKey` | crates/registry-manual/src/index.rs:393-407 | the positions visited for a key query |
| `IndexReader.Collect` | crates/registry-manual/src/index.rs:366-373 | the locations of the visited descriptors in visiting order |
| `IndexReader.Lookup` | crates/registry-manual/src/index.rs:378-407 | either lookup returns the locations of exactly the visited anchors |
| `Anchors.VisitsExactly` | crates/registry-manual/src/index.rs:378-407 | each matching anchor is visited once and no other, but for one spelled like an exact query |
| `Anchors.AcceptedIsReached` | crates/registry-manual/src/index.rs:342-364 | a match the search by prefix cannot reach bears a placeholder |
| `Anchors.PickEqual` | crates/registry-manual/src/index.rs:378-387 | at most one anchor equals the query, at its lower bound |
| `Anchors.PrefixRange` | crates/registry-manual/src/index.rs:393-407 | anchors that extend the query are contiguous from its lower bound on |
| `Bytes.PrefixRangeIsConvex` | crates/registry-manual/src/index.rs:393-407 | between a string and one of its extensions lie only extensions of it |
| `IndexBuild.Build` | crates/registry-manual/src/index.rs:66-91 | builds the image of the parsed corpus, or fails when a fragment cannot be read |
| `IndexBuild.AddFilesAre` | crates/registry-manual/src/index.rs:66-91 | the tables built number the files in order and hold every record |
| `IndexBuild.AddFilesUtf8` | crates/registry-manual/src/index.rs:66-91 | texts in UTF-8 give tables whose anchors are in UTF-8, so that the image built is accepted |
| `IndexBuild.PutSorted` | crates/registry-manual/src/index.rs:81-86 | adding a location keeps the anchors strictly sorted |
| `IndexBuild.CorpusLocsAre` | crates/registry-manual/src/index.rs:66-91 | the locations are exactly the records of the corpus, each file's in offset order |
| `Specificity.ComputeRank` | crates/registry-manual/src/query.rs:83-96 | one class per component, in order; `LessIsNarrower` says what their order means |
| `Specificity.SplitIs` | crates/registry-manual/src/query.rs:83-85 | the components hold no separator and, joined by separators, are the anchor |
| `Specificity.LessIsNarrower` | crates/registry-manual/src/query.rs:65-96 | a rank is below another iff at the first component where they differ the one is literal and the other not, or the one holds placeholders of which none spans and the other one that does, or it ends there |
| `Specificity.NarrowestAreKept` | crates/registry-manual/src/query.rs:98-117 | kept are exactly the hits than which none of their kind is narrower in that sense |
| `Specificity.ConcreteRank` | crates/registry-manual/src/query.rs:83-96 | a rank is all zero iff the anchor holds no placeholder |
| `Specificity.ApplySpecificity` | crates/registry-manual/src/query.rs:106-117 | filtering in two passes keeps, in order, the least ranks of each kind |
| `Specificity.RetainBest` | crates/registry-manual/src/query.rs:106-117 | one pass keeps, in order, what is least of its kind and all of the other kind |
| `Specificity.TwoPasses` | crates/registry-manual/src/query.rs:106-117 | the pass for one kind does not disturb the other |
| `Specificity.MostSpecificIsNonempty` | crates/registry-manual/src/query.rs:106-117 | kept are exactly the hits no other of their kind ranks below; an answer is never emptied |
| `Specificity.ConcretePageWins` | crates/registry-manual/src/query.rs:83-117 | if a match of a kind has no placeholder, every kept hit of that kind is about the query itself |
| `Specificity.ConcretePagesStay` | crates/registry-manual/src/query.rs:83-117 | the kept hits of that kind are then all the hits of that kind about the query |
| `Cascade.ConcretePageAnswers` | crates/registry-manual/src/query.rs:27-117 | for any disk and index bytes: if the tier that answers finds a page without a placeholder, the answers of its kind are the pages found about the query itself |
| `Agreement.OwnPageWins` | crates/registry-manual/src/query.rs:27-117 | with no index or that of the corpus: if the corpus has such a page, the answers of its kind are exactly the current pages about the query |
| `Cascade.FollowPointer` | crates/registry-manual/src/query.rs:161-172 | a pointer gives the matching record at its offset, or is stale |
| `Cascade.FollowPointers` | crates/registry-manual/src/query.rs:128-141 | all hits of the pointers, or stale as soon as one is |
| `Cascade.RunTiers` | crates/registry-manual/src/query.rs:119-157 | pointers, then the files they name, then the corpus |
| `Cascade.Resolve` | crates/registry-manual/src/query.rs:27-63 | the cascade from the index file, or the scan without one, then the ranking; `NarrowestAnswer` and `AnswersInOrder` say what it gives |
| `Cascade.NarrowestAnswer` | crates/registry-manual/src/query.rs:50-117 | for any disk and index bytes, the answers are exactly the hits of the tier that answers than which none of the same kind is narrower |
| `Cascade.BroaderPageLoses` | crates/registry-manual/src/query.rs:65-117 | a page is gone if another of its kind has the same components up to one where it is literal against a placeholder, or has placeholders that do not span against one that does, whatever follows |
| `Cascade.AnswersInOrder` | crates/registry-manual/src/query.rs:52-185 | every answer is ordered by provider and then by anchor, whichever tier gave it |
| `Cascade.HitsOfFilesAre` | crates/registry-manual/src/query.rs:142-150 | the hits of some files are exactly their current matches |
| `Cascade.CorpusHitsAre` | crates/registry-manual/src/scan.rs:49-66 | the scan finds exactly the current matches of the corpus |
| `Cascade.StaleIndexIsSafe` | crates/registry-manual/src/query.rs:52-172 | for any index bytes and any disk the result is current matches, some if the corpus documents the query, or an error, which it is exactly when `Errs` |
| `Cascade.TiersErr` | crates/registry-manual/src/query.rs:119-157 | the cascade errs iff a named file is there and cannot be read, or the scan errs and is reached: nothing is recorded, or a pointer is stale and no named file holds a match |
| `Cascade.ScanErrs` | crates/registry-manual/src/scan.rs:49-66 | the scan errs iff the directory cannot be listed or a fragment cannot be read |
| `Cascade.StaleIndexCosts` | crates/registry-manual/src/query.rs:119-157 | where the scan answers, an index makes the query err iff it names for it a file that is there and cannot be read |
| `Agreement.FoundIs` | crates/registry-manual/src/index.rs:66-160 | the locations found in a built index are exactly those of the sought records |
| `Agreement.HitAtFinds` | crates/registry-manual/src/query.rs:161-172 | a pointer at a current match leads back to it |
| `Agreement.TiersAgree` | crates/registry-manual/src/query.rs:119-157 | whichever tier answers, it gives what the scan gives |
| `Agreement.IndexAgreesWithScan` | crates/registry-manual/src/query.rs:27-157 | with the index of the unchanged corpus every query answers as with none, in the same order |
| `StaleIndex.StaleAnswer` | crates/registry-manual/src/query.rs:119-157 | what any index leads to: the records pointed at; with a stale pointer an error if a named file cannot be read, else all current matches of the named files, or the scan when they hold none |
| `StaleIndex.StaleAnswerIsTheScan` | crates/registry-manual/src/query.rs:119-157 | with a stale pointer the result is the scan's iff both err for a named file that cannot be read, or else no named file holds a match, or the scan answers and the named files hold just the matches of the corpus |
| `StaleIndex.LiveAnswerIsTheScan` | crates/registry-manual/src/query.rs:119-157 | with every pointer live it is the scan's iff the scan answers and the pointers lead to the matches of the corpus, each once and in file order |
| `StaleIndex.AnyQueryCanErr` | crates/registry-manual/src/query.rs:142-150 | wherever a file cannot be read, some index makes a given exact query err, however well it is documented |
| `StaleIndex.ScanAnswersIndexErrs` | crates/registry-manual/src/query.rs:142-150 | one disk and one index where the scan finds a page and the same query errs with the index |
| `Scan.SortedMeansStable` | crates/registry-manual/src/query.rs:179-185 | only hits in file order sort without ties |
| `CsplitSpec.Lines` | src/uu/csplit/src/csplit.rs:84-101 | lines are non-empty, end at their only newline, and join to the input |
| `CsplitSpec.FirstMatch` | src/uu/csplit/src/csplit.rs:429-434 | the first matching line at or after one, if there is any |
| `CsplitCases.MatchedText` | src/uu/csplit/src/csplit.rs:429-434 | a regex sees a line without its newline, and without a carriage return before it |
| `CsplitSpec.LineStepProper` | src/uu/csplit/src/csplit.rs:358-398 | a line-number round that succeeds reaches a line of the input; the look-ahead holds only lines already read |
| `CsplitSpec.MatchStepProper` | src/uu/csplit/src/csplit.rs:410-525 | a regex round that succeeds reads a new line, gives up held ones, or changes nothing at all |
| `CsplitInput.InputSplitter.AddLineToBuffer` | src/uu/csplit/src/csplit.rs:586-598 | puts a line in front while rewinding, else behind; a full buffer gives up its head |
| `CsplitInput.InputSplitter.Next` | src/uu/csplit/src/csplit.rs:612-620 | the first held line while rewinding, else the reader's next line, with the rewinding over |
| `CsplitInput.InputSplitter.NextOf` | src/uu/csplit/src/csplit.rs:612-620 | read on from a rewound buffer, the held lines and then the reader's come one after the other |
| `CsplitInput.InputSplitter.DrainBuffer` | src/uu/csplit/src/csplit.rs:574-576 | gives the text of the held lines, whatever their order, and holds none |
| `CsplitInput.InputSplitter.ShrinkBufferToSize` | src/uu/csplit/src/csplit.rs:562-571 | gives up the oldest lines above the size |
| `CsplitWriter.SplitWriter.NewWriter` | src/uu/csplit/src/csplit.rs:272-280 | one more, empty file |
| `CsplitWriter.SplitWriter.AsDevNull` | src/uu/csplit/src/csplit.rs:283-285 | nothing more is written until the next file |
| `CsplitWriter.SplitWriter.WriteLine` | src/uu/csplit/src/csplit.rs:293-304 | grows the last file, or nothing when skipping; a file to write to exists |
| `CsplitWriter.SplitWriter.FinishSplit` | src/uu/csplit/src/csplit.rs:313-330 | the file stays unless it is empty and elided |
| `CsplitWriter.SplitWriter.DeleteAllSplits` | src/uu/csplit/src/csplit.rs:337-346 | every file of the run is removed and none is missing |
| `CsplitWriter.SplitWriter.Drop` | src/uu/csplit/src/csplit.rs:242-254 | afterwards exactly the files below the counter exist |
| `CsplitWriter.SplitWriter.DoToLine` | src/uu/csplit/src/csplit.rs:358-398 | from any look-ahead: writes up to the first line not below the number, which goes back or is suppressed; the capacity assertions hold |
| `CsplitWriter.StepIfNoneMatches` | src/uu/csplit/src/csplit.rs:516-524 | without a match everything is written and the error is that of a missing match |
| `CsplitWriter.StepIfMatches` | src/uu/csplit/src/csplit.rs:410-525 | the first matching line not read before decides a regex round that reads on |
| `CsplitWriter.CloseStuck` | src/uu/csplit/src/csplit.rs:488-511 | closing at a line read again is the spec's round of a search with lines to rewind |
| `CsplitWriter.RoundLags` | src/uu/csplit/src/csplit.rs:483-515 | one round of the search keeps what is written and held together the lines since it began, or ends it as the first match says |
| `CsplitWriter.SplitWriter.DoToMatchForward` | src/uu/csplit/src/csplit.rs:420-474 | offsets from zero up: the piece written, the look-ahead left, the error |
| `CsplitWriter.SplitWriter.WriteOffset` | src/uu/csplit/src/csplit.rs:453-471 | the matched line and the rest of a positive offset, or the error when the input is too short |
| `CsplitWriter.SplitWriter.SearchRound` | src/uu/csplit/src/csplit.rs:483-515 | one round of the search behind a window, in every state it can be entered |
| `CsplitWriter.SplitWriter.CloseAtMatch` | src/uu/csplit/src/csplit.rs:488-511 | keeps the offset's last lines and the matched one, which takes the place of one when suppressing |
| `CsplitWriter.SplitWriter.SearchOn` | src/uu/csplit/src/csplit.rs:483-524 | with nothing to rewind the search ends at the first match, with the window the offset keeps |
| `CsplitWriter.SplitWriter.DoToMatchBackward` | src/uu/csplit/src/csplit.rs:475-524 | negative offsets from any look-ahead: what is written, what is held and the error, or that the search never ends |
| `CsplitWriter.SplitWriter.DoToMatch` | src/uu/csplit/src/csplit.rs:410-525 | any offset from any look-ahead: what is written, what is held and the error, or that the search never ends |
| `CsplitRun.ExecutePatternIter.Next` | src/uu/csplit/src/patterns.rs:70-88 | counts up to the limit, or on without one |
| `CsplitRun.RunUpToLine` | src/uu/csplit/src/csplit.rs:172-190 | the rounds of a line number are those of the fold, with the error of the right round |
| `CsplitRun.MatchRound` | src/uu/csplit/src/csplit.rs:194-203 | one round of a regex adds its piece to the files, or discards it when skipping |
| `CsplitRun.RunToMatch` | src/uu/csplit/src/csplit.rs:191-221 | the rounds of a regex are those of the fold; `{*}` ends the run without error; it never ends when a search does not, or when an unlimited one changes nothing |
| `CsplitRun.DoCsplit` | src/uu/csplit/src/csplit.rs:159-225 | the files written by all patterns, the look-ahead left and the way the run ended are those of the fold; `FilesAreWritten` and `SkippingLeavesTheFiles` say which lines they hold |
| `CsplitRun.WriteLast` | src/uu/csplit/src/csplit.rs:130-151 | the rest goes to a last file; an empty one only after suppressed line numbers |
| `CsplitRun.CopyRest` | src/uu/csplit/src/csplit.rs:136-139 | all remaining lines go to the current file, in order |
| `CsplitRun.Csplit` | src/uu/csplit/src/csplit.rs:115-157 | the directory left behind and the result, or that there is none, for every input, option and pattern list; `FilesAreLeftIn` and `OneFileEach` say what the files hold |
| `CsplitRun.AcceptedIffAscending` | src/uu/csplit/src/patterns.rs:157-180 | line numbers are accepted iff positive and never decreasing |
| `CsplitRun.RefusalNamesTheFirst` | src/uu/csplit/src/patterns.rs:157-180 | refused is the first line number that is zero or below the one before it, and the error names both |
| `CsplitLaws.LineStepCuts` | src/uu/csplit/src/csplit.rs:358-398 | with the held lines in order, line number n cuts before line n, never behind the last cut |
| `CsplitLaws.MatchStepCuts` | src/uu/csplit/src/csplit.rs:410-525 | a regex that reads on cuts at its first match not read before, moved by the offset, never behind the last cut, with its exact failures |
| `CsplitLaws.SafeStepInOrder` | src/uu/csplit/src/csplit.rs:475-524 | a safe search ends, keeps the order, and changes something if it is repeated without limit |
| `CsplitLaws.UnsafeStep` | src/uu/csplit/src/csplit.rs:475-524 | any other search never ends iff the first held line does not match; else it writes a line before its turn iff more lines wait than the offset reaches; else it changes nothing and has no limit |
| `CsplitLaws.RunKeepsOrder` | src/uu/csplit/src/csplit.rs:159-225 | a run of any patterns ends with its lines in order, none missing and none twice, iff every search it enters is safe |
| `CsplitLaws.EndsInOrder` | src/uu/csplit/src/csplit.rs:115-157 | the same of the whole program, which has then written all lines or failed |
| `CsplitLaws.MatchRoundsEndless` | src/uu/csplit/src/csplit.rs:191-221 | the rounds of a regex never end iff they start at a search with lines to rewind whose first line does not match, or are unlimited with enough lines held |
| `CsplitLaws.RunEndless` | src/uu/csplit/src/csplit.rs:159-225 | a run never ends iff it comes to a pattern that never returns, by a check made once before that pattern |
| `CsplitLaws.UnendingIff` | src/uu/csplit/src/csplit.rs:115-157 | the same of the whole program, for every input, option and pattern list |
| `CsplitLaws.EveryLineOnce` | src/uu/csplit/src/csplit.rs:115-157 | every successful run takes each line of the input exactly once, even one that loses the order |
| `CsplitLaws.TameRunsAreSmooth` | src/uu/csplit/src/csplit.rs:475-524 | if no negative offset directly follows a line number, every search is safe and the run ends |
| `CsplitLaws.FilesAreTheTrace` | src/uu/csplit/src/csplit.rs:115-157 | without `%re%` and suppression the files are the text of the lines in the order in which they were taken |
| `CsplitLaws.Conserves` | src/uu/csplit/src/csplit.rs:115-157 | without `%re%` and suppression, and with safe searches, the files of a successful run join to the input |
| `CsplitLaws.ConservesAPrefix` | src/uu/csplit/src/csplit.rs:152-156 | then, kept after a failure, the files join to a prefix of the input |
| `CsplitLaws.NoEmptyFile` | src/uu/csplit/src/csplit.rs:313-330 | with empty files elided none is left |
| `CsplitFiles.SkippingLeavesTheFiles` | src/uu/csplit/src/csplit.rs:191-200 | the rounds of `%re%` leave the files as they were, from any look-ahead and however they end |
| `CsplitFiles.FilesAreWritten` | src/uu/csplit/src/csplit.rs:115-157 | the files hold the lines of the kept rounds one after the other, whatever is skipped, suppressed or elided |
| `CsplitFiles.FilesAreLeftIn` | src/uu/csplit/src/csplit.rs:115-157 | with safe searches the files of a successful run join to the lines that no skipping pattern passed over and no suppression dropped, by the cuts before and after each pattern |
| `CsplitFiles.OneFileEach` | src/uu/csplit/src/csplit.rs:272-330 | without elision there is one file for each kept round, empty or not, and no other |
| `CsplitFiles.ElisionDropsTheEmpty` | src/uu/csplit/src/csplit.rs:313-330 | with it they are the same files but the empty ones |
| `CsplitFiles.WhatAFailureLeaves` | src/uu/csplit/src/csplit.rs:152-156 | a failed run leaves nothing, or with files kept all its pieces |
| `CsplitFiles.RegexAlone` | src/uu/csplit/src/csplit.rs:410-525 | one regex with first match m: every file left by `/re/off` or `%re%off`, with and without suppression and elision, or the error iff the offset leads out of the input |
| `CsplitFiles.NoMatchAlone` | src/uu/csplit/src/csplit.rs:516-524 | without a match it fails, and leaves the whole input in one file if files are kept and it is not skipped |
| `CsplitFiles.NumberAlone` | src/uu/csplit/src/csplit.rs:358-398 | one line number: the lines before it and those from it on, without it when suppressed, or the error |
| `CsplitCases.LineCuts` | src/uu/csplit/src/csplit.rs:172-190 | round i of a repeated line number cuts before its multiple or where the run stood, and when the rounds succeed |
| `CsplitCases.FailingLine` | src/uu/csplit/src/csplit.rs:172-190 | a repeated line number that fails does so in the first round whose cut is not inside, and names it |
| `CsplitCases.RoundsNeedMatches` | src/uu/csplit/src/csplit.rs:191-221 | a regex without offset takes one matching line a round: limited, it goes on iff there are enough, and else fails with the error of the round that finds none; unlimited, it ends the run behind the last |
| `CsplitCases.EndlessLineRoundsFail` | src/uu/csplit/src/csplit.rs:172-190 | a line number repeated without limit ends past the last line with that error |
| `CsplitCases.EndlessMatchRoundsEnd` | src/uu/csplit/src/csplit.rs:191-221 | a regex repeated without limit, with safe searches, cuts at most once for each line left to read, and ends the run or falls short |
| `CsplitCases.RepeatedLine` | src/uu/csplit/src/csplit.rs:475-524 | `2 2 /re/-1`: the search is safe and the run goes on iff line 2 matches, and never ends otherwise |
| `CsplitCases.RepeatedLineForEver` | src/uu/csplit/src/csplit.rs:475-524 | `2 2 /re/-1 {*}` never ends, whether line 2 matches or not |
| `CsplitCases.NeverEnds` | src/uu/csplit/src/csplit.rs:475-524 | the input a, b with `2 2 /a/-1` is never finished |
| `CsplitCases.WrittenOutOfOrder` | src/uu/csplit/src/csplit.rs:475-524 | the input a, b, c, d with `/d/-2 1 /b/-1` is written in the order a, c, b, d |
| `LineWrap.WrappedIsLines` | src/uu/base_common/src/lib.rs:349-391 | complete lines and a rest that has a newline only if it is not empty are the wrapped text |
| `LineWrap.LinesGrow` | src/uu/base_common/src/lib.rs:349-391 | wrapping may go on from the unfinished line alone |
| `LineWrap.UnwrapWrapped` | src/uu/base_common/src/lib.rs:349-391 | wrapping only adds newlines |
| `LineWrap.NewlinePositions` | src/uu/base_common/src/lib.rs:349-391 | newlines stand after every full line and at the end, none doubled |
| `LineWrap.LinesBegun` | src/uu/base_common/src/lib.rs:311-334 | there is one newline for each line begun, and at width 0 the output is the encoding itself |
| `FastEncode.Encoder.WriteWithLineBreaks` | src/uu/base_common/src/lib.rs:349-391 | writes the complete lines and keeps the rest, which clean-up ends with one newline |
| `FastEncode.Encoder.WriteToOutput` | src/uu/base_common/src/lib.rs:393-408 | with or without wrapping, what is written and what stays buffered |
| `FastEncode.Encoder.EncodeChunk` | src/uu/base_common/src/lib.rs:591-603 | one more chunk: the complete lines of the longer encoding are out |
| `FastEncode.Encoder.TopUp` | src/uu/base_common/src/lib.rs:562-584 | the leftover is filled up to a chunk, which is encoded |
| `FastEncode.Encoder.EncodeChunks` | src/uu/base_common/src/lib.rs:586-606 | the whole chunks of a read are encoded, less than one remains |
| `FastEncode.Encoder.Consume` | src/uu/base_common/src/lib.rs:552-617 | after every read whole chunks are out and less than a chunk is left over |
| `FastEncode.Encoder.Finish` | src/uu/base_common/src/lib.rs:619-631 | the output is the whole encoding, wrapped, unless the codec refuses the remainder |
| `FastEncode.FastEncodeStream` | src/uu/base_common/src/lib.rs:523-632 | for every block codec and every way of reading, the wrapped encoding of the whole input: at 76 by default, and the encoding itself at width 0 |
| `FastDecode.AlphabetLookup` | src/uu/base_common/src/lib.rs:643-652 | the table holds exactly the alphabet |
| `FastDecode.Decoder.FlushReadyChunks` | src/uu/base_common/src/lib.rs:672-702 | drains every whole multiple, at most the limit at a time, and stops at the first refused; `FlushDecodesAtOnce` says what that gives |
| `FastDecode.FlushDecodesAtOnce` | src/uu/base_common/src/lib.rs:672-702 | of a codec that decodes by blocks any buffer is decoded as if at once, whatever the limit, and the bytes behind the last whole multiple stay; refused, a beginning of it is out |
| `Codec.Base16DecodesByBlocks` | src/uu/base_common/src/lib.rs:237-243 | base 16 is such a codec |
| `Codec.HexPairIs` | src/uu/base_common/src/lib.rs:237-243 | a byte is written in base 16 as its high and its low digit, in capitals |
| `Codec.SmallHexDigits` | src/uu/base_common/src/lib.rs:237-243 | small letters are read like capitals |
| `FastDecode.Decoder.Push` | src/uu/base_common/src/lib.rs:861-878 | a block is decoded when it is full, in either mode |
| `FastDecode.Decoder.TakeByte` | src/uu/base_common/src/lib.rs:828-879 | one byte: dropped, taken into a block, ignored, or the end of the run with the output so far |
| `FastDecode.OneMoreByte` | src/uu/base_common/src/lib.rs:828-879 | what a byte makes of the text decoded so far, and of every text that goes on from there when it ends the run |
| `FastDecode.Decoder.Finish` | src/uu/base_common/src/lib.rs:895-914 | the tail is padded if the codec can, decoded, and an invalid one reported after it is written; `TailIsPadded` says so of the output |
| `FastDecode.BlocksGrow` | src/uu/base_common/src/lib.rs:828-879 | decoding may go on from the buffered rest alone |
| `FastDecode.FastDecodeStream` | src/uu/base_common/src/lib.rs:798-915 | for every way of reading, the blocks in order, with the output before an error kept; `TailIsPadded`, `GarbageFails` and `OutputBeforeGarbage` say what that is |
| `FastDecode.BlocksOfEncoding` | src/uu/base_common/src/lib.rs:672-702 | the blocks of an encoding decode to the input |
| `FastDecode.DecodeUndoesEncode` | src/uu/base_common/src/lib.rs:798-915 | the wrapped encoding of any input decodes to it, in both modes, ignoring garbage or not |
| `FastDecode.TailIsPadded` | src/uu/base_common/src/lib.rs:895-914 | when the kept text ends in a remainder that the codec pads, what the padded one decodes to is written last, and the run fails iff bytes had to go or it is refused; unpadded otherwise |
| `FastDecode.DecodesUnpadded` | src/uu/base_common/src/lib.rs:798-915 | a wrapped encoding without its padding, where the codec restores it, decodes to the same input as with it, in both modes |
| `FastDecode.DecodeStripped` | src/uu/base_common/src/lib.rs:798-915 | so it does for every way of reading |
| `FastDecode.GarbageIsIgnored` | src/uu/base_common/src/lib.rs:828-857 | ignoring garbage, a text decodes as its bytes of the alphabet alone |
| `FastDecode.GarbageFails` | src/uu/base_common/src/lib.rs:828-857 | otherwise the first byte that is neither of the alphabet nor a line break ends the run as a failure, with the blocks before it written |
| `FastDecode.OutputBeforeGarbage` | src/uu/base_common/src/lib.rs:828-893 | how much of the input is written before such a byte: whole blocks of 1024 units, or of one unit when flushing early |
| `Padding.PadRemainder` | src/uucore/src/lib/features/encoding.rs:569-596 | base 32 pads a remainder to a block, after taking off the bytes at which no encoding can end |
| `Padding.Base32RestoresPadding` | src/uucore/src/lib/features/encoding.rs:569-596 | flushing early, it puts all lost padding back |
| `Padding.CutRemainder` | src/uucore/src/lib/features/encoding.rs:569-596 | which lengths are padded, which are cut and reported, and which are refused |
| `FastDecode.RoundTrip` | src/uu/base_common/src/lib.rs:523-915 | the two streams one after the other give back what was read |
| `Codec.Base16IsABlockCodec` | src/uu/base_common/src/lib.rs:237-243 | base 16 meets the laws asked of a codec |
| `Cat.ShowsTheDisplay` | src/uu/cat/src/cat.rs:529-630 | read in one piece, a text shows line by line as its display, for all options |
| `Cat.OneLine` | src/uu/cat/src/cat.rs:604-630 | one finished line: its number, its text, its end, or nothing when squeezed |
| `Cat.InsideLine` | src/uu/cat/src/cat.rs:557-588 | inside a line every byte shows in order, but for a carriage return held back at its end |
| `Cat.FastCopyAgrees` | src/uu/cat/src/cat.rs:146-155 | with nothing to show the display is the text, as the fast path assumes |
| `CatShown.NamesItsByte` | src/uu/cat/src/cat.rs:686-705 | `-v` shows every byte in printable ones that name it, by caret and `M-`, and a printable byte as itself; a tab only with `-T` |
| `CatShown.RawByte` | src/uu/cat/src/cat.rs:652-684 | without `-v` a byte shows as itself, but for a tab with `-T` |
| `CatShown.ShowsEnds` | src/uu/cat/src/cat.rs:604-630 | `-E` alone puts a dollar before every newline and shows a carriage return before one as `^M`, and nothing else |
| `CatShown.ShowsNumbers` | src/uu/cat/src/cat.rs:547-630 | `-n` or `-b` alone puts the next number where a line begins, with `-b` unless it is blank, and nothing else |
| `CatShown.ShowsSqueezed` | src/uu/cat/src/cat.rs:604-630 | `-s` with any other options shows the text from which each newline is taken that makes a second blank line on end |
| `Cat.WhenReadsShow` | src/uu/cat/src/cat.rs:529-600 | the output is that of one read iff no squeezed blank line follows a line cut by a read; each such cut loses one newline |
| `Cat.ReadsShowTheDisplay` | src/uu/cat/src/cat.rs:529-600 | without squeezing, every way of reading shows the display of the whole input |
| `Cat.SplitReadLosesABlankLine` | src/uu/cat/src/cat.rs:621-622 | the shortest input on which the reads show: `a` and two newlines, cut behind the `a` |
| `Cat.ShorterInputsHaveNoHazard` | src/uu/cat/src/cat.rs:621-622 | no shorter input has a cut that shows |
| `CatPrinter.Printer.WriteNewLine` | src/uu/cat/src/cat.rs:604-630 | a newline in each state the printer can be in |
| `CatPrinter.Printer.WriteToEnd` | src/uu/cat/src/cat.rs:652-660 | copies up to the first newline or carriage return |
| `CatPrinter.Printer.WriteTabToEnd` | src/uu/cat/src/cat.rs:663-684 | the same with tabs shown |
| `CatPrinter.Printer.WriteNonprintToEnd` | src/uu/cat/src/cat.rs:686-705 | shows every byte up to the newline |
| `CatPrinter.Printer.PrintRun` | src/uu/cat/src/cat.rs:557-588 | a held-back carriage return or the number, the run of bytes, and its stop |
| `CatPrinter.Printer.PrintRead` | src/uu/cat/src/cat.rs:547-589 | one read is the transducer over its bytes; whether a line starts does not matter while a carriage return is held back |
| `CatPrinter.Printer.PrintLines` | src/uu/cat/src/cat.rs:529-600 | all reads of a file |
| `CatPrinter.Printer.CatHandle` | src/uu/cat/src/cat.rs:360-370 | a file is copied when nothing is to be shown, else printed |
| `CatPrinter.CatFiles` | src/uu/cat/src/cat.rs:402-421 | all files with one state, and the carriage return still held back at the end |
| `CatPrinter.FilesShowTheDisplay` | src/uu/cat/src/cat.rs:360-421 | by either path and without squeezing, the display of the files joined |
| `Comm.LinesAreTheFile` | src/uu/comm/src/comm.rs:83-96 | the lines are the file, with a terminator added at its end if it lacks one |
| `Comm.LineReader.ReadLine` | src/uu/comm/src/comm.rs:83-96 | takes the next line off those left |
| `Comm.OrderChecker.VerifyOrder` | src/uu/comm/src/comm.rs:109-127 | has seen a descent iff there is one, and stops only strict checking |
| `Comm.CheckEvent` | src/uu/comm/src/comm.rs:249-281 | the lines of an event are checked in the order of the columns; strict checking stops at the first descent |
| `Comm.Round` | src/uu/comm/src/comm.rs:241-296 | one round takes the next event of the merge from both readers, or stops |
| `Comm.MergeKeepsBothFiles` | src/uu/comm/src/comm.rs:241-296 | columns 1 and 3 are the first file in order, columns 2 and 3 the second |
| `Comm.MergeClassifies` | src/uu/comm/src/comm.rs:241-296 | for sorted files column 3 is the multiset intersection and columns 1 and 2 the differences |
| `Comm.TotalsAccount` | src/uu/comm/src/comm.rs:223-225 | the totals of a run to the end account for every line |
| `Comm.StrictRunIsWhole` | src/uu/comm/src/comm.rs:248-294 | strict checking shows the beginning of the merge, all of it iff both files are in order |
| `Comm.TerminatorOrder` | src/uu/comm/src/comm.rs:242-246 | with terminators a line is below another iff it is so without them and is not overtaken, or it overtakes the other: goes on from it with a byte below the terminator |
| `Comm.ZeroTerminatorAgrees` | src/uu/comm/src/comm.rs:242-246 | with zero terminators the two orders agree on all lines |
| `Comm.CheckedOrder` | src/uu/comm/src/comm.rs:109-127 | a file fails the check iff some line is below the one before it in that order of the lines without terminators |
| `Comm.ZeroCheckedOrder` | src/uu/comm/src/comm.rs:109-127 | with zero terminators it fails iff its lines are out of order |
| `Comm.TerminatorChangesTheOrder` | src/uu/comm/src/comm.rs:242-246 | whatever the terminator, a byte below it puts the longer of two lines first, against the order without terminators |
| `Comm.Compare` | src/uu/comm/src/comm.rs:198-326 | the output, the totals, and failure iff the run is checked and a file has a line below the one before it; `ShownIs` and `OutputTellsTheColumns` say what is written |
| `CommColumns.ShownIs` | src/uu/comm/src/comm.rs:198-294 | a shown line stands behind one delimiter for each shown column to the left of its own, and a hidden one is not written |
| `CommColumns.ShownStands` | src/uu/comm/src/comm.rs:206-294 | where no line starts with it, the delimiters in front of a shown line number the shown columns to its left |
| `CommColumns.HiddenLinesAreMissing` | src/uu/comm/src/comm.rs:249-294 | with a column hidden exactly its lines are missing |
| `CommColumns.OutputTellsTheColumns` | src/uu/comm/src/comm.rs:198-294 | two outputs are the same iff all shown columns are, line by line and in order |
| `CommColumns.OutputTellsTheFiles` | src/uu/comm/src/comm.rs:198-326 | with all columns shown, the output tells both files |
| `CommColumns.FailsWhen` | src/uu/comm/src/comm.rs:198-235 | a run is checked unless told not to, or told nothing and given the same file twice |
| `CommColumns.TotalsOfSorted` | src/uu/comm/src/comm.rs:298-315 | the totals of sorted files are the sizes of the two multiset differences and of the intersection |
| `Comm.SortedFileFails` | src/uu/comm/src/comm.rs:198-326 | a checked run fails on the file of the lines `a` and `a`, tab, `b`, which are in order |
| `Comm.SharedLineIsMissed` | src/uu/comm/src/comm.rs:241-296 | unchecked, two files in order that share a line, `a` and `a`, tab, `b` against `a`, tab, `b`, leave column 3 empty without failing |

## Left out

Registry manual:

- OwnSpelling: for an anchor with a spanning placeholder the condition is given in
  one direction for separators, because such a placeholder may stand for a part of
  its neighbour's spelling.
- Build: names of files that are not in UTF-8, which the source replaces character by
  character in the index and calls `?` as providers; a text that is not in UTF-8
  counts as unreadable.
- Case folding: queries and anchors are taken as already folded.
- Path order is that of bytes, which differs from that of path components when a
  name holds a byte below the separator; trailing separators are not modelled.
- The index is assumed to be of less than 4 GiB and texts of less than 2^64 bytes
  where agreement with the scan is stated; overflow checks on `usize` are not
  modelled.
- The atomic replacement of the index file, its removal, the environment's paths
  and the free-text search.
- A stale index does not find a provider added since it was built while its own
  pointers still answer; `LiveAnswerIsTheScan` says when the answer is whole.

csplit:

- The text of patterns and the regex engine: patterns come parsed, a regex is any
  predicate on lines, and an offset is any integer.
- Reading and writing errors, texts that are not UTF-8, and the sizes printed.
- File names: each number has its own, and no split file exists before the run.

Base-N:

- FlushReadyChunks: what it gives as a whole is stated for codecs that decode by
  blocks; for the others only for a buffer of at most one block, which is all the
  decoder ever hands it.
- The codecs' arithmetic, except base 16 and the padding of base 32, and the choice of a
  codec by format.
- Base 58 does not encode by blocks and the laws exclude it; buffering the whole
  input for it is not modelled.
- Reading and writing errors.

cat:

- The text of line numbers: any texts without newlines will do.
- The choice of fast copy by file type, the check that a file is not its own
  output, interactive flushing, and errors of single files.

comm:

- Whether the two files are the same is a parameter; comparing them beforehand is
  not modelled.
- Reading and writing errors and the messages on the error stream; the
  numerals and the word in the line of totals are parameters.

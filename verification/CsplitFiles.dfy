/** Which lines reach the files, and in which file (src/uu/csplit/src/csplit.rs 115-346). */
module CsplitFiles {
  import opened Bytes
  import opened CsplitSpec
  import opened CsplitWriter
  import opened CsplitRun
  import opened CsplitLaws
  import opened CsplitCases

  // ----- a skipping pattern writes nothing -----

  ghost predicate NoneKept(pieces: seq<Piece>) {
    forall i :: 0 <= i < |pieces| ==> !pieces[i].kept
  }

  ghost predicate AllKept(pieces: seq<Piece>) {
    forall i :: 0 <= i < |pieces| ==> pieces[i].kept
  }

  lemma {:induction false} NothingWritten(files: seq<bytes>, lines: seq<bytes>, pieces: seq<Piece>, elide: bool)
    requires NoneKept(pieces)
    ensures FilesAfter(files, lines, pieces, elide) == files
    decreases |pieces|
  {
    hide TextAt;
    if pieces != [] {
      NothingWritten(files, lines, pieces[1..], elide);
    }
  }

  lemma {:induction false} MatchRoundsKeep(lines: seq<bytes>, l: Look, regex: Regex, offset: int, kept: bool,
                                           max: Option<nat>, ith: nat, suppress: bool)
    requires Proper(lines, l) && ith > 0
    ensures var pieces := MatchRounds(lines, l, regex, offset, kept, max, ith, suppress).pieces;
            if kept then AllKept(pieces) else NoneKept(pieces)
    decreases if max.Some? then Max(0, max.value + 1 - ith) else |lines| - l.pulled, |l.held|
  {
    hide MatchRounds, MatchStep, Proper, Safe;
    MatchRoundsUnfold(lines, l, regex, offset, kept, max, ith, suppress);
    var s := MatchStep(lines, l, regex, offset, suppress);
    ReaderIn(lines, s.next);
    if !(max.Some? && ith > max.value) && s.outcome.Done? && !(max.None? && s.next == l) {
      MatchRoundsKeep(lines, s.next, regex, offset, kept, max, ith + 1, suppress);
    }
  }

  lemma {:induction false} LineRoundsKeep(lines: seq<bytes>, l: Look, n: nat, upTo: nat, left: Option<nat>, ith: nat,
                                          suppress: bool)
    requires Proper(lines, l) && n > 0
    ensures AllKept(LineRounds(lines, l, n, upTo, left, ith, suppress).pieces)
    decreases if left.Some? then left.value else Max(0, |lines| + 1 - upTo)
  {
    hide LineRounds, LineStep, Proper;
    LineRoundsUnfold(lines, l, n, upTo, left, ith, suppress);
    var s := LineStep(lines, l, upTo, suppress);
    if left != Some(0) && s.outcome.Done? {
      var left' := if left.None? then None else Some(left.value - 1);
      LineRoundsKeep(lines, s.next, n, upTo + n, left', ith + 1, suppress);
    }
  }

  lemma PatternKeeps(lines: seq<bytes>, l: Look, p: Pattern, suppress: bool)
    requires Proper(lines, l) && (p.UpToLine? ==> p.n > 0)
    ensures var pieces := PatternRounds(lines, l, p, suppress).pieces;
            if p.SkipToMatch? then NoneKept(pieces) else AllKept(pieces)
  {
    hide LineRounds, MatchRounds, Proper;
    match p
    case UpToLine(n, ex) => LineRoundsKeep(lines, l, n, n, Limit(ex), 1, suppress);
    case UpToMatch(regex, offset, ex) => MatchRoundsKeep(lines, l, regex, offset, true, Limit(ex), 1, suppress);
    case SkipToMatch(regex, offset, ex) => MatchRoundsKeep(lines, l, regex, offset, false, Limit(ex), 1, suppress);
  }

  /** The rounds of `%re%`, from any look-ahead and however they end, leave the files as they were. */
  lemma SkippingLeavesTheFiles(files: seq<bytes>, lines: seq<bytes>, l: Look, regex: Regex, offset: int, ex: Execute,
                               suppress: bool, elide: bool)
    requires Proper(lines, l)
    ensures FilesAfter(files, lines, PatternRounds(lines, l, SkipToMatch(regex, offset, ex), suppress).pieces, elide)
            == files
  {
    hide PatternRounds, Proper;
    var p := SkipToMatch(regex, offset, ex);
    PatternKeeps(lines, l, p, suppress);
    NothingWritten(files, lines, PatternRounds(lines, l, p, suppress).pieces, elide);
  }

  // ----- the lines that are written -----

  /** The lines of the kept pieces. */
  function Written(pieces: seq<Piece>): seq<nat> {
    if pieces == [] then [] else (if pieces[0].kept then pieces[0].lines else []) + Written(pieces[1..])
  }

  /** The lines suppressed by the rounds. */
  function DroppedBy(pieces: seq<Piece>): set<nat> {
    if pieces == [] then {} else (set n | n in pieces[0].dropped) + DroppedBy(pieces[1..])
  }

  function Without(s: seq<nat>, out: set<nat>): seq<nat> {
    if s == [] then [] else (if s[0] in out then [] else [s[0]]) + Without(s[1..], out)
  }

  lemma {:induction false} WithoutAppend(a: seq<nat>, b: seq<nat>, out: set<nat>)
    ensures Without(a + b, out) == Without(a, out) + Without(b, out)
    decreases |a|
  {
    if a == [] {
      assert a + b == b;
    } else {
      assert (a + b)[1..] == a[1..] + b;
      WithoutAppend(a[1..], b, out);
    }
  }

  lemma {:induction false} WithoutOthers(s: seq<nat>, out: set<nat>, more: set<nat>)
    requires forall i :: 0 <= i < |s| ==> s[i] !in more
    ensures Without(s, out + more) == Without(s, out) && Without(s, more + out) == Without(s, out)
  {
    if s != [] {
      WithoutOthers(s[1..], out, more);
    }
  }

  lemma {:induction false} WithoutNone(s: seq<nat>, out: set<nat>)
    requires forall i :: 0 <= i < |s| ==> s[i] !in out
    ensures Without(s, out) == s
  {
    if s != [] {
      WithoutNone(s[1..], out);
    }
  }

  lemma {:induction false} WithoutAll(s: seq<nat>, out: set<nat>)
    requires forall i :: 0 <= i < |s| ==> s[i] in out
    ensures Without(s, out) == []
  {
    if s != [] {
      WithoutAll(s[1..], out);
    }
  }

  lemma {:induction false} DroppedAreTraced(pieces: seq<Piece>)
    ensures forall n :: n in DroppedBy(pieces) ==> n in Trace(pieces)
  {
    if pieces != [] {
      DroppedAreTraced(pieces[1..]);
    }
  }

  /** Three stretches of numbers in order have none in common. */
  lemma Apart(out: seq<nat>, dropped: seq<nat>, rest: seq<nat>, from: nat)
    requires InOrder(out + dropped + rest, from)
    ensures forall n :: n in out ==> n !in dropped && n !in rest
    ensures forall n :: n in rest ==> n !in dropped
  {
    OrderSplits(out + dropped, rest, from);
    OrderSplits(out, dropped, from);
    hide InOrder;
    InRange(out, from);
    InRange(dropped, from + |out|);
    InRange(rest, from + |out + dropped|);
  }

  lemma PieceWithout(out: seq<nat>, dropped: seq<nat>, gone: set<nat>, rest: seq<nat>, later: set<nat>, from: nat)
    requires InOrder(out + dropped + rest, from)
    requires (forall n :: n in gone <==> n in dropped) && forall n :: n in later ==> n in rest
    ensures Without(out + dropped + rest, gone + later) == out + Without(rest, later)
  {
    Apart(out, dropped, rest, from);
    hide InOrder, Without;
    forall i | 0 <= i < |out| ensures out[i] !in gone + later { assert out[i] in out; }
    forall i | 0 <= i < |dropped| ensures dropped[i] in gone + later { assert dropped[i] in dropped; }
    forall i | 0 <= i < |rest| ensures rest[i] !in gone { assert rest[i] in rest; }
    WithoutAppend(out + dropped, rest, gone + later);
    WithoutAppend(out, dropped, gone + later);
    WithoutNone(out, gone + later);
    WithoutAll(dropped, gone + later);
    WithoutOthers(rest, later, gone);
    assert out + [] == out;
  }

  /** In order, what kept pieces write is all they took but what they suppressed. */
  lemma {:induction false} WrittenInOrder(pieces: seq<Piece>, from: nat)
    requires AllKept(pieces) && InOrder(Trace(pieces), from)
    ensures Written(pieces) == Without(Trace(pieces), DroppedBy(pieces))
    decreases |pieces|
  {
    hide Trace, DroppedBy, Written, InOrder, Without;
    if pieces == [] {
      NoneTaken();
    } else {
      var p, rest := pieces[0], pieces[1..];
      PieceUnfolds(pieces);
      OrderSplits(p.lines + p.dropped, Trace(rest), from);
      WrittenInOrder(rest, from + |p.lines + p.dropped|);
      DroppedAreTraced(rest);
      PieceWithout(p.lines, p.dropped, (set n | n in p.dropped), Trace(rest), DroppedBy(rest), from);
    }
  }

  lemma NoneTaken()
    ensures Written([]) == Without(Trace([]), DroppedBy([]))
  {}

  lemma PieceUnfolds(pieces: seq<Piece>)
    requires pieces != []
    ensures Trace(pieces) == pieces[0].lines + pieces[0].dropped + Trace(pieces[1..])
    ensures DroppedBy(pieces) == (set n | n in pieces[0].dropped) + DroppedBy(pieces[1..])
    ensures Written(pieces) == (if pieces[0].kept then pieces[0].lines else []) + Written(pieces[1..])
  {}

  lemma InRange(s: seq<nat>, from: nat)
    requires InOrder(s, from)
    ensures forall n :: n in s <==> from <= n < from + |s|
  {
    RangeAt(from, from + |s|);
    hide Range;
    forall n | from <= n < from + |s| ensures n in s {
      assert s[n - from] == n;
    }
  }

  lemma {:induction false} NoneWritten(pieces: seq<Piece>)
    requires NoneKept(pieces)
    ensures Written(pieces) == []
  {
    if pieces != [] {
      NoneWritten(pieces[1..]);
    }
  }

  lemma {:induction false} WrittenAppend(a: seq<Piece>, b: seq<Piece>)
    ensures Written(a + b) == Written(a) + Written(b)
    decreases |a|
  {
    if a == [] {
      assert a + b == b;
    } else {
      assert (a + b)[1..] == a[1..] + b;
      WrittenAppend(a[1..], b);
    }
  }

  /** The files hold the written lines one after the other, whatever was skipped, suppressed or elided. */
  lemma {:induction false} FilesAreWritten(files: seq<bytes>, lines: seq<bytes>, pieces: seq<Piece>, elide: bool)
    ensures Concat(FilesAfter(files, lines, pieces, elide)) == Concat(files) + TextAt(lines, Written(pieces))
    decreases |pieces|
  {
    hide Concat, TextAt;
    if pieces == [] {
      assert TextAt(lines, []) == [] by { NoText(lines, []); }
      assert Concat(files) + [] == Concat(files);
    } else {
      var p, text := pieces[0], TextAt(lines, pieces[0].lines);
      var files' := AddPiece(files, text, p.kept, elide);
      FilesAreWritten(files', lines, pieces[1..], elide);
      var rest := Written(pieces[1..]);
      if p.kept {
        AddPieceText(files, text, elide);
        TextAppend(lines, p.lines, rest);
        assert Concat(files) + text + TextAt(lines, rest) == Concat(files) + (text + TextAt(lines, rest));
      } else {
        assert [] + rest == rest;
      }
    }
  }

  // ----- a run, by its cuts -----

  /** Where a look-ahead stands: the first line that is not out yet. */
  function CutAt(l: Look): nat {
    if |l.held| <= l.pulled then l.pulled - |l.held| else 0
  }

  /**
    The lines that patterns leave in, by the cuts before and after each: a skipping one
    none, another all between its cuts but those it suppressed, and what is left after
    the last.
  */
  ghost function LeftIn(lines: seq<bytes>, l: Look, patterns: seq<Pattern>, suppress: bool): seq<nat>
    requires Proper(lines, l) && Validated(patterns)
    decreases |patterns|
  {
    if patterns == [] then Range(CutAt(l), |lines|)
    else
      PatternRoundsProper(lines, l, patterns[0], suppress);
      var rounds := PatternRounds(lines, l, patterns[0], suppress);
      (if patterns[0].SkipToMatch? then []
       else Without(Range(CutAt(l), CutAt(rounds.look)), DroppedBy(rounds.pieces)))
      + LeftIn(lines, rounds.look, if rounds.end.GoOn? then patterns[1..] else [], suppress)
  }

  lemma PatternKeepsOrder(lines: seq<bytes>, l: Look, p: Pattern, suppress: bool)
    requires Orderly(lines, l) && (p.UpToLine? ==> p.n > 0)
    ensures KeepsOrder(lines, l, PatternRounds(lines, l, p, suppress))
  {
    hide KeepsOrder, Orderly, LineRounds, MatchRounds;
    OrderlyIsProper(lines, l);
    match p
    case UpToLine(n, ex) => LineRoundsKeepOrder(lines, l, n, n, Limit(ex), 1, suppress);
    case UpToMatch(regex, offset, ex) => MatchRoundsKeepOrder(lines, l, regex, offset, true, Limit(ex), 1, suppress);
    case SkipToMatch(regex, offset, ex) => MatchRoundsKeepOrder(lines, l, regex, offset, false, Limit(ex), 1, suppress);
  }

  lemma OrderlyIsProper(lines: seq<bytes>, l: Look)
    requires Orderly(lines, l)
    ensures Proper(lines, l) && CutAt(l) == Cut(l) <= |lines|
  {}

  lemma PatternWrites(lines: seq<bytes>, l: Look, p: Pattern, suppress: bool)
    requires Orderly(lines, l) && Proper(lines, l) && (p.UpToLine? ==> p.n > 0)
    requires var rounds := PatternRounds(lines, l, p, suppress);
             rounds.smooth && (rounds.end.GoOn? || rounds.end.Finished?)
    ensures var rounds := PatternRounds(lines, l, p, suppress);
            && Orderly(lines, rounds.look)
            && Written(rounds.pieces)
               == if p.SkipToMatch? then []
                  else Without(Range(CutAt(l), CutAt(rounds.look)), DroppedBy(rounds.pieces))
  {
    hide PatternRounds, Orderly, Trace, Range, Written, DroppedBy, Without, Proper;
    var rounds := PatternRounds(lines, l, p, suppress);
    PatternKeepsOrder(lines, l, p, suppress);
    PatternKeeps(lines, l, p, suppress);
    OrderlyIsProper(lines, l);
    OrderlyIsProper(lines, rounds.look);
    if p.SkipToMatch? {
      NoneWritten(rounds.pieces);
    } else {
      WrittenInOrder(rounds.pieces, Cut(l));
    }
  }

  lemma {:induction false} RunLeavesIn(lines: seq<bytes>, l: Look, patterns: seq<Pattern>, suppress: bool)
    requires Orderly(lines, l) && Proper(lines, l) && Validated(patterns)
    requires var run := RunPatterns(lines, l, patterns, suppress);
             run.smooth && (run.end.GoOn? || run.end.Finished?)
    ensures var run := RunPatterns(lines, l, patterns, suppress);
            && Orderly(lines, run.look)
            && Written(run.pieces) + Range(CutAt(run.look), |lines|) == LeftIn(lines, l, patterns, suppress)
    decreases |patterns|
  {
    hide PatternRounds, RunPatterns, Orderly, Range, Written, DroppedBy, Without, Proper;
    RunPatternsUnfold(lines, l, patterns, suppress);
    if patterns == [] {
      assert Written([]) == [] by { NoneWritten([]); }
      assert [] + Range(CutAt(l), |lines|) == Range(CutAt(l), |lines|);
    } else {
      var rounds := PatternRounds(lines, l, patterns[0], suppress);
      PatternWrites(lines, l, patterns[0], suppress);
      if rounds.end.GoOn? {
        RunLeavesIn(lines, rounds.look, patterns[1..], suppress);
        var rest := RunPatterns(lines, rounds.look, patterns[1..], suppress);
        WrittenAppend(rounds.pieces, rest.pieces);
        assert Written(rounds.pieces) + (Written(rest.pieces) + Range(CutAt(rest.look), |lines|))
               == Written(rounds.pieces) + Written(rest.pieces) + Range(CutAt(rest.look), |lines|);
      }
    }
  }

  /**
    The files of a successful run with safe searches join to the lines that no skipping
    pattern passed over and no suppression dropped, in the order of the input.
  */
  lemma FilesAreLeftIn(options: Options, patterns: seq<Pattern>, input: bytes)
    requires Expected(options, patterns, input).Success? && RunOf(options, patterns, input).smooth
    ensures Proper(Lines(input), START)
    ensures Concat(Expected(options, patterns, input).files)
            == TextAt(Lines(input), LeftIn(Lines(input), START, patterns, options.suppressMatched))
  {
    hide Lines, RunPatterns, FilesAfter, ValidateLineNumbers, Concat, TextAt, LeftIn, Written, Orderly;
    var lines, suppress := Lines(input), options.suppressMatched;
    StartOrderly(lines);
    var run := RunOf(options, patterns, input);
    RunLeavesIn(lines, START, patterns, suppress);
    var last := LastPieces(lines, run.look, patterns, suppress);
    LastWritten(lines, run.look, patterns, suppress);
    WrittenAppend(run.pieces, last);
    FilesAreWritten([], lines, run.pieces + last, options.elideEmptyFiles);
    NoBytes();
  }

  lemma LastWritten(lines: seq<bytes>, l: Look, patterns: seq<Pattern>, suppress: bool)
    requires Orderly(lines, l)
    ensures Written(LastPieces(lines, l, patterns, suppress)) == Range(CutAt(l), |lines|)
  {
    OrderlyStream(lines, l);
    var s := Stream(lines, l);
    assert [Piece(s, [], true)][1..] == [] && s + [] == s;
  }

  // ----- one file for each piece -----

  function KeptPieces(pieces: seq<Piece>): seq<Piece> {
    if pieces == [] then [] else (if pieces[0].kept then [pieces[0]] else []) + KeptPieces(pieces[1..])
  }

  /** Without elision there is one file for each kept piece, empty or not, and no other. */
  lemma {:induction false} OneFileEach(files: seq<bytes>, lines: seq<bytes>, pieces: seq<Piece>)
    ensures var all, kept := FilesAfter(files, lines, pieces, false), KeptPieces(pieces);
            && |all| == |files| + |kept| && all[..|files|] == files
            && forall i :: 0 <= i < |kept| ==> all[|files| + i] == TextAt(lines, kept[i].lines)
    decreases |pieces|
  {
    hide TextAt;
    if pieces != [] {
      var p := pieces[0];
      var files' := AddPiece(files, TextAt(lines, p.lines), p.kept, false);
      OneFileEach(files', lines, pieces[1..]);
      var all, rest := FilesAfter(files, lines, pieces, false), KeptPieces(pieces[1..]);
      assert all == FilesAfter(files', lines, pieces[1..], false);
      if p.kept {
        assert all[..|files|] == all[..|files'|][..|files|];
        assert all[|files|] == all[..|files'|][|files|];
        var kept := KeptPieces(pieces);
        assert kept == [p] + rest;
        forall i | 0 <= i < |kept| ensures all[|files| + i] == TextAt(lines, kept[i].lines) {
          if i > 0 { assert all[|files'| + (i - 1)] == TextAt(lines, rest[i - 1].lines); }
        }
      } else {
        assert KeptPieces(pieces) == rest;
      }
    }
  }

  function NonEmpty(files: seq<bytes>): seq<bytes> {
    if files == [] then []
    else NonEmpty(files[..|files| - 1]) + if files[|files| - 1] == [] then [] else [files[|files| - 1]]
  }

  /** With elision they are the same files but the empty ones. */
  lemma {:induction false} ElisionDropsTheEmpty(files: seq<bytes>, lines: seq<bytes>, pieces: seq<Piece>)
    ensures FilesAfter(NonEmpty(files), lines, pieces, true) == NonEmpty(FilesAfter(files, lines, pieces, false))
    decreases |pieces|
  {
    hide TextAt;
    if pieces != [] {
      var text := TextAt(lines, pieces[0].lines);
      var files' := AddPiece(files, text, pieces[0].kept, false);
      if pieces[0].kept {
        assert files'[..|files'| - 1] == files;
        assert NonEmpty(files) + [] == NonEmpty(files);
      }
      assert NonEmpty(files') == AddPiece(NonEmpty(files), text, pieces[0].kept, true);
      ElisionDropsTheEmpty(files', lines, pieces[1..]);
    }
  }

  /** A failed run leaves nothing, unless files are kept; then it leaves all its pieces. */
  lemma WhatAFailureLeaves(options: Options, patterns: seq<Pattern>, input: bytes)
    requires ValidateLineNumbers(0, patterns) == None && Expected(options, patterns, input).Fault?
    ensures Expected(options, patterns, input).files
            == if options.keepFiles
               then FilesAfter([], Lines(input), RunOf(options, patterns, input).pieces, options.elideEmptyFiles)
               else []
  {
    hide Lines, RunPatterns, FilesAfter, ValidateLineNumbers;
  }

  // ----- one pattern alone -----

  /** A file with this text, unless it is empty and elided. */
  function OneFile(text: bytes, elide: bool): seq<bytes> {
    if text == [] && elide then [] else [text]
  }

  lemma TextOfRange(lines: seq<bytes>, i: nat, j: nat)
    requires i <= j <= |lines|
    ensures TextAt(lines, Range(i, j)) == Concat(lines[i..j])
  {
    hide Concat, TextAt;
    TextOfFirst(lines, i);
    TextOfFirst(lines, j);
    RangeJoin(0, i, j);
    TextAppend(lines, Range(0, i), Range(i, j));
    assert lines[..j] == lines[..i] + lines[i..j];
    ConcatAppend(lines[..i], lines[i..j]);
    SameRest(Concat(lines[..i]), TextAt(lines, Range(i, j)), Concat(lines[i..j]));
  }

  lemma SameRest(front: bytes, a: bytes, b: bytes)
    requires front + a == front + b
    ensures a == b
  {
    assert a == (front + a)[|front|..] && b == (front + b)[|front|..];
  }

  lemma FileOf(lines: seq<bytes>, p: Piece, elide: bool)
    ensures FilesAfter([], lines, [p], elide) == if p.kept then OneFile(TextAt(lines, p.lines), elide) else []
  {
    hide TextAt;
    assert [] + [TextAt(lines, p.lines)] == [TextAt(lines, p.lines)];
    assert [p][1..] == [];
  }

  /** A run of one round that goes on leaves its file, if it is kept, and one with the rest, if there is any. */
  lemma OneRoundLeaves(options: Options, p: Pattern, input: bytes, piece: Piece, next: Look)
    requires ValidateLineNumbers(0, [p]) == None && Orderly(Lines(input), next)
    requires RunOf(options, [p], input) == Run([piece], next, GoOn, true)
    ensures var lines, elide := Lines(input), options.elideEmptyFiles;
            Expected(options, [p], input)
            == Success((if piece.kept then OneFile(TextAt(lines, piece.lines), elide) else [])
                       + (if Cut(next) < |lines| then [Concat(lines[Cut(next)..])]
                          else if p.UpToLine? && options.suppressMatched then OneFile([], elide)
                          else []))
  {
    hide Lines, RunPatterns, TextAt, Orderly, FilesAfter, ValidateLineNumbers, Concat;
    var lines, elide, suppress := Lines(input), options.elideEmptyFiles, options.suppressMatched;
    var cut, last := Cut(next), LastPieces(lines, next, [p], suppress);
    OrderlyStream(lines, next);
    TextOfRange(lines, cut, |lines|);
    assert lines[cut..|lines|] == lines[cut..];
    assert AllUpToLine([p]) <==> p.UpToLine? by { assert [p][0] == p; }
    FileOf(lines, piece, elide);
    var first := FilesAfter([], lines, [piece], elide);
    if last == [] {
      assert [piece] + [] == [piece] && first + [] == first;
    } else {
      FilesAfterOne([], lines, [piece], last[0], elide);
      if cut < |lines| {
        SomeText(lines[cut..]);
      } else {
        NoBytes();
        assert lines[cut..] == [] && first + [] == first;
      }
    }
  }

  lemma SomeText(lines: seq<bytes>)
    requires lines != [] && lines[0] != []
    ensures Concat(lines) != []
  {}

  lemma OneRoundFails(options: Options, p: Pattern, input: bytes, piece: Piece, next: Look, e: Error)
    requires ValidateLineNumbers(0, [p]) == None
    requires RunOf(options, [p], input) == Run([piece], next, Failed(e), true)
    ensures Expected(options, [p], input)
            == Fault(if options.keepFiles && piece.kept
                     then OneFile(TextAt(Lines(input), piece.lines), options.elideEmptyFiles) else [], e)
  {
    hide Lines, RunPatterns, TextAt, FilesAfter, ValidateLineNumbers;
    FileOf(Lines(input), piece, options.elideEmptyFiles);
  }

  lemma OnePattern(lines: seq<bytes>, p: Pattern, suppress: bool)
    requires p.UpToLine? ==> p.n > 0
    ensures ValidateLineNumbers(0, [p]) == None && Proper(lines, START)
    ensures RunPatterns(lines, START, [p], suppress) == PatternRounds(lines, START, p, suppress)
  {
    hide RunPatterns, PatternRounds;
    assert [p][1..] == [];
    RunPatternsUnfold(lines, START, [p], suppress);
    var rounds := PatternRounds(lines, START, p, suppress);
    if rounds.end.GoOn? {
      RunPatternsUnfold(lines, rounds.look, [], suppress);
      assert rounds.pieces + [] == rounds.pieces;
    }
  }

  /** `/re/`, or `%re%` when not kept, once. */
  function OnceTo(regex: Regex, offset: int, kept: bool): Pattern {
    if kept then UpToMatch(regex, offset, Times(1)) else SkipToMatch(regex, offset, Times(1))
  }

  lemma RegexRound(options: Options, input: bytes, regex: Regex, offset: int, kept: bool)
    ensures ValidateLineNumbers(0, [OnceTo(regex, offset, kept)]) == None && Orderly(Lines(input), START)
    ensures var s := MatchStep(Lines(input), START, regex, offset, options.suppressMatched);
            var piece := Piece(s.out, s.dropped, kept);
            RunOf(options, [OnceTo(regex, offset, kept)], input)
            == match s.outcome
               case Done => Run([piece], s.next, GoOn, true)
               case Hangs => Run([piece], s.next, Endless, true)
               case Err(e) => Run([piece], s.next, Failed(e), true)
  {
    hide Lines, RunPatterns, MatchStep, MatchRounds, ValidateLineNumbers;
    var lines := Lines(input);
    StartOrderly(lines);
    OnePattern(lines, OnceTo(regex, offset, kept), options.suppressMatched);
    OneMatchRound(lines, START, regex, offset, kept, options.suppressMatched);
  }

  /**
    One regex whose first match is line `m`, counted from 0: the input is cut at the
    match moved by the offset, and what lies before the cut is a file for `/re/` and is
    gone for `%re%`. It fails iff the offset leads out of the input on either side.
  */
  lemma RegexAlone(options: Options, input: bytes, regex: Regex, offset: int, kept: bool, m: nat)
    requires m < |Lines(input)| && IsMatch(regex, Lines(input)[m])
    requires forall i :: 0 <= i < m ==> !IsMatch(regex, Lines(input)[i])
    ensures var lines, elide, at := Lines(input), options.elideEmptyFiles, m + offset;
            Expected(options, [OnceTo(regex, offset, kept)], input)
            == if at > |lines| || at < -1 then
                 Fault(if options.keepFiles && kept then OneFile(if at > 0 then input else [], elide) else [],
                       LineOutOfRange)
               else
                 var cut := Max(0, at);
                 var rest := lines[if options.suppressMatched && 0 <= at < |lines| then cut + 1 else cut..];
                 Success((if kept then OneFile(Concat(lines[..cut]), elide) else [])
                         + (if rest == [] then [] else [Concat(rest)]))
  {
    hide Lines, RunPatterns, MatchStep, IsMatch, TextAt, Concat, FirstMatch, ValidateLineNumbers, Expected, Orderly,
      Range;
    var lines, p, suppress := Lines(input), OnceTo(regex, offset, kept), options.suppressMatched;
    RegexRound(options, input, regex, offset, kept);
    var s := MatchStep(lines, START, regex, offset, suppress);
    var piece := Piece(s.out, s.dropped, kept);
    MatchStepCuts(lines, START, regex, offset, suppress);
    FirstMatchIs(lines, regex, 0, m);
    var at := m + offset;
    if s.outcome.Done? {
      OneRoundLeaves(options, p, input, piece, s.next);
      TextOfRange(lines, 0, Max(0, at));
      assert lines[0..Max(0, at)] == lines[..Max(0, at)];
    } else {
      OneRoundFails(options, p, input, piece, s.next, LineOutOfRange);
      WholeText(input);
      assert TextAt(lines, []) == [] by { NoText(lines, []); }
    }
  }

  lemma WholeText(input: bytes)
    ensures TextAt(Lines(input), Range(0, |Lines(input)|)) == input
  {
    hide Lines, TextAt, Concat;
    var lines := Lines(input);
    TextOfRange(lines, 0, |lines|);
    assert lines[0..|lines|] == lines;
  }

  /** Without a match the run fails, with all the input in one file when files are kept and `/re/` was asked for. */
  lemma NoMatchAlone(options: Options, input: bytes, regex: Regex, offset: int, kept: bool)
    requires forall i :: 0 <= i < |Lines(input)| ==> !IsMatch(regex, Lines(input)[i])
    ensures Expected(options, [OnceTo(regex, offset, kept)], input)
            == Fault(if options.keepFiles && kept then OneFile(input, options.elideEmptyFiles) else [], MatchNotFound)
  {
    hide Lines, RunPatterns, MatchStep, IsMatch, TextAt, ValidateLineNumbers, Expected, Orderly;
    var lines := Lines(input);
    RegexRound(options, input, regex, offset, kept);
    StepIfNoneMatches(lines, START, regex, offset, options.suppressMatched);
    var s := MatchStep(lines, START, regex, offset, options.suppressMatched);
    OneRoundFails(options, OnceTo(regex, offset, kept), input, Piece(s.out, s.dropped, kept), s.next, MatchNotFound);
    assert [] + Range(0, |lines|) == Range(0, |lines|);
    WholeText(input);
  }

  /** One line number: the lines before it, and those from it on, without it when it is suppressed. */
  lemma NumberAlone(options: Options, input: bytes, n: nat)
    requires n > 0
    ensures var lines, elide, suppress := Lines(input), options.elideEmptyFiles, options.suppressMatched;
            Expected(options, [UpToLine(n, Times(1))], input)
            == if n > |lines| then Fault(if options.keepFiles then OneFile(input, elide) else [], LineOutOfRange)
               else
                 Success(OneFile(Concat(lines[..n - 1]), elide)
                         + OneFile(Concat(lines[if suppress then n else n - 1..]), elide))
  {
    hide Lines, RunPatterns, LineStep, TextAt, Concat, LineRounds, ValidateLineNumbers, Expected, Orderly, Range;
    var lines, p, suppress := Lines(input), UpToLine(n, Times(1)), options.suppressMatched;
    StartOrderly(lines);
    OnePattern(lines, p, suppress);
    OneLineRound(lines, START, n, suppress);
    LineStepCuts(lines, START, n, suppress);
    var s := LineStep(lines, START, n, suppress);
    var piece := Piece(s.out, s.dropped, true);
    if n > |lines| {
      OneRoundFails(options, p, input, piece, s.next, LineOutOfRange);
      WholeText(input);
    } else {
      OneRoundLeaves(options, p, input, piece, s.next);
      TextOfRange(lines, 0, n - 1);
      assert lines[0..n - 1] == lines[..n - 1];
      var cut := Cut(s.next);
      if cut < |lines| {
        SomeText(lines[cut..]);
      } else {
        NoBytes();
        assert lines[cut..] == [];
      }
    }
  }
}

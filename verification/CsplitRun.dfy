/** A whole run of csplit: `do_csplit`, `csplit` and the order of line numbers (csplit.rs, patterns.rs). */
module CsplitRun {
  import opened Bytes
  import opened CsplitSpec
  import opened CsplitInput
  import opened CsplitWriter

  /** The files after more pieces. */
  function FilesAfter(files: seq<bytes>, lines: seq<bytes>, pieces: seq<Piece>, elide: bool): seq<bytes>
    decreases |pieces|
  {
    if pieces == [] then files
    else
      var p := pieces[0];
      FilesAfter(AddPiece(files, TextAt(lines, p.lines), p.kept, elide), lines, pieces[1..], elide)
  }

  lemma {:induction false} FilesAfterAppend(files: seq<bytes>, lines: seq<bytes>, a: seq<Piece>, b: seq<Piece>,
                                            elide: bool)
    ensures FilesAfter(files, lines, a + b, elide) == FilesAfter(FilesAfter(files, lines, a, elide), lines, b, elide)
    decreases |a|
  {
    hide AddPiece, TextAt;
    if a == [] {
      assert a + b == b;
    } else {
      assert (a + b)[1..] == a[1..] + b;
      FilesAfterAppend(AddPiece(files, TextAt(lines, a[0].lines), a[0].kept, elide), lines, a[1..], b, elide);
    }
  }

  lemma FilesAfterOne(files: seq<bytes>, lines: seq<bytes>, done: seq<Piece>, p: Piece, elide: bool)
    ensures FilesAfter(files, lines, done + [p], elide)
            == AddPiece(FilesAfter(files, lines, done, elide), TextAt(lines, p.lines), p.kept, elide)
  {
    hide AddPiece, TextAt;
    FilesAfterAppend(files, lines, done, [p], elide);
    var before := FilesAfter(files, lines, done, elide);
    assert FilesAfter(before, lines, [p], elide) == AddPiece(before, TextAt(lines, p.lines), p.kept, elide);
  }

  lemma NoPieces(files: seq<bytes>, lines: seq<bytes>, elide: bool)
    ensures FilesAfter(files, lines, [], elide) == files
  {}

  lemma JoinTwice(a: seq<Piece>, b: seq<Piece>, x: bool, y: bool, run: Run)
    ensures Join(a, x, Join(b, y, run)) == Join(a + b, x && y, run)
  {
    assert a + (b + run.pieces) == a + b + run.pieces;
  }

  lemma JoinNothing(run: Run)
    ensures Join([], true, run) == run
  {
    assert [] + run.pieces == run.pieces;
  }

  lemma JoinEnds(done: seq<Piece>, smooth: bool, run: Run)
    ensures Join(done, smooth, run).end == run.end && Join(done, smooth, run).look == run.look
    ensures run.pieces == [] ==> Join(done, smooth, run).pieces == done
    ensures Join(done, smooth, run).pieces == done + run.pieces
  {}

  class ExecutePatternIter {
    const max: Option<nat>
    var cur: nat

    constructor (max: Option<nat>)
      ensures this.max == max && cur == 0
    {
      this.max := max;
      cur := 0;
    }

    method Next() returns (item: Option<(Option<nat>, nat)>)
      modifies this
      ensures if max == Some(old(cur)) then item == None && cur == old(cur)
              else item == Some((max, cur)) && cur == old(cur) + 1
    {
      match max
      case Some(m) =>
        if cur == m {
          return None;
        }
        cur := cur + 1;
        item := Some((max, cur));
      case None =>
        cur := cur + 1;
        item := Some((None, cur));
    }
  }

  function Left(max: Option<nat>, cur: nat): Option<nat> {
    match max case None => None case Some(m) => Some(if cur <= m then m - cur else 0)
  }

  /** The rounds of one line-number pattern. */
  method RunUpToLine(n: nat, ex: Execute, writer: SplitWriter, input: InputSplitter) returns (end: End)
    requires writer.Valid() && input.Valid() && n > 0
    modifies writer, input
    ensures writer.Valid() && input.Valid()
    ensures var run := LineRounds(input.lines, old(input.State()), n, n, Limit(ex), 1, writer.options.suppressMatched);
            && end == run.end && input.State() == run.look
            && writer.Splits()
               == FilesAfter(old(writer.Splits()), input.lines, run.pieces, writer.options.elideEmptyFiles)
  {
    hide SplitWriter.Holding, SplitWriter.Splits, SplitWriter.Valid, AddPiece, LineStep, FilesAfter, Proper, TextAt,
      InputSplitter.Valid, InputSplitter.State, LineRounds, Join;
    ghost var lines, files0 := input.lines, writer.Splits();
    ghost var suppress, elide, done := writer.options.suppressMatched, writer.options.elideEmptyFiles, [];
    ghost var whole := LineRounds(lines, input.State(), n, n, Limit(ex), 1, suppress);
    JoinNothing(whole);
    NoPieces(files0, lines, elide);
    var iter := new ExecutePatternIter(Limit(ex));
    var upTo := n;
    while true
      invariant writer.Valid() && input.Valid() && iter.max == Limit(ex) && upTo > 0
      invariant iter.max.Some? ==> iter.cur <= iter.max.value
      invariant whole == Join(done, true, LineRounds(lines, input.State(), n, upTo, Left(iter.max, iter.cur),
                                                     iter.cur + 1, suppress))
      invariant writer.Splits() == FilesAfter(files0, lines, done, elide)
      decreases if iter.max.Some? then iter.max.value - iter.cur else Max(0, |lines| + 1 - upTo)
    {
      var item := iter.Next();
      if item.None? {
        break;
      }
      var (_, ith) := item.value;
      ghost var l, before := input.State(), writer.Splits();
      writer.NewWriter();
      var ret := writer.DoToLine(upTo, input, before);
      ghost var s := LineStep(lines, l, upTo, suppress);
      ghost var p := Piece(s.out, s.dropped, true);
      FilesAfterOne(files0, lines, done, p, elide);
      LineRoundsUnfold(lines, l, n, upTo, Left(iter.max, ith - 1), ith, suppress);
      ghost var rest := LineRounds(lines, l, n, upTo, Left(iter.max, ith - 1), ith, suppress);
      JoinEnds(done, true, rest);
      if ret.Err? {
        return Failed(if ret.error.LineOutOfRange? && ith != 1 then LineOutOfRangeOnRepetition(ith - 1) else ret.error);
      }
      JoinTwice(done, [p], true, true,
                LineRounds(lines, s.next, n, upTo + n, Left(iter.max, ith), ith + 1, suppress));
      done := done + [p];
      upTo := upTo + n;
    }
    LineRoundsUnfold(lines, input.State(), n, upTo, Some(0), iter.cur + 1, suppress);
    JoinEnds(done, true, LineRounds(lines, input.State(), n, upTo, Some(0), iter.cur + 1, suppress));
    end := GoOn;
  }

  lemma LineRoundsUnfold(lines: seq<bytes>, l: Look, n: nat, upTo: nat, left: Option<nat>, ith: nat, suppress: bool)
    requires Proper(lines, l) && n > 0
    ensures var s := LineStep(lines, l, upTo, suppress);
            var p, run := Piece(s.out, s.dropped, true), LineRounds(lines, l, n, upTo, left, ith, suppress);
            if left == Some(0) then run == Run([], l, GoOn, true)
            else if s.outcome.Done? then
              var left' := if left.None? then None else Some(left.value - 1);
              && Proper(lines, s.next) && upTo <= |lines|
              && run == Join([p], true, LineRounds(lines, s.next, n, upTo + n, left', ith + 1, suppress))
            else
              var error := if ith == 1 then LineOutOfRange else LineOutOfRangeOnRepetition(ith - 1);
              s.outcome == Err(LineOutOfRange) && run == Run([p], s.next, Failed(error), true)
  {
    LineStepProper(lines, l, upTo, suppress);
    hide Reach, Ahead, PutBack, Stream, Proper;
  }

  lemma MatchRoundsUnfold(lines: seq<bytes>, l: Look, regex: Regex, offset: int, kept: bool, max: Option<nat>,
                          ith: nat, suppress: bool)
    requires Proper(lines, l) && ith > 0
    ensures var s := MatchStep(lines, l, regex, offset, suppress);
            var p, run := Piece(s.out, s.dropped, kept), MatchRounds(lines, l, regex, offset, kept, max, ith, suppress);
            var safe := Safe(lines, l, regex, offset, max);
            && Proper(lines, s.next)
            && (s.outcome.Done? ==>
                  l.pulled < s.next.pulled || (l.pulled == s.next.pulled && |s.next.held| < |l.held|) || s.next == l)
            && if max.Some? && ith > max.value then run == Run([], l, GoOn, true)
               else
                 match s.outcome
                 case Hangs => run == Run([p], s.next, Endless, safe)
                 case Err(error) =>
                   var e := RoundError(error, max, ith);
                   run == Run([p], s.next, if e.None? then Finished else Failed(e.value), safe)
                 case Done =>
                   if max.None? && s.next == l then run == Run([p], l, Endless, safe)
                   else
                     run == Join([p], safe, MatchRounds(lines, s.next, regex, offset, kept, max, ith + 1, suppress))
  {
    hide MatchStep, Proper, Safe;
    MatchStepProper(lines, l, regex, offset, suppress);
  }

  /** One round of a regex pattern: its piece goes to a new file, or nowhere when skipping. */
  method MatchRound(regex: Regex, offset: int, isSkip: bool, writer: SplitWriter, input: InputSplitter)
    returns (ret: Outcome)
    requires writer.Valid() && input.Valid()
    modifies writer, input
    ensures writer.Valid() && input.Valid()
    ensures var s := MatchStep(input.lines, old(input.State()), regex, offset, writer.options.suppressMatched);
            && ret == s.outcome && input.State() == s.next
            && (!ret.Hangs? ==>
                  writer.Splits() == AddPiece(old(writer.Splits()), TextAt(input.lines, s.out), !isSkip,
                                              writer.options.elideEmptyFiles))
  {
    hide SplitWriter.Holding, SplitWriter.Splits, SplitWriter.Valid, AddPiece, TextAt, MatchStep,
      InputSplitter.Valid, InputSplitter.State;
    ghost var before := writer.Splits();
    if isSkip {
      writer.AsDevNull();
    } else {
      writer.NewWriter();
    }
    ret := writer.DoToMatch(regex, offset, input, before);
  }

  /**
    The rounds of one regex pattern. A round that leaves everything as it found it is
    repeated without end when nothing limits the rounds.
  */
  method RunToMatch(regex: Regex, offset: int, ex: Execute, isSkip: bool, writer: SplitWriter, input: InputSplitter)
    returns (end: End)
    requires writer.Valid() && input.Valid()
    modifies writer, input
    ensures writer.Valid() && input.Valid()
    ensures var run := MatchRounds(input.lines, old(input.State()), regex, offset, !isSkip, Limit(ex), 1,
                                   writer.options.suppressMatched);
            && end == run.end && input.State() == run.look
            && (!end.Endless? ==>
                  writer.Splits()
                  == FilesAfter(old(writer.Splits()), input.lines, run.pieces, writer.options.elideEmptyFiles))
  {
    hide SplitWriter.Holding, SplitWriter.Splits, SplitWriter.Valid, AddPiece, MatchStep, FilesAfter, TextAt, Safe,
      InputSplitter.Valid, InputSplitter.State, MatchRounds, Join, Proper;
    ghost var lines, files0 := input.lines, writer.Splits();
    ghost var suppress, elide, done, smooth := writer.options.suppressMatched, writer.options.elideEmptyFiles, [], true;
    ghost var whole := MatchRounds(lines, input.State(), regex, offset, !isSkip, Limit(ex), 1, suppress);
    JoinNothing(whole);
    NoPieces(files0, lines, elide);
    ReaderIn(lines, input.State());
    var iter := new ExecutePatternIter(Limit(ex));
    while true
      invariant writer.Valid() && input.Valid() && iter.max == Limit(ex)
      invariant iter.max.Some? ==> iter.cur <= iter.max.value
      invariant whole == Join(done, smooth, MatchRounds(lines, input.State(), regex, offset, !isSkip, Limit(ex),
                                                        iter.cur + 1, suppress))
      invariant writer.Splits() == FilesAfter(files0, lines, done, elide)
      invariant input.State().pulled <= |lines|
      decreases if iter.max.Some? then iter.max.value - iter.cur else |lines| - input.State().pulled,
                |input.State().held|
    {
      var item := iter.Next();
      if item.None? {
        break;
      }
      var (max, ith) := item.value;
      ghost var l := input.State();
      ghost var s := MatchStep(lines, l, regex, offset, suppress);
      ghost var p, safe := Piece(s.out, s.dropped, !isSkip), Safe(lines, l, regex, offset, max);
      MatchRoundsUnfold(lines, l, regex, offset, !isSkip, max, ith, suppress);
      JoinEnds(done, smooth, MatchRounds(lines, l, regex, offset, !isSkip, max, ith, suppress));
      FilesAfterOne(files0, lines, done, p, elide);
      var before := input.Snapshot();
      var ret := MatchRound(regex, offset, isSkip, writer, input);
      ReaderIn(lines, input.State());
      match ret {
        case Hangs =>
          return Endless;
        case Err(e) =>
          if e.MatchNotFound? && max.None? {
            return Finished;
          } else if e.MatchNotFound? && max != Some(1) && ith != 1 {
            return Failed(MatchNotFoundOnRepetition(ith - 1));
          }
          return Failed(e);
        case Done =>
          var after := input.Snapshot();
          if max.None? && after == before {
            return Endless;
          }
          JoinTwice(done, [p], smooth, safe,
                    MatchRounds(lines, s.next, regex, offset, !isSkip, max, ith + 1, suppress));
          done, smooth := done + [p], smooth && safe;
      }
    }
    MatchRoundsUnfold(lines, input.State(), regex, offset, !isSkip, Limit(ex), iter.cur + 1, suppress);
    JoinEnds(done, smooth,
             MatchRounds(lines, input.State(), regex, offset, !isSkip, Limit(ex), iter.cur + 1, suppress));
    end := GoOn;
  }

  method DoCsplit(patterns: seq<Pattern>, writer: SplitWriter, input: InputSplitter) returns (end: End)
    requires writer.Valid() && input.Valid() && Validated(patterns)
    modifies writer, input
    ensures writer.Valid() && input.Valid()
    ensures var run := RunPatterns(input.lines, old(input.State()), patterns, writer.options.suppressMatched);
            && end == run.end && input.State() == run.look
            && (!end.Endless? ==>
                  writer.Splits()
                  == FilesAfter(old(writer.Splits()), input.lines, run.pieces, writer.options.elideEmptyFiles))
  {
    hide SplitWriter.Splits, SplitWriter.Valid, FilesAfter, InputSplitter.Valid, InputSplitter.State, LineRounds,
      MatchRounds, RunPatterns, Join, Proper;
    ghost var lines, files0 := input.lines, writer.Splits();
    ghost var suppress, elide, done, smooth := writer.options.suppressMatched, writer.options.elideEmptyFiles, [], true;
    ghost var whole := RunPatterns(lines, input.State(), patterns, suppress);
    JoinNothing(whole);
    NoPieces(files0, lines, elide);
    assert patterns[0..] == patterns;
    for i := 0 to |patterns|
      invariant writer.Valid() && input.Valid()
      invariant whole == Join(done, smooth, RunPatterns(lines, input.State(), patterns[i..], suppress))
      invariant writer.Splits() == FilesAfter(files0, lines, done, elide)
    {
      ghost var l := input.State();
      ghost var rounds := PatternRounds(lines, l, patterns[i], suppress);
      RunPatternsUnfold(lines, l, patterns[i..], suppress);
      JoinEnds(done, smooth, RunPatterns(lines, l, patterns[i..], suppress));
      assert patterns[i..][1..] == patterns[i + 1..];
      match patterns[i] {
        case UpToLine(n, ex) =>
          end := RunUpToLine(n, ex, writer, input);
        case UpToMatch(regex, offset, ex) =>
          end := RunToMatch(regex, offset, ex, false, writer, input);
        case SkipToMatch(regex, offset, ex) =>
          end := RunToMatch(regex, offset, ex, true, writer, input);
      }
      FilesAfterAppend(files0, lines, done, rounds.pieces, elide);
      if !end.GoOn? {
        return;
      }
      JoinTwice(done, rounds.pieces, smooth, rounds.smooth,
                RunPatterns(lines, rounds.look, patterns[i + 1..], suppress));
      done, smooth := done + rounds.pieces, smooth && rounds.smooth;
    }
    RunPatternsUnfold(lines, input.State(), patterns[|patterns|..], suppress);
    JoinEnds(done, smooth, RunPatterns(lines, input.State(), patterns[|patterns|..], suppress));
    end := GoOn;
  }

  lemma RunPatternsUnfold(lines: seq<bytes>, l: Look, patterns: seq<Pattern>, suppress: bool)
    requires Proper(lines, l) && Validated(patterns)
    ensures patterns == [] ==> RunPatterns(lines, l, patterns, suppress) == Run([], l, GoOn, true)
    ensures patterns != [] ==>
              var rounds := PatternRounds(lines, l, patterns[0], suppress);
              && Proper(lines, rounds.look)
              && RunPatterns(lines, l, patterns, suppress)
                 == if !rounds.end.GoOn? then rounds
                    else Join(rounds.pieces, rounds.smooth, RunPatterns(lines, rounds.look, patterns[1..], suppress))
  {
    hide PatternRounds, Proper;
    if patterns != [] {
      PatternRoundsProper(lines, l, patterns[0], suppress);
    }
  }

  // ----- the order of line numbers -----

  function ValidateLineNumbers(previous: nat, patterns: seq<Pattern>): Option<Error>
    decreases |patterns|
  {
    if patterns == [] then None
    else if !patterns[0].UpToLine? then ValidateLineNumbers(previous, patterns[1..])
    else
      var n := patterns[0].n;
      if n == 0 then Some(LineNumberIsZero)
      else if previous > n then Some(LineNumberSmallerThanPrevious(n, previous))
      else ValidateLineNumbers(n, patterns[1..])
  }

  ghost predicate Ascending(previous: nat, patterns: seq<Pattern>) {
    && (forall i :: 0 <= i < |patterns| && patterns[i].UpToLine? ==> patterns[i].n > 0 && patterns[i].n >= previous)
    && (forall i, j :: 0 <= i < j < |patterns| && patterns[i].UpToLine? && patterns[j].UpToLine? ==>
          patterns[i].n <= patterns[j].n)
  }

  /** Line numbers are accepted iff they are positive and never decrease. */
  lemma {:induction false} AcceptedIffAscending(previous: nat, patterns: seq<Pattern>)
    ensures ValidateLineNumbers(previous, patterns) == None <==> Ascending(previous, patterns)
    decreases |patterns|
  {
    if patterns != [] {
      var p, rest := patterns[0], patterns[1..];
      assert forall i :: 0 < i < |patterns| ==> patterns[i] == rest[i - 1];
      if !p.UpToLine? {
        AcceptedIffAscending(previous, rest);
        assert forall i :: 0 <= i < |rest| ==> rest[i] == patterns[i + 1];
      } else if p.n > 0 && previous <= p.n {
        AcceptedIffAscending(p.n, rest);
        assert forall i :: 0 <= i < |rest| ==> rest[i] == patterns[i + 1];
      }
    }
  }

  /** The last line number of some patterns, or `previous` without one. */
  function LastNumber(previous: nat, patterns: seq<Pattern>): nat
    decreases |patterns|
  {
    if patterns == [] then previous
    else LastNumber(if patterns[0].UpToLine? then patterns[0].n else previous, patterns[1..])
  }

  /** The first line number that is zero or below the one before it is refused, and named with that one. */
  ghost predicate RefusedAt(previous: nat, patterns: seq<Pattern>, i: nat, error: Error)
    requires i < |patterns|
  {
    && patterns[i].UpToLine? && Ascending(previous, patterns[..i])
    && (patterns[i].n == 0 || patterns[i].n < LastNumber(previous, patterns[..i]))
    && error == if patterns[i].n == 0 then LineNumberIsZero
                else LineNumberSmallerThanPrevious(patterns[i].n, LastNumber(previous, patterns[..i]))
  }

  lemma {:induction false} RefusalNamesTheFirst(previous: nat, patterns: seq<Pattern>)
    requires ValidateLineNumbers(previous, patterns).Some?
    ensures exists i :: 0 <= i < |patterns| && RefusedAt(previous, patterns, i,
                                                         ValidateLineNumbers(previous, patterns).value)
    decreases |patterns|
  {
    hide Ascending;
    var p, rest := patterns[0], patterns[1..];
    AcceptedIffAscending(previous, []);
    if p.UpToLine? && (p.n == 0 || previous > p.n) {
      assert patterns[..0] == [];
      assert RefusedAt(previous, patterns, 0, ValidateLineNumbers(previous, patterns).value);
    } else {
      var next := if p.UpToLine? then p.n else previous;
      RefusalNamesTheFirst(next, rest);
      var i :| 0 <= i < |rest| && RefusedAt(next, rest, i, ValidateLineNumbers(next, rest).value);
      assert patterns[..i + 1][0] == p && patterns[..i + 1][1..] == rest[..i];
      AcceptedIffAscending(next, rest[..i]);
      AcceptedIffAscending(previous, patterns[..i + 1]);
      assert RefusedAt(previous, patterns, i + 1, ValidateLineNumbers(previous, patterns).value);
    }
  }

  // ----- csplit -----

  /** What a run leaves: its files and its error, unless it never ends. */
  datatype Ending = Success(files: seq<bytes>) | Fault(files: seq<bytes>, error: Error) | Unending

  predicate AllUpToLine(patterns: seq<Pattern>) {
    forall i :: 0 <= i < |patterns| ==> patterns[i].UpToLine?
  }

  /** What is left after the last pattern: the remaining lines, or an empty file. */
  function LastPieces(lines: seq<bytes>, l: Look, patterns: seq<Pattern>, suppress: bool): seq<Piece> {
    var rest := Stream(lines, l);
    if rest != [] || (AllUpToLine(patterns) && suppress) then [Piece(rest, [], true)] else []
  }

  /** The run of accepted patterns over an input. */
  function RunOf(options: Options, patterns: seq<Pattern>, input: bytes): (run: Run)
    requires ValidateLineNumbers(0, patterns) == None
    ensures Validated(patterns) && Proper(Lines(input), run.look)
  {
    AcceptedIffAscending(0, patterns);
    RunPatternsProper(Lines(input), START, patterns, options.suppressMatched);
    RunPatterns(Lines(input), START, patterns, options.suppressMatched)
  }

  /** All its pieces, with the last one when it reaches the end of the input. */
  function PiecesOf(options: Options, patterns: seq<Pattern>, input: bytes): seq<Piece>
    requires ValidateLineNumbers(0, patterns) == None
  {
    var run := RunOf(options, patterns, input);
    if run.end.GoOn? || run.end.Finished?
    then run.pieces + LastPieces(Lines(input), run.look, patterns, options.suppressMatched)
    else run.pieces
  }

  function Expected(options: Options, patterns: seq<Pattern>, input: bytes): Ending {
    var refused := ValidateLineNumbers(0, patterns);
    if refused.Some? then Fault([], refused.value)
    else
      var run := RunOf(options, patterns, input);
      var files := FilesAfter([], Lines(input), PiecesOf(options, patterns, input), options.elideEmptyFiles);
      match run.end
      case Failed(e) => Fault(if options.keepFiles then files else [], e)
      case Endless => Unending
      case _ => Success(files)
  }

  lemma {:induction false} RunPatternsProper(lines: seq<bytes>, l: Look, patterns: seq<Pattern>, suppress: bool)
    requires Proper(lines, l) && Validated(patterns)
    ensures Proper(lines, RunPatterns(lines, l, patterns, suppress).look)
    decreases |patterns|
  {
    hide RunPatterns, PatternRounds, Proper;
    RunPatternsUnfold(lines, l, patterns, suppress);
    if patterns != [] {
      var rounds := PatternRounds(lines, l, patterns[0], suppress);
      if rounds.end.GoOn? {
        RunPatternsProper(lines, rounds.look, patterns[1..], suppress);
      }
    }
  }

  ghost predicate Holds(directory: map<nat, bytes>, files: seq<bytes>) {
    && (forall i: nat :: i in directory <==> i < |files|)
    && (forall i: nat :: i < |files| && i in directory ==> directory[i] == files[i])
  }

  /** Copies what is left into the current file. */
  method CopyRest(writer: SplitWriter, input: InputSplitter, first: bytes, ghost finished: seq<bytes>, ghost l: Look)
    requires writer.Holding(finished, []) && input.Valid() && Proper(input.lines, l)
    requires var s := Stream(input.lines, l); s != [] && s[0] < |input.lines| && first == input.lines[s[0]]
    requires input.State() == Ahead(l, 1)
    modifies writer`files, writer`size, input
    ensures writer.devNull == old(writer.devNull)
    ensures writer.Holding(finished, TextAt(input.lines, Stream(input.lines, l)))
  {
    hide SplitWriter.Holding, TextAt, InputSplitter.State, InputSplitter.Valid, Proper, Stream, Ahead;
    ghost var lines, s, at := input.lines, Stream(input.lines, l), 1;
    writer.WriteLine(first, finished, []);
    NoText(lines, s);
    TextSnoc(lines, s[..0], s[0]);
    assert s[..1] == s[..0] + [s[0]];
    assert [] + first == first;
    var item := input.NextOf(l, 1);
    while item.Some?
      invariant 0 < at <= |s| && input.Valid()
      invariant if at < |s| then
                  s[at] < |lines| && item == Some((s[at], lines[s[at]])) && input.State() == Ahead(l, at + 1)
                else item == None
      invariant writer.Holding(finished, TextAt(lines, s[..at])) && writer.devNull == old(writer.devNull)
      decreases |s| - at
    {
      writer.WriteLine(item.value.1, finished, TextAt(lines, s[..at]));
      TextSnoc(lines, s[..at], s[at]);
      assert s[..at + 1] == s[..at] + [s[at]];
      at := at + 1;
      item := input.NextOf(l, at);
    }
    assert s[..at] == s;
  }

  /** Consumes the rest of the input after the last pattern. */
  method WriteLast(patterns: seq<Pattern>, writer: SplitWriter, input: InputSplitter)
    requires writer.Valid() && input.Valid()
    modifies writer, input
    ensures writer.Valid()
    ensures writer.Splits()
            == FilesAfter(old(writer.Splits()), input.lines,
                          LastPieces(input.lines, old(input.State()), patterns, writer.options.suppressMatched),
                          writer.options.elideEmptyFiles)
  {
    hide SplitWriter.Holding, SplitWriter.Splits, SplitWriter.Valid, AddPiece, TextAt, InputSplitter.Valid,
      InputSplitter.State, FilesAfter, Proper, Stream;
    ghost var lines, l, files0, elide := input.lines, input.State(), writer.Splits(), writer.options.elideEmptyFiles;
    ghost var s := Stream(lines, l);
    NoPieces(files0, lines, elide);
    AheadOfNothing(l);
    FilesAfterOne(files0, lines, [], Piece(s, [], true), elide);
    assert [] + [Piece(s, [], true)] == [Piece(s, [], true)];
    input.RewindBuffer();
    var item := input.NextOf(l, 0);
    if item.Some? {
      writer.NewWriter();
      CopyRest(writer, input, item.value.1, files0, l);
      writer.FinishSplit(files0, TextAt(lines, s));
    } else if AllUpToLine(patterns) && writer.options.suppressMatched {
      NoText(lines, s);
      assert s == s[..0];
      writer.NewWriter();
      writer.FinishSplit(files0, []);
    }
  }

  /** The directory a run leaves, and how it ends. */
  method Csplit(options: Options, patterns: seq<Pattern>, text: bytes)
    returns (end: End, directory: map<nat, bytes>)
    ensures match Expected(options, patterns, text)
            case Success(files) => (end.GoOn? || end.Finished?) && Holds(directory, files)
            case Fault(files, e) => end == Failed(e) && Holds(directory, files)
            case Unending => end == Endless
  {
    hide SplitWriter.Splits, SplitWriter.Valid, FilesAfter, InputSplitter.Valid, RunPatterns, LastPieces,
      ValidateLineNumbers, Lines, Ascending;
    var input := new InputSplitter(Lines(text));
    var writer := new SplitWriter(options);
    var refused := ValidateLineNumbers(0, patterns);
    if refused.Some? {
      writer.Drop();
      return Failed(refused.value), writer.files;
    }
    ghost var run := RunOf(options, patterns, text);
    end := DoCsplit(patterns, writer, input);
    if end.Endless? {
      return end, writer.files;
    } else if !end.Failed? {
      FilesAfterAppend([], input.lines, run.pieces,
                       LastPieces(input.lines, run.look, patterns, options.suppressMatched), options.elideEmptyFiles);
      WriteLast(patterns, writer, input);
    } else if !options.keepFiles {
      var _ := writer.DeleteAllSplits();
    }
    writer.Drop();
    directory := writer.files;
  }
}

/** The split files and the two ways to fill one (`SplitWriter` in csplit.rs). */
module CsplitWriter {
  import opened Bytes
  import opened CsplitSpec
  import opened CsplitInput

  /** The files after one more piece: discarded when skipping, dropped when elided. */
  function AddPiece(files: seq<bytes>, text: bytes, kept: bool, elide: bool): seq<bytes> {
    if kept && !(elide && text == []) then files + [text] else files
  }

  lemma {:induction false} FirstMatchIs(lines: seq<bytes>, regex: Regex, from: nat, m: nat)
    requires from <= m < |lines| && IsMatch(regex, lines[m])
    requires forall i :: from <= i < m ==> !IsMatch(regex, lines[i])
    ensures FirstMatch(lines, regex, from) == Some(m)
    decreases m - from
  {
    if from < m {
      FirstMatchIs(lines, regex, from + 1, m);
    }
  }

  lemma StepIfNoneMatches(lines: seq<bytes>, l: Look, regex: Regex, offset: int, suppress: bool)
    requires Proper(lines, l) && !Stuck(l, offset)
    requires forall i :: l.pulled <= i < |lines| ==> !IsMatch(regex, lines[i])
    ensures MatchStep(lines, l, regex, offset, suppress)
            == Step(Stream(lines, l), [], AllRead(lines), Err(MatchNotFound))
  {
    var m := FirstMatch(lines, regex, l.pulled);
    hide FirstMatch, IsMatch;
  }

  /** The first match not pulled before decides the round. */
  lemma StepIfMatches(lines: seq<bytes>, l: Look, regex: Regex, offset: int, suppress: bool, m: nat)
    requires Proper(lines, l) && !Stuck(l, offset) && l.pulled <= m < |lines| && IsMatch(regex, lines[m])
    requires forall i :: l.pulled <= i < m ==> !IsMatch(regex, lines[i])
    ensures MatchStep(lines, l, regex, offset, suppress)
            == if offset < 0 then WindowStep(l, m, -offset, suppress) else OffsetStep(lines, l, m, offset, suppress)
  {
    FirstMatchIs(lines, regex, l.pulled, m);
    hide FirstMatch, IsMatch, WindowStep, OffsetStep;
  }

  /** What one round takes from the window, and the look-ahead it leaves. */
  datatype Taken = Taken(round: Round, out: seq<nat>, next: Look)

  function RoundStep(lines: seq<bytes>, l: Look, regex: Regex, keep: nat, suppress: bool): Taken
    requires Proper(lines, l)
  {
    if l.rewound && l.held != [] then
      var s := StuckStep(lines, l, regex, keep);
      Taken(Ended(s.outcome), s.out, s.next)
    else if l.pulled == |lines| then Taken(OutOfInput, [], Look(l.held, l.pulled, false))
    else if IsMatch(regex, lines[l.pulled]) then
      var s := WindowStep(l, l.pulled, keep, suppress);
      Taken(Ended(s.outcome), s.out, s.next)
    else if |l.held| >= keep > 0 then
      Taken(More, l.held[..1], Look(l.held[1..] + [l.pulled], l.pulled + 1, false))
    else Taken(More, [], Look(l.held + [l.pulled], l.pulled + 1, false))
  }

  lemma TextOfOne(lines: seq<bytes>, numbers: seq<nat>, text: bytes)
    ensures text + TextAt(lines, []) == text
    ensures numbers != [] && numbers[0] < |lines| ==> TextAt(lines, numbers[..1]) == lines[numbers[0]]
  {
    NoText(lines, []);
    var e: seq<nat> := [];
    assert e[..0] == e && text + [] == text;
    if numbers != [] && numbers[0] < |lines| {
      TextSnoc(lines, e, numbers[0]);
      assert e + [numbers[0]] == numbers[..1] && TextAt(lines, e) + lines[numbers[0]] == lines[numbers[0]];
    }
  }

  /** The matched line in hand goes behind the last `keep` held lines, or in front of them while rewinding. */
  function Close(l: Look, ln: nat, keep: nat, suppress: bool): (s: Step)
    ensures !s.outcome.Hangs?
  {
    var over := Max(0, |l.held| - keep);
    var dropped := if suppress && !l.rewound && |l.held| >= keep > 0 then 1 else 0;
    var held := if l.rewound then [ln] + l.held[over..] else l.held[over + dropped..] + [ln];
    Step(l.held[..over], l.held[over..over + dropped], l.(held := held),
         if |held| < keep then Err(LineOutOfRange) else Done)
  }

  lemma CloseStuck(lines: seq<bytes>, l: Look, regex: Regex, keep: nat, suppress: bool)
    requires Proper(lines, l) && l.rewound && l.held != [] && keep > 0
    ensures StuckStep(lines, l, regex, keep)
            == if IsMatch(regex, lines[l.held[0]]) then Close(l.(held := l.held[1..]), l.held[0], keep, suppress)
               else Step([], [], l, Hangs)
    ensures PutBack(l.(held := l.held[1..]), l.held[0]) == l
  {
    hide IsMatch;
    var rest := l.held[1..];
    var over := Max(0, |rest| - keep);
    assert rest[over..over] == [] && [l.held[0]] + rest == l.held;
  }

  lemma CloseWindowHere(l: Look, keep: nat, suppress: bool)
    requires keep > 0
    ensures WindowStep(l, l.pulled, keep, suppress)
            == Close(Look(l.held, l.pulled + 1, false), l.pulled, keep, suppress)
  {
    assert l.held + Range(l.pulled, l.pulled) == l.held;
  }

  /** One round of a search: on, out of lines, or over. */
  datatype Round = More | OutOfInput | Ended(outcome: Outcome)

  class SplitWriter {
    const options: Options
    var counter: nat
    var current: Option<nat>
    var size: nat
    var devNull: bool
    /** The directory: the text of each split file, by its number. */
    var files: map<nat, bytes>

    constructor (options: Options)
      ensures this.options == options && counter == 0 && size == 0 && files == map[] && !devNull
      ensures Valid() && Splits() == []
    {
      this.options := options;
      counter, current, size, devNull, files := 0, None, 0, false, map[];
    }

    /** Files 0 to `counter - 1` exist; an elided one may still lie at `counter`. */
    ghost predicate Valid()
      reads this
    {
      && (forall i: nat :: i < counter ==> i in files)
      && (forall i: nat :: i in files ==> i <= counter)
      && (counter in files ==> options.elideEmptyFiles && size == 0)
    }

    ghost function Splits(): (s: seq<bytes>)
      requires Valid()
      reads this
      ensures |s| == counter && forall i: nat :: i < counter ==> s[i] == files[i]
    {
      seq(counter, i requires 0 <= i < counter && i in files reads this => files[i])
    }

    /** A piece is being written: `text` of it so far, after the finished files. */
    ghost predicate Holding(finished: seq<bytes>, text: bytes)
      reads this
      ensures Holding(finished, text) ==> Valid()
    {
      && Valid()
      && (if devNull then Splits() == finished
          else
            && Splits() == finished + [text]
            && current == Some(|finished|) && size == |text| && counter !in files)
    }

    method NewWriter()
      requires Valid()
      modifies this
      ensures !devNull && Holding(old(Splits()), [])
    {
      files := files[counter := []];
      current := Some(counter);
      counter := counter + 1;
      size := 0;
      devNull := false;
      assert Splits() == old(Splits()) + [[]];
    }

    method AsDevNull()
      requires Valid()
      modifies this`devNull
      ensures devNull && Holding(old(Splits()), [])
    {
      devNull := true;
      assert Splits() == old(Splits());
    }

    method WriteLine(line: bytes, ghost finished: seq<bytes>, ghost text: bytes)
      requires Holding(finished, text)
      modifies this`files, this`size
      ensures Holding(finished, text + line)
    {
      if !devNull {
        match current
        case Some(n) =>
          files := files[n := files[n] + line];
          size := size + |line|;
          assert Splits() == finished + [text + line];
      } else {
        assert Splits() == finished;
      }
    }

    method FinishSplit(ghost finished: seq<bytes>, ghost text: bytes)
      requires Holding(finished, text)
      modifies this`counter
      ensures Valid() && Splits() == AddPiece(finished, text, !devNull, options.elideEmptyFiles)
    {
      if !devNull {
        if options.elideEmptyFiles && size == 0 {
          counter := counter - 1;
          assert Splits() == finished;
        }
      }
    }

    /** Every file of the run is removed; none is missing. */
    method DeleteAllSplits() returns (ok: bool)
      requires Valid()
      modifies this`files
      ensures ok
      ensures forall i: nat :: i in files <==> i == counter && i in old(files)
      ensures forall i: nat :: i in files ==> options.elideEmptyFiles && size == 0
    {
      ok := true;
      for ith := 0 to counter
        invariant ok
        invariant forall i: nat :: i in files <==> ith <= i && i in old(files)
      {
        if ith in files {
          files := files - {ith};
        } else {
          ok := false;
        }
      }
    }

    /** The last file is removed when it is an elided one. */
    method Drop()
      modifies this`files
      ensures old(Valid()) ==> forall i: nat :: i in files <==> i < counter
      ensures old(Valid()) ==> forall i: nat :: i in files ==> files[i] == old(Splits())[i]
      ensures files == if options.elideEmptyFiles && size == 0 then old(files) - {counter} else old(files)
    {
      if options.elideEmptyFiles && size == 0 {
        files := files - {counter};
      }
    }

    /** Writes up to line number `n`. */
    method DoToLine(n: nat, input: InputSplitter, ghost finished: seq<bytes>) returns (ret: Outcome)
      requires input.Valid() && Holding(finished, [])
      modifies this`files, this`size, this`counter, input
      ensures input.Valid() && Valid()
      ensures var s := LineStep(input.lines, old(input.State()), n, options.suppressMatched);
              && Splits() == AddPiece(finished, TextAt(input.lines, s.out), !devNull, options.elideEmptyFiles)
              && ret == s.outcome && input.State() == s.next
    {
      hide TextAt, Reach, SplitWriter.Holding, SplitWriter.Splits, SplitWriter.Valid, AddPiece, Range, Stream, Ahead,
        InputSplitter.Valid, InputSplitter.State, Proper;
      ghost var lines, l := input.lines, input.State();
      ghost var s := Stream(lines, l);
      ghost var k := Reach(s, n);
      AheadOfNothing(l);
      input.RewindBuffer();
      input.SetSizeOfBuffer(1);
      ret := Err(LineOutOfRange);
      var item := input.NextOf(l, 0);
      ghost var at := 0;
      NoText(lines, s);
      while item.Some?
        invariant 0 <= at <= k && input.Valid() && input.size == 1
        invariant if at < |s| then
                    && s[at] < |lines| && item == Some((s[at], lines[s[at]])) && input.State() == Ahead(l, at + 1)
                    && s[at] < input.pulled
                  else item == None && input.State() == AllRead(lines)
        invariant Holding(finished, TextAt(lines, s[..at])) && devNull == old(devNull)
        invariant ret == Err(LineOutOfRange)
        decreases |s| - at
      {
        var (ln, line) := item.value;
        if n < ln + 1 {
          AheadHolds(l, at + 1);
          var head := input.AddLineToBuffer(ln, line);
          assert head.None?;
          ret := Done;
          break;
        } else if n == ln + 1 {
          if !options.suppressMatched {
            AheadHolds(l, at + 1);
            var head := input.AddLineToBuffer(ln, line);
            assert head.None?;
          }
          ret := Done;
          break;
        }
        WriteLine(line, finished, TextAt(lines, s[..at]));
        TextSnoc(lines, s[..at], s[at]);
        assert s[..at + 1] == s[..at] + [s[at]];
        at := at + 1;
        item := input.NextOf(l, at);
      }
      assert at == |s| ==> s[..at] == s;
      FinishSplit(finished, TextAt(lines, s[..at]));
    }

    /** Writes what is held, then up to the matching line, or past it by the offset; nothing is searched twice. */
    method DoToMatchForward(regex: Regex, offset: int, input: InputSplitter, ghost finished: seq<bytes>)
      returns (ret: Outcome)
      requires input.Valid() && Holding(finished, []) && offset >= 0
      modifies this`files, this`size, this`counter, input
      ensures input.Valid() && Valid()
      ensures var s := MatchStep(input.lines, old(input.State()), regex, offset, options.suppressMatched);
              && Splits() == AddPiece(finished, TextAt(input.lines, s.out), !devNull, options.elideEmptyFiles)
              && ret == s.outcome && input.State() == s.next
    {
      hide TextAt, SplitWriter.Holding, SplitWriter.Splits, SplitWriter.Valid, AddPiece, Range, InputSplitter.Valid,
        InputSplitter.State, Proper, MatchStep, IsMatch;
      ghost var lines, l := input.lines, input.State();
      var held := input.DrainBuffer();
      WriteLine(held, finished, []);
      assert [] + held == held;
      input.SetSizeOfBuffer(1);

      ghost var at := l.pulled;
      assert l.held + Range(at, at) == l.held by { NoRange(at); }
      ReaderIn(lines, l);
      var item := input.Next();
      while item.Some?
        invariant l.pulled <= at <= |lines| && input.Valid() && input.size == 1
        invariant if at < |lines| then
                    item == Some((at, lines[at])) && at < input.pulled && input.State() == Look([], at + 1, false)
                  else item == None && input.State() == Look([], at, false)
        invariant forall i :: l.pulled <= i < at ==> !IsMatch(regex, lines[i])
        invariant Holding(finished, TextAt(lines, l.held + Range(l.pulled, at))) && devNull == old(devNull)
        decreases |lines| - at
      {
        var (ln, line) := item.value;
        if IsMatch(regex, line) {
          StepIfMatches(lines, l, regex, offset, options.suppressMatched, at);
          if offset == 0 {
            if !options.suppressMatched {
              var head := input.AddLineToBuffer(ln, line);
              assert head.None?;
            }
            FinishSplit(finished, TextAt(lines, l.held + Range(l.pulled, at)));
            return Done;
          }
          ret := WriteOffset(line, offset, input, finished, l, at);
          return;
        }
        WriteLine(line, finished, TextAt(lines, l.held + Range(l.pulled, at)));
        OneLineMore(lines, l.held, l.pulled, at);
        at := at + 1;
        item := input.Next();
      }
      StepIfNoneMatches(lines, l, regex, offset, options.suppressMatched);
      FinishSplit(finished, TextAt(lines, l.held + Range(l.pulled, at)));
      ret := Err(MatchNotFound);
    }

    /** The matched line `m` and the rest of a positive offset. */
    method WriteOffset(line: bytes, offset: int, input: InputSplitter, ghost finished: seq<bytes>,
                       ghost l: Look, ghost m: nat)
      returns (ret: Outcome)
      requires input.Valid() && offset > 0 && l.pulled <= m < |input.lines| && line == input.lines[m]
      requires input.State() == Look([], m + 1, false)
      requires Holding(finished, TextAt(input.lines, l.held + Range(l.pulled, m)))
      modifies this`files, this`size, this`counter, input
      ensures input.Valid() && Valid()
      ensures var s := OffsetStep(input.lines, l, m, offset, options.suppressMatched);
              && Splits() == AddPiece(finished, TextAt(input.lines, s.out), !devNull, options.elideEmptyFiles)
              && ret == s.outcome && input.State() == s.next
    {
      hide TextAt, SplitWriter.Holding, SplitWriter.Splits, SplitWriter.Valid, AddPiece, Range, InputSplitter.Valid,
        InputSplitter.State, Proper;
      ghost var lines, at := input.lines, m + 1;
      WriteLine(line, finished, TextAt(lines, l.held + Range(l.pulled, m)));
      OneLineMore(lines, l.held, l.pulled, m);
      var more := offset - 1;
      while more > 0
        invariant m < at <= |lines| && more >= 0 && at + more == m + offset
        invariant input.Valid() && input.State() == Look([], at, false)
        invariant Holding(finished, TextAt(lines, l.held + Range(l.pulled, at))) && devNull == old(devNull)
      {
        var extra := input.Next();
        if extra.None? {
          FinishSplit(finished, TextAt(lines, l.held + Range(l.pulled, at)));
          return Err(LineOutOfRange);
        }
        WriteLine(extra.value.1, finished, TextAt(lines, l.held + Range(l.pulled, at)));
        OneLineMore(lines, l.held, l.pulled, at);
        at := at + 1;
        more := more - 1;
      }
      FinishSplit(finished, TextAt(lines, l.held + Range(l.pulled, at)));
      if options.suppressMatched {
        var _ := input.Next();
      }
      ret := Done;
    }

    /** The matched line goes behind the lines kept for the offset, or in front of them; the others are written. */
    method CloseAtMatch(ln: nat, line: bytes, keep: nat, input: InputSplitter, ghost finished: seq<bytes>,
                        ghost text: bytes)
      returns (ret: Outcome)
      requires input.Valid() && ln < input.pulled && line == input.lines[ln] && input.size == keep > 0
      requires Holding(finished, text)
      modifies this`files, this`size, this`counter, input`buffer, input`size
      ensures input.Valid() && Valid()
      ensures var s := Close(old(input.State()), ln, keep, options.suppressMatched);
              && Splits() == AddPiece(finished, text + TextAt(input.lines, s.out), !devNull, options.elideEmptyFiles)
              && input.State() == s.next && ret == s.outcome
    {
      hide TextAt, SplitWriter.Holding, SplitWriter.Splits, SplitWriter.Valid, AddPiece, InputSplitter.Valid,
        InputSplitter.State, Proper;
      var excess := input.ShrinkBufferToSize();
      WriteLine(excess, finished, text);
      if options.suppressMatched {
        var _ := input.AddLineToBuffer(ln, line);
      } else {
        input.SetSizeOfBuffer(keep + 1);
        var head := input.AddLineToBuffer(ln, line);
        assert head.None?;
      }
      FinishSplit(finished, text + excess);
      var n := input.BufferLen();
      ret := if n < keep then Err(LineOutOfRange) else Done;
    }

    /**
      One round of the search behind a window of `keep` lines: a match ends it, any other
      line joins the window, whose head is written when it is full.
    */
    method SearchRound(regex: Regex, keep: nat, input: InputSplitter, ghost finished: seq<bytes>, ghost text: bytes)
      returns (round: Round)
      requires input.Valid() && Holding(finished, text) && input.size == keep > 0
      modifies this`files, this`size, this`counter, input
      ensures input.Valid() && Valid() && (round.More? ==> input.size == keep)
      ensures var t := RoundStep(input.lines, old(input.State()), regex, keep, options.suppressMatched);
              && round == t.round && input.State() == t.next
              && (if round.Ended? && !round.outcome.Hangs? then
                    Splits() == AddPiece(finished, text + TextAt(input.lines, t.out), !devNull, options.elideEmptyFiles)
                  else Holding(finished, text + TextAt(input.lines, t.out)))
    {
      hide TextAt, SplitWriter.Holding, SplitWriter.Splits, SplitWriter.Valid, AddPiece, InputSplitter.Valid,
        InputSplitter.State, IsMatch, WindowStep, StuckStep, Close;
      ghost var l := input.State();
      CloseWindowHere(l, keep, options.suppressMatched);
      if l.rewound && l.held != [] {
        CloseStuck(input.lines, l, regex, keep, options.suppressMatched);
      }
      TextOfOne(input.lines, l.held, text);
      var item := input.Next();
      if item.None? {
        return OutOfInput;
      }
      var (ln, line) := item.value;
      if IsMatch(regex, line) {
        var ret := CloseAtMatch(ln, line, keep, input, finished, text);
        return Ended(ret);
      }
      var rewinding := input.rewind;
      var head := input.AddLineToBuffer(ln, line);
      if rewinding {
        // Nothing has changed, nor will it in the rounds to come.
        return Ended(Hangs);
      }
      if head.Some? {
        WriteLine(head.value, finished, text);
      }
      round := More;
    }

    /** Rounds until a match or the end of the input, with nothing held to be read again. */
    method SearchOn(regex: Regex, keep: int, input: InputSplitter, ghost finished: seq<bytes>) returns (ret: Outcome)
      requires input.Valid() && Holding(finished, []) && input.size == keep > 0
      requires !Stuck(input.State(), -keep)
      modifies this`files, this`size, this`counter, input
      ensures input.Valid() && Valid()
      ensures var s := MatchStep(input.lines, old(input.State()), regex, -keep, options.suppressMatched);
              && Splits() == AddPiece(finished, TextAt(input.lines, s.out), !devNull, options.elideEmptyFiles)
              && ret == s.outcome && input.State() == s.next
    {
      hide TextAt, SplitWriter.Holding, SplitWriter.Splits, SplitWriter.Valid, AddPiece, InputSplitter.Valid,
        InputSplitter.State, IsMatch, MatchStep, Proper, Lags, RoundStep, Stream;
      ghost var lines, l, suppress := input.lines, input.State(), options.suppressMatched;
      ghost var out: seq<nat> := [];
      WindowStarts(lines, l, regex, keep);
      while true
        invariant input.Valid() && input.size == keep && devNull == old(devNull)
        invariant Lags(lines, l, input.State(), out, regex, keep)
        invariant Holding(finished, TextAt(lines, out))
        decreases |lines| - input.pulled
      {
        ghost var c := input.State();
        ghost var t := RoundStep(lines, c, regex, keep, suppress);
        RoundLags(lines, l, c, out, regex, keep, suppress);
        TextAppend(lines, out, t.out);
        var round := SearchRound(regex, keep, input, finished, TextAt(lines, out));
        out := out + t.out;
        match round {
          case Ended(r) => return r;
          case OutOfInput => break;
          case More =>
        }
      }
      ghost var held := input.State().held;
      TextAppend(lines, out, held);
      var rest := input.DrainBuffer();
      WriteLine(rest, finished, TextAt(lines, out));
      FinishSplit(finished, TextAt(lines, out + held));
      ret := Err(MatchNotFound);
    }

    /**
      Searches while a window of `-offset` lines lags behind. Entered with lines to
      rewind, it looks at the first of them only, and one round is all there is.
    */
    method DoToMatchBackward(regex: Regex, offset: int, input: InputSplitter, ghost finished: seq<bytes>)
      returns (ret: Outcome)
      requires input.Valid() && Holding(finished, []) && offset < 0
      modifies this`files, this`size, this`counter, input
      ensures input.Valid() && Valid()
      ensures var s := MatchStep(input.lines, old(input.State()), regex, offset, options.suppressMatched);
              && ret == s.outcome && input.State() == s.next
              && (!ret.Hangs? ==>
                    Splits() == AddPiece(finished, TextAt(input.lines, s.out), !devNull, options.elideEmptyFiles))
    {
      hide TextAt, SplitWriter.Holding, SplitWriter.Splits, SplitWriter.Valid, AddPiece, InputSplitter.Valid,
        InputSplitter.State, IsMatch, Proper;
      var keep := -offset;
      input.SetSizeOfBuffer(keep);
      if input.rewind {
        var n := input.BufferLen();
        if n != 0 {
          ghost var l := input.State();
          var round := SearchRound(regex, keep, input, finished, []);
          assert [] + TextAt(input.lines, StuckStep(input.lines, l, regex, keep).out)
                 == TextAt(input.lines, StuckStep(input.lines, l, regex, keep).out);
          return round.outcome;
        }
      }
      ret := SearchOn(regex, keep, input, finished);
    }

    method DoToMatch(regex: Regex, offset: int, input: InputSplitter, ghost finished: seq<bytes>)
      returns (ret: Outcome)
      requires input.Valid() && Holding(finished, [])
      modifies this`files, this`size, this`counter, input
      ensures input.Valid() && Valid()
      ensures var s := MatchStep(input.lines, old(input.State()), regex, offset, options.suppressMatched);
              && ret == s.outcome && input.State() == s.next
              && (!ret.Hangs? ==>
                    Splits() == AddPiece(finished, TextAt(input.lines, s.out), !devNull, options.elideEmptyFiles))
    {
      hide TextAt, SplitWriter.Holding, SplitWriter.Splits, SplitWriter.Valid, AddPiece, InputSplitter.Valid,
        InputSplitter.State, MatchStep, IsMatch, Proper;
      if offset >= 0 {
        ret := DoToMatchForward(regex, offset, input, finished);
      } else {
        ret := DoToMatchBackward(regex, offset, input, finished);
      }
    }
  }

  /**
    A search from `l` has come to `c` and written `out`: nothing matched, nothing is
    missing, and nothing was written while fewer than `keep` lines were held.
  */
  ghost predicate Lags(lines: seq<bytes>, l: Look, c: Look, out: seq<nat>, regex: Regex, keep: int)
    ensures Lags(lines, l, c, out, regex, keep) ==> c.pulled <= |lines|
  {
    && l.pulled <= c.pulled <= |lines| && out + c.held == l.held + Range(l.pulled, c.pulled)
    && (c.rewound ==> c.held == [])
    && (out == [] || |c.held| >= keep)
    && forall i :: l.pulled <= i < c.pulled ==> !IsMatch(regex, lines[i])
  }

  lemma WindowStarts(lines: seq<bytes>, l: Look, regex: Regex, keep: int)
    requires Proper(lines, l) && !Stuck(l, -keep) && keep > 0
    ensures Lags(lines, l, l, [], regex, keep) && TextAt(lines, []) == []
  {
    assert [] + l.held == l.held + Range(l.pulled, l.pulled);
  }

  /** A round of a search that lags goes on lagging, or ends it as the first match says. */
  lemma RoundLags(lines: seq<bytes>, l: Look, c: Look, out: seq<nat>, regex: Regex, keep: int, suppress: bool)
    requires Proper(lines, l) && Proper(lines, c) && !Stuck(l, -keep) && keep > 0
    requires Lags(lines, l, c, out, regex, keep)
    ensures var s, t := MatchStep(lines, l, regex, -keep, suppress), RoundStep(lines, c, regex, keep, suppress);
            match t.round
            case More => Lags(lines, l, t.next, out + t.out, regex, keep) && c.pulled < t.next.pulled
            case OutOfInput =>
              s == Step(out + t.out + t.next.held, [], t.next.(held := []), Err(MatchNotFound))
            case Ended(outcome) =>
              !outcome.Hangs? && s.out == out + t.out && s.next == t.next && s.outcome == outcome
  {
    hide MatchStep, WindowStep, IsMatch, Range, StuckStep;
    var t := RoundStep(lines, c, regex, keep, suppress);
    if t.round.OutOfInput? {
      StepIfNoneMatches(lines, l, regex, -keep, suppress);
      assert out + [] + c.held == out + c.held;
    } else if t.round.More? {
      RangeSnoc(l.pulled, c.pulled);
      assert out + (c.held + [c.pulled]) == out + c.held + [c.pulled];
      assert l.held + (Range(l.pulled, c.pulled) + [c.pulled]) == l.held + Range(l.pulled, c.pulled) + [c.pulled];
      if |c.held| >= keep {
        assert c.held == c.held[..1] + c.held[1..];
        assert out + c.held[..1] + (c.held[1..] + [c.pulled]) == out + c.held + [c.pulled];
      } else {
        assert out + [] == out;
      }
    } else {
      StepIfMatches(lines, l, regex, -keep, suppress, c.pulled);
      WindowCloses(l, c, out, keep, suppress);
    }
  }

  /** Closing the window that lags behind closes the whole one. */
  lemma WindowCloses(l: Look, c: Look, out: seq<nat>, keep: int, suppress: bool)
    requires out + c.held == l.held + Range(l.pulled, c.pulled) && (out == [] || |c.held| >= keep) && keep > 0
    ensures var s, t := WindowStep(l, c.pulled, keep, suppress), WindowStep(c, c.pulled, keep, suppress);
            s.out == out + t.out && s.next == t.next && s.outcome == t.outcome && !s.outcome.Hangs?
  {
    assert c.held + Range(c.pulled, c.pulled) == c.held;
    ClosePart(out, c.held, c.pulled, keep, suppress);
  }

  lemma ClosePart(out: seq<nat>, held: seq<nat>, m: nat, keep: nat, suppress: bool)
    requires keep > 0 && (out == [] || |held| >= keep)
    ensures var s, t := CloseWindow(out + held, m, keep, suppress), CloseWindow(held, m, keep, suppress);
            s.out == out + t.out && s.next == t.next && s.outcome == t.outcome
  {
    var over := Max(0, |held| - keep);
    SplitAt(out, held, over);
    if |held| >= keep {
      SplitAt(out, held, over + 1);
    }
    if out == [] {
      assert out + held == held && out + held[..over] == held[..over];
    }
  }

  lemma SplitAt(out: seq<nat>, held: seq<nat>, k: nat)
    requires k <= |held|
    ensures (out + held)[..|out| + k] == out + held[..k] && (out + held)[|out| + k..] == held[k..]
  {}

  lemma StuckHere(lines: seq<bytes>, l: Look, regex: Regex, keep: nat)
    requires Proper(lines, l) && keep > 0
    ensures l.rewound && l.held != [] ==>
              var s, rest := StuckStep(lines, l, regex, keep), l.held[1..];
              var over := Max(0, |rest| - keep);
              if IsMatch(regex, lines[l.held[0]]) then
                && s.out == rest[..over] && s.dropped == [] && s.next == l.(held := [l.held[0]] + rest[over..])
                && s.outcome == if |s.next.held| < keep then Err(LineOutOfRange) else Done
              else s == Step([], [], PutBack(l.(held := rest), l.held[0]), Hangs)
  {
    if l.held != [] {
      assert [l.held[0]] + l.held[1..] == l.held;
    }
  }

  lemma NoRange(at: nat)
    ensures Range(at, at) == []
  {}

  lemma ReaderIn(lines: seq<bytes>, l: Look)
    requires Proper(lines, l)
    ensures l.pulled <= |lines|
  {}

  lemma OneLineMore(lines: seq<bytes>, held: seq<nat>, from: nat, at: nat)
    requires from <= at < |lines|
    ensures TextAt(lines, held + Range(from, at + 1)) == TextAt(lines, held + Range(from, at)) + lines[at]
  {
    RangeSnoc(from, at);
    TextSnoc(lines, held + Range(from, at), at);
    assert held + (Range(from, at) + [at]) == held + Range(from, at) + [at];
  }

  lemma NoText(lines: seq<bytes>, s: seq<nat>)
    ensures TextAt(lines, s[..0]) == []
  {}

  lemma AheadOfNothing(l: Look)
    ensures Ahead(l, 0) == l.(rewound := true)
  {
    assert l.held[0..] == l.held;
  }

  /** Reading the stream, a line that goes back goes in front: the buffer is rewound or empty. */
  lemma AheadHolds(l: Look, k: nat)
    ensures Ahead(l, k).rewound || Ahead(l, k).held == []
    ensures forall n: nat :: Ahead(l, k).held == [] ==> PutBack(Ahead(l, k), n).held == [] + [n]
  {}
}

/** What single options of cat show, byte by byte (src/uu/cat/src/cat.rs 113-160, 604-705). */
module CatShown {
  import opened Bytes
  import opened Cat

  // ----- bytes -----

  /** The byte below 128 that a printable byte, or a caret and a byte, names. */
  function LowByte(shown: bytes): Option<byte> {
    if |shown| == 1 then Some(shown[0])
    else if |shown| == 2 && shown[0] == 94 then
      if shown[1] == 63 then Some(127) else if 64 <= shown[1] < 96 then Some(shown[1] - 64) else None
    else None
  }

  /** The byte that this shows: `M-` adds 128. */
  function NamedByte(shown: bytes): Option<byte> {
    if |shown| >= 3 && shown[..2] == [77, 45] then
      match LowByte(shown[2..])
      case Some(b) => if b < 128 then Some(b + 128) else None
      case None => None
    else LowByte(shown)
  }

  /** `-v` shows every byte in printable ones that name it, and a printable byte as itself; a tab only with `-T`. */
  lemma NamesItsByte(o: Options, b: byte)
    requires o.showNonprint
    ensures var r := o.Render(b);
            if b == 9 && !o.showTabs then r == [9]
            else
              && (forall i :: 0 <= i < |r| ==> 32 <= r[i] < 127)
              && NamedByte(r) == Some(b)
              && (32 <= b < 127 ==> r == [b])
  {
    var r := o.Render(b);
    if b >= 128 {
      assert r[..2] == [77, 45] && r[2..] == if 160 <= b < 255 then [b - 128] else [94, r[3]];
    }
  }

  /** Without `-v` a byte is itself, but for a tab with `-T`. */
  lemma RawByte(o: Options, b: byte)
    requires !o.showNonprint
    ensures o.Render(b) == if b == 9 && o.showTabs then [94, 73] else [b]
  {}

  // ----- one line of the display -----

  lemma {:induction false} LineIs(line: bytes, rest: bytes)
    requires NoNewline(line)
    ensures LineLength(line + ([10] + rest)) == |line| && LineLength(line) == |line|
    decreases |line|
  {
    var text := line + ([10] + rest);
    if line != [] {
      assert text[1..] == line[1..] + ([10] + rest);
      LineIs(line[1..], rest);
    }
  }

  lemma DisplayLine(o: Options, line: bytes, rest: bytes, n: nat, afterBlank: bool)
    requires NoNewline(line) && !(line == [] && afterBlank && o.squeezeBlank)
    ensures Display(o, line + ([10] + rest), n, afterBlank)
            == Numbering(o, line, n) + LineText(o, line) + o.EndOfLine()
               + Display(o, rest, if IsNumbered(o, line) then n + 1 else n, line == [])
  {
    var text := line + ([10] + rest);
    LineIs(line, rest);
    assert text[..|line|] == line && text[|line| + 1..] == rest;
  }

  lemma LastLine(o: Options, line: bytes, n: nat, afterBlank: bool)
    requires NoNewline(line)
    ensures Display(o, line, n, afterBlank) == if line == [] then [] else Numbering(o, line, n) + o.RenderAll(line)
  {
    LineIs(line, []);
    assert line[..|line|] == line;
  }

  // ----- ends of lines -----

  /** A dollar before every newline, and a carriage return before one as `^M`. */
  function Ends(text: bytes): bytes {
    if text == [] then []
    else if text[0] == 10 then [36, 10] + Ends(text[1..])
    else if text[0] == 13 && |text| > 1 && text[1] == 10 then [94, 77] + Ends(text[1..])
    else [text[0]] + Ends(text[1..])
  }

  predicate EndsInCr(line: bytes) {
    line != [] && line[|line| - 1] == 13
  }

  lemma {:induction false} LineEnds(line: bytes, rest: bytes)
    requires NoNewline(line)
    ensures Ends(line + ([10] + rest))
            == (if EndsInCr(line) then line[..|line| - 1] + [94, 77] else line) + [36, 10] + Ends(rest)
    decreases |line|
  {
    var text := line + ([10] + rest);
    if line == [] {
      assert text[1..] == rest;
    } else {
      assert text[1..] == line[1..] + ([10] + rest);
      LineEnds(line[1..], rest);
      assert line == [line[0]] + line[1..];
      if |line| > 1 {
        assert text[1] == line[1];
        assert EndsInCr(line) ==> line[..|line| - 1] == [line[0]] + line[1..][..|line| - 2];
      } else {
        assert line[..0] == [] && line[1..] == [];
      }
    }
  }

  lemma {:induction false} NoEnds(line: bytes)
    requires NoNewline(line)
    ensures Ends(line) == line
  {
    if line != [] {
      NoEnds(line[1..]);
    }
  }

  lemma EndedLine(o: Options, line: bytes)
    requires o.showEnds && !o.showNonprint && !o.showTabs
    ensures LineText(o, line) + o.EndOfLine()
            == (if EndsInCr(line) then line[..|line| - 1] + [94, 77] else line) + [36, 10]
    ensures o.RenderAll(line) == line
  {
    hide Options.RenderAll;
    PlainRender(o, line);
    if line != [] { PlainRender(o, line[..|line| - 1]); }
  }

  /** `-E` alone. */
  lemma {:induction false} ShowsEnds(o: Options, text: bytes, n: nat, afterBlank: bool)
    requires o.showEnds && !o.showNonprint && !o.showTabs && !o.squeezeBlank && o.number == NoNumbers
    ensures Display(o, text, n, afterBlank) == Ends(text)
    decreases |text|
  {
    hide Options.RenderAll, Ends, Display, LineText, Options.EndOfLine, EndsInCr;
    var k := LineLength(text);
    var line := text[..k];
    EndedLine(o, line);
    if k == |text| {
      assert line == text;
      LastLine(o, text, n, afterBlank);
      NoEnds(text);
      assert [] + text == text;
    } else {
      var rest := text[k + 1..];
      assert text == line + ([10] + rest);
      DisplayLine(o, line, rest, n, afterBlank);
      LineEnds(line, rest);
      ShowsEnds(o, rest, n, line == []);
      assert [] + LineText(o, line) == LineText(o, line);
    }
  }

  // ----- line numbers -----

  /** A number where a line begins, counted from `n`, unless the line is blank and blank ones are not numbered. */
  function Numbered(o: Options, text: bytes, n: nat, begins: bool): bytes {
    if text == [] then []
    else if begins && (o.number == All || (o.number == NonEmpty && text[0] != 10)) then
      o.numeral(n) + [text[0]] + Numbered(o, text[1..], n + 1, text[0] == 10)
    else [text[0]] + Numbered(o, text[1..], n, text[0] == 10)
  }

  lemma {:induction false} NumberedInside(o: Options, line: bytes, rest: bytes, n: nat)
    requires NoNewline(line)
    ensures Numbered(o, line + ([10] + rest), n, false) == line + [10] + Numbered(o, rest, n, true)
    ensures Numbered(o, line, n, false) == line
    decreases |line|
  {
    var text := line + ([10] + rest);
    if line == [] {
      assert text[1..] == rest;
    } else {
      assert text[1..] == line[1..] + ([10] + rest) && line == [line[0]] + line[1..];
      NumberedInside(o, line[1..], rest, n);
    }
  }

  lemma NumberedStep(o: Options, b: byte, rest: bytes, n: nat)
    ensures var numbered := o.number == All || (o.number == NonEmpty && b != 10);
            Numbered(o, [b] + rest, n, true)
            == (if numbered then o.numeral(n) else []) + [b] + Numbered(o, rest, if numbered then n + 1 else n, b == 10)
  {
    assert ([b] + rest)[1..] == rest;
    assert [] + [b] == [b];
  }

  lemma NumberedLine(o: Options, line: bytes, rest: bytes, n: nat)
    requires NoNewline(line)
    ensures Numbered(o, line + ([10] + rest), n, true)
            == Numbering(o, line, n) + line + [10] + Numbered(o, rest, if IsNumbered(o, line) then n + 1 else n, true)
    ensures Numbered(o, line, n, true) == if line == [] then [] else Numbering(o, line, n) + line
  {
    hide Numbered;
    if line == [] {
      assert Numbered(o, [], n, true) == [] by { NumberedNothing(o, n); }
      NumberedStep(o, 10, rest, n);
      assert line + ([10] + rest) == [10] + rest;
      assert Numbering(o, line, n) + line == Numbering(o, line, n);
    } else {
      var n' := if IsNumbered(o, line) then n + 1 else n;
      var b, more := line[0], line[1..];
      NumberedStep(o, b, more + ([10] + rest), n);
      NumberedStep(o, b, more, n);
      NumberedInside(o, more, rest, n');
      assert line == [b] + more;
      Regroup(Numbering(o, line, n), b, more, rest, Numbered(o, rest, n', true));
    }
  }

  lemma NumberedNothing(o: Options, n: nat)
    ensures Numbered(o, [], n, true) == []
  {}

  lemma Regroup(front: bytes, b: byte, more: bytes, rest: bytes, tail: bytes)
    ensures [b] + more + ([10] + rest) == [b] + (more + ([10] + rest))
    ensures front + [b] + (more + [10] + tail) == front + ([b] + more) + [10] + tail
    ensures front + [b] + more == front + ([b] + more)
  {}

  /** `-n` or `-b` alone. */
  lemma {:induction false} ShowsNumbers(o: Options, text: bytes, n: nat, afterBlank: bool)
    requires !o.showEnds && !o.showNonprint && !o.showTabs && !o.squeezeBlank
    ensures Display(o, text, n, afterBlank) == Numbered(o, text, n, true)
    decreases |text|
  {
    hide Options.RenderAll, Numbered, Numbering, IsNumbered;
    var k := LineLength(text);
    var line := text[..k];
    PlainRender(o, line);
    if k == |text| {
      assert text[..|text|] == text;
      NumberedLine(o, text, [], n);
    } else {
      var rest := text[k + 1..];
      assert text == line + ([10] + rest);
      NumberedLine(o, line, rest, n);
      ShowsNumbers(o, rest, if IsNumbered(o, line) then n + 1 else n, line == []);
    }
  }

  // ----- blank lines -----

  /** Of blank lines on end only the first: a newline goes when it makes a second blank line. */
  function Squeezed(text: bytes, begins: bool, afterBlank: bool): bytes {
    if text == [] then []
    else if text[0] != 10 then [text[0]] + Squeezed(text[1..], false, false)
    else if begins && afterBlank then Squeezed(text[1..], true, true)
    else [10] + Squeezed(text[1..], true, begins)
  }

  lemma {:induction false} SqueezedLine(line: bytes, rest: bytes, afterBlank: bool, begins: bool)
    requires NoNewline(line) && (line == [] ==> !begins)
    ensures Squeezed(line + ([10] + rest), begins, afterBlank) == line + ([10] + Squeezed(rest, true, false))
    ensures Squeezed(line, begins, afterBlank) == line
    decreases |line|
  {
    var text := line + ([10] + rest);
    if line == [] {
      assert text[1..] == rest;
    } else {
      assert text[1..] == line[1..] + ([10] + rest) && line == [line[0]] + line[1..];
      SqueezedLine(line[1..], rest, false, false);
    }
  }

  lemma {:induction false} RendersAlike(o: Options, text: bytes, squeeze: bool)
    ensures o.(squeezeBlank := squeeze).RenderAll(text) == o.RenderAll(text)
  {
    if text != [] {
      RendersAlike(o, text[1..], squeeze);
    }
  }

  lemma SqueezedBlank(rest: bytes)
    ensures Squeezed([10] + rest, true, true) == Squeezed(rest, true, true)
    ensures Squeezed([10] + rest, true, false) == [10] + Squeezed(rest, true, true)
    ensures Squeezed([], true, true) == Squeezed([], true, false) == []
  {
    assert ([10] + rest)[1..] == rest;
  }

  lemma SqueezedText(line: bytes, rest: bytes, afterBlank: bool)
    requires NoNewline(line) && !(line == [] && afterBlank)
    ensures Squeezed(line + ([10] + rest), true, afterBlank) == line + ([10] + Squeezed(rest, true, line == []))
    ensures Squeezed(line, true, afterBlank) == line
  {
    hide Squeezed;
    if line == [] {
      SqueezedBlank(rest);
      assert line + ([10] + rest) == [10] + rest;
      assert line + ([10] + Squeezed(rest, true, true)) == [10] + Squeezed(rest, true, true);
    } else {
      SqueezedLine(line, rest, afterBlank, true);
    }
  }

  lemma SqueezesBlank(o: Options, rest: bytes, n: nat)
    requires o.squeezeBlank
    ensures Display(o, [10] + rest, n, true) == Display(o, rest, n, true)
  {
    LineIs([], rest);
    assert [] + ([10] + rest) == [10] + rest;
    assert ([10] + rest)[1..] == rest && ([10] + rest)[..0] == [];
  }

  /** `-s` with any other options shows the text without those blank lines. */
  lemma {:induction false} ShowsSqueezed(o: Options, text: bytes, n: nat, afterBlank: bool, other: bool)
    requires o.squeezeBlank
    ensures Display(o, text, n, afterBlank)
            == Display(o.(squeezeBlank := false), Squeezed(text, true, afterBlank), n, other)
    decreases |text|
  {
    hide Display, Squeezed, Options.RenderAll;
    var k, o' := LineLength(text), o.(squeezeBlank := false);
    var line := text[..k];
    RendersAlike(o, line, false);
    if k == |text| {
      assert line == text;
      LastLine(o, line, n, afterBlank);
      LastLine(o', line, n, other);
      SqueezedBlank([]);
      if line != [] {
        SqueezedText(line, [], afterBlank);
      }
    } else {
      var rest := text[k + 1..];
      assert text == line + ([10] + rest);
      if line == [] && afterBlank {
        assert text == [10] + rest;
        SqueezesBlank(o, rest, n);
        SqueezedBlank(rest);
        ShowsSqueezed(o, rest, n, true, other);
      } else {
        var n' := if IsNumbered(o, line) then n + 1 else n;
        if line != [] { RendersAlike(o, line[..k - 1], false); }
        SqueezedText(line, rest, afterBlank);
        DisplayLine(o, line, rest, n, afterBlank);
        DisplayLine(o', line, Squeezed(rest, true, line == []), n, other);
        ShowsSqueezed(o, rest, n', line == [], line == []);
      }
    }
  }
}

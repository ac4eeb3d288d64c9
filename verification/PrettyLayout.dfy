/** The layout of the JSON formatter's output, told by rules of its own. */
module PrettyLayout {
  import opened PrettyJson

  // --- the rules ---

  /** The mode of a scan and the number of brackets open, after some of a text. */
  datatype Scan = Scan(mode: Mode, open: nat)

  function ScanOne(scan: Scan, c: Unit): Scan {
    var open :=
      if scan.mode != Outside then scan.open
      else if c == OPEN_BRACE || c == OPEN_BRACKET then scan.open + 1
      else if (c == CLOSE_BRACE || c == CLOSE_BRACKET) && scan.open > 0 then scan.open - 1
      else scan.open;
    Scan(Next(scan.mode, c), open)
  }

  function ScanFrom(scan: Scan, text: Text): Scan
    decreases |text|
  {
    if text == [] then scan else ScanFrom(ScanOne(scan, text[0]), text[1..])
  }

  /** How many spaces a text starts with. */
  function Spaces(text: Text): (n: nat)
    ensures n <= |text|
  {
    if text != [] && text[0] == SPACE then 1 + Spaces(text[1..]) else 0
  }

  /** The brackets open on a line: one that the line closes first is not open on it any more. */
  function OnLine(line: Text, open: nat): nat {
    if line != [] && IsClosing(line[0]) && open > 0 then open - 1 else open
  }

  /** The text starts with a line break and spaces in front of a closing bracket. */
  predicate ClosingLine(text: Text) {
    text != [] && text[0] == NEWLINE && var line := text[1..]; Spaces(line) < |line| && IsClosing(line[Spaces(line)])
  }

  /** The text goes on without layout, unless for a closing bracket, which gets a line of its own. */
  predicate Plain(text: Text) {
    text == [] || ClosingLine(text) || (!IsSpace(text[0]) && !IsClosing(text[0]))
  }

  /**
   * What may come after a symbol outside strings: after an opening bracket its closing
   * one, if that is what the content goes on with, or else a line break; after a comma
   * a line break; after a colon a space; otherwise no layout but indentation.
   */
  predicate Follows(c: Unit, rest: Text) {
    if IsOpening(c) then
      rest != [] && (rest[0] == ClosingOf(c) || (rest[0] == NEWLINE && !ClosingLine(rest) && !ClosesAtOnce(c, rest)))
    else if c == COMMA then
      rest != [] && rest[0] == NEWLINE && !ClosingLine(rest)
    else if c == COLON then
      rest != [] && rest[0] == SPACE && Plain(rest[1..])
    else if c == NEWLINE || c == SPACE then
      Plain(rest) || rest[0] == SPACE || IsClosing(rest[0])
    else
      Plain(rest)
  }

  /** Behind a line break there are two spaces for each bracket open on the line. */
  predicate LineOk(line: Text, open: nat) {
    Spaces(line) == 2 * OnLine(line[Spaces(line)..], open)
  }

  /** Outside strings every symbol is followed by what it should be, and every line is indented as it should be. */
  predicate LaidOut(text: Text, scan: Scan)
    decreases |text|
  {
    text == [] ||
    (&& (ScanOne(scan, text[0]).mode == Outside ==> Follows(text[0], text[1..]))
     && (scan.mode == Outside && text[0] == NEWLINE ==> LineOk(text[1..], scan.open))
     && LaidOut(text[1..], ScanOne(scan, text[0])))
  }

  // --- the formatter keeps them ---

  lemma LaidOutNext(c: Unit, text: Text, scan: Scan)
    requires LaidOut(text, ScanOne(scan, c)) && (ScanOne(scan, c).mode == Outside ==> Follows(c, text))
    requires scan.mode == Outside && c == NEWLINE ==> LineOk(text, scan.open)
    ensures LaidOut([c] + text, scan)
  {
    Behind(c, text);
  }

  lemma NothingLaidOut(scan: Scan)
    ensures LaidOut([], scan)
  {
  }

  lemma SpaceIsNothing(scan: Scan)
    requires scan.mode == Outside
    ensures ScanOne(scan, SPACE) == scan && ScanOne(scan, NEWLINE) == scan
    ensures IsSpace(NEWLINE) && IsSpace(SPACE)
  {
  }

  lemma {:induction false} IndentationIs(depth: nat, text: Text)
    requires text == [] || text[0] != SPACE
    ensures |Indentation(depth)| == 2 * depth
    ensures Spaces(Indentation(depth) + text) == 2 * depth
    ensures (Indentation(depth) + text)[2 * depth..] == text
  {
    if depth == 0 {
      assert [] + text == text;
    } else {
      IndentationIs(depth - 1, text);
      var inner := Indentation(depth - 1) + text;
      assert Indentation(depth) + text == [SPACE] + ([SPACE] + inner);
      assert ([SPACE] + ([SPACE] + inner))[1..] == [SPACE] + inner && ([SPACE] + inner)[1..] == inner;
    }
  }

  lemma {:induction false} IndentationPasses(depth: nat, text: Text, scan: Scan)
    requires scan.mode == Outside && LaidOut(text, scan) && (Plain(text) || IsClosing(text[0]))
    ensures LaidOut(Indentation(depth) + text, scan)
    ensures Follows(NEWLINE, Indentation(depth) + text)
  {
    hide LaidOut;
    if depth == 0 {
      assert [] + text == text;
    } else {
      hide ClosingLine;
      IndentationPasses(depth - 1, text, scan);
      SpaceIsNothing(scan);
      var inner := Indentation(depth - 1) + text;
      LaidOutNext(SPACE, inner, scan);
      LaidOutNext(SPACE, [SPACE] + inner, scan);
      assert Indentation(depth) + text == [SPACE] + ([SPACE] + inner);
    }
  }

  /** A line break and the right indentation in front of a line. */
  lemma LineLaidOut(depth: nat, line: Text, scan: Scan)
    requires scan.mode == Outside && (Plain(line) || IsClosing(line[0])) && depth == OnLine(line, scan.open)
    requires LaidOut(line, scan)
    ensures var text := [NEWLINE] + Indentation(depth) + line;
            && LaidOut(text, scan) && text[0] == NEWLINE
            && (ClosingLine(text) <==> line != [] && IsClosing(line[0]))
  {
    hide Indentation, LaidOut, Plain, ClosingLine, Follows, LineOk;
    var rest := Indentation(depth) + line;
    LineStarts(line);
    SpaceIsNothing(scan);
    LineFits(depth, line, scan.open);
    IndentationPasses(depth, line, scan);
    LaidOutNext(NEWLINE, rest, scan);
    assert [NEWLINE] + Indentation(depth) + line == [NEWLINE] + rest;
  }

  lemma LineStarts(line: Text)
    requires Plain(line) || IsClosing(line[0])
    ensures line != [] ==> line[0] != SPACE
  {
  }

  lemma LineFits(depth: nat, line: Text, open: nat)
    requires line == [] || line[0] != SPACE
    requires depth == OnLine(line, open)
    ensures var rest := Indentation(depth) + line;
            LineOk(rest, open) && (ClosingLine([NEWLINE] + rest) <==> line != [] && IsClosing(line[0]))
  {
    hide Indentation, Spaces, IsClosing;
    var rest := Indentation(depth) + line;
    IndentationIs(depth, line);
    Behind(NEWLINE, rest);
    assert line != [] ==> rest[2 * depth] == line[0];
  }

  /** Outside strings the formatter's output goes on plainly. */
  lemma {:induction false} PrettyStarts(text: Text, depth: nat)
    ensures Plain(Pretty(text, depth, Outside))
    decreases |text|
  {
    hide Pretty, Indentation, Leading, ClosesAtOnce, Plain;
    if text == [] {
      PrettyNothing(depth, Outside);
      PlainStart([]);
    } else {
      var c, rest := text[0], text[1..];
      assert text == [c] + rest;
      PlainStart(Pretty(text, depth, Outside));
      if c == QUOTE {
        StringLayout(c, rest, depth, Outside);
      } else if IsSpace(c) {
        SpaceLayout(c, rest, depth);
        PrettyStarts(rest, depth);
      } else if IsOpening(c) && ClosesAtOnce(c, rest) {
        PairLayout(c, rest, depth);
      } else {
        SymbolLayout(c, rest, depth);
        AroundSymbol(c, DepthAfter(c, depth));
        if IsClosing(c) {
          ClosesLine(DepthAfter(c, depth), c, Pretty(rest, DepthAfter(c, depth), Outside));
        }
      }
    }
  }

  lemma PlainStart(text: Text)
    ensures text == [] || ClosingLine(text) || (!IsSpace(text[0]) && !IsClosing(text[0])) ==> Plain(text)
  {
  }

  lemma ClosesLine(depth: nat, c: Unit, more: Text)
    requires IsClosing(c)
    ensures ClosingLine([NEWLINE] + Indentation(depth) + [c] + more)
  {
    var rest := Indentation(depth) + ([c] + more);
    assert [NEWLINE] + Indentation(depth) + [c] + more == [NEWLINE] + rest;
    IndentationIs(depth, [c] + more);
    assert rest[2 * depth] == c;
    Behind(NEWLINE, rest);
  }

  lemma {:induction false} PrettyLaidOut(text: Text, depth: nat, mode: Mode)
    ensures LaidOut(Pretty(text, depth, mode), Scan(mode, depth))
    decreases |text|
  {
    hide Pretty, Indentation, Leading, ClosesAtOnce, LaidOut, Plain;
    if text == [] {
      PrettyNothing(depth, mode);
      NothingLaidOut(Scan(mode, depth));
    } else {
      var c, rest := text[0], text[1..];
      assert text == [c] + rest;
      if mode != Outside || c == QUOTE {
        PrettyLaidOut(rest, depth, Next(mode, c));
        StringLayout(c, rest, depth, mode);
        PrettyStarts(rest, depth);
        LaidOutNext(c, Pretty(rest, depth, Next(mode, c)), Scan(mode, depth));
      } else if IsSpace(c) {
        PrettyLaidOut(rest, depth, Outside);
        SpaceLayout(c, rest, depth);
      } else if IsOpening(c) && ClosesAtOnce(c, rest) {
        PairLayout(c, rest, depth);
        PrettyLaidOut(rest[Leading(rest) + 1..], depth, Outside);
        PrettyStarts(rest[Leading(rest) + 1..], depth);
        PairLaidOut(c, Pretty(rest[Leading(rest) + 1..], depth, Outside), depth);
      } else {
        PrettyLaidOut(rest, DepthAfter(c, depth), Outside);
        SymbolLaidOut(c, rest, depth);
      }
    }
  }

  lemma PairLaidOut(c: Unit, more: Text, depth: nat)
    requires IsOpening(c) && LaidOut(more, Scan(Outside, depth)) && Plain(more)
    ensures LaidOut([c, ClosingOf(c)] + more, Scan(Outside, depth))
  {
    hide LaidOut, Plain;
    LaidOutNext(ClosingOf(c), more, Scan(Outside, depth + 1));
    LaidOutNext(c, [ClosingOf(c)] + more, Scan(Outside, depth));
    assert [c, ClosingOf(c)] + more == [c] + ([ClosingOf(c)] + more);
  }

  /** The layout put behind a bracket does not hide what comes next. */
  lemma SameBehind(c: Unit, rest: Text, depth: nat)
    requires IsOpening(c)
    ensures ClosesAtOnce(c, [NEWLINE] + Indentation(depth) + Pretty(rest, depth, Outside)) <==> ClosesAtOnce(c, rest)
  {
    hide Pretty, Leading, Strip;
    var more := Pretty(rest, depth, Outside);
    SameLookahead(c, rest);
    SameLookahead(c, [NEWLINE] + Indentation(depth) + more);
    ContentKept(rest, depth, Outside);
    StripLayout([NEWLINE] + Indentation(depth), more);
  }

  lemma SymbolLaidOut(c: Unit, rest: Text, depth: nat)
    requires c != QUOTE && !IsSpace(c) && !(IsOpening(c) && ClosesAtOnce(c, rest))
    requires LaidOut(Pretty(rest, DepthAfter(c, depth), Outside), Scan(Outside, DepthAfter(c, depth)))
    ensures LaidOut(Pretty([c] + rest, depth, Outside), Scan(Outside, depth))
  {
    hide Pretty, Indentation, ClosesAtOnce, LaidOut, IsSpace, Plain, ClosingLine;
    var inner := DepthAfter(c, depth);
    var more, scan := Pretty(rest, inner, Outside), Scan(Outside, depth);
    SpaceIsNothing(scan);
    SymbolLayout(c, rest, depth);
    AroundSymbol(c, inner);
    PrettyStarts(rest, inner);
    PlainIs(more);
    if IsOpening(c) || c == COMMA {
      if IsOpening(c) {
        SameBehind(c, rest, inner);
      }
      LineLaidOut(inner, more, Scan(Outside, inner));
      LaidOutNext(c, [NEWLINE] + Indentation(inner) + more, scan);
      assert [c, NEWLINE] + Indentation(inner) + more == [c] + ([NEWLINE] + Indentation(inner) + more);
    } else if IsClosing(c) {
      LaidOutNext(c, more, scan);
      LineLaidOut(inner, [c] + more, scan);
      assert [NEWLINE] + Indentation(inner) + [c] + more == [NEWLINE] + Indentation(inner) + ([c] + more);
    } else if c == COLON {
      assert ([SPACE] + more)[1..] == more;
      LaidOutNext(SPACE, more, scan);
      LaidOutNext(c, [SPACE] + more, scan);
      assert [COLON, SPACE] + more == [COLON] + ([SPACE] + more);
    } else {
      LaidOutNext(c, more, scan);
    }
  }

  lemma PlainIs(text: Text)
    requires Plain(text)
    ensures text != [] ==> !IsClosing(text[0]) && text[0] != SPACE
  {
  }

  // --- no other layout does ---

  lemma {:induction false} SpacesAreIndentation(text: Text, depth: nat)
    requires Spaces(text) == 2 * depth
    ensures text == Indentation(depth) + text[2 * depth..]
  {
    if depth == 0 {
      assert text == [] + text[0..];
    } else {
      assert text == [SPACE] + ([SPACE] + text[2..]);
      assert text[1..][0] == SPACE && text[1..][1..] == text[2..];
      SpacesAreIndentation(text[2..], depth - 1);
      assert text[2..][2 * (depth - 1)..] == text[2 * depth..];
    }
  }

  /** Behind spaces the text is laid out as before, and what comes after them goes on as it should. */
  lemma {:induction false} BehindSpaces(text: Text, scan: Scan)
    requires scan.mode == Outside && LaidOut(text, scan) && (Plain(text) || text[0] == SPACE || IsClosing(text[0]))
    ensures var line := text[Spaces(text)..];
            LaidOut(line, scan) && (Plain(line) || IsClosing(line[0]))
  {
    if text != [] && text[0] == SPACE {
      SpaceIsNothing(scan);
      BehindSpaces(text[1..], scan);
      assert text[1..][Spaces(text[1..])..] == text[Spaces(text)..];
    }
  }

  /** A line that is laid out is its indentation and what the formatter makes of the rest. */
  lemma Line(text: Text, scan: Scan) returns (line: Text)
    requires scan.mode == Outside && LaidOut(text, scan) && text != [] && text[0] == NEWLINE
    ensures var depth := OnLine(line, scan.open);
            text == [NEWLINE] + Indentation(depth) + line && |line| < |text|
    ensures LaidOut(line, scan) && (Plain(line) || (line != [] && IsClosing(line[0])))
    ensures ClosingLine(text) <==> line != [] && IsClosing(line[0])
    ensures Pretty(text, scan.open, Outside) == Pretty(line, scan.open, Outside)
  {
    var rest := text[1..];
    line := rest[Spaces(rest)..];
    SpaceIsNothing(scan);
    BehindSpaces(rest, scan);
    SpacesAreIndentation(rest, OnLine(line, scan.open));
    var layout := [NEWLINE] + Indentation(OnLine(line, scan.open));
    assert text == layout + line;
    hide Pretty, Strip, LaidOut, Plain, Indentation;
    StripLayout(layout, line);
    LayoutIgnored(text, scan.open, Outside);
    LayoutIgnored(line, scan.open, Outside);
  }

  /** What is laid out is left as it is. */
  lemma {:induction false} LaidOutStays(text: Text, depth: nat, mode: Mode)
    requires LaidOut(text, Scan(mode, depth)) && (mode == Outside ==> Plain(text))
    ensures Pretty(text, depth, mode) == text
    decreases |text|, 1
  {
    hide Pretty, Indentation, Leading, ClosesAtOnce, ClosingLine, Spaces, LineOk;
    var scan := Scan(mode, depth);
    if text == [] {
      PrettyNothing(depth, mode);
    } else {
      var c, rest := text[0], text[1..];
      assert text == [c] + rest;
      if mode != Outside || c == QUOTE {
        LaidOutStays(rest, depth, Next(mode, c));
        StringLayout(c, rest, depth, mode);
      } else if ClosingLine(text) {
        ClosingStays(text, depth);
      } else {
        hide IsSpace;
        SymbolStays(c, rest, depth);
      }
    }
  }

  lemma ClosingStays(text: Text, depth: nat)
    requires LaidOut(text, Scan(Outside, depth)) && ClosingLine(text)
    ensures Pretty(text, depth, Outside) == text
    decreases |text|, 0
  {
    hide Pretty, Indentation, ClosingLine, Spaces, LineOk, IsSpace, ClosesAtOnce;
    assert text != [] && text[0] == NEWLINE by { StartsLine(text); }
    var line := Line(text, Scan(Outside, depth));
    var c, more := line[0], line[1..];
    var outer := OnLine(line, depth);
    assert line == [c] + more;
    ClosesOne(c, more, depth);
    LaidOutStays(more, outer, Outside);
    SymbolLayout(c, more, depth);
    AroundSymbol(c, outer);
    Grouped([NEWLINE] + Indentation(outer), [c], more);
  }

  lemma StartsLine(text: Text)
    requires ClosingLine(text)
    ensures text != [] && text[0] == NEWLINE
  {
  }

  lemma ClosesOne(c: Unit, more: Text, depth: nat)
    requires IsClosing(c) && LaidOut([c] + more, Scan(Outside, depth))
    ensures c != QUOTE && !IsSpace(c) && !IsOpening(c) && DepthAfter(c, depth) == OnLine([c] + more, depth)
    ensures LaidOut(more, Scan(Outside, DepthAfter(c, depth))) && Plain(more)
  {
    Behind(c, more);
  }

  lemma SymbolStays(c: Unit, rest: Text, depth: nat)
    requires LaidOut([c] + rest, Scan(Outside, depth)) && c != QUOTE && !IsSpace(c) && !IsClosing(c)
    ensures Pretty([c] + rest, depth, Outside) == [c] + rest
    decreases |rest| + 1, 0
  {
    hide Pretty, Indentation, Leading, ClosesAtOnce, ClosingLine, Spaces, LineOk, IsSpace, Plain, LaidOut;
    var inner := DepthAfter(c, depth);
    SymbolNext(c, rest, depth);
    if IsOpening(c) && rest[0] == ClosingOf(c) {
      var more := rest[1..];
      assert rest == [ClosingOf(c)] + more;
      ClosesOne(ClosingOf(c), more, inner);
      LaidOutStays(more, depth, Outside);
      ClosesHere(c, rest);
      PairLayout(c, rest, depth);
      Pair(c, ClosingOf(c), more);
    } else if IsOpening(c) || c == COMMA {
      BreakStays(c, rest, depth);
    } else {
      SymbolLayout(c, rest, depth);
      AroundSymbol(c, inner);
      if c == COLON {
        var more := rest[1..];
        assert rest == [SPACE] + more;
        SpaceNext(more, inner);
        SpaceLayout(SPACE, more, inner);
        LaidOutStays(more, inner, Outside);
        Pair(COLON, SPACE, more);
      } else {
        LaidOutStays(rest, inner, Outside);
      }
    }
  }

  /** A line break behind a symbol is kept with the line behind it. */
  lemma BreakStays(c: Unit, rest: Text, depth: nat)
    requires (IsOpening(c) && !ClosesAtOnce(c, rest)) || c == COMMA
    requires var scan := Scan(Outside, DepthAfter(c, depth));
             LaidOut(rest, scan) && rest != [] && rest[0] == NEWLINE && !ClosingLine(rest)
    ensures Pretty([c] + rest, depth, Outside) == [c] + rest
    decreases |rest|, 2
  {
    hide Pretty, Indentation, ClosesAtOnce, ClosingLine, Plain, LaidOut;
    var inner := DepthAfter(c, depth);
    var line := Line(rest, Scan(Outside, inner));
    LaidOutStays(line, inner, Outside);
    NoLayout(c);
    SymbolLayout(c, rest, depth);
    AroundSymbol(c, inner);
    Pair(c, NEWLINE, Indentation(inner));
    Grouped([c], [NEWLINE] + Indentation(inner), line);
  }

  lemma NoLayout(c: Unit)
    requires IsOpening(c) || c == COMMA
    ensures !IsSpace(c) && c != QUOTE && !IsClosing(c)
  {
  }

  lemma Pair(c: Unit, next: Unit, more: Text)
    ensures [c, next] + more == [c] + ([next] + more)
  {
  }

  lemma SymbolNext(c: Unit, rest: Text, depth: nat)
    requires LaidOut([c] + rest, Scan(Outside, depth)) && c != QUOTE && !IsSpace(c) && !IsClosing(c)
    ensures LaidOut(rest, Scan(Outside, DepthAfter(c, depth))) && Follows(c, rest)
    ensures c != NEWLINE && c != SPACE
  {
    SpaceIsNothing(Scan(Outside, depth));
    Behind(c, rest);
  }

  lemma ClosesHere(c: Unit, rest: Text)
    requires IsOpening(c) && rest != [] && rest[0] == ClosingOf(c)
    ensures ClosesAtOnce(c, rest) && Leading(rest) == 0
  {
  }

  lemma SpaceNext(more: Text, depth: nat)
    requires LaidOut([SPACE] + more, Scan(Outside, depth))
    ensures LaidOut(more, Scan(Outside, depth)) && IsSpace(SPACE)
  {
    Behind(SPACE, more);
  }

  /**
   * The formatter's output is the only text with this content that is laid out by the
   * rules, whether or not the text was cut.
   */
  lemma OnlyLayout(raw: Text, text: Text)
    ensures text == Pretty(raw, 0, Outside) <==>
            Strip(text, Outside) == Strip(raw, Outside) && Plain(text) && LaidOut(text, Scan(Outside, 0))
  {
    hide Pretty, Strip, LaidOut, Plain;
    ContentKept(raw, 0, Outside);
    PrettyLaidOut(raw, 0, Outside);
    PrettyStarts(raw, 0);
    if Strip(text, Outside) == Strip(raw, Outside) && Plain(text) && LaidOut(text, Scan(Outside, 0)) {
      LaidOutStays(text, 0, Outside);
      ShownAlike(text, raw);
    }
  }

  // --- the rules anywhere in the output ---

  lemma {:induction false} LaidOutFrom(text: Text, scan: Scan, j: nat)
    requires LaidOut(text, scan) && j <= |text|
    ensures LaidOut(text[j..], ScanFrom(scan, text[..j]))
    decreases j
  {
    if j == 0 {
      assert text[0..] == text;
    } else {
      assert text[..j][0] == text[0] && text[..j][1..] == text[1..][..j - 1];
      assert text[1..][j - 1..] == text[j..];
      LaidOutFrom(text[1..], ScanOne(scan, text[0]), j - 1);
    }
  }

  /** Behind each line break outside strings there are exactly two spaces for each bracket open on the line. */
  lemma LinesAreIndented(raw: Text, j: nat)
    requires var out := Pretty(raw, 0, Outside);
             j < |out| && out[j] == NEWLINE && ScanFrom(Scan(Outside, 0), out[..j]).mode == Outside
    ensures var out := Pretty(raw, 0, Outside);
            var line := out[j + 1..];
            Spaces(line) == 2 * OnLine(line[Spaces(line)..], ScanFrom(Scan(Outside, 0), out[..j]).open)
  {
    hide Pretty, Follows;
    var out := Pretty(raw, 0, Outside);
    PrettyLaidOut(raw, 0, Outside);
    LaidOutFrom(out, Scan(Outside, 0), j);
    assert out[j..][1..] == out[j + 1..];
  }

  /** Each symbol outside strings is followed as it should be. */
  lemma SymbolsAreFollowed(raw: Text, j: nat)
    requires var out := Pretty(raw, 0, Outside);
             j < |out| && ScanFrom(Scan(Outside, 0), out[..j]).mode == Outside && out[j] != QUOTE
    ensures var out := Pretty(raw, 0, Outside);
            Follows(out[j], out[j + 1..])
  {
    hide Pretty, Follows;
    var out := Pretty(raw, 0, Outside);
    PrettyLaidOut(raw, 0, Outside);
    LaidOutFrom(out, Scan(Outside, 0), j);
    assert out[j..][1..] == out[j + 1..];
  }
}

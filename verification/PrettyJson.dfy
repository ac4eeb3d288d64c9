/** The console's lexical JSON formatter, which also serves text cut anywhere. */
module PrettyJson {

  /** A UTF-16 code unit; text may be cut inside a surrogate pair. */
  newtype Unit = x: int | 0 <= x < 0x1_0000

  type Text = seq<Unit>

  const NEWLINE: Unit := 0x0A
  const SPACE: Unit := 0x20
  const QUOTE: Unit := 0x22
  const COMMA: Unit := 0x2C
  const COLON: Unit := 0x3A
  const OPEN_BRACKET: Unit := 0x5B
  const BACKSLASH: Unit := 0x5C
  const CLOSE_BRACKET: Unit := 0x5D
  const OPEN_BRACE: Unit := 0x7B
  const CLOSE_BRACE: Unit := 0x7D

  /** White space of regular expressions. */
  predicate IsSpace(c: Unit) {
    || 0x09 <= c <= 0x0D || c == SPACE || c == 0xA0 || c == 0x1680 || 0x2000 <= c <= 0x200A
    || c == 0x2028 || c == 0x2029 || c == 0x202F || c == 0x205F || c == 0x3000 || c == 0xFEFF
  }

  predicate IsOpening(c: Unit) {
    c == OPEN_BRACE || c == OPEN_BRACKET
  }

  predicate IsClosing(c: Unit) {
    c == CLOSE_BRACE || c == CLOSE_BRACKET
  }

  function ClosingOf(c: Unit): Unit {
    if c == OPEN_BRACE then CLOSE_BRACE else CLOSE_BRACKET
  }

  /** Where a scan is: outside strings, inside one, or inside one just after a backslash. */
  datatype Mode = Outside | Inside | Escaped

  function Next(mode: Mode, c: Unit): Mode {
    match mode
    case Outside => if c == QUOTE then Inside else Outside
    case Inside => if c == BACKSLASH then Escaped else if c == QUOTE then Outside else Inside
    case Escaped => Inside
  }

  /** The lexical content of a text: all of it but the white space outside strings. */
  function Strip(text: Text, mode: Mode): Text {
    if text == [] then []
    else (if mode == Outside && IsSpace(text[0]) then [] else [text[0]]) + Strip(text[1..], Next(mode, text[0]))
  }

  function Indentation(depth: nat): (r: Text)
    ensures forall i :: 0 <= i < |r| ==> IsSpace(r[i])
  {
    if depth == 0 then [] else [SPACE, SPACE] + Indentation(depth - 1)
  }

  /** How much white space a text starts with. */
  function Leading(text: Text): (n: nat)
    ensures n <= |text|
    ensures forall i :: 0 <= i < n ==> IsSpace(text[i])
    ensures n < |text| ==> !IsSpace(text[n])
  {
    if text != [] && IsSpace(text[0]) then 1 + Leading(text[1..]) else 0
  }

  /** Whether what follows an opening bracket is, white space aside, its closing bracket. */
  predicate ClosesAtOnce(opening: Unit, rest: Text) {
    Leading(rest) < |rest| && rest[Leading(rest)] == ClosingOf(opening)
  }

  /** What the formatter makes of the rest of a text. */
  function Pretty(text: Text, depth: nat, mode: Mode): Text
    decreases |text|
  {
    if text == [] then []
    else
      var c, rest := text[0], text[1..];
      if mode != Outside || c == QUOTE then
        [c] + Pretty(rest, depth, Next(mode, c))
      else if IsOpening(c) then
        if ClosesAtOnce(c, rest) then
          [c, ClosingOf(c)] + Pretty(rest[Leading(rest) + 1..], depth, Outside)
        else
          [c, NEWLINE] + Indentation(depth + 1) + Pretty(rest, depth + 1, Outside)
      else if IsClosing(c) then
        var outer := if depth == 0 then 0 else depth - 1;
        [NEWLINE] + Indentation(outer) + [c] + Pretty(rest, outer, Outside)
      else if c == COMMA then
        [COMMA, NEWLINE] + Indentation(depth) + Pretty(rest, depth, Outside)
      else if c == COLON then
        [COLON, SPACE] + Pretty(rest, depth, Outside)
      else if !IsSpace(c) then
        [c] + Pretty(rest, depth, Outside)
      else
        Pretty(rest, depth, Outside)
  }

  // --- the formatter's rules, one symbol at a time ---

  function DepthAfter(c: Unit, depth: nat): nat {
    if IsOpening(c) then depth + 1
    else if IsClosing(c) && depth > 0 then depth - 1
    else depth
  }

  function LayoutBefore(c: Unit, depth: nat): (r: Text)
    ensures forall i :: 0 <= i < |r| ==> IsSpace(r[i])
  {
    if IsClosing(c) then [NEWLINE] + Indentation(depth) else []
  }

  function LayoutAfter(c: Unit, depth: nat): (r: Text)
    ensures forall i :: 0 <= i < |r| ==> IsSpace(r[i])
  {
    if IsOpening(c) || c == COMMA then [NEWLINE] + Indentation(depth)
    else if c == COLON then [SPACE]
    else []
  }

  /** Outside strings everything but an empty pair is one symbol with layout around it. */
  lemma SymbolLayout(c: Unit, rest: Text, depth: nat)
    requires c != QUOTE && !IsSpace(c) && !(IsOpening(c) && ClosesAtOnce(c, rest))
    ensures var inner := DepthAfter(c, depth);
            Pretty([c] + rest, depth, Outside) ==
            LayoutBefore(c, inner) + [c] + LayoutAfter(c, inner) + Pretty(rest, inner, Outside)
  {
    hide Indentation, ClosesAtOnce;
    Behind(c, rest);
  }

  lemma Behind(c: Unit, rest: Text)
    ensures ([c] + rest)[0] == c && ([c] + rest)[1..] == rest
  {
  }

  /** White space outside strings yields nothing. */
  lemma SpaceLayout(c: Unit, rest: Text, depth: nat)
    requires IsSpace(c)
    ensures Pretty([c] + rest, depth, Outside) == Pretty(rest, depth, Outside)
  {
    hide Indentation, ClosesAtOnce;
    Behind(c, rest);
  }

  /** Strings and the quotes around them are kept as they are. */
  lemma StringLayout(c: Unit, rest: Text, depth: nat, mode: Mode)
    requires mode != Outside || c == QUOTE
    ensures Pretty([c] + rest, depth, mode) == [c] + Pretty(rest, depth, Next(mode, c))
  {
    hide Indentation, ClosesAtOnce;
    Behind(c, rest);
  }

  /** A pair of brackets with nothing but white space in it loses that. */
  lemma PairLayout(c: Unit, rest: Text, depth: nat)
    requires IsOpening(c) && ClosesAtOnce(c, rest)
    ensures Leading(rest) < |rest|
    ensures Pretty([c] + rest, depth, Outside) == [c, ClosingOf(c)] + Pretty(rest[Leading(rest) + 1..], depth, Outside)
  {
    hide Pretty, Leading;
    Behind(c, rest);
    PairUnfolds([c] + rest, depth);
  }

  lemma PairUnfolds(text: Text, depth: nat)
    requires text != [] && IsOpening(text[0]) && ClosesAtOnce(text[0], text[1..])
    ensures var c, rest := text[0], text[1..];
            Leading(rest) < |rest|
            && Pretty(text, depth, Outside) == [c, ClosingOf(c)] + Pretty(rest[Leading(rest) + 1..], depth, Outside)
  {
    hide Indentation, Leading, IsSpace, ClosingOf, ClosesAtOnce;
    ClosesThere(text[0], text[1..]);
  }

  lemma ClosesThere(opening: Unit, rest: Text)
    requires ClosesAtOnce(opening, rest)
    ensures Leading(rest) < |rest|
  {
  }

  /** A text from one position on. */
  lemma From(text: Text, i: nat)
    requires i < |text|
    ensures text[i..] == [text[i]] + text[i + 1..] && text[i..][1..] == text[i + 1..]
  {
  }

  lemma FromLater(text: Text, i: nat, k: nat)
    requires i + k <= |text|
    ensures text[i..][k..] == text[i + k..]
  {
  }

  // --- the loop ---

  function ModeOf(inString: bool, escaped: bool): Mode {
    if !inString then Outside else if escaped then Escaped else Inside
  }

  /** The first position from start on that holds no white space. */
  method NextNonSpace(raw: Text, start: nat) returns (index: nat)
    requires start <= |raw|
    ensures index == start + Leading(raw[start..])
  {
    index := start;
    while index < |raw| && IsSpace(raw[index])
      invariant start <= index <= |raw|
      invariant start + Leading(raw[start..]) == index + Leading(raw[index..])
    {
      assert raw[index..][1..] == raw[index + 1..];
      index := index + 1;
    }
  }

  lemma Grouped(output: Text, made: Text, more: Text)
    ensures output + (made + more) == output + made + more
  {
  }

  /** One turn of the formatter's loop outside strings, from position i. */
  method FormatOne(raw: Text, i: nat, depth: nat) returns (made: Text, next: nat, inner: nat)
    requires i < |raw| && raw[i] != QUOTE
    ensures i < next <= |raw|
    ensures Pretty(raw[i..], depth, Outside) == made + Pretty(raw[next..], inner, Outside)
  {
    hide Pretty, Indentation, Leading;
    var character := raw[i];
    ghost var rest := raw[i + 1..];
    From(raw, i);
    made, next, inner := [], i + 1, depth;
    if IsOpening(character) {
      var after := NextNonSpace(raw, i + 1);
      if after < |raw| && raw[after] == ClosingOf(character) {
        made, next := [character, ClosingOf(character)], after + 1;
        PairLayout(character, rest, depth);
        FromLater(raw, i + 1, after - i);
        return;
      }
      inner := depth + 1;
      made := [character, NEWLINE] + Indentation(inner);
    } else if IsClosing(character) {
      inner := if depth == 0 then 0 else depth - 1;
      made := [NEWLINE] + Indentation(inner) + [character];
    } else if character == COMMA {
      made := [COMMA, NEWLINE] + Indentation(depth);
    } else if character == COLON {
      made := [COLON, SPACE];
    } else if !IsSpace(character) {
      made := [character];
    }
    if IsSpace(character) {
      SpaceLayout(character, rest, depth);
      assert [] + Pretty(rest, depth, Outside) == Pretty(rest, depth, Outside);
    } else {
      SymbolLayout(character, rest, depth);
      AroundSymbol(character, inner);
    }
  }

  /** What one symbol is written as. */
  lemma AroundSymbol(c: Unit, depth: nat)
    ensures LayoutBefore(c, depth) + [c] + LayoutAfter(c, depth) ==
            if IsOpening(c) || c == COMMA then [c, NEWLINE] + Indentation(depth)
            else if IsClosing(c) then [NEWLINE] + Indentation(depth) + [c]
            else if c == COLON then [COLON, SPACE]
            else [c]
  {
    hide Indentation;
  }

  method PrettyJson(raw: Text) returns (output: Text)
    ensures output == Pretty(raw, 0, Outside)
  {
    output := [];
    var depth: nat, inString, escaped := 0, false, false;
    var i := 0;
    assert raw[0..] == raw;
    while i < |raw|
      invariant i <= |raw| && (escaped ==> inString)
      invariant Pretty(raw, 0, Outside) == output + Pretty(raw[i..], depth, ModeOf(inString, escaped))
    {
      var character := raw[i];
      if inString || character == QUOTE {
        assert raw[i..][1..] == raw[i + 1..];
        ghost var mode := ModeOf(inString, escaped);
        Grouped(output, [character], Pretty(raw[i + 1..], depth, Next(mode, character)));
        output := output + [character];
        if !inString {
          inString := true;
        } else if escaped {
          escaped := false;
        } else if character == BACKSLASH {
          escaped := true;
        } else if character == QUOTE {
          inString := false;
        }
        i := i + 1;
      } else {
        var made, next, inner := FormatOne(raw, i, depth);
        Grouped(output, made, Pretty(raw[next..], inner, Outside));
        output, i, depth := output + made, next, inner;
      }
    }
  }

  // --- formatting changes layout only ---

  lemma {:induction false} StripLayout(layout: Text, text: Text)
    requires forall i :: 0 <= i < |layout| ==> IsSpace(layout[i])
    ensures Strip(layout + text, Outside) == Strip(text, Outside)
  {
    if layout == [] {
      assert layout + text == text;
    } else {
      StripLayout(layout[1..], text);
      assert (layout + text)[1..] == layout[1..] + text;
    }
  }

  lemma PrettyNothing(depth: nat, mode: Mode)
    ensures Pretty([], depth, mode) == []
  {
  }

  lemma StripOne(c: Unit, text: Text, mode: Mode)
    ensures Strip([c] + text, mode) ==
            if mode == Outside && IsSpace(c) then Strip(text, Next(mode, c)) else [c] + Strip(text, Next(mode, c))
  {
    assert ([c] + text)[1..] == text;
  }

  lemma StripNothing(mode: Mode)
    ensures Strip([], mode) == []
  {
  }

  /** Layout around one bracket, comma or colon is dropped again. */
  lemma StripAround(before: Text, c: Unit, after: Text, text: Text)
    requires forall i :: 0 <= i < |before| ==> IsSpace(before[i])
    requires forall i :: 0 <= i < |after| ==> IsSpace(after[i])
    requires !IsSpace(c) && c != QUOTE
    ensures Strip(before + [c] + after + text, Outside) == [c] + Strip(text, Outside)
  {
    assert before + [c] + after + text == before + ([c] + (after + text));
    StripLayout(before, [c] + (after + text));
    StripOne(c, after + text, Outside);
    StripLayout(after, text);
  }

  /** A pair of brackets with only white space between them strips to just the pair. */
  lemma StripPair(c: Unit, rest: Text)
    requires IsOpening(c) && ClosesAtOnce(c, rest)
    ensures Strip([c] + rest, Outside) == [c, ClosingOf(c)] + Strip(rest[Leading(rest) + 1..], Outside)
  {
    hide Strip, Leading;
    var k := Leading(rest);
    assert !IsSpace(c) && !IsSpace(rest[k]);
    hide IsSpace;
    StripOne(c, rest, Outside);
    StripLayout(rest[..k], rest[k..]);
    assert rest == rest[..k] + rest[k..];
    assert rest[k..] == [rest[k]] + rest[k + 1..];
    StripOne(rest[k], rest[k + 1..], Outside);
    assert [c] + ([rest[k]] + Strip(rest[k + 1..], Outside)) == [c, rest[k]] + Strip(rest[k + 1..], Outside);
  }

  /**
   * Formatting keeps the lexical content of any text, also one that is cut in
   * the middle of a string or a number.
   */
  lemma {:induction false} ContentKept(text: Text, depth: nat, mode: Mode)
    ensures Strip(Pretty(text, depth, mode), mode) == Strip(text, mode)
    decreases |text|
  {
    hide Pretty, Strip, Indentation, Leading, ClosesAtOnce;
    if text == [] {
      PrettyNothing(depth, mode);
    } else {
      var c, rest := text[0], text[1..];
      assert text == [c] + rest;
      StripOne(c, rest, mode);
      if mode != Outside || c == QUOTE {
        ContentKept(rest, depth, Next(mode, c));
        StringLayout(c, rest, depth, mode);
        StripOne(c, Pretty(rest, depth, Next(mode, c)), mode);
      } else if IsOpening(c) && ClosesAtOnce(c, rest) {
        PairKept(c, rest, depth);
        ContentKept(rest[Leading(rest) + 1..], depth, Outside);
      } else {
        SymbolKept(c, rest, depth);
        ContentKept(rest, DepthAfter(c, depth), Outside);
      }
    }
  }

  lemma PairKept(c: Unit, rest: Text, depth: nat)
    requires IsOpening(c) && ClosesAtOnce(c, rest)
    ensures Leading(rest) < |rest|
    ensures Strip([c] + rest, Outside) == [c, ClosingOf(c)] + Strip(rest[Leading(rest) + 1..], Outside)
    ensures Strip(Pretty([c] + rest, depth, Outside), Outside) ==
            [c, ClosingOf(c)] + Strip(Pretty(rest[Leading(rest) + 1..], depth, Outside), Outside)
  {
    hide Pretty, Strip, Indentation, Leading;
    PairLayout(c, rest, depth);
    var more := Pretty(rest[Leading(rest) + 1..], depth, Outside);
    StripPair(c, rest);
    StripAround([], c, [], [ClosingOf(c)] + more);
    StripAround([], ClosingOf(c), [], more);
    assert [] + [c] + [] + ([ClosingOf(c)] + more) == [c, ClosingOf(c)] + more;
    assert [] + [ClosingOf(c)] + [] + more == [ClosingOf(c)] + more;
    assert [c] + ([ClosingOf(c)] + Strip(more, Outside)) == [c, ClosingOf(c)] + Strip(more, Outside);
  }

  lemma SymbolKept(c: Unit, rest: Text, depth: nat)
    requires c != QUOTE && !(IsOpening(c) && ClosesAtOnce(c, rest))
    ensures Strip(Pretty([c] + rest, depth, Outside), Outside) ==
            (if IsSpace(c) then [] else [c]) + Strip(Pretty(rest, DepthAfter(c, depth), Outside), Outside)
  {
    hide Pretty, Strip, ClosesAtOnce, LayoutBefore, LayoutAfter, Indentation;
    var inner := DepthAfter(c, depth);
    if IsSpace(c) {
      SpaceLayout(c, rest, depth);
      assert [] + Strip(Pretty(rest, depth, Outside), Outside) == Strip(Pretty(rest, depth, Outside), Outside);
    } else {
      SymbolLayout(c, rest, depth);
      StripAround(LayoutBefore(c, inner), c, LayoutAfter(c, inner), Pretty(rest, inner, Outside));
    }
  }

  /** The first symbol after white space is the first symbol of the stripped text. */
  lemma StripStart(rest: Text)
    ensures var k := Leading(rest);
            var stripped := Strip(rest, Outside);
            && Leading(stripped) == 0
            && (k == |rest| <==> stripped == [])
            && (k < |rest| ==> stripped[0] == rest[k] && stripped[1..] == Strip(rest[k + 1..], Next(Outside, rest[k])))
  {
    hide IsSpace, Strip, Leading;
    var k := Leading(rest);
    StripLeading(rest);
    if k < |rest| {
      From(rest, k);
      StripOne(rest[k], rest[k + 1..], Outside);
      NoLeading(rest[k], Strip(rest[k + 1..], Next(Outside, rest[k])));
    } else {
      StripNothing(Outside);
      assert rest[k..] == [];
    }
  }

  /** Leading white space is dropped. */
  lemma StripLeading(rest: Text)
    ensures Strip(rest, Outside) == Strip(rest[Leading(rest)..], Outside)
  {
    hide IsSpace, Strip;
    var k := Leading(rest);
    assert rest == rest[..k] + rest[k..];
    StripLayout(rest[..k], rest[k..]);
  }

  lemma NoLeading(c: Unit, text: Text)
    requires !IsSpace(c)
    ensures Leading([c] + text) == 0 && ([c] + text)[1..] == text
  {
    hide IsSpace;
  }

  /** The formatter looks at lexical content only: layout in its input makes no difference. */
  lemma {:induction false} LayoutIgnored(text: Text, depth: nat, mode: Mode)
    ensures Pretty(text, depth, mode) == Pretty(Strip(text, mode), depth, mode)
    decreases |text|
  {
    hide Pretty, Strip, Indentation, Leading, ClosesAtOnce;
    if text == [] {
      StripNothing(mode);
    } else {
      var c, rest := text[0], text[1..];
      var content := Strip(rest, Next(mode, c));
      assert text == [c] + rest;
      StripOne(c, rest, mode);
      if mode != Outside || c == QUOTE {
        LayoutIgnored(rest, depth, Next(mode, c));
        StringLayout(c, rest, depth, mode);
        StringLayout(c, content, depth, mode);
      } else if IsSpace(c) {
        LayoutIgnored(rest, depth, Outside);
        SpaceLayout(c, rest, depth);
      } else if IsOpening(c) && ClosesAtOnce(c, rest) {
        StripStart(rest);
        SameLookahead(c, rest);
        LayoutIgnored(rest[Leading(rest) + 1..], depth, Outside);
        PairLayout(c, rest, depth);
        PairLayout(c, content, depth);
      } else {
        LayoutIgnored(rest, DepthAfter(c, depth), Outside);
        if IsOpening(c) {
          SameLookahead(c, rest);
        }
        SymbolLayout(c, rest, depth);
        SymbolLayout(c, content, depth);
      }
    }
  }

  lemma SameLookahead(c: Unit, rest: Text)
    requires IsOpening(c)
    ensures ClosesAtOnce(c, rest) == ClosesAtOnce(c, Strip(rest, Outside))
    ensures ClosesAtOnce(c, rest) ==> Leading(rest) < |rest| && Next(Outside, rest[Leading(rest)]) == Outside
  {
    hide Strip, Leading;
    StripStart(rest);
  }

  /** Formatting twice is formatting once. */
  lemma PrettyIsIdempotent(raw: Text)
    ensures var once := Pretty(raw, 0, Outside);
            Pretty(once, 0, Outside) == once
  {
    hide Pretty, Strip;
    ContentKept(raw, 0, Outside);
    LayoutIgnored(raw, 0, Outside);
    LayoutIgnored(Pretty(raw, 0, Outside), 0, Outside);
  }

  /** Two texts are shown alike exactly if they differ in layout only. */
  lemma ShownAlike(a: Text, b: Text)
    ensures Pretty(a, 0, Outside) == Pretty(b, 0, Outside) <==> Strip(a, Outside) == Strip(b, Outside)
  {
    hide Pretty, Strip;
    ContentKept(a, 0, Outside);
    ContentKept(b, 0, Outside);
    LayoutIgnored(a, 0, Outside);
    LayoutIgnored(b, 0, Outside);
  }
}

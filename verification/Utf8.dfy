/**
 * UTF-8 decoding as the relay and the masked-rendering detector use it: one
 * rune at a time, with the replacement rune and width one for malformed input.
 */
module Utf8 {
  import opened Bytes

  const RUNE_ERROR := 0xFFFD

  datatype Decoded = Decoded(rune: int, size: nat)

  predicate Continuation(b: byte) {
    0x80 <= b < 0xC0
  }

  /** The second byte's legal range depends on the first (RFC 3629, section 4). */
  predicate SecondByte(first: byte, second: byte) {
    && Continuation(second)
    && (first == 0xE0 ==> 0xA0 <= second)
    && (first == 0xED ==> second < 0xA0)
    && (first == 0xF0 ==> 0x90 <= second)
    && (first == 0xF4 ==> second < 0x90)
  }

  /** The rune at the start of s; size is zero only for empty input. */
  function DecodeRune(s: bytes): (d: Decoded)
    ensures d.size <= |s|
    ensures s != [] ==> 1 <= d.size <= 4
  {
    if s == [] then Decoded(RUNE_ERROR, 0)
    else if s[0] < 0x80 then Decoded(s[0] as int, 1)
    else if 0xC2 <= s[0] < 0xE0 && 2 <= |s| && Continuation(s[1]) then
      Decoded((s[0] as int - 0xC0) * 64 + (s[1] as int - 0x80), 2)
    else if 0xE0 <= s[0] < 0xF0 && 3 <= |s| && SecondByte(s[0], s[1]) && Continuation(s[2]) then
      Decoded((s[0] as int - 0xE0) * 4096 + (s[1] as int - 0x80) * 64 + (s[2] as int - 0x80), 3)
    else if 0xF0 <= s[0] < 0xF5 && 4 <= |s| && SecondByte(s[0], s[1]) && Continuation(s[2]) && Continuation(s[3]) then
      Decoded((s[0] as int - 0xF0) * 262144 + (s[1] as int - 0x80) * 4096
              + (s[2] as int - 0x80) * 64 + (s[3] as int - 0x80), 4)
    else Decoded(RUNE_ERROR, 1)
  }

  /** Whether s is entirely well-formed UTF-8. */
  predicate Valid(s: bytes)
    decreases |s|
  {
    s == [] || (DecodeRune(s) != Decoded(RUNE_ERROR, 1) && Valid(s[DecodeRune(s).size..]))
  }

  function EncodeRune(c: char): (r: bytes)
    ensures 1 <= |r| <= 4
  {
    var rune := c as int;
    if rune < 0x80 then [rune as byte]
    else if rune < 0x800 then [(0xC0 + rune / 64) as byte, (0x80 + rune % 64) as byte]
    else if rune < 0x1_0000 then
      [(0xE0 + rune / 64 / 64) as byte, (0x80 + rune / 64 % 64) as byte, (0x80 + rune % 64) as byte]
    else
      [(0xF0 + rune / 64 / 64 / 64) as byte, (0x80 + rune / 64 / 64 % 64) as byte, (0x80 + rune / 64 % 64) as byte,
       (0x80 + rune % 64) as byte]
  }

  function Encode(s: string): bytes {
    if s == [] then [] else EncodeRune(s[0]) + Encode(s[1..])
  }

  lemma DecodeTwo(a: int, b: int, rest: bytes)
    requires 2 <= a < 32 && 0 <= b < 64
    ensures DecodeRune([(0xC0 + a) as byte, (0x80 + b) as byte] + rest) == Decoded(a * 64 + b, 2)
  {
    var s := [(0xC0 + a) as byte, (0x80 + b) as byte] + rest;
    assert s[0] == (0xC0 + a) as byte && s[1] == (0x80 + b) as byte;
  }

  lemma DecodeThree(a: int, b: int, c: int, rest: bytes)
    requires 0 <= a < 16 && 0 <= b < 64 && 0 <= c < 64
    requires (a == 0 ==> 32 <= b) && (a == 13 ==> b < 32)
    ensures DecodeRune([(0xE0 + a) as byte, (0x80 + b) as byte, (0x80 + c) as byte] + rest) ==
              Decoded(a * 4096 + b * 64 + c, 3)
  {
    var s := [(0xE0 + a) as byte, (0x80 + b) as byte, (0x80 + c) as byte] + rest;
    assert s[0] == (0xE0 + a) as byte && s[1] == (0x80 + b) as byte && s[2] == (0x80 + c) as byte;
  }

  lemma DecodeFour(a: int, b: int, c: int, d: int, rest: bytes)
    requires 0 <= a < 5 && 0 <= b < 64 && 0 <= c < 64 && 0 <= d < 64
    requires (a == 0 ==> 16 <= b) && (a == 4 ==> b < 16)
    ensures DecodeRune([(0xF0 + a) as byte, (0x80 + b) as byte, (0x80 + c) as byte, (0x80 + d) as byte] + rest)
         == Decoded(a * 262144 + b * 4096 + c * 64 + d, 4)
  {
    var s := [(0xF0 + a) as byte, (0x80 + b) as byte, (0x80 + c) as byte, (0x80 + d) as byte] + rest;
    assert s[0] == (0xF0 + a) as byte && s[1] == (0x80 + b) as byte && s[2] == (0x80 + c) as byte
           && s[3] == (0x80 + d) as byte;
  }

  /** A rune encoded at the start of a text is decoded from it again. */
  lemma DecodeEncoded(c: char, rest: bytes)
    ensures DecodeRune(EncodeRune(c) + rest) == Decoded(c as int, |EncodeRune(c)|)
    ensures |EncodeRune(c)| == 1 ==> (c as int) < 0x80
  {
    hide DecodeRune;
    var rune := c as int;
    if rune < 0x80 {
      DecodeOne(rune, rest);
    } else if rune < 0x800 {
      DecodeTwo(rune / 64, rune % 64, rest);
    } else if rune < 0x1_0000 {
      DecodeThree(rune / 64 / 64, rune / 64 % 64, rune % 64, rest);
    } else {
      DecodeFour(rune / 64 / 64 / 64, rune / 64 / 64 % 64, rune / 64 % 64, rune % 64, rest);
    }
  }

  lemma DecodeOne(a: int, rest: bytes)
    requires 0 <= a < 0x80
    ensures DecodeRune([a as byte] + rest) == Decoded(a, 1)
  {
  }

  /** Encoded text is well formed. */
  lemma {:induction false} EncodedIsValid(s: string)
    ensures Valid(Encode(s))
  {
    hide EncodeRune, DecodeRune;
    if s != [] {
      var first, rest := EncodeRune(s[0]), Encode(s[1..]);
      EncodedIsValid(s[1..]);
      DecodeEncoded(s[0], rest);
      assert (first + rest)[|first|..] == rest;
    }
  }

  /** Encoding makes no line breaks and loses none. */
  lemma {:induction false} EncodedLineBreaks(s: string)
    ensures NoLineBreak(Encode(s)) <==> '\n' !in s && '\r' !in s
  {
    hide EncodeRune;
    if s != [] {
      EncodedLineBreaks(s[1..]);
      RuneLineBreaks(s[0]);
      assert s == [s[0]] + s[1..];
    }
  }

  lemma RuneLineBreaks(c: char)
    ensures NoLineBreak(EncodeRune(c)) <==> c != '\n' && c != '\r'
  {
    var r := EncodeRune(c);
    assert r[0] in r;
  }

  // --- only encoded text is accepted ---

  /** A Unicode scalar value: not a surrogate, and not too large. */
  predicate Scalar(rune: int) {
    0 <= rune < 0xD800 || 0xE000 <= rune < 0x11_0000
  }

  lemma TwoIsEncoded(a: int, b: int)
    requires 2 <= a < 32 && 0 <= b < 64
    ensures EncodeRune((a * 64 + b) as char) == [(0xC0 + a) as byte, (0x80 + b) as byte]
  {
  }

  lemma ThreeIsEncoded(a: int, b: int, c: int)
    requires 0 <= a < 16 && 0 <= b < 64 && 0 <= c < 64
    requires (a == 0 ==> 32 <= b) && (a == 13 ==> b < 32)
    ensures Scalar(a * 4096 + b * 64 + c)
    ensures EncodeRune((a * 4096 + b * 64 + c) as char) == [(0xE0 + a) as byte, (0x80 + b) as byte, (0x80 + c) as byte]
  {
    assert (a * 4096 + b * 64 + c) / 64 == a * 64 + b;
  }

  lemma FourIsEncoded(a: int, b: int, c: int, d: int)
    requires 0 <= a < 5 && 0 <= b < 64 && 0 <= c < 64 && 0 <= d < 64
    requires (a == 0 ==> 16 <= b) && (a == 4 ==> b < 16)
    ensures Scalar(a * 262144 + b * 4096 + c * 64 + d)
    ensures EncodeRune((a * 262144 + b * 4096 + c * 64 + d) as char) ==
            [(0xF0 + a) as byte, (0x80 + b) as byte, (0x80 + c) as byte, (0x80 + d) as byte]
  {
    var rune := a * 262144 + b * 4096 + c * 64 + d;
    assert rune / 64 == a * 4096 + b * 64 + c;
    assert rune / 64 / 64 == a * 64 + b;
  }

  /** What is decoded properly is the encoding of a rune: no surrogate, none too large, none in a longer form. */
  lemma DecodedIsEncoded(s: bytes)
    requires s != [] && DecodeRune(s) != Decoded(RUNE_ERROR, 1)
    ensures var d := DecodeRune(s);
            Scalar(d.rune) && s[..d.size] == EncodeRune(d.rune as char)
  {
    hide EncodeRune;
    var d := DecodeRune(s);
    if d.size == 1 {
      OneIsEncoded(s[0]);
    } else if d.size == 2 {
      TwoIsEncoded(s[0] as int - 0xC0, s[1] as int - 0x80);
    } else if d.size == 3 {
      ThreeIsEncoded(s[0] as int - 0xE0, s[1] as int - 0x80, s[2] as int - 0x80);
    } else {
      FourIsEncoded(s[0] as int - 0xF0, s[1] as int - 0x80, s[2] as int - 0x80, s[3] as int - 0x80);
    }
  }

  lemma OneIsEncoded(b: byte)
    requires b < 0x80
    ensures EncodeRune(b as int as char) == [b]
  {
  }

  /** Text is exactly what some string encodes to. */
  lemma {:induction false} ValidIsEncoded(s: bytes)
    ensures Valid(s) <==> exists t: string :: Encode(t) == s
    decreases |s|
  {
    hide DecodeRune, EncodeRune;
    if Valid(s) {
      if s == [] {
        assert Encode("") == s;
      } else {
        var d := DecodeRune(s);
        DecodedIsEncoded(s);
        ValidIsEncoded(s[d.size..]);
        var rest: string :| Encode(rest) == s[d.size..];
        var t := [d.rune as char] + rest;
        assert t[0] == d.rune as char && t[1..] == rest;
        assert s == s[..d.size] + s[d.size..];
        assert Encode(t) == s;
      }
    }
    if t: string :| Encode(t) == s {
      EncodedIsValid(t);
    }
  }

  // --- where runes start ---

  /** What is decoded properly does not depend on what follows it. */
  lemma DecodePrefix(a: bytes, b: bytes)
    requires a != [] && DecodeRune(a) != Decoded(RUNE_ERROR, 1)
    ensures DecodeRune(a + b) == DecodeRune(a)
  {
    assert forall k :: 0 <= k < |a| ==> (a + b)[k] == a[k];
  }

  lemma {:induction false} ValidConcat(a: bytes, b: bytes)
    requires Valid(a)
    ensures Valid(a + b) <==> Valid(b)
    decreases |a|
  {
    hide DecodeRune;
    if a == [] {
      assert a + b == b;
    } else {
      var size := DecodeRune(a).size;
      DecodePrefix(a, b);
      assert (a + b)[size..] == a[size..] + b;
      ValidConcat(a[size..], b);
    }
  }

  /** The bytes of a rune after its first one, and only those, are continuation bytes. */
  lemma RuneShape(s: bytes)
    requires s != [] && DecodeRune(s) != Decoded(RUNE_ERROR, 1)
    ensures !Continuation(s[0])
    ensures forall k :: 1 <= k < DecodeRune(s).size ==> Continuation(s[k])
  {
  }

  /** Well-formed text is well formed from every byte on that starts a rune. */
  lemma {:induction false} ValidFrom(s: bytes, i: nat)
    requires Valid(s) && i <= |s| && (i < |s| ==> !Continuation(s[i]))
    ensures Valid(s[i..])
    decreases |s|
  {
    hide DecodeRune, Continuation;
    if i == 0 {
      assert s[0..] == s;
    } else {
      var size := DecodeRune(s).size;
      RuneShape(s);
      assert s[size..][i - size..] == s[i..];
      ValidFrom(s[size..], i - size);
    }
  }

  /** From any point on, the next rune starts, or the text ends, within three bytes. */
  lemma {:induction false} NextStart(s: bytes, i: nat) returns (j: nat)
    requires Valid(s) && i <= |s|
    ensures i <= j <= |s| && j <= i + 3 && (j < |s| ==> !Continuation(s[j]))
    decreases |s|
  {
    hide DecodeRune, Continuation;
    if s == [] {
      return 0;
    }
    RuneShape(s);
    var size := DecodeRune(s).size;
    if i == 0 {
      return 0;
    }
    if i > size {
      j := NextStart(s[size..], i - size);
      return j + size;
    }
    if s[size..] != [] {
      RuneShape(s[size..]);
    }
    return size;
  }
}

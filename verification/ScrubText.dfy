/** Scrubbing keeps text text: what it replaces in well-formed UTF-8 are whole runes. */
module ScrubText {
  import opened Bytes
  import opened SecretPolicy
  import opened MatchReference
  import MaskedValue
  import ScrubCoverage
  import Utf8

  predicate TextNeedles(needles: seq<ReferenceNeedle>) {
    forall n :: n in needles ==> Utf8.Valid(n.from) && Utf8.Valid(n.to)
  }

  predicate TextItems(items: seq<Secret>) {
    forall s :: s in items ==> Utf8.Valid(s.value) && Utf8.Valid(s.placeholder)
  }

  /** A value, and what stands for it, is text however it is written. */
  predicate TextSecret(s: Secret) {
    Utf8.Valid(s.value) && Utf8.Valid(s.placeholder) && forall r :: r in s.representations ==> Utf8.Valid(r)
  }

  lemma {:induction false} MaskRunKeepsText(data: bytes, offset: nat)
    requires offset <= |data| && Utf8.Valid(data[offset..])
    ensures Utf8.Valid(data[MaskedValue.MaskRun(data, offset).end..])
    decreases |data| - offset
  {
    hide Utf8.DecodeRune;
    var d := Utf8.DecodeRune(data[offset..]);
    if offset < |data| && MaskedValue.MaskRune(d.rune) {
      assert data[offset..][d.size..] == data[offset + d.size..];
      MaskRunKeepsText(data, offset + d.size);
    }
  }

  /**
   * A masked rendering in text ends where a rune ends, although it may show only a
   * part of the value's runes: a mask follows what it shows of the start, and what it
   * shows of the end ends with the value. The first few bytes need not be text.
   */
  lemma MaskedEndsText(data: bytes, from: nat, value: bytes)
    requires from <= MaskedValue.MIN_VISIBLE && from <= |data| && Utf8.Valid(data[from..])
    requires Utf8.Valid(value) && MaskedValue.MaskedLength(data, value) > 0
    ensures MaskedValue.MaskedLength(data, value) <= |data|
    ensures Utf8.Valid(data[MaskedValue.MaskedLength(data, value)..])
  {
    hide Utf8.Valid, Utf8.DecodeRune, MaskedValue.MaskedLength;
    MaskedValue.MaskedLengthMeaning(data, value);
    var p: nat, s: nat :| MaskedValue.Preferred(data, value, p, s);
    assert MaskedValue.PrefixFits(data, value, p);
    var q := MaskedValue.MaskRun(data, p).end;
    MaskedValue.MaskRuneBytes(data, p);
    Utf8.ValidFrom(data[from..], p - from);
    assert data[from..][p - from..] == data[p..];
    MaskRunKeepsText(data, p);
    SuffixEndsText(data[q..], value, s);
    assert data[q..][s..] == data[q + s..];
  }

  lemma SuffixEndsText(rest: bytes, value: bytes, s: nat)
    requires Utf8.Valid(rest) && Utf8.Valid(value) && MaskedValue.SuffixFits(rest, value, s)
    ensures Utf8.Valid(rest[s..])
  {
    hide Utf8.Valid;
    var tail := value[|value| - s..];
    StartsText(rest);
    assert rest[0] == tail[0] == value[|value| - s];
    Utf8.ValidFrom(value, |value| - s);
    assert rest == tail + rest[s..];
    Utf8.ValidConcat(tail, rest[s..]);
  }

  lemma StartsText(s: bytes)
    requires Utf8.Valid(s) && s != []
    ensures !Utf8.Continuation(s[0])
  {
    Utf8.RuneShape(s);
  }

  lemma MaskedStarts(data: bytes, value: bytes)
    requires MaskedValue.MaskedLength(data, value) > 0
    ensures value != [] && data != [] && value[0] == data[0]
  {
    MaskedValue.PrefilterLosesNothing(data, value);
    assert value[..MaskedValue.MIN_VISIBLE][0] == data[0];
  }

  /** Inside a rune nothing is replaced. */
  lemma NoStepInside(needles: seq<ReferenceNeedle>, items: seq<Secret>, data: bytes)
    requires TextNeedles(needles) && TextItems(items) && data != [] && Utf8.Continuation(data[0])
    ensures Step(needles, items, data).None?
  {
    hide Utf8.Valid, Utf8.Continuation, MaskedValue.MaskedLength;
    var n := FirstPrefix(needles, data);
    if n.Some? {
      StartsText(n.value.from);
    } else if FirstMasked(items, data).Some? {
      ScrubCoverage.FirstMaskedComplete(items, data);
      var s :| s in items && MaskedValue.MaskedLength(data, s.value) > 0;
      MaskedStarts(data, s.value);
      StartsText(s.value);
    }
  }

  /** At the start of a rune whole runes are replaced, by text. */
  lemma StepEndsText(needles: seq<ReferenceNeedle>, items: seq<Secret>, data: bytes)
    requires TextNeedles(needles) && TextItems(items) && Utf8.Valid(data) && Step(needles, items, data).Some?
    ensures var step := Step(needles, items, data).value;
            Utf8.Valid(data[step.length..]) && Utf8.Valid(step.to)
  {
    hide Utf8.Valid, MaskedValue.MaskedLength;
    var n, step := FirstPrefix(needles, data), Step(needles, items, data).value;
    if n.Some? {
      assert data == n.value.from + data[step.length..];
      Utf8.ValidConcat(n.value.from, data[step.length..]);
    } else {
      ScrubCoverage.FirstMaskedComplete(items, data);
      var s :| s in items && step == Replacement(MaskedValue.MaskedLength(data, s.value), s.name, s.placeholder);
      assert data[0..] == data;
      MaskedEndsText(data, 0, s.value);
    }
  }

  lemma FirstCopied(needles: seq<ReferenceNeedle>, items: seq<Secret>, data: bytes)
    requires data != [] && Step(needles, items, data).None?
    ensures Rewrite(needles, items, data).data == [data[0]] + Rewrite(needles, items, data[1..]).data
  {
    hide Step;
  }

  lemma {:induction false} CopiedOn(needles: seq<ReferenceNeedle>, items: seq<Secret>, data: bytes, n: nat)
    requires n <= |data| && forall k :: 0 <= k < n ==> Step(needles, items, data[k..]).None?
    ensures Rewrite(needles, items, data).data == data[..n] + Rewrite(needles, items, data[n..]).data
  {
    hide Step, Rewrite;
    assert data[0..] == data;
    if n > 0 {
      var rest := data[1..];
      forall k | 0 <= k <= n - 1 ensures rest[k..] == data[k + 1..] {
      }
      FirstCopied(needles, items, data);
      CopiedOn(needles, items, rest, n - 1);
      assert [data[0]] + rest[..n - 1] == data[..n];
    }
  }

  /** Rewriting text with text gives text. */
  lemma {:induction false} RewriteKeepsText(needles: seq<ReferenceNeedle>, items: seq<Secret>, data: bytes)
    requires TextNeedles(needles) && TextItems(items) && Utf8.Valid(data)
    ensures Utf8.Valid(Rewrite(needles, items, data).data)
    decreases |data|
  {
    hide Step, Utf8.DecodeRune, TextNeedles, TextItems, Utf8.Continuation;
    if data != [] {
      var step := Step(needles, items, data);
      if step.Some? {
        StepEndsText(needles, items, data);
        RewriteKeepsText(needles, items, data[step.value.length..]);
        Utf8.ValidConcat(step.value.to, Rewrite(needles, items, data[step.value.length..]).data);
      } else {
        var size := Utf8.DecodeRune(data).size;
        RuneCopied(needles, items, data);
        RewriteKeepsText(needles, items, data[size..]);
        Utf8.ValidConcat(data[..size], Rewrite(needles, items, data[size..]).data);
      }
    }
  }

  /** A rune nothing starts with is copied whole. */
  lemma RuneCopied(needles: seq<ReferenceNeedle>, items: seq<Secret>, data: bytes)
    requires TextNeedles(needles) && TextItems(items) && Utf8.Valid(data) && data != []
    requires Step(needles, items, data).None?
    ensures var size := Utf8.DecodeRune(data).size;
            && Utf8.Valid(data[..size])
            && Rewrite(needles, items, data).data == data[..size] + Rewrite(needles, items, data[size..]).data
  {
    hide Step, Utf8.DecodeRune, TextNeedles, TextItems, Utf8.Continuation, Rewrite;
    var size := Utf8.DecodeRune(data).size;
    Utf8.RuneShape(data);
    forall k | 0 <= k < size ensures Step(needles, items, data[k..]).None? {
      if k == 0 {
        assert data[0..] == data;
      } else {
        NoStepInside(needles, items, data[k..]);
      }
    }
    CopiedOn(needles, items, data, size);
    RuneIsText(data);
  }

  lemma RuneIsText(data: bytes)
    requires Utf8.Valid(data) && data != []
    ensures Utf8.Valid(data[..Utf8.DecodeRune(data).size])
  {
    var size := Utf8.DecodeRune(data).size;
    var rune := data[..size];
    assert Utf8.DecodeRune(rune) == Utf8.DecodeRune(data);
    assert rune[size..] == [];
  }

  /**
   * Where the values in scope and their placeholders are text, the scrub of text is
   * text, also where masked renderings show only a part of a value.
   */
  lemma ScrubKeepsText(secrets: seq<Secret>, data: bytes, client: string, host: string)
    requires Utf8.Valid(data) && forall s :: s in secrets && InScope(s, client, host) ==> TextSecret(s)
    ensures Utf8.Valid(ReferenceScrub(secrets, data, client, host).data)
  {
    hide InScope, Utf8.Valid;
    var needles, items := StableSort(ScrubNeedles(secrets, client, host)), ScopedSecrets(secrets, client, host);
    ScrubCoverage.SortedScrubNeedlesAre(secrets, client, host);
    ScrubCoverage.ScrubNeedlesAre(secrets, client, host);
    forall n | n in needles ensures Utf8.Valid(n.from) && Utf8.Valid(n.to) {
      assert ScrubCoverage.Represents(secrets, client, host, n);
    }
    RewriteKeepsText(needles, items, data);
  }

  /** The same for sanitizing, with the markers and the placeholders' own representations. */
  lemma SanitizeKeepsText(secrets: seq<Secret>, data: bytes)
    requires Utf8.Valid(data)
    requires forall s :: s in secrets ==>
      Utf8.Valid(s.marker) && forall r :: r in s.representations + s.placeholderRepresentations ==> Utf8.Valid(r)
    ensures Utf8.Valid(ReferenceSanitize(secrets, data))
  {
    hide Utf8.Valid;
    var needles := StableSort(SanitizeNeedles(secrets));
    ScrubCoverage.SortedSanitizeNeedlesAre(secrets);
    forall n | n in needles ensures Utf8.Valid(n.from) && Utf8.Valid(n.to) {
      assert ScrubCoverage.Marks(secrets, n);
    }
    RewriteKeepsText(needles, [], data);
  }

  // --- text behind two other bytes ---

  /** Long enough to be told from two bytes of a status code, and with an ASCII start in its place. */
  predicate LongSecret(s: Secret) {
    && 2 <= |s.placeholder| && s.placeholder[0] < 0x80 && s.placeholder[1] < 0x80
    && forall r :: r in s.representations ==> |r| >= 6
  }

  predicate LongNeedles(needles: seq<ReferenceNeedle>) {
    forall n :: n in needles ==> |n.from| >= 6 && 2 <= |n.to| && n.to[0] < 0x80 && n.to[1] < 0x80
  }

  predicate LongItems(items: seq<Secret>) {
    forall s :: s in items ==> LongSecret(s)
  }

  /** A long match that begins before the text still ends where a rune ends. */
  lemma NeedleEndsText(data: bytes, from: nat, needle: bytes)
    requires from <= 2 && from <= |data| && Utf8.Valid(data[from..])
    requires Utf8.Valid(needle) && |needle| >= 6 && needle <= data
    ensures Utf8.Valid(data[|needle|..])
  {
    hide Utf8.Valid;
    var j := Utf8.NextStart(needle, from);
    assert data[j] == needle[j];
    Utf8.ValidFrom(needle, j);
    Utf8.ValidFrom(data[from..], j - from);
    assert data[from..][j - from..] == data[j..];
    assert data[j..] == needle[j..] + data[|needle|..];
    Utf8.ValidConcat(needle[j..], data[|needle|..]);
  }

  /**
   * What a step at most two bytes before the text leaves is text, and so is its replacement
   * from any of its first bytes on.
   */
  lemma StepBeforeText(needles: seq<ReferenceNeedle>, items: seq<Secret>, data: bytes, from: nat)
    requires TextNeedles(needles) && TextItems(items) && LongNeedles(needles) && LongItems(items)
    requires from <= 2 && from <= |data| && Utf8.Valid(data[from..]) && Step(needles, items, data).Some?
    ensures var step := Step(needles, items, data).value;
            && from <= step.length && Utf8.Valid(data[step.length..])
            && 2 <= |step.to| && Utf8.Valid(step.to[1..]) && Utf8.Valid(step.to[2..])
  {
    hide Utf8.Valid, MaskedValue.MaskedLength;
    var n, step := FirstPrefix(needles, data), Step(needles, items, data).value;
    if n.Some? {
      NeedleEndsText(data, from, n.value.from);
    } else {
      ScrubCoverage.FirstMaskedComplete(items, data);
      var s :| s in items && step == Replacement(MaskedValue.MaskedLength(data, s.value), s.name, s.placeholder);
      MaskedEndsText(data, from, s.value);
      MaskedIsLong(data, s.value);
    }
    AsciiStart(step.to);
  }

  lemma MaskedIsLong(data: bytes, value: bytes)
    requires MaskedValue.MaskedLength(data, value) > 0
    ensures MaskedValue.MaskedLength(data, value) >= MaskedValue.MIN_VISIBLE
  {
    MaskedValue.MaskedLengthMeaning(data, value);
    var p: nat, s: nat :| MaskedValue.Preferred(data, value, p, s);
  }

  lemma AsciiStart(s: bytes)
    requires Utf8.Valid(s) && 2 <= |s| && s[0] < 0x80 && s[1] < 0x80
    ensures Utf8.Valid(s[1..]) && Utf8.Valid(s[2..])
  {
    assert s[1..][1..] == s[2..];
  }

  /** What follows the first two bytes stays text, whatever those two are. */
  lemma RewriteBehindTwo(needles: seq<ReferenceNeedle>, items: seq<Secret>, data: bytes)
    requires TextNeedles(needles) && TextItems(items) && LongNeedles(needles) && LongItems(items)
    requires 2 <= |data| && Utf8.Valid(data[2..])
    ensures var out := Rewrite(needles, items, data).data;
            2 <= |out| && Utf8.Valid(out[2..])
  {
    hide Step, TextNeedles, TextItems, LongNeedles, LongItems, Utf8.Valid;
    var out, step := Rewrite(needles, items, data).data, Step(needles, items, data);
    if step.Some? {
      StepBeforeText(needles, items, data, 2);
      FollowedByText(needles, items, data[step.value.length..], step.value.to, 2);
    } else {
      var later := data[1..];
      var rest := Rewrite(needles, items, later).data;
      assert later[1..] == data[2..];
      assert out == [data[0]] + rest;
      RewriteBehindOne(needles, items, later);
      assert out[2..] == rest[1..];
    }
  }

  lemma RewriteBehindOne(needles: seq<ReferenceNeedle>, items: seq<Secret>, data: bytes)
    requires TextNeedles(needles) && TextItems(items) && LongNeedles(needles) && LongItems(items)
    requires 1 <= |data| && Utf8.Valid(data[1..])
    ensures var out := Rewrite(needles, items, data).data;
            1 <= |out| && Utf8.Valid(out[1..])
  {
    hide Step, TextNeedles, TextItems, LongNeedles, LongItems, Utf8.Valid;
    var step := Step(needles, items, data);
    if step.Some? {
      StepBeforeText(needles, items, data, 1);
      FollowedByText(needles, items, data[step.value.length..], step.value.to, 1);
    } else {
      RewriteKeepsText(needles, items, data[1..]);
      assert ([data[0]] + Rewrite(needles, items, data[1..]).data)[1..] == Rewrite(needles, items, data[1..]).data;
    }
  }

  lemma FollowedByText(needles: seq<ReferenceNeedle>, items: seq<Secret>, rest: bytes, to: bytes, k: nat)
    requires TextNeedles(needles) && TextItems(items) && Utf8.Valid(rest) && k <= |to| && Utf8.Valid(to[k..])
    ensures Utf8.Valid((to + Rewrite(needles, items, rest).data)[k..])
  {
    hide Utf8.Valid, TextNeedles, TextItems, Rewrite;
    RewriteKeepsText(needles, items, rest);
    var more := Rewrite(needles, items, rest).data;
    assert (to + more)[k..] == to[k..] + more;
    Utf8.ValidConcat(to[k..], more);
  }

  /** Scrubbing text behind two other bytes leaves text behind two bytes. */
  lemma ScrubBehindTwo(secrets: seq<Secret>, data: bytes, client: string, host: string)
    requires 2 <= |data| && Utf8.Valid(data[2..])
    requires forall s :: s in secrets && InScope(s, client, host) ==> TextSecret(s) && LongSecret(s)
    ensures var out := ReferenceScrub(secrets, data, client, host).data;
            2 <= |out| && Utf8.Valid(out[2..])
  {
    hide InScope, Utf8.Valid;
    var needles, items := StableSort(ScrubNeedles(secrets, client, host)), ScopedSecrets(secrets, client, host);
    ScrubCoverage.SortedScrubNeedlesAre(secrets, client, host);
    ScrubCoverage.ScrubNeedlesAre(secrets, client, host);
    forall n | n in needles
      ensures Utf8.Valid(n.from) && Utf8.Valid(n.to)
      ensures |n.from| >= 6 && 2 <= |n.to| && n.to[0] < 0x80 && n.to[1] < 0x80
    {
      assert ScrubCoverage.Represents(secrets, client, host, n);
    }
    RewriteBehindTwo(needles, items, data);
  }
}

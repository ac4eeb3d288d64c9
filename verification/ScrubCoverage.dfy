/**
 * What scrubbing guarantees about its input: it is cut into copied and replaced
 * stretches, every occurrence of a value in scope starts inside a replaced one,
 * and nothing else is replaced.
 */
module ScrubCoverage {
  import opened Bytes
  import opened SecretPolicy
  import opened MatchReference
  import MaskedValue

  datatype Stretch =
    | Copied(original: bytes)
    | Replaced(original: bytes, name: string, to: bytes)

  function Stretches(needles: seq<ReferenceNeedle>, masked: seq<Secret>, data: bytes): seq<Stretch>
    decreases |data|
  {
    if data == [] then []
    else
      var step := Step(needles, masked, data);
      if step.Some? then
        [Replaced(data[..step.value.length], step.value.name, step.value.to)]
        + Stretches(needles, masked, data[step.value.length..])
      else [Copied(data[..1])] + Stretches(needles, masked, data[1..])
  }

  /** The cut of data that scrubbing for this client and host makes. */
  function ScrubStretches(secrets: seq<Secret>, data: bytes, client: string, host: string): seq<Stretch> {
    Stretches(StableSort(ScrubNeedles(secrets, client, host)), ScopedSecrets(secrets, client, host), data)
  }

  function Originals(stretches: seq<Stretch>): bytes {
    if stretches == [] then [] else stretches[0].original + Originals(stretches[1..])
  }

  function Output(stretches: seq<Stretch>): bytes {
    if stretches == [] then []
    else (if stretches[0].Copied? then stretches[0].original else stretches[0].to) + Output(stretches[1..])
  }

  function Names(stretches: seq<Stretch>): set<string> {
    if stretches == [] then {}
    else (if stretches[0].Copied? then {} else {stretches[0].name}) + Names(stretches[1..])
  }

  /** The input offset lies in a replaced stretch. */
  predicate Covered(stretches: seq<Stretch>, offset: nat) {
    stretches != [] &&
    if offset < |stretches[0].original| then stretches[0].Replaced?
    else Covered(stretches[1..], offset - |stretches[0].original|)
  }

  lemma {:induction false} StretchesRewrite(needles: seq<ReferenceNeedle>, masked: seq<Secret>, data: bytes)
    ensures Originals(Stretches(needles, masked, data)) == data
    ensures Rewritten(Output(Stretches(needles, masked, data)), Names(Stretches(needles, masked, data))) ==
              Rewrite(needles, masked, data)
    decreases |data|
  {
    hide Step;
    if data != [] {
      var step := Step(needles, masked, data);
      var length := if step.Some? then step.value.length else 1;
      StretchesRewrite(needles, masked, data[length..]);
      Splice(data, length, |data|);
      TakeAll(data);
      StretchesStep(needles, masked, data);
    }
  }

  /** The first stretch and the rest. */
  lemma StretchesStep(needles: seq<ReferenceNeedle>, masked: seq<Secret>, data: bytes)
    requires data != []
    ensures var step := Step(needles, masked, data);
            var length := if step.Some? then step.value.length else 1;
            var first :=
              if step.Some? then Replaced(data[..length], step.value.name, step.value.to) else Copied(data[..1]);
            var rest := Stretches(needles, masked, data[length..]);
            && Stretches(needles, masked, data) == [first] + rest
            && Originals([first] + rest) == data[..length] + Originals(rest)
            && Output([first] + rest) == (if step.Some? then step.value.to else [data[0]]) + Output(rest)
            && Names([first] + rest) == (if step.Some? then {step.value.name} else {}) + Names(rest)
  {
    hide Step;
    TakeOne(data, 0);
    var step := Step(needles, masked, data);
    var length := if step.Some? then step.value.length else 1;
    var first := if step.Some? then Replaced(data[..length], step.value.name, step.value.to) else Copied(data[..1]);
    var rest := Stretches(needles, masked, data[length..]);
    assert ([first] + rest)[1..] == rest;
  }

  /** Putting every replaced stretch back recovers the input; putting its placeholder there instead is the output. */
  lemma ScrubRecovers(secrets: seq<Secret>, data: bytes, client: string, host: string)
    ensures Originals(ScrubStretches(secrets, data, client, host)) == data
    ensures Output(ScrubStretches(secrets, data, client, host)) == ReferenceScrub(secrets, data, client, host).data
    ensures Names(ScrubStretches(secrets, data, client, host)) == ReferenceScrub(secrets, data, client, host).names
  {
    StretchesRewrite(StableSort(ScrubNeedles(secrets, client, host)), ScopedSecrets(secrets, client, host), data);
  }

  lemma {:induction false} StepsCover(needles: seq<ReferenceNeedle>, masked: seq<Secret>, data: bytes, offset: nat)
    requires offset < |data| && Step(needles, masked, data[offset..]).Some?
    ensures Covered(Stretches(needles, masked, data), offset)
    decreases |data|
  {
    hide Step;
    var step := Step(needles, masked, data);
    assert data[0..] == data;
    var length := if step.Some? then step.value.length else 1;
    var rest := Stretches(needles, masked, data[length..]);
    assert ([Stretches(needles, masked, data)[0]] + rest)[1..] == rest;
    if length <= offset {
      assert data[length..][offset - length..] == data[offset..];
      StepsCover(needles, masked, data[length..], offset - length);
    }
  }

  // --- membership in the reference's lists ---

  lemma {:induction false} NeedlesForTexts(name: string, texts: seq<bytes>, to: bytes)
    ensures forall t :: t in texts ==> ReferenceNeedle(name, t, to) in NeedlesFor(name, texts, to)
    ensures forall n :: n in NeedlesFor(name, texts, to) ==> n.name == name && n.to == to && n.from in texts
  {
    if texts != [] {
      NeedlesForTexts(name, texts[..|texts| - 1], to);
      assert texts == texts[..|texts| - 1] + [texts[|texts| - 1]];
    }
  }

  /** A value of a secret in scope: one of its representations under its own name and placeholder. */
  predicate Represents(secrets: seq<Secret>, client: string, host: string, n: ReferenceNeedle) {
    exists s :: s in secrets && InScope(s, client, host) && n.from in s.representations &&
                n.name == s.name && n.to == s.placeholder
  }

  lemma {:induction false} ScrubNeedlesAre(secrets: seq<Secret>, client: string, host: string)
    ensures forall n :: n in ScrubNeedles(secrets, client, host) <==> Represents(secrets, client, host, n)
    ensures forall s :: s in ScopedSecrets(secrets, client, host) <==> s in secrets && InScope(s, client, host)
  {
    if secrets != [] {
      var init, last := secrets[..|secrets| - 1], secrets[|secrets| - 1];
      ScrubNeedlesAre(init, client, host);
      NeedlesForTexts(last.name, last.representations, last.placeholder);
      assert secrets == init + [last];
      forall n ensures n in ScrubNeedles(secrets, client, host) <==> Represents(secrets, client, host, n) {
        if Represents(secrets, client, host, n) {
          var s :| s in secrets && InScope(s, client, host) && n.from in s.representations &&
                   n.name == s.name && n.to == s.placeholder;
          if s in init {
            assert Represents(init, client, host, n);
          } else {
            assert n == ReferenceNeedle(last.name, n.from, last.placeholder);
          }
        }
      }
    }
  }

  lemma SortedScrubNeedlesAre(secrets: seq<Secret>, client: string, host: string)
    ensures forall n :: n in StableSort(ScrubNeedles(secrets, client, host)) <==> Represents(secrets, client, host, n)
  {
    var needles := ScrubNeedles(secrets, client, host);
    StableSortSorts(needles);
    ScrubNeedlesAre(secrets, client, host);
    forall n ensures n in StableSort(needles) <==> n in needles {
      assert n in multiset(StableSort(needles)) <==> n in multiset(needles);
    }
  }

  lemma {:induction false} FirstMaskedComplete(items: seq<Secret>, data: bytes)
    ensures FirstMasked(items, data).None? ==> forall s :: s in items ==> MaskedValue.MaskedLength(data, s.value) == 0
    ensures FirstMasked(items, data).Some? ==>
      exists s :: s in items &&
                  FirstMasked(items, data).value ==
                  Replacement(MaskedValue.MaskedLength(data, s.value), s.name, s.placeholder)
  {
    if items != [] && MaskedValue.MaskedLength(data, items[0].value) == 0 {
      FirstMaskedComplete(items[1..], data);
    }
  }

  /**
   * No occurrence of a value in scope survives: wherever in the input one of its
   * representations, or a masked rendering of it, starts, that byte is replaced.
   */
  lemma OccurrencesAreCovered(secrets: seq<Secret>, data: bytes, client: string, host: string, s: Secret, offset: nat)
    requires s in secrets && InScope(s, client, host) && offset < |data|
    requires || (exists r :: r in s.representations && r != [] && r <= data[offset..])
             || MaskedValue.IsMasked(data[offset..], s.value)
    ensures Covered(ScrubStretches(secrets, data, client, host), offset)
  {
    hide InScope;
    var rest, items := data[offset..], ScopedSecrets(secrets, client, host);
    var needles := StableSort(ScrubNeedles(secrets, client, host));
    SortedScrubNeedlesAre(secrets, client, host);
    ScrubNeedlesAre(secrets, client, host);
    if FirstPrefix(needles, rest).None? {
      forall r | r in s.representations && r != [] ensures !(r <= rest) {
        assert Represents(secrets, client, host, ReferenceNeedle(s.name, r, s.placeholder));
      }
      MaskedValue.MaskedLengthMeaning(rest, s.value);
      FirstMaskedComplete(items, rest);
    }
    StepsCover(needles, items, data, offset);
  }

  /** A replacement is justified by a secret in scope: its value, or a masked rendering of it, stood there. */
  ghost predicate Justified(secrets: seq<Secret>, client: string, host: string, stretch: Stretch, rest: bytes) {
    stretch.Replaced? ==>
      exists s :: s in secrets && InScope(s, client, host) && stretch.name == s.name && stretch.to == s.placeholder
        && (stretch.original in s.representations || |stretch.original| == MaskedValue.MaskedLength(rest, s.value))
  }

  /** Nothing but values in scope and their masked renderings is ever replaced. */
  lemma {:induction false} ReplacementsAreJustified(secrets: seq<Secret>, data: bytes, client: string, host: string,
                                                    k: nat)
    requires k < |ScrubStretches(secrets, data, client, host)|
    ensures var cut := ScrubStretches(secrets, data, client, host);
            Justified(secrets, client, host, cut[k], Originals(cut[k..]))
    decreases k
  {
    hide InScope, Stretches, Step, Justified;
    var needles, items := StableSort(ScrubNeedles(secrets, client, host)), ScopedSecrets(secrets, client, host);
    hide StableSort, ScrubNeedles, ScopedSecrets;
    NoStretches(needles, items);
    StretchesStep(needles, items, data);
    var cut, step := Stretches(needles, items, data), Step(needles, items, data);
    var length := if step.Some? then step.value.length else 1;
    var rest := Stretches(needles, items, data[length..]);
    if k > 0 {
      assert cut[k] == rest[k - 1] && cut[k..] == rest[k - 1..];
      ReplacementsAreJustified(secrets, data[length..], client, host, k - 1);
    } else {
      assert cut[0..] == cut;
      StretchesRewrite(needles, items, data);
      StepJustified(secrets, data, client, host);
    }
  }

  lemma NoStretches(needles: seq<ReferenceNeedle>, masked: seq<Secret>)
    ensures Stretches(needles, masked, []) == []
  {
  }

  lemma StepJustified(secrets: seq<Secret>, data: bytes, client: string, host: string)
    requires data != []
    ensures var needles, items := StableSort(ScrubNeedles(secrets, client, host)), ScopedSecrets(secrets, client, host);
            var step := Step(needles, items, data);
            && Justified(secrets, client, host, Copied(data[..1]), data)
            && (step.Some? ==> Justified(secrets, client, host,
                                         Replaced(data[..step.value.length], step.value.name, step.value.to), data))
  {
    hide InScope, StableSort, ScrubNeedles, ScopedSecrets, FirstPrefix, FirstMasked;
    var needles, items := StableSort(ScrubNeedles(secrets, client, host)), ScopedSecrets(secrets, client, host);
    SortedScrubNeedlesAre(secrets, client, host);
    ScrubNeedlesAre(secrets, client, host);
    FirstMaskedComplete(items, data);
    var n := FirstPrefix(needles, data);
    if n.Some? {
      assert Represents(secrets, client, host, n.value);
      assert data[..|n.value.from|] == n.value.from;
    }
  }

  // --- when nothing is found ---

  /** The data starts with a representation of the secret's value, or with a masked rendering of it. */
  ghost predicate Starts(s: Secret, data: bytes) {
    (exists r :: r in s.representations && r != [] && r <= data) || MaskedValue.IsMasked(data, s.value)
  }

  /** Nowhere in the data does a value in scope start. */
  ghost predicate Free(secrets: seq<Secret>, data: bytes, client: string, host: string) {
    forall s, offset: nat :: s in secrets && InScope(s, client, host) && offset < |data| ==> !Starts(s, data[offset..])
  }

  lemma {:induction false} CoveredNames(stretches: seq<Stretch>, offset: nat)
    requires Covered(stretches, offset)
    ensures Names(stretches) != {}
  {
    if stretches[0].Copied? {
      CoveredNames(stretches[1..], offset - |stretches[0].original|);
    } else {
      assert stretches[0].name in Names(stretches);
    }
  }

  lemma {:induction false} NothingRewritten(needles: seq<ReferenceNeedle>, masked: seq<Secret>, data: bytes)
    requires forall offset: nat :: offset < |data| ==> Step(needles, masked, data[offset..]).None?
    ensures Rewrite(needles, masked, data) == Rewritten(data, {})
  {
    hide Step;
    if data != [] {
      assert data[0..] == data;
      forall offset: nat | offset < |data[1..]| ensures Step(needles, masked, data[1..][offset..]).None? {
        assert data[1..][offset..] == data[offset + 1..];
      }
      NothingRewritten(needles, masked, data[1..]);
      assert [data[0]] + data[1..] == data;
    }
  }

  /** What is replaced is where a value in scope starts. */
  lemma StepStarts(secrets: seq<Secret>, data: bytes, client: string, host: string)
    requires Step(StableSort(ScrubNeedles(secrets, client, host)), ScopedSecrets(secrets, client, host), data).Some?
    ensures exists s :: s in secrets && InScope(s, client, host) && Starts(s, data)
  {
    hide InScope, MaskedValue.IsMasked, MaskedValue.MaskedLength, StableSort;
    var needles, items := StableSort(ScrubNeedles(secrets, client, host)), ScopedSecrets(secrets, client, host);
    SortedScrubNeedlesAre(secrets, client, host);
    ScrubNeedlesAre(secrets, client, host);
    var n := FirstPrefix(needles, data);
    if n.Some? {
      assert Represents(secrets, client, host, n.value);
      var s :| s in secrets && InScope(s, client, host) && n.value.from in s.representations;
      assert Starts(s, data);
    } else {
      FirstMaskedComplete(items, data);
      var s :| s in items && MaskedValue.MaskedLength(data, s.value) > 0;
      MaskedValue.MaskedLengthMeaning(data, s.value);
      assert Starts(s, data);
    }
  }

  /** Scrubbing finds no name exactly if no value in scope starts anywhere, and then it changes nothing. */
  lemma NoNamesIsFree(secrets: seq<Secret>, data: bytes, client: string, host: string)
    ensures ReferenceScrub(secrets, data, client, host).names == {} <==> Free(secrets, data, client, host)
    ensures Free(secrets, data, client, host) ==> ReferenceScrub(secrets, data, client, host) == Rewritten(data, {})
  {
    hide InScope, Starts, Step, StableSort, ScrubNeedles, ScopedSecrets, Rewrite, ScrubStretches;
    var needles, items := StableSort(ScrubNeedles(secrets, client, host)), ScopedSecrets(secrets, client, host);
    if Free(secrets, data, client, host) {
      forall offset: nat | offset < |data| ensures Step(needles, items, data[offset..]).None? {
        if Step(needles, items, data[offset..]).Some? {
          StepStarts(secrets, data[offset..], client, host);
        }
      }
      NothingRewritten(needles, items, data);
    } else {
      var s, offset: nat :| s in secrets && InScope(s, client, host) && offset < |data| && Starts(s, data[offset..]);
      StartIsCovered(secrets, data, client, host, s, offset);
      CoveredNames(ScrubStretches(secrets, data, client, host), offset);
      ScrubRecovers(secrets, data, client, host);
    }
  }

  lemma StartIsCovered(secrets: seq<Secret>, data: bytes, client: string, host: string, s: Secret, offset: nat)
    requires s in secrets && InScope(s, client, host) && offset < |data| && Starts(s, data[offset..])
    ensures Covered(ScrubStretches(secrets, data, client, host), offset)
  {
    hide InScope, ScrubStretches, MaskedValue.IsMasked;
    OccurrencesAreCovered(secrets, data, client, host, s, offset);
  }

  // --- sanitizing ---

  /** The cut of data that sanitizing makes. */
  function SanitizeStretches(secrets: seq<Secret>, data: bytes): seq<Stretch> {
    Stretches(StableSort(SanitizeNeedles(secrets)), [], data)
  }

  /** A representation of the value or the placeholder of a secret, under its name and marker. */
  predicate Marks(secrets: seq<Secret>, n: ReferenceNeedle) {
    exists s :: s in secrets && n.from in s.representations + s.placeholderRepresentations &&
                n.name == s.name && n.to == s.marker
  }

  /** Putting every replaced stretch back recovers the input; putting its marker there instead is the output. */
  lemma SanitizeRecovers(secrets: seq<Secret>, data: bytes)
    ensures Originals(SanitizeStretches(secrets, data)) == data
    ensures Output(SanitizeStretches(secrets, data)) == ReferenceSanitize(secrets, data)
  {
    StretchesRewrite(StableSort(SanitizeNeedles(secrets)), [], data);
  }

  lemma {:induction false} SanitizeNeedlesAre(secrets: seq<Secret>)
    ensures forall n :: n in SanitizeNeedles(secrets) <==> Marks(secrets, n)
  {
    if secrets != [] {
      var init, last := secrets[..|secrets| - 1], secrets[|secrets| - 1];
      SanitizeNeedlesAre(init);
      NeedlesForTexts(last.name, last.representations, last.marker);
      NeedlesForTexts(last.name, last.placeholderRepresentations, last.marker);
      assert secrets == init + [last];
      forall n ensures n in SanitizeNeedles(secrets) <==> Marks(secrets, n) {
        if Marks(secrets, n) {
          var s :| s in secrets && n.from in s.representations + s.placeholderRepresentations &&
                   n.name == s.name && n.to == s.marker;
          if s in init {
            assert Marks(init, n);
          } else {
            assert n == ReferenceNeedle(last.name, n.from, last.marker);
          }
        }
      }
    }
  }

  lemma SortedSanitizeNeedlesAre(secrets: seq<Secret>)
    ensures forall n :: n in StableSort(SanitizeNeedles(secrets)) <==> Marks(secrets, n)
  {
    var needles := SanitizeNeedles(secrets);
    StableSortSorts(needles);
    SanitizeNeedlesAre(secrets);
    forall n ensures n in StableSort(needles) <==> n in needles {
      assert n in multiset(StableSort(needles)) <==> n in multiset(needles);
    }
  }

  /**
   * Whoever the secret is for: wherever in the input a representation of its value or
   * of its placeholder starts, that byte is replaced.
   */
  lemma SanitizeCovers(secrets: seq<Secret>, data: bytes, s: Secret, offset: nat)
    requires s in secrets && offset < |data|
    requires exists r :: r in s.representations + s.placeholderRepresentations && r != [] && r <= data[offset..]
    ensures Covered(SanitizeStretches(secrets, data), offset)
  {
    var needles, rest := StableSort(SanitizeNeedles(secrets)), data[offset..];
    SortedSanitizeNeedlesAre(secrets);
    if FirstPrefix(needles, rest).None? {
      forall r | r in s.representations + s.placeholderRepresentations && r != [] ensures !(r <= rest) {
        assert Marks(secrets, ReferenceNeedle(s.name, r, s.marker));
      }
    }
    StepsCover(needles, [], data, offset);
  }

  /** Nothing but representations of values and placeholders is ever replaced, each by the marker of its own secret. */
  lemma {:induction false} SanitizeIsJustified(secrets: seq<Secret>, data: bytes, k: nat)
    requires k < |SanitizeStretches(secrets, data)|
    ensures var stretch := SanitizeStretches(secrets, data)[k];
            stretch.Replaced? ==> Marks(secrets, ReferenceNeedle(stretch.name, stretch.original, stretch.to))
    decreases k
  {
    hide Stretches, Step, Marks, SanitizeNeedles, StableSort;
    var needles := StableSort(SanitizeNeedles(secrets));
    NoStretches(needles, []);
    StretchesStep(needles, [], data);
    var step := Step(needles, [], data);
    if k > 0 {
      SanitizeIsJustified(secrets, data[if step.Some? then step.value.length else 1..], k - 1);
    } else if step.Some? {
      SortedSanitizeNeedlesAre(secrets);
      StepFromNeedles(needles, data);
    }
  }

  /** Without masked values a step replaces a needle that stands at the start. */
  lemma StepFromNeedles(needles: seq<ReferenceNeedle>, data: bytes)
    requires Step(needles, [], data).Some?
    ensures var step := Step(needles, [], data).value;
            ReferenceNeedle(step.name, data[..step.length], step.to) in needles
  {
    var n := FirstPrefix(needles, data).value;
    assert data[..|n.from|] == n.from;
  }
}

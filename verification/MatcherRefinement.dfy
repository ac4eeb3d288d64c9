/** The trie's answers agree with the naive reference at every offset. */
module MatcherRefinement {
  import opened Bytes
  import opened SecretPolicy
  import opened NeedleTrie
  import opened MatchReference
  import MaskedValue

  // --- longest needle ---

  /** The first longest acceptable needle data starts with, by a scan of the whole list. */
  function Winner(needles: seq<Needle>, select: Selection, data: bytes): Found {
    if needles == [] then Found(0, 0)
    else
      var last, best := needles[|needles| - 1], Winner(needles[..|needles| - 1], select, data);
      if Accepts(select, last.secret, last.kind) && last.text <= data && |last.text| > best.length
      then Found(|last.text|, last.secret)
      else best
  }

  lemma WinnerAdded(needles: seq<Needle>, n: Needle, select: Selection, data: bytes)
    ensures Winner(needles + [n], select, data) ==
            (var best := Winner(needles, select, data);
             if Accepts(select, n.secret, n.kind) && n.text <= data && |n.text| > best.length
             then Found(|n.text|, n.secret) else best)
  {
    assert (needles + [n])[..|needles|] == needles;
  }

  lemma {:induction false} FirstAcceptedAdded(refs: seq<NeedleRef>, r: NeedleRef, select: Selection)
    ensures FirstAccepted(refs + [r], select) ==
            if FirstAccepted(refs, select).Some? then FirstAccepted(refs, select)
            else if Accepts(select, r.secret, r.kind) then Some(r.secret) else None
  {
    if refs != [] {
      FirstAcceptedAdded(refs[1..], r, select);
      assert (refs + [r])[1..] == refs[1..] + [r];
    }
  }

  lemma PrefixOfLength(text: bytes, data: bytes, k: nat)
    requires k <= |data|
    ensures text <= data && |text| == k <==> text == data[..k]
  {
  }

  lemma {:induction false} LongestAdded(needles: seq<Needle>, n: Needle, select: Selection, data: bytes, k: nat)
    requires k <= |data|
    ensures LongestUpTo(needles + [n], select, data, k) ==
            (var best := LongestUpTo(needles, select, data, k);
             if Accepts(select, n.secret, n.kind) && n.text <= data && best.length < |n.text| <= k
             then Found(|n.text|, n.secret) else best)
  {
    hide RefsAt, FirstAccepted, Accepts;
    if k > 0 {
      LongestAdded(needles, n, select, data, k - 1);
      var path, refs := data[..k], RefsAt(needles, data[..k]);
      RefsAdded(needles, n);
      FirstAcceptedAdded(refs, NeedleRef(n.secret, n.kind), select);
      PrefixOfLength(n.text, data, k);
      if n.text != path {
        assert refs + [] == refs;
        assert FirstAccepted(RefsAt(needles + [n], path), select) == FirstAccepted(refs, select);
      }
    }
  }

  lemma NothingLongest(select: Selection, data: bytes)
    ensures LongestUpTo([], select, data, |data|) == Winner([], select, data)
  {
    LongestStops([], select, data, 0, |data|);
  }

  /** Walking the trie finds what scanning every needle finds. */
  lemma {:induction false} LongestIsWinner(needles: seq<Needle>, select: Selection, data: bytes)
    ensures LongestUpTo(needles, select, data, |data|) == Winner(needles, select, data)
  {
    hide Accepts, Winner, LongestUpTo;
    if needles == [] {
      NothingLongest(select, data);
    } else {
      var init, last := needles[..|needles| - 1], needles[|needles| - 1];
      LongestIsWinner(init, select, data);
      LongestAdded(init, last, select, data, |data|);
      WinnerAdded(init, last, select, data);
      assert needles == init + [last];
    }
  }

  // --- the reference's choice, without sorting ---

  function ReferenceWinner(needles: seq<ReferenceNeedle>, data: bytes): Option<ReferenceNeedle> {
    if needles == [] then None
    else Prefer(ReferenceWinner(needles[..|needles| - 1], data), needles[|needles| - 1], data)
  }

  /** A later needle is preferred only if it matches and is strictly longer. */
  function Prefer(best: Option<ReferenceNeedle>, n: ReferenceNeedle, data: bytes): Option<ReferenceNeedle> {
    if n.from <= data && |n.from| > (if best.Some? then |best.value.from| else 0) then Some(n) else best
  }

  lemma ReferenceWinnerAdded(needles: seq<ReferenceNeedle>, n: ReferenceNeedle, data: bytes)
    ensures ReferenceWinner(needles + [n], data) == Prefer(ReferenceWinner(needles, data), n, data)
  {
    assert (needles + [n])[..|needles|] == needles;
  }

  lemma {:induction false} FirstPrefixInserted(sorted: seq<ReferenceNeedle>, n: ReferenceNeedle, data: bytes)
    requires Descending(sorted)
    ensures FirstPrefix(Insert(sorted, n), data) == Prefer(FirstPrefix(sorted, data), n, data)
  {
    if sorted != [] {
      if |sorted[0].from| >= |n.from| {
        FirstPrefixInserted(sorted[1..], n, data);
        var tail := Insert(sorted[1..], n);
        assert ([sorted[0]] + tail)[1..] == tail;
      } else {
        assert ([n] + sorted)[1..] == sorted;
      }
    }
  }

  lemma {:induction false} SortedFirstIsWinner(needles: seq<ReferenceNeedle>, data: bytes)
    ensures FirstPrefix(StableSort(needles), data) == ReferenceWinner(needles, data)
  {
    if needles != [] {
      var init := needles[..|needles| - 1];
      SortedFirstIsWinner(init, data);
      StableSortSorts(init);
      FirstPrefixInserted(StableSort(init), needles[|needles| - 1], data);
    }
  }

  // --- the two lists of needles ---

  /** Scrubbing restores placeholders, sanitizing leaves markers. */
  datatype Purpose = Scrubbing(client: string, host: string) | Sanitizing

  function Target(s: Secret, purpose: Purpose): bytes {
    if purpose.Scrubbing? then s.placeholder else s.marker
  }

  ghost predicate SelectionFor(select: Selection, secrets: seq<Secret>, purpose: Purpose) {
    match purpose
    case Scrubbing(client, host) =>
      && select.kinds == {Value}
      && select.scope.Some? && |select.scope.value| == |secrets|
      && forall i :: 0 <= i < |secrets| ==> select.scope.value[i] == InScope(secrets[i], client, host)
    case Sanitizing => select == Selection({Value, Placeholder}, None)
  }

  function NeedleList(secrets: seq<Secret>, purpose: Purpose): seq<ReferenceNeedle> {
    match purpose
    case Scrubbing(client, host) => ScrubNeedles(secrets, client, host)
    case Sanitizing => SanitizeNeedles(secrets)
  }

  /** The trie's answer and the reference's choice are the same needle. */
  ghost predicate Same(w: Found, r: Option<ReferenceNeedle>, secrets: seq<Secret>, purpose: Purpose) {
    && (w.length == 0 <==> r.None?)
    && (r.Some? ==>
          && w.length == |r.value.from| && w.secret < |secrets|
          && r.value.name == secrets[w.secret].name && r.value.to == Target(secrets[w.secret], purpose))
  }

  lemma {:induction false} SameAfterTexts(needles: seq<Needle>, list: seq<ReferenceNeedle>, texts: seq<bytes>, i: nat,
                                          kind: Kind, secrets: seq<Secret>, select: Selection, purpose: Purpose,
                                          data: bytes)
    requires i < |secrets| && Accepts(select, i, kind)
    requires Same(Winner(needles, select, data), ReferenceWinner(list, data), secrets, purpose)
    ensures Same(Winner(needles + Tagged(texts, i, kind), select, data),
                 ReferenceWinner(list + NeedlesFor(secrets[i].name, texts, Target(secrets[i], purpose)), data),
                 secrets, purpose)
  {
    hide Winner, ReferenceWinner, Accepts;
    var to := Target(secrets[i], purpose);
    if texts == [] {
      assert needles + Tagged(texts, i, kind) == needles && list + NeedlesFor(secrets[i].name, texts, to) == list;
    } else {
      var init, last := texts[..|texts| - 1], texts[|texts| - 1];
      SameAfterTexts(needles, list, init, i, kind, secrets, select, purpose, data);
      var before, listed := needles + Tagged(init, i, kind), list + NeedlesFor(secrets[i].name, init, to);
      WinnerAdded(before, Needle(last, i, kind), select, data);
      ReferenceWinnerAdded(listed, ReferenceNeedle(secrets[i].name, last, to), data);
      assert needles + Tagged(texts, i, kind) == before + [Needle(last, i, kind)];
      assert list + NeedlesFor(secrets[i].name, texts, to) == listed + [ReferenceNeedle(secrets[i].name, last, to)];
    }
  }

  lemma {:induction false} RefusedTextsIgnored(needles: seq<Needle>, texts: seq<bytes>, i: nat, kind: Kind,
                                               select: Selection, data: bytes)
    requires !Accepts(select, i, kind)
    ensures Winner(needles + Tagged(texts, i, kind), select, data) == Winner(needles, select, data)
  {
    if texts == [] {
      assert needles + Tagged(texts, i, kind) == needles;
    } else {
      var init := texts[..|texts| - 1];
      RefusedTextsIgnored(needles, init, i, kind, select, data);
      WinnerAdded(needles + Tagged(init, i, kind), Needle(texts[|texts| - 1], i, kind), select, data);
      assert needles + Tagged(texts, i, kind) ==
               needles + Tagged(init, i, kind) + [Needle(texts[|texts| - 1], i, kind)];
    }
  }

  /** One more secret, when values are looked for in scope only. */
  lemma SameScrubStep(needles: seq<Needle>, list: seq<ReferenceNeedle>, i: nat, secrets: seq<Secret>,
                      select: Selection, client: string, host: string, data: bytes)
    requires i < |secrets| && SelectionFor(select, secrets, Scrubbing(client, host))
    requires Same(Winner(needles, select, data), ReferenceWinner(list, data), secrets, Scrubbing(client, host))
    ensures var more := if InScope(secrets[i], client, host)
                        then NeedlesFor(secrets[i].name, secrets[i].representations, secrets[i].placeholder) else [];
            Same(Winner(needles + NeedlesOf(secrets[i], i), select, data), ReferenceWinner(list + more, data), secrets,
                 Scrubbing(client, host))
  {
    hide Same, Winner, ReferenceWinner, InScope, Tagged, NeedlesFor;
    var s := secrets[i];
    var values, placeholders :=
      Tagged(s.representations, i, Value), Tagged(s.placeholderRepresentations, i, Placeholder);
    assert needles + NeedlesOf(s, i) == needles + values + placeholders;
    RefusedTextsIgnored(needles + values, s.placeholderRepresentations, i, Placeholder, select, data);
    if InScope(s, client, host) {
      SameAfterTexts(needles, list, s.representations, i, Value, secrets, select, Scrubbing(client, host), data);
    } else {
      RefusedTextsIgnored(needles, s.representations, i, Value, select, data);
      assert list + [] == list;
    }
  }

  /** One more secret, when values and placeholders are looked for everywhere. */
  lemma SameSanitizeStep(needles: seq<Needle>, list: seq<ReferenceNeedle>, i: nat, secrets: seq<Secret>,
                         select: Selection, data: bytes)
    requires i < |secrets| && SelectionFor(select, secrets, Sanitizing)
    requires Same(Winner(needles, select, data), ReferenceWinner(list, data), secrets, Sanitizing)
    ensures var s := secrets[i];
            var more := NeedlesFor(s.name, s.representations, s.marker)
                        + NeedlesFor(s.name, s.placeholderRepresentations, s.marker);
            Same(Winner(needles + NeedlesOf(s, i), select, data), ReferenceWinner(list + more, data),
                 secrets, Sanitizing)
  {
    hide Same, Winner, ReferenceWinner, Tagged, NeedlesFor;
    var s := secrets[i];
    var values, placeholders :=
      Tagged(s.representations, i, Value), Tagged(s.placeholderRepresentations, i, Placeholder);
    var first, second :=
      NeedlesFor(s.name, s.representations, s.marker), NeedlesFor(s.name, s.placeholderRepresentations, s.marker);
    assert needles + NeedlesOf(s, i) == needles + values + placeholders;
    assert list + (first + second) == list + first + second;
    SameAfterTexts(needles, list, s.representations, i, Value, secrets, select, Sanitizing, data);
    SameAfterTexts(needles + values, list + first, s.placeholderRepresentations, i, Placeholder, secrets, select,
                   Sanitizing, data);
  }

  lemma NothingWins(secrets: seq<Secret>, select: Selection, purpose: Purpose, data: bytes)
    ensures Same(Winner([], select, data), ReferenceWinner([], data), secrets, purpose)
  {
  }

  lemma {:induction false} SameWinner(secrets: seq<Secret>, count: nat, select: Selection, purpose: Purpose,
                                      data: bytes)
    requires count <= |secrets| && SelectionFor(select, secrets, purpose)
    ensures Same(Winner(Needles(secrets, count), select, data),
                 ReferenceWinner(NeedleList(secrets[..count], purpose), data), secrets, purpose)
  {
    hide SelectionFor, NeedlesOf, NeedlesFor, InScope, Winner, ReferenceWinner;
    if count == 0 {
      NothingWins(secrets, select, purpose, data);
    } else {
      var i := count - 1;
      SameWinner(secrets, i, select, purpose, data);
      assert secrets[..count][..i] == secrets[..i];
      var needles, list := Needles(secrets, i), NeedleList(secrets[..i], purpose);
      match purpose
      case Scrubbing(client, host) => SameScrubStep(needles, list, i, secrets, select, client, host, data);
      case Sanitizing =>
        SameSanitizeStep(needles, list, i, secrets, select, data);
        var s := secrets[i];
        var first, second :=
          NeedlesFor(s.name, s.representations, s.marker), NeedlesFor(s.name, s.placeholderRepresentations, s.marker);
        assert list + (first + second) == list + first + second;
    }
  }

  /** At every offset the trie and the sorted list of the reference pick the same needle. */
  lemma LongestAgrees(secrets: seq<Secret>, select: Selection, purpose: Purpose, data: bytes)
    requires SelectionFor(select, secrets, purpose)
    ensures Same(LongestUpTo(Needles(secrets, |secrets|), select, data, |data|),
                 FirstPrefix(StableSort(NeedleList(secrets, purpose)), data), secrets, purpose)
  {
    LongestIsWinner(Needles(secrets, |secrets|), select, data);
    SameWinner(secrets, |secrets|, select, purpose, data);
    SortedFirstIsWinner(NeedleList(secrets, purpose), data);
    assert secrets[..|secrets|] == secrets;
  }

  // --- masked renderings ---

  /** The masked prefixes of the first count secrets, in secret order. */
  function MaskLog(secrets: seq<Secret>, count: nat): seq<MaskedPrefix>
    requires count <= |secrets|
  {
    if count == 0 then []
    else
      var value := secrets[count - 1].value;
      MaskLog(secrets, count - 1)
      + if |value| >= MASKED_PREFIX_LENGTH * 2 then [MaskedPrefix(value[..MASKED_PREFIX_LENGTH], count - 1)] else []
  }

  predicate Indices(candidates: seq<nat>, count: nat) {
    forall i :: 0 <= i < |candidates| ==> candidates[i] < count
  }

  /** The first permitted candidate a masked rendering of which starts data. */
  function MaskedHit(candidates: seq<nat>, secrets: seq<Secret>, select: Selection, data: bytes): Found
    requires Indices(candidates, |secrets|)
  {
    if candidates == [] then Found(0, 0)
    else if Permits(select, candidates[0]) && MaskedValue.MaskedLength(data, secrets[candidates[0]].value) > 0 then
      Found(MaskedValue.MaskedLength(data, secrets[candidates[0]].value), candidates[0])
    else MaskedHit(candidates[1..], secrets, select, data)
  }

  lemma {:induction false} MaskLogBelongs(secrets: seq<Secret>, count: nat, path: bytes)
    requires count <= |secrets|
    ensures Indices(MasksAt(MaskLog(secrets, count), path), count)
    ensures forall m :: m in MaskLog(secrets, count) ==> m.secret < count && |m.prefix| == MASKED_PREFIX_LENGTH
  {
    if count > 0 {
      MaskLogBelongs(secrets, count - 1, path);
      MaskLogStep(secrets, count, path);
    }
  }

  /** The candidates at a node are in increasing order of secret. */
  lemma {:induction false} CandidatesIncrease(secrets: seq<Secret>, count: nat, path: bytes)
    requires count <= |secrets|
    ensures var candidates := MasksAt(MaskLog(secrets, count), path);
            forall i, j :: 0 <= i < j < |candidates| ==> candidates[i] < candidates[j]
  {
    hide MaskLog, MasksAt;
    if count == 0 {
      MaskLogEmpty(secrets, path);
    } else {
      CandidatesIncrease(secrets, count - 1, path);
      MaskLogBelongs(secrets, count - 1, path);
      MaskLogStep(secrets, count, path);
    }
  }

  lemma MaskLogStep(secrets: seq<Secret>, count: nat, path: bytes)
    requires 0 < count <= |secrets|
    ensures var value := secrets[count - 1].value;
            MasksAt(MaskLog(secrets, count), path) == MasksAt(MaskLog(secrets, count - 1), path) +
            if |value| >= MASKED_PREFIX_LENGTH * 2 && value[..MASKED_PREFIX_LENGTH] == path then [count - 1] else []
  {
    var value := secrets[count - 1].value;
    if |value| >= MASKED_PREFIX_LENGTH * 2 {
      MasksAdded(MaskLog(secrets, count - 1), MaskedPrefix(value[..MASKED_PREFIX_LENGTH], count - 1));
    } else {
      assert MaskLog(secrets, count) == MaskLog(secrets, count - 1);
    }
  }

  lemma {:induction false} MaskedHitAdded(candidates: seq<nat>, c: nat, secrets: seq<Secret>, select: Selection,
                                          data: bytes)
    requires Indices(candidates, |secrets|) && c < |secrets|
    ensures Indices(candidates + [c], |secrets|)
    ensures MaskedHit(candidates + [c], secrets, select, data) ==
            if MaskedHit(candidates, secrets, select, data).length > 0 then MaskedHit(candidates, secrets, select, data)
            else MaskedHit([c], secrets, select, data)
  {
    if candidates != [] {
      assert (candidates + [c])[1..] == candidates[1..] + [c];
      MaskedHitAdded(candidates[1..], c, secrets, select, data);
    } else {
      assert candidates + [c] == [c];
    }
  }

  lemma {:induction false} FirstMaskedAdded(items: seq<Secret>, s: Secret, data: bytes)
    ensures FirstMasked(items + [s], data) ==
            if FirstMasked(items, data).Some? then FirstMasked(items, data) else FirstMasked([s], data)
  {
    if items != [] {
      assert (items + [s])[1..] == items[1..] + [s];
      FirstMaskedAdded(items[1..], s, data);
    } else {
      assert items + [s] == [s];
    }
  }

  /** The candidate found through the trie and the secret found by the reference's scan are the same. */
  ghost predicate SameMasked(f: Found, r: Option<Replacement>, secrets: seq<Secret>) {
    && (f.length == 0 <==> r.None?)
    && (r.Some? ==>
          && f.secret < |secrets|
          && r.value == Replacement(f.length, secrets[f.secret].name, secrets[f.secret].placeholder))
  }

  /**
   * Consulting only the secrets whose first four bytes were passed on the walk
   * gives the answer of the scan over every secret in scope.
   */
  lemma {:induction false} MaskedAgrees(secrets: seq<Secret>, count: nat, select: Selection, client: string,
                                        host: string, data: bytes)
    requires count <= |secrets| && SelectionFor(select, secrets, Scrubbing(client, host))
    requires |data| >= MASKED_PREFIX_LENGTH
    ensures var candidates := MasksAt(MaskLog(secrets, count), data[..MASKED_PREFIX_LENGTH]);
            && Indices(candidates, |secrets|)
            && SameMasked(MaskedHit(candidates, secrets, select, data),
                          FirstMasked(ScopedSecrets(secrets[..count], client, host), data), secrets)
  {
    hide MaskLog, MasksAt, InScope, SelectionFor, ScopedSecrets, MaskedHit, FirstMasked, SameMasked;
    var path := data[..MASKED_PREFIX_LENGTH];
    if count == 0 {
      MaskLogEmpty(secrets, path);
      NothingMasked(secrets, select, client, host, data);
    } else {
      var i := count - 1;
      MaskedAgrees(secrets, i, select, client, host, data);
      MaskLogStep(secrets, count, path);
      ScopedStep(secrets, count, client, host);
      MaskedStep(MasksAt(MaskLog(secrets, i), path), ScopedSecrets(secrets[..i], client, host), secrets, i, select,
                 client, host, data);
    }
  }

  lemma NothingMasked(secrets: seq<Secret>, select: Selection, client: string, host: string, data: bytes)
    ensures SameMasked(MaskedHit([], secrets, select, data),
                       FirstMasked(ScopedSecrets(secrets[..0], client, host), data), secrets)
  {
  }

  lemma ScopedStep(secrets: seq<Secret>, count: nat, client: string, host: string)
    requires 0 < count <= |secrets|
    ensures ScopedSecrets(secrets[..count], client, host) ==
            ScopedSecrets(secrets[..count - 1], client, host)
            + if InScope(secrets[count - 1], client, host) then [secrets[count - 1]] else []
  {
    hide InScope;
    assert secrets[..count][..count - 1] == secrets[..count - 1];
  }

  lemma MaskLogEmpty(secrets: seq<Secret>, path: bytes)
    ensures MasksAt(MaskLog(secrets, 0), path) == []
  {
  }

  lemma MaskedStep(candidates: seq<nat>, items: seq<Secret>, secrets: seq<Secret>, i: nat,
                   select: Selection, client: string, host: string, data: bytes)
    requires i < |secrets| && SelectionFor(select, secrets, Scrubbing(client, host))
    requires |data| >= MASKED_PREFIX_LENGTH && Indices(candidates, |secrets|)
    requires SameMasked(MaskedHit(candidates, secrets, select, data), FirstMasked(items, data), secrets)
    ensures var value := secrets[i].value;
            var starts := |value| >= MASKED_PREFIX_LENGTH * 2 &&
                          value[..MASKED_PREFIX_LENGTH] == data[..MASKED_PREFIX_LENGTH];
            var more := candidates + if starts then [i] else [];
            && Indices(more, |secrets|)
            && SameMasked(MaskedHit(more, secrets, select, data),
                          FirstMasked(items + if InScope(secrets[i], client, host) then [secrets[i]] else [], data),
                          secrets)
  {
    hide MaskedValue.MaskedLength, InScope;
    var s := secrets[i];
    assert candidates + [] == candidates && items + [] == items;
    FirstMaskedAdded(items, s, data);
    MaskedHitAdded(candidates, i, secrets, select, data);
    if !(|s.value| >= MASKED_PREFIX_LENGTH * 2 && s.value[..MASKED_PREFIX_LENGTH] == data[..MASKED_PREFIX_LENGTH]) {
      NoRenderingWithoutPrefix(data, s.value);
    }
  }

  lemma NoRenderingWithoutPrefix(data: bytes, value: bytes)
    requires |data| >= MASKED_PREFIX_LENGTH
    requires !(|value| >= 8 && value[..MASKED_PREFIX_LENGTH] == data[..MASKED_PREFIX_LENGTH])
    ensures MaskedValue.MaskedLength(data, value) == 0
  {
    if MaskedValue.MaskedLength(data, value) > 0 {
      MaskedValue.PrefilterLosesNothing(data, value);
    }
  }

  /** Data too short for a masked prefix has no rendering at all. */
  lemma {:induction false} NothingMaskedInShort(items: seq<Secret>, data: bytes)
    requires |data| < MASKED_PREFIX_LENGTH
    ensures FirstMasked(items, data) == None
  {
    if items != [] {
      if MaskedValue.MaskedLength(data, items[0].value) > 0 {
        MaskedValue.PrefilterLosesNothing(data, items[0].value);
      }
      NothingMaskedInShort(items[1..], data);
    }
  }
}

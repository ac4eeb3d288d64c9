/**
 * The intended meaning of secret matching, stated naively: at each offset try
 * every needle longest first, then every masked value in secret order, otherwise
 * copy one byte. Nothing here knows about tries.
 */
module MatchReference {
  import opened Bytes
  import opened SecretPolicy
  import MaskedValue

  datatype ReferenceNeedle = ReferenceNeedle(name: string, from: bytes, to: bytes)

  // --- stable sort by descending length ---

  /** Places x after every needle that is at least as long. */
  function Insert(sorted: seq<ReferenceNeedle>, x: ReferenceNeedle): seq<ReferenceNeedle> {
    if sorted == [] then [x]
    else if |sorted[0].from| >= |x.from| then [sorted[0]] + Insert(sorted[1..], x)
    else [x] + sorted
  }

  function StableSort(needles: seq<ReferenceNeedle>): seq<ReferenceNeedle> {
    if needles == [] then []
    else Insert(StableSort(needles[..|needles| - 1]), needles[|needles| - 1])
  }

  predicate Descending(needles: seq<ReferenceNeedle>) {
    forall i, j :: 0 <= i < j < |needles| ==> |needles[i].from| >= |needles[j].from|
  }

  lemma {:induction false} InsertPermutes(sorted: seq<ReferenceNeedle>, x: ReferenceNeedle)
    ensures multiset(Insert(sorted, x)) == multiset(sorted) + multiset{x}
  {
    if sorted != [] && |sorted[0].from| >= |x.from| {
      InsertPermutes(sorted[1..], x);
      assert sorted == [sorted[0]] + sorted[1..];
    }
  }

  lemma PrependDescending(first: ReferenceNeedle, tail: seq<ReferenceNeedle>)
    requires Descending(tail) && forall n :: n in tail ==> |first.from| >= |n.from|
    ensures Descending([first] + tail)
  {
  }

  lemma {:induction false} InsertKeeps(sorted: seq<ReferenceNeedle>, x: ReferenceNeedle)
    requires Descending(sorted)
    ensures Descending(Insert(sorted, x))
    ensures multiset(Insert(sorted, x)) == multiset(sorted) + multiset{x}
  {
    InsertPermutes(sorted, x);
    if sorted != [] && |sorted[0].from| >= |x.from| {
      var rest, tail := sorted[1..], Insert(sorted[1..], x);
      InsertKeeps(rest, x);
      forall n | n in tail ensures |sorted[0].from| >= |n.from| {
        assert n in multiset(tail);
        assert n in rest || n == x;
      }
      hide Insert;
      PrependDescending(sorted[0], tail);
    }
  }

  /** The sort is a permutation of its input in descending order of length. */
  lemma {:induction false} StableSortSorts(needles: seq<ReferenceNeedle>)
    ensures Descending(StableSort(needles))
    ensures multiset(StableSort(needles)) == multiset(needles)
  {
    if needles != [] {
      var init, last := needles[..|needles| - 1], needles[|needles| - 1];
      StableSortSorts(init);
      InsertKeeps(StableSort(init), last);
      assert needles == init + [last];
    }
  }

  // --- the rewriting ---

  /** The first needle that starts data. */
  function FirstPrefix(needles: seq<ReferenceNeedle>, data: bytes): (r: Option<ReferenceNeedle>)
    ensures r.Some? ==> r.value in needles && r.value.from != [] && r.value.from <= data
    ensures r.None? ==> forall n :: n in needles && n.from != [] ==> !(n.from <= data)
  {
    if needles == [] then None
    else if needles[0].from != [] && needles[0].from <= data then Some(needles[0])
    else FirstPrefix(needles[1..], data)
  }

  datatype Replacement = Replacement(length: nat, name: string, to: bytes)

  /** The first secret a masked rendering of which starts data. */
  function FirstMasked(items: seq<Secret>, data: bytes): (r: Option<Replacement>)
    ensures r.Some? ==> 0 < r.value.length <= |data|
  {
    if items == [] then None
    else
      var length := MaskedValue.MaskedLength(data, items[0].value);
      if length > 0 then
        MaskedValue.PrefilterLosesNothing(data, items[0].value);
        Some(Replacement(length, items[0].name, items[0].placeholder))
      else FirstMasked(items[1..], data)
  }

  /** What to do at the start of data; needles are already sorted. */
  function Step(needles: seq<ReferenceNeedle>, masked: seq<Secret>, data: bytes): (r: Option<Replacement>)
    ensures r.Some? ==> 0 < r.value.length <= |data|
  {
    var n := FirstPrefix(needles, data);
    if n.Some? then Some(Replacement(|n.value.from|, n.value.name, n.value.to))
    else FirstMasked(masked, data)
  }

  datatype Rewritten = Rewritten(data: bytes, names: set<string>)

  function Rewrite(needles: seq<ReferenceNeedle>, masked: seq<Secret>, data: bytes): Rewritten
    decreases |data|
  {
    if data == [] then Rewritten([], {})
    else
      var step := Step(needles, masked, data);
      if step.Some? then
        var rest := Rewrite(needles, masked, data[step.value.length..]);
        Rewritten(step.value.to + rest.data, {step.value.name} + rest.names)
      else
        var rest := Rewrite(needles, masked, data[1..]);
        Rewritten([data[0]] + rest.data, rest.names)
  }

  function ReferenceReplace(data: bytes, needles: seq<ReferenceNeedle>, masked: seq<Secret>): Rewritten {
    Rewrite(StableSort(needles), masked, data)
  }

  // --- the two uses ---

  function NeedlesFor(name: string, texts: seq<bytes>, to: bytes): seq<ReferenceNeedle> {
    if texts == [] then []
    else NeedlesFor(name, texts[..|texts| - 1], to) + [ReferenceNeedle(name, texts[|texts| - 1], to)]
  }

  function ScrubNeedles(secrets: seq<Secret>, client: string, host: string): seq<ReferenceNeedle> {
    if secrets == [] then []
    else
      var s := secrets[|secrets| - 1];
      ScrubNeedles(secrets[..|secrets| - 1], client, host)
      + if InScope(s, client, host) then NeedlesFor(s.name, s.representations, s.placeholder) else []
  }

  function ScopedSecrets(secrets: seq<Secret>, client: string, host: string): seq<Secret> {
    if secrets == [] then []
    else
      var s := secrets[|secrets| - 1];
      ScopedSecrets(secrets[..|secrets| - 1], client, host) + if InScope(s, client, host) then [s] else []
  }

  /** Values of the secrets in scope become their placeholders. */
  function ReferenceScrub(secrets: seq<Secret>, data: bytes, client: string, host: string): Rewritten {
    ReferenceReplace(data, ScrubNeedles(secrets, client, host), ScopedSecrets(secrets, client, host))
  }

  function SanitizeNeedles(secrets: seq<Secret>): seq<ReferenceNeedle> {
    if secrets == [] then []
    else
      var s := secrets[|secrets| - 1];
      SanitizeNeedles(secrets[..|secrets| - 1])
      + NeedlesFor(s.name, s.representations, s.marker)
      + NeedlesFor(s.name, s.placeholderRepresentations, s.marker)
  }

  /** Values and placeholders of every secret become its marker. */
  function ReferenceSanitize(secrets: seq<Secret>, data: bytes): bytes {
    ReferenceReplace(data, SanitizeNeedles(secrets), []).data
  }
}

/** Building the secret broker: validation of its definitions and what it guarantees the matcher. */
module SecretBroker {
  import opened Bytes
  import opened SecretPolicy
  import HostPattern
  import ScrubText
  import Scrubber
  import StreamScrub
  import Utf8

  const VALUE_ENV_PREFIX := "VEILGATED_"
  const OLD_PLACEHOLDER_PREFIX := "VEILGATE_SECRET_"
  const PLACEHOLDER_PREFIX := "VEILGATED_SECRET_"
  const MIN_VALUE_LENGTH := 8
  const MAX_VALUE_LENGTH := 16 * 1024

  datatype Definition = Definition(
    name: string,
    valueEnv: string,
    placeholder: string,
    clients: seq<string>,
    allowedHosts: seq<string>)

  /** What lies outside: the process environment, the tables of Unicode and the text encoders. */
  datatype World = World(
    lookup: string -> Option<bytes>,
    validName: string -> bool,
    upper: string -> string,
    encodings: bytes -> seq<bytes>)

  datatype Complaint =
    | NameInvalid | DuplicateName | PlaceholderRequired | PlaceholderLineBreak | DuplicatePlaceholder
    | ScopeRequired | HostInvalid(index: nat) | ValueMissing | ValueMalformed | DuplicateValue
    | ValueIsPlaceholder | PlaceholderIsValue

  datatype Fault = NoSecrets | Fault(secret: nat, complaint: Complaint)

  // --- one definition ---

  function NameOf(d: Definition): string {
    HostPattern.TrimSpace(d.name)
  }

  function ValueEnvOf(d: Definition, world: World): string {
    var trimmed := HostPattern.TrimSpace(d.valueEnv);
    if trimmed == "" then VALUE_ENV_PREFIX + world.upper(NameOf(d))
    else if VALUE_ENV_PREFIX <= trimmed then trimmed
    else VALUE_ENV_PREFIX + trimmed
  }

  function PlaceholderOf(d: Definition): string {
    var trimmed := HostPattern.TrimSpace(d.placeholder);
    var bare := if OLD_PLACEHOLDER_PREFIX <= trimmed then trimmed[|OLD_PLACEHOLDER_PREFIX|..] else trimmed;
    if PLACEHOLDER_PREFIX <= bare then bare else PLACEHOLDER_PREFIX + bare
  }

  /**
   * A value is read from a variable with this prefix only: the one named, with or without
   * it, or one named after the secret.
   */
  lemma ValueEnvIs(d: Definition, world: World)
    ensures var trimmed, variable := HostPattern.TrimSpace(d.valueEnv), ValueEnvOf(d, world);
            && "VEILGATED_" <= variable
            && (trimmed == "" ==> variable == "VEILGATED_" + world.upper(NameOf(d)))
            && (trimmed != "" ==> variable == trimmed || variable == "VEILGATED_" + trimmed)
            && ("VEILGATED_" <= trimmed ==> variable == trimmed)
  {
    hide HostPattern.TrimSpace;
  }

  /** A placeholder means the same without a prefix, with the old one and with the new one: it gets the new one. */
  lemma PlaceholderSpellings(d: Definition, core: string)
    requires var trimmed := HostPattern.TrimSpace(d.placeholder);
             trimmed == core || trimmed == "VEILGATE_SECRET_" + core || trimmed == "VEILGATED_SECRET_" + core
    requires !("VEILGATE_SECRET_" <= core) && !("VEILGATED_SECRET_" <= core)
    ensures PlaceholderOf(d) == "VEILGATED_SECRET_" + core
  {
    hide HostPattern.TrimSpace;
    var trimmed := HostPattern.TrimSpace(d.placeholder);
    if trimmed == "VEILGATE_SECRET_" + core {
      assert trimmed[|OLD_PLACEHOLDER_PREFIX|..] == core;
    } else if trimmed == "VEILGATED_SECRET_" + core {
      assert trimmed[8] == 'D' && OLD_PLACEHOLDER_PREFIX[8] == '_';
    }
  }

  function PlaceholderBytes(d: Definition): bytes {
    Utf8.Encode(PlaceholderOf(d))
  }

  function ValueOf(d: Definition, world: World): bytes {
    match world.lookup(ValueEnvOf(d, world))
    case Some(value) => value
    case None => []
  }

  function CanonicalHost(pattern: string): string {
    match HostPattern.Normalize(pattern)
    case Some(host) => host
    case None => pattern
  }

  function Hosts(patterns: seq<string>): (r: seq<string>)
    ensures |r| == |patterns| && forall j :: 0 <= j < |patterns| ==> r[j] == CanonicalHost(patterns[j])
  {
    if patterns == [] then [] else [CanonicalHost(patterns[0])] + Hosts(patterns[1..])
  }

  predicate NameOk(d: Definition, world: World) {
    world.validName(NameOf(d))
  }

  predicate PlaceholderOk(d: Definition) {
    HostPattern.TrimSpace(d.placeholder) != "" && '\r' !in PlaceholderOf(d) && '\n' !in PlaceholderOf(d)
  }

  predicate ScopeOk(d: Definition) {
    && d.clients != [] && d.allowedHosts != []
    && forall j :: 0 <= j < |d.allowedHosts| ==> HostPattern.Normalize(d.allowedHosts[j]).Some?
  }

  predicate ValueOk(d: Definition, world: World) {
    && world.lookup(ValueEnvOf(d, world)).Some?
    && MIN_VALUE_LENGTH <= |ValueOf(d, world)| <= MAX_VALUE_LENGTH && NoLineBreak(ValueOf(d, world))
  }

  predicate FieldsOk(d: Definition, world: World) {
    NameOk(d, world) && PlaceholderOk(d) && ScopeOk(d) && ValueOk(d, world)
  }

  /** The distinct texts to look for: the encodings that are not empty, in the order they first occur. */
  function Representations(candidates: seq<bytes>): seq<bytes> {
    if candidates == [] then []
    else
      var earlier, last := Representations(candidates[..|candidates| - 1]), candidates[|candidates| - 1];
      if last == [] || last in earlier then earlier else earlier + [last]
  }

  lemma {:induction false} RepresentationsAre(candidates: seq<bytes>)
    ensures var r := Representations(candidates);
            && (forall c :: c in r <==> c in candidates && c != [])
            && forall i, j :: 0 <= i < j < |r| ==> r[i] != r[j]
  {
    if candidates != [] {
      var n := |candidates| - 1;
      RepresentationsAre(candidates[..n]);
      assert candidates == candidates[..n] + [candidates[n]];
    }
  }

  method SecretRepresentations(candidates: seq<bytes>) returns (out: seq<bytes>)
    ensures out == Representations(candidates)
  {
    var seen: set<bytes> := {};
    out := [];
    for i := 0 to |candidates|
      invariant out == Representations(candidates[..i])
      invariant forall c :: c in seen <==> c in out
    {
      TakeOne(candidates, i);
      assert candidates[..i + 1][..i] == candidates[..i];
      var candidate := candidates[i];
      if candidate == [] || candidate in seen {
        continue;
      }
      seen := seen + {candidate};
      out := out + [candidate];
    }
    TakeAll(candidates);
  }

  /** The secret a definition resolves to. */
  function SecretOf(d: Definition, world: World): Secret {
    Secret(NameOf(d), d.clients, Hosts(d.allowedHosts), ValueOf(d, world), PlaceholderBytes(d),
      Representations(world.encodings(ValueOf(d, world))),
      Representations(world.encodings(PlaceholderBytes(d))),
      Utf8.Encode("[secret:" + NameOf(d) + "]"))
  }

  // --- all definitions together ---

  function Names(definitions: seq<Definition>): set<string> {
    set d | d in definitions :: NameOf(d)
  }

  function Placeholders(definitions: seq<Definition>): set<bytes> {
    set d | d in definitions :: PlaceholderBytes(d)
  }

  function Values(definitions: seq<Definition>, world: World): set<bytes> {
    set d | d in definitions :: ValueOf(d, world)
  }

  /** A definition that is in order and clashes with none of those before it. */
  predicate Fits(earlier: seq<Definition>, d: Definition, world: World) {
    && FieldsOk(d, world)
    && NameOf(d) !in Names(earlier)
    && PlaceholderBytes(d) !in Placeholders(earlier)
    && ValueOf(d, world) !in Values(earlier, world)
    && ValueOf(d, world) !in Placeholders(earlier) && ValueOf(d, world) != PlaceholderBytes(d)
    && PlaceholderBytes(d) !in Values(earlier, world)
  }

  predicate EachFits(definitions: seq<Definition>, world: World) {
    forall k :: 0 <= k < |definitions| ==> Fits(definitions[..k], definitions[k], world)
  }

  /** Two definitions do not clash. */
  predicate Apart(a: Definition, b: Definition, world: World) {
    && NameOf(a) != NameOf(b) && PlaceholderBytes(a) != PlaceholderBytes(b) && ValueOf(a, world) != ValueOf(b, world)
    && ValueOf(a, world) != PlaceholderBytes(b) && ValueOf(b, world) != PlaceholderBytes(a)
  }

  lemma NameTaken(earlier: seq<Definition>, name: string)
    ensures name in Names(earlier) <==> exists i :: 0 <= i < |earlier| && NameOf(earlier[i]) == name
  {
    hide NameOf;
  }

  lemma PlaceholderTaken(earlier: seq<Definition>, placeholder: bytes)
    ensures placeholder in Placeholders(earlier) <==>
              exists i :: 0 <= i < |earlier| && PlaceholderBytes(earlier[i]) == placeholder
  {
    hide PlaceholderBytes;
  }

  lemma ValueTaken(earlier: seq<Definition>, value: bytes, world: World)
    ensures value in Values(earlier, world) <==> exists i :: 0 <= i < |earlier| && ValueOf(earlier[i], world) == value
  {
    hide ValueOf;
  }

  lemma FitsIs(earlier: seq<Definition>, d: Definition, world: World)
    ensures Fits(earlier, d, world) <==>
            && FieldsOk(d, world) && ValueOf(d, world) != PlaceholderBytes(d)
            && forall i :: 0 <= i < |earlier| ==> Apart(earlier[i], d, world)
  {
    hide FieldsOk, NameOf, PlaceholderBytes, ValueOf, Names, Placeholders, Values;
    NameTaken(earlier, NameOf(d));
    PlaceholderTaken(earlier, PlaceholderBytes(d));
    PlaceholderTaken(earlier, ValueOf(d, world));
    ValueTaken(earlier, ValueOf(d, world), world);
    ValueTaken(earlier, PlaceholderBytes(d), world);
  }

  /** Checking each definition against those before it is checking all pairs. */
  lemma EachFitsIs(definitions: seq<Definition>, world: World)
    ensures EachFits(definitions, world) <==>
            && (forall k :: 0 <= k < |definitions| ==>
                  FieldsOk(definitions[k], world) && ValueOf(definitions[k], world) != PlaceholderBytes(definitions[k]))
            && forall i, k :: 0 <= i < k < |definitions| ==> Apart(definitions[i], definitions[k], world)
  {
    hide Fits, FieldsOk, Apart, ValueOf, PlaceholderBytes;
    forall k | 0 <= k < |definitions|
      ensures Fits(definitions[..k], definitions[k], world) <==>
              && FieldsOk(definitions[k], world) && ValueOf(definitions[k], world) != PlaceholderBytes(definitions[k])
              && forall i :: 0 <= i < k ==> Apart(definitions[i], definitions[k], world)
    {
      FitsIs(definitions[..k], definitions[k], world);
    }
  }

  /** A complaint names something that is really wrong. */
  predicate Justified(c: Complaint, earlier: seq<Definition>, d: Definition, world: World) {
    match c
    case NameInvalid => !NameOk(d, world)
    case DuplicateName => NameOf(d) in Names(earlier)
    case PlaceholderRequired => HostPattern.TrimSpace(d.placeholder) == ""
    case PlaceholderLineBreak => '\r' in PlaceholderOf(d) || '\n' in PlaceholderOf(d)
    case DuplicatePlaceholder => PlaceholderBytes(d) in Placeholders(earlier)
    case ScopeRequired => d.clients == [] || d.allowedHosts == []
    case HostInvalid(j) => j < |d.allowedHosts| && HostPattern.Normalize(d.allowedHosts[j]).None?
    case ValueMissing => ValueOf(d, world) == []
    case ValueMalformed => !ValueOk(d, world)
    case DuplicateValue => ValueOf(d, world) in Values(earlier, world)
    case ValueIsPlaceholder => ValueOf(d, world) in Placeholders(earlier) || ValueOf(d, world) == PlaceholderBytes(d)
    case PlaceholderIsValue => PlaceholderBytes(d) in Values(earlier, world)
  }

  method NormalizeHosts(patterns: seq<string>) returns (r: Result<seq<string>, Complaint>)
    ensures r.Ok? <==> forall j :: 0 <= j < |patterns| ==> HostPattern.Normalize(patterns[j]).Some?
    ensures r.Ok? ==> r.value == Hosts(patterns)
    ensures r.Err? ==>
              && r.error.HostInvalid? && r.error.index < |patterns|
              && HostPattern.Normalize(patterns[r.error.index]).None?
  {
    hide HostPattern.Normalize;
    var hosts := [];
    for j := 0 to |patterns|
      invariant |hosts| == j
      invariant forall k :: 0 <= k < j ==> HostPattern.Normalize(patterns[k]) == Some(hosts[k])
    {
      var normalized := HostPattern.Normalize(patterns[j]);
      if normalized.None? {
        return Err(HostInvalid(j));
      }
      hosts := hosts + [normalized.value];
    }
    assert hosts == Hosts(patterns);
    return Ok(hosts);
  }

  /** The checks on a definition's name and placeholder. */
  method CheckNames(d: Definition, names: set<string>, placeholders: set<bytes>, ghost earlier: seq<Definition>,
                    world: World)
      returns (complaint: Option<Complaint>)
    requires names == Names(earlier) && placeholders == Placeholders(earlier)
    ensures complaint.None? <==>
              NameOk(d, world) && NameOf(d) !in names && PlaceholderOk(d) && PlaceholderBytes(d) !in placeholders
    ensures complaint.Some? ==> Justified(complaint.value, earlier, d, world)
  {
    hide Names, Placeholders, Values, NameOf, PlaceholderOf, HostPattern.TrimSpace, Utf8.Encode;
    var placeholder := PlaceholderOf(d);
    if !world.validName(NameOf(d)) {
      return Some(NameInvalid);
    }
    if NameOf(d) in names {
      return Some(DuplicateName);
    }
    if HostPattern.TrimSpace(d.placeholder) == "" {
      return Some(PlaceholderRequired);
    }
    if '\r' in placeholder || '\n' in placeholder {
      return Some(PlaceholderLineBreak);
    }
    if Utf8.Encode(placeholder) in placeholders {
      return Some(DuplicatePlaceholder);
    }
    return None;
  }

  /** The checks on a definition's value; its own placeholder is among the placeholders by now. */
  method CheckValue(d: Definition, placeholders: set<bytes>, values: set<bytes>, ghost earlier: seq<Definition>,
                    world: World)
      returns (complaint: Option<Complaint>)
    requires placeholders == Placeholders(earlier) + {PlaceholderBytes(d)} && values == Values(earlier, world)
    ensures complaint.None? <==>
      && ValueOk(d, world) && ValueOf(d, world) !in values
      && ValueOf(d, world) !in placeholders && PlaceholderBytes(d) !in values
    ensures complaint.Some? ==> Justified(complaint.value, earlier, d, world)
  {
    hide Names, Placeholders, Values, PlaceholderBytes, ValueEnvOf;
    var found := world.lookup(ValueEnvOf(d, world));
    if found.None? || found.value == [] {
      return Some(ValueMissing);
    }
    var value := found.value;
    if |value| < MIN_VALUE_LENGTH || |value| > MAX_VALUE_LENGTH || CR in value || LF in value {
      return Some(ValueMalformed);
    }
    if value in values {
      return Some(DuplicateValue);
    }
    if value in placeholders {
      return Some(ValueIsPlaceholder);
    }
    if PlaceholderBytes(d) in values {
      return Some(PlaceholderIsValue);
    }
    return None;
  }

  /** The secret of one definition, checked against those before it. */
  method ResolveOne(d: Definition, names: set<string>, placeholders: set<bytes>, values: set<bytes>,
                    ghost earlier: seq<Definition>, world: World) returns (r: Result<Secret, Complaint>)
    requires names == Names(earlier) && placeholders == Placeholders(earlier) && values == Values(earlier, world)
    ensures r.Ok? <==> Fits(earlier, d, world)
    ensures r.Ok? ==> r.value == SecretOf(d, world)
    ensures r.Err? ==> Justified(r.error, earlier, d, world)
  {
    hide Names, Placeholders, Values, NameOf, NameOk, PlaceholderOk, PlaceholderBytes, ValueOk, HostPattern.Normalize;
    hide HostPattern.TrimSpace;
    var complaint := CheckNames(d, names, placeholders, earlier, world);
    if complaint.Some? {
      return Err(complaint.value);
    }
    if |d.clients| == 0 || |d.allowedHosts| == 0 {
      return Err(ScopeRequired);
    }
    var hosts := NormalizeHosts(d.allowedHosts);
    if hosts.Err? {
      return Err(hosts.error);
    }
    complaint := CheckValue(d, placeholders + {PlaceholderBytes(d)}, values, earlier, world);
    if complaint.Some? {
      return Err(complaint.value);
    }
    var representations := SecretRepresentations(world.encodings(ValueOf(d, world)));
    var placeholderRepresentations := SecretRepresentations(world.encodings(PlaceholderBytes(d)));
    return Ok(Secret(NameOf(d), d.clients, hosts.value, ValueOf(d, world), PlaceholderBytes(d),
      representations, placeholderRepresentations, Utf8.Encode("[secret:" + NameOf(d) + "]")));
  }

  /** The secrets of some definitions, each resolved. */
  ghost predicate ResolvedFrom(secrets: seq<Secret>, definitions: seq<Definition>, world: World) {
    && |secrets| == |definitions|
    && forall k :: 0 <= k < |secrets| ==> secrets[k] == SecretOf(definitions[k], world)
  }

  lemma OneMore(definitions: seq<Definition>, i: nat, world: World)
    requires i < |definitions|
    ensures Names(definitions[..i + 1]) == Names(definitions[..i]) + {NameOf(definitions[i])}
    ensures Placeholders(definitions[..i + 1]) == Placeholders(definitions[..i]) + {PlaceholderBytes(definitions[i])}
    ensures Values(definitions[..i + 1], world) == Values(definitions[..i], world) + {ValueOf(definitions[i], world)}
  {
    hide NameOf, PlaceholderBytes, ValueOf;
    var earlier, more := definitions[..i], definitions[..i + 1];
    assert more == earlier + [definitions[i]];
    assert forall d :: d in more <==> d in earlier || d == definitions[i];
  }

  /**
   * Resolves the definitions in order. It succeeds exactly if every definition is in
   * order and no two clash; otherwise the fault is at the first that does not fit.
   */
  method Resolve(definitions: seq<Definition>, world: World) returns (r: Result<seq<Secret>, Fault>)
    ensures r.Ok? <==> definitions != [] && EachFits(definitions, world)
    ensures r.Ok? ==> ResolvedFrom(r.value, definitions, world)
    ensures r.Err? && r.error.NoSecrets? <==> definitions == []
    ensures r.Err? && r.error.Fault? ==>
      var at := r.error.secret;
      && at < |definitions|
      && (forall k :: 0 <= k < at ==> Fits(definitions[..k], definitions[k], world))
      && Justified(r.error.complaint, definitions[..at], definitions[at], world)
  {
    hide Fits, Justified, SecretOf, Names, Placeholders, Values, NameOf, PlaceholderBytes, ValueOf;
    if |definitions| == 0 {
      return Err(NoSecrets);
    }
    var names: set<string>, placeholders: set<bytes>, values: set<bytes> := {}, {}, {};
    assert names == Names(definitions[..0]) && placeholders == Placeholders(definitions[..0])
           && values == Values(definitions[..0], world) by {
      NothingYet(definitions, world);
    }
    var secrets: seq<Secret> := [];
    for i := 0 to |definitions|
      invariant names == Names(definitions[..i]) && placeholders == Placeholders(definitions[..i])
      invariant values == Values(definitions[..i], world)
      invariant forall k :: 0 <= k < i ==> Fits(definitions[..k], definitions[k], world)
      invariant ResolvedFrom(secrets, definitions[..i], world)
    {
      var d := definitions[i];
      var resolved := ResolveOne(d, names, placeholders, values, definitions[..i], world);
      if resolved.Err? {
        return Err(Fault(i, resolved.error));
      }
      OneMore(definitions, i, world);
      names, placeholders, values :=
        names + {NameOf(d)}, placeholders + {PlaceholderBytes(d)}, values + {ValueOf(d, world)};
      secrets := secrets + [resolved.value];
    }
    TakeAll(definitions);
    return Ok(secrets);
  }

  lemma NothingYet(definitions: seq<Definition>, world: World)
    ensures Names(definitions[..0]) == {} && Placeholders(definitions[..0]) == {}
            && Values(definitions[..0], world) == {}
  {
  }

  /** A broker for the definitions, its trie holding exactly the resolved secrets. */
  method New(definitions: seq<Definition>, world: World) returns (r: Result<Scrubber.Broker, Fault>)
    ensures r.Ok? <==> definitions != [] && EachFits(definitions, world)
    ensures r.Ok? ==> fresh(r.value) && r.value.Valid() && ResolvedFrom(r.value.secrets, definitions, world)
  {
    hide EachFits, ResolvedFrom;
    var resolved := Resolve(definitions, world);
    if resolved.Err? {
      return Err(resolved.error);
    }
    var broker := new Scrubber.Broker(resolved.value);
    return Ok(broker);
  }

  // --- what the matcher may rely on ---

  /** No encoder breaks a line that its text does not break. */
  ghost predicate EncodersKeepLines(world: World) {
    forall text :: NoLineBreak(text) ==> forall e :: e in world.encodings(text) ==> NoLineBreak(e)
  }

  /** One resolved secret: its value, texts and scope are as the matcher and the stream need them. */
  lemma ResolvedSecretIs(d: Definition, world: World)
    requires FieldsOk(d, world) && EncodersKeepLines(world)
    ensures var s := SecretOf(d, world);
            && MIN_VALUE_LENGTH <= |s.value| <= MAX_VALUE_LENGTH && NoLineBreak(s.value)
            && NoLineBreak(s.placeholder) && s.placeholder != []
            && (forall t :: t in s.representations + s.placeholderRepresentations ==> t != [] && NoLineBreak(t))
            && s.clients != [] && |s.allowedHosts| > 0
            && forall h :: h in s.allowedHosts ==> HostPattern.Normalize(h) == Some(h)
  {
    hide HostPattern.Normalize, Representations, PlaceholderOf, ValueOf, NoLineBreak, HostPattern.TrimSpace;
    var s := SecretOf(d, world);
    RepresentationsAre(world.encodings(ValueOf(d, world)));
    RepresentationsAre(world.encodings(PlaceholderBytes(d)));
    Utf8.EncodedLineBreaks(PlaceholderOf(d));
    PlaceholderIsMarked(d);
    forall t | t in s.representations + s.placeholderRepresentations ensures t != [] && NoLineBreak(t) {
      var value, placeholder := ValueOf(d, world), PlaceholderBytes(d);
      assert NoLineBreak(value) && NoLineBreak(placeholder);
      if t in s.representations {
        assert t in Representations(world.encodings(value)) && t in world.encodings(value);
      } else {
        assert t in Representations(world.encodings(placeholder)) && t in world.encodings(placeholder);
      }
    }
    forall h | h in s.allowedHosts ensures HostPattern.Normalize(h) == Some(h) {
      var j :| 0 <= j < |s.allowedHosts| && s.allowedHosts[j] == h;
      HostPattern.NormalizeIdempotent(d.allowedHosts[j]);
    }
  }

  lemma PlaceholderIsMarked(d: Definition)
    ensures PLACEHOLDER_PREFIX <= PlaceholderOf(d) && PlaceholderBytes(d) != []
  {
    hide HostPattern.TrimSpace;
    var p := PlaceholderOf(d);
    assert p != [];
  }

  /**
   * A broker that was built is clean, so streaming through it is scrubbing the whole;
   * and no secret's value or placeholder is another's.
   */
  lemma BrokerIsClean(secrets: seq<Secret>, definitions: seq<Definition>, world: World)
    requires EachFits(definitions, world) && ResolvedFrom(secrets, definitions, world) && EncodersKeepLines(world)
    ensures StreamScrub.Clean(secrets)
    ensures forall i, j :: 0 <= i < |secrets| && 0 <= j < |secrets| ==> secrets[i].value != secrets[j].placeholder
    ensures forall i, j :: 0 <= i < j < |secrets| ==>
      && secrets[i].name != secrets[j].name && secrets[i].value != secrets[j].value
      && secrets[i].placeholder != secrets[j].placeholder
  {
    hide EachFits, FieldsOk, NoLineBreak, NameOf, ValueOf, PlaceholderBytes, EncodersKeepLines, ScopeOk;
    hide Representations;
    EachFitsIs(definitions, world);
    forall k | 0 <= k < |secrets|
      ensures NoLineBreak(secrets[k].value) && forall t :: t in secrets[k].representations ==> NoLineBreak(t)
    {
      ResolvedSecretIs(definitions[k], world);
      var s := secrets[k];
      forall t | t in s.representations ensures NoLineBreak(t) {
        assert t in s.representations + s.placeholderRepresentations;
      }
    }
    forall i, j | 0 <= i < |secrets| && 0 <= j < |secrets|
      ensures secrets[i].value != secrets[j].placeholder
    {
      assert i < j ==> Apart(definitions[i], definitions[j], world);
      assert j < i ==> Apart(definitions[j], definitions[i], world);
    }
    forall i, j | 0 <= i < j < |secrets|
      ensures secrets[i].name != secrets[j].name && secrets[i].value != secrets[j].value
              && secrets[i].placeholder != secrets[j].placeholder
    {
      assert Apart(definitions[i], definitions[j], world);
    }
  }

  /** Encoding text gives text that is no shorter, if it gives any. */
  ghost predicate EncodersKeepText(world: World) {
    forall text :: Utf8.Valid(text) ==>
      forall e :: e in world.encodings(text) ==> Utf8.Valid(e) && (e == [] || |e| >= |text|)
  }

  /** Placeholders and markers are text. So is everything looked for, if the value is; and it is not short. */
  lemma ResolvedIsText(d: Definition, world: World)
    requires FieldsOk(d, world) && EncodersKeepText(world)
    ensures var s := SecretOf(d, world);
            && Utf8.Valid(s.placeholder) && Utf8.Valid(s.marker)
            && (forall t :: t in s.placeholderRepresentations ==> Utf8.Valid(t))
            && (Utf8.Valid(s.value) ==> ScrubText.TextSecret(s) && ScrubText.LongSecret(s))
  {
    hide Representations, PlaceholderOf, HostPattern.TrimSpace, HostPattern.Normalize, Utf8.Valid, Utf8.Encode, ValueOf;
    var s, value, placeholder := SecretOf(d, world), ValueOf(d, world), PlaceholderBytes(d);
    RepresentationsAre(world.encodings(value));
    RepresentationsAre(world.encodings(placeholder));
    Utf8.EncodedIsValid(PlaceholderOf(d));
    Utf8.EncodedIsValid("[secret:" + NameOf(d) + "]");
    PlaceholderIsMarked(d);
    AsciiTwice(PlaceholderOf(d));
    forall t | t in s.placeholderRepresentations ensures Utf8.Valid(t) {
      assert t in world.encodings(placeholder);
    }
    if Utf8.Valid(value) {
      forall t | t in s.representations ensures Utf8.Valid(t) && |t| >= |value| {
        assert t in world.encodings(value) && t != [];
      }
    }
  }

  lemma AsciiTwice(text: string)
    requires PLACEHOLDER_PREFIX <= text
    ensures var b := Utf8.Encode(text);
            2 <= |b| && b[0] < 0x80 && b[1] < 0x80
  {
    assert text[0] == 'V' && text[1..][0] == 'E';
    assert Utf8.Encode(text) == Utf8.EncodeRune('V') + (Utf8.EncodeRune('E') + Utf8.Encode(text[1..][1..]));
  }
}

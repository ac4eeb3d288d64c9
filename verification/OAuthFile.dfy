/** Saving the OAuth token records to the auth file and loading them back. */
module OAuthFile {
  import opened Bytes
  import opened OAuthTokens
  import opened NameOrder

  const AUTH_VERSION := 1

  datatype AuthFile = AuthFile(version: int, tokens: seq<TokenRecord>)

  datatype LoadError = BadVersion | OutsidePolicy | DuplicateToken | BadRefreshToken

  /** Definitions by name; the names are identifiers. */
  type Policy = map<string, Definition>

  predicate PolicyOk(policy: Policy) {
    forall n :: n in policy ==> policy[n].name == n && Identifier(n)
  }

  predicate Allowed(policy: Policy, r: TokenRecord) {
    && r.broker in policy && r.client in policy[r.broker].clients
    && r.accessToken != "" && r.accessPlaceholder != ""
  }

  /** Adds one saved record, or says why the file cannot be used. */
  function LoadRecord(policy: Policy, t: Tokens, r: TokenRecord): Result<Tokens, LoadError> {
    var key := KeyOf(r.broker, r.client);
    if !Allowed(policy, r) then Err(OutsidePolicy)
    else if key in t.records || r.accessPlaceholder in t.live then Err(DuplicateToken)
    else
      var added := Tokens(t.records[key := r], t.live[r.accessPlaceholder := Reference(key, Access)]);
      if r.refreshPlaceholder == "" then Ok(added)
      else if r.refreshToken == "" || r.refreshPlaceholder in added.live then Err(BadRefreshToken)
      else Ok(added.(live := added.live[r.refreshPlaceholder := Reference(key, Refresh)]))
  }

  function LoadAll(policy: Policy, tokens: seq<TokenRecord>): Result<Tokens, LoadError> {
    if tokens == [] then Ok(EMPTY)
    else
      var earlier := LoadAll(policy, tokens[..|tokens| - 1]);
      if earlier.Err? then earlier else LoadRecord(policy, earlier.value, tokens[|tokens| - 1])
  }

  function Load(policy: Policy, file: AuthFile): Result<Tokens, LoadError> {
    if file.version != AUTH_VERSION then Err(BadVersion) else LoadAll(policy, file.tokens)
  }

  method LoadState(policy: Policy, file: AuthFile) returns (r: Result<Tokens, LoadError>)
    ensures r == Load(policy, file)
  {
    if file.version != AUTH_VERSION {
      return Err(BadVersion);
    }
    hide LoadRecord;
    var records: map<string, TokenRecord>, live: map<string, Reference> := map[], map[];
    for i := 0 to |file.tokens|
      invariant LoadAll(policy, file.tokens[..i]) == Ok(Tokens(records, live))
    {
      var record := file.tokens[i];
      assert file.tokens[..i + 1][..i] == file.tokens[..i];
      LoadStops(policy, file.tokens, i);
      var loaded := LoadRecord(policy, Tokens(records, live), record);
      if loaded.Err? {
        return Err(loaded.error);
      }
      records, live := loaded.value.records, loaded.value.live;
    }
    assert file.tokens[..|file.tokens|] == file.tokens;
    return Ok(Tokens(records, live));
  }

  /** The first record that cannot be loaded decides. */
  lemma {:induction false} LoadStops(policy: Policy, tokens: seq<TokenRecord>, i: nat)
    requires i < |tokens| && LoadAll(policy, tokens[..i]).Ok?
    ensures var next := LoadRecord(policy, LoadAll(policy, tokens[..i]).value, tokens[i]);
            next.Err? ==> LoadAll(policy, tokens) == next
    decreases |tokens|
  {
    hide LoadRecord;
    var init := tokens[..|tokens| - 1];
    if i < |init| {
      assert init[..i] == tokens[..i];
      LoadStops(policy, init, i);
    }
  }

  /** The records the broker may hold under a policy. */
  predicate InPolicy(policy: Policy, t: Tokens) {
    forall k :: k in t.records ==> Allowed(policy, t.records[k])
  }

  lemma {:induction false} LoadedMirrors(policy: Policy, tokens: seq<TokenRecord>)
    requires PolicyOk(policy) && LoadAll(policy, tokens).Ok?
    ensures Mirror(LoadAll(policy, tokens).value) && InPolicy(policy, LoadAll(policy, tokens).value)
    ensures LoadAll(policy, tokens).value.records.Values == set r | r in tokens
  {
    if tokens != [] {
      var init, last := tokens[..|tokens| - 1], tokens[|tokens| - 1];
      LoadedMirrors(policy, init);
      RecordLoaded(policy, LoadAll(policy, init).value, last);
      assert tokens == init + [last];
    }
  }

  lemma RecordLoaded(policy: Policy, t: Tokens, r: TokenRecord)
    requires PolicyOk(policy) && Mirror(t) && InPolicy(policy, t) && LoadRecord(policy, t, r).Ok?
    ensures Mirror(LoadRecord(policy, t, r).value) && InPolicy(policy, LoadRecord(policy, t, r).value)
    ensures LoadRecord(policy, t, r).value.records.Values == t.records.Values + {r}
  {
    var key, after := KeyOf(r.broker, r.client), LoadRecord(policy, t, r).value;
    forall k, kind | k in after.records ensures Listed(after, k, kind) {
      LoadedListed(policy, t, r, k, kind);
    }
    forall p | p in after.live ensures Leads(after, p) {
      LoadedLeads(policy, t, r, p);
    }
    ValueAdded(t.records, key, r);
  }

  lemma LoadedListed(policy: Policy, t: Tokens, r: TokenRecord, k: string, kind: Kind)
    requires Mirror(t) && LoadRecord(policy, t, r).Ok? && k in LoadRecord(policy, t, r).value.records
    ensures Listed(LoadRecord(policy, t, r).value, k, kind)
  {
    if k != KeyOf(r.broker, r.client) {
      assert Listed(t, k, kind);
    }
  }

  lemma LoadedLeads(policy: Policy, t: Tokens, r: TokenRecord, p: string)
    requires Mirror(t) && LoadRecord(policy, t, r).Ok? && p in LoadRecord(policy, t, r).value.live
    ensures Leads(LoadRecord(policy, t, r).value, p)
  {
    if p in t.live {
      assert Leads(t, p);
    }
  }

  lemma ValueAdded(records: map<string, TokenRecord>, key: string, r: TokenRecord)
    requires key !in records
    ensures records[key := r].Values == records.Values + {r}
  {
    var after := records[key := r];
    assert after[key] == r;
    forall v | v in records.Values ensures v in after.Values {
      var k :| k in records && records[k] == v;
      assert after[k] == v;
    }
  }

  /**
   * Whatever file is accepted, the maps built from it are mirrored and within the
   * policy, and every placeholder in it is live: a broker always starts sound.
   */
  lemma LoadIsSound(policy: Policy, file: AuthFile)
    requires PolicyOk(policy) && Load(policy, file).Ok?
    ensures var t := Load(policy, file).value;
            && InPolicy(policy, t)
            && Faithful(History(t, map p | p in t.live && Resolve(t, p).Some? :: Resolve(t, p).value))
  {
    LoadedMirrors(policy, file.tokens);
  }

  // --- which files are accepted ---

  /** A record that can be used by itself: its client is served, and its placeholders have tokens. */
  predicate Fit(policy: Policy, r: TokenRecord) {
    && r.broker in policy && r.client in policy[r.broker].clients
    && r.accessToken != "" && r.accessPlaceholder != ""
    && (r.refreshPlaceholder != "" ==> r.refreshToken != "" && r.refreshPlaceholder != r.accessPlaceholder)
  }

  predicate Holds(r: TokenRecord, p: string) {
    p != "" && (p == r.accessPlaceholder || p == r.refreshPlaceholder)
  }

  /** Two records for the same client of a broker, or with a placeholder in common. */
  predicate Clash(a: TokenRecord, b: TokenRecord) {
    || (a.broker == b.broker && a.client == b.client)
    || Holds(a, b.accessPlaceholder) || Holds(a, b.refreshPlaceholder)
  }

  lemma RecordAdds(policy: Policy, t: Tokens, r: TokenRecord)
    requires LoadRecord(policy, t, r).Ok?
    ensures var after := LoadRecord(policy, t, r).value;
            && (forall k :: k in after.records <==> k in t.records || k == KeyOf(r.broker, r.client))
            && (forall p :: p in after.live <==> p in t.live || Holds(r, p))
  {
  }

  lemma {:induction false} LoadedKeys(policy: Policy, tokens: seq<TokenRecord>)
    requires LoadAll(policy, tokens).Ok?
    ensures var t := LoadAll(policy, tokens).value;
            && (forall k :: k in t.records <==> exists r :: r in tokens && KeyOf(r.broker, r.client) == k)
            && (forall p :: p in t.live <==> exists r :: r in tokens && Holds(r, p))
  {
    hide KeyOf, LoadRecord, Holds;
    if tokens != [] {
      var init, last := tokens[..|tokens| - 1], tokens[|tokens| - 1];
      assert forall r :: r in tokens <==> r in init || r == last by {
        assert tokens == init + [last];
      }
      LoadedKeys(policy, init);
      RecordAdds(policy, LoadAll(policy, init).value, last);
    }
  }

  lemma RecordLoads(policy: Policy, t: Tokens, r: TokenRecord)
    ensures LoadRecord(policy, t, r).Ok? <==>
            && Fit(policy, r) && KeyOf(r.broker, r.client) !in t.records
            && r.accessPlaceholder !in t.live && (r.refreshPlaceholder != "" ==> r.refreshPlaceholder !in t.live)
  {
  }

  /** A file is accepted exactly if each of its records can be used and no two of them clash. */
  lemma {:induction false} LoadsExactly(policy: Policy, tokens: seq<TokenRecord>)
    requires PolicyOk(policy)
    ensures LoadAll(policy, tokens).Ok? <==>
            && (forall r :: r in tokens ==> Fit(policy, r))
            && forall i, j :: 0 <= i < j < |tokens| ==> !Clash(tokens[i], tokens[j])
  {
    hide KeyOf, Fit, Clash, LoadRecord;
    if tokens != [] {
      var n := |tokens| - 1;
      var init, last := tokens[..n], tokens[n];
      LoadsExactly(policy, init);
      assert tokens == init + [last];
      assert forall i :: 0 <= i < n ==> init[i] == tokens[i];
      if LoadAll(policy, init).Ok? {
        LastLoads(policy, init, last);
      }
    }
  }

  /** One more record loads exactly if it can be used and clashes with none before it. */
  lemma LastLoads(policy: Policy, init: seq<TokenRecord>, last: TokenRecord)
    requires PolicyOk(policy) && LoadAll(policy, init).Ok? && forall r :: r in init ==> Fit(policy, r)
    ensures LoadRecord(policy, LoadAll(policy, init).value, last).Ok? <==>
            Fit(policy, last) && forall r :: r in init ==> !Clash(r, last)
  {
    hide KeyOf, LoadRecord, LoadAll;
    var t := LoadAll(policy, init).value;
    LoadedKeys(policy, init);
    RecordLoads(policy, t, last);
    if Fit(policy, last) {
      forall r | r in init && KeyOf(r.broker, r.client) == KeyOf(last.broker, last.client)
        ensures r.broker == last.broker && r.client == last.client
      {
        KeyDetermines(r.broker, r.client, last.broker, last.client);
      }
    }
  }

  // --- saving ---

  /** The saved tokens are the records, each once, in some order. */
  ghost predicate Listing(tokens: seq<TokenRecord>, records: map<string, TokenRecord>) {
    && (forall r :: r in tokens <==> r in records.Values)
    && forall i, j :: 0 <= i < j < |tokens| ==>
         KeyOf(tokens[i].broker, tokens[i].client) != KeyOf(tokens[j].broker, tokens[j].client)
  }

  /** Ordered by broker and then by client. */
  predicate TokenLess(a: TokenRecord, b: TokenRecord) {
    NameLess(a.broker, b.broker) || (a.broker == b.broker && NameLess(a.client, b.client))
  }

  predicate Sorted(tokens: seq<TokenRecord>) {
    forall i, j :: 0 <= i < j < |tokens| ==> TokenLess(tokens[i], tokens[j])
  }

  lemma TokensAreOrdered(a: TokenRecord, b: TokenRecord)
    ensures KeyOf(a.broker, a.client) != KeyOf(b.broker, b.client) ==> TokenLess(a, b) || TokenLess(b, a)
    ensures !(TokenLess(a, b) && TokenLess(b, a)) && !TokenLess(a, a)
  {
    NamesAreOrdered(a.broker, b.broker);
    NamesAreOrdered(a.client, b.client);
    NamesAreOrdered(a.broker, a.broker);
    NamesAreOrdered(a.client, a.client);
  }

  lemma TokensAreTransitive(a: TokenRecord, b: TokenRecord, c: TokenRecord)
    requires TokenLess(a, b) && TokenLess(b, c)
    ensures TokenLess(a, c)
  {
    if NameLess(a.broker, b.broker) && NameLess(b.broker, c.broker) {
      NamesAreTransitive(a.broker, b.broker, c.broker);
    } else if NameLess(a.client, b.client) && NameLess(b.client, c.client) {
      NamesAreTransitive(a.client, b.client, c.client);
    }
  }

  /** Places x before the first token that is not less. */
  function InsertToken(sorted: seq<TokenRecord>, x: TokenRecord): (r: seq<TokenRecord>)
    ensures forall t :: t in r <==> t in sorted || t == x
  {
    if sorted == [] then [x]
    else if TokenLess(sorted[0], x) then
      assert sorted == [sorted[0]] + sorted[1..];
      [sorted[0]] + InsertToken(sorted[1..], x)
    else [x] + sorted
  }

  lemma PrependSorted(first: TokenRecord, rest: seq<TokenRecord>)
    requires Sorted(rest) && forall t :: t in rest ==> TokenLess(first, t)
    ensures Sorted([first] + rest)
  {
    hide TokenLess;
    var all := [first] + rest;
    forall i, j | 0 <= i < j < |all| ensures TokenLess(all[i], all[j]) {
      assert all[j] == rest[j - 1] && rest[j - 1] in rest;
      assert i > 0 ==> all[i] == rest[i - 1];
    }
  }

  lemma SortedTail(tokens: seq<TokenRecord>)
    requires Sorted(tokens) && tokens != []
    ensures Sorted(tokens[1..]) && forall t :: t in tokens[1..] ==> TokenLess(tokens[0], t)
  {
    hide TokenLess;
    assert forall i :: 0 <= i < |tokens| - 1 ==> tokens[1..][i] == tokens[i + 1];
  }

  lemma {:induction false} InsertSorts(sorted: seq<TokenRecord>, x: TokenRecord)
    requires Sorted(sorted) && forall t :: t in sorted ==> KeyOf(t.broker, t.client) != KeyOf(x.broker, x.client)
    ensures Sorted(InsertToken(sorted, x))
  {
    hide TokenLess, KeyOf, Sorted;
    if sorted == [] {
      SortedOne(x);
    } else {
      var first, rest := sorted[0], sorted[1..];
      assert sorted == [first] + rest;
      SortedTail(sorted);
      TokensAreOrdered(first, x);
      if TokenLess(first, x) {
        InsertSorts(rest, x);
        PrependSorted(first, InsertToken(rest, x));
      } else {
        forall t | t in sorted ensures TokenLess(x, t) {
          if t != first {
            TokensAreTransitive(x, first, t);
          }
        }
        PrependSorted(x, sorted);
      }
    }
  }

  lemma SortedOne(x: TokenRecord)
    ensures Sorted([x])
  {
  }

  lemma SortedNone()
    ensures Sorted([])
  {
  }

  method SortTokens(tokens: seq<TokenRecord>) returns (sorted: seq<TokenRecord>)
    requires forall i, j :: 0 <= i < j < |tokens| ==>
               KeyOf(tokens[i].broker, tokens[i].client) != KeyOf(tokens[j].broker, tokens[j].client)
    ensures Sorted(sorted) && forall t :: t in sorted <==> t in tokens
  {
    hide TokenLess, KeyOf, Sorted;
    sorted := [];
    SortedNone();
    for i := 0 to |tokens|
      invariant Sorted(sorted)
      invariant forall t :: t in sorted <==> t in tokens[..i]
    {
      TakeOne(tokens, i);
      forall t | t in sorted ensures KeyOf(t.broker, t.client) != KeyOf(tokens[i].broker, tokens[i].client) {
        var k :| 0 <= k < i && tokens[..i][k] == t;
        assert tokens[k] == t;
      }
      InsertSorts(sorted, tokens[i]);
      sorted := InsertToken(sorted, tokens[i]);
    }
    TakeAll(tokens);
  }

  /** The records, sorted, under the current version. */
  method Snapshot(records: map<string, TokenRecord>) returns (file: AuthFile)
    requires forall k :: k in records ==> k == KeyOf(records[k].broker, records[k].client)
    ensures file.version == AUTH_VERSION && Listing(file.tokens, records) && Sorted(file.tokens)
  {
    hide KeyOf, TokenLess, Sorted;
    var tokens: seq<TokenRecord> := [];
    var keys := records.Keys;
    while keys != {}
      invariant keys <= records.Keys
      invariant forall r :: r in tokens <==> r in records.Values && KeyOf(r.broker, r.client) !in keys
      invariant forall i, j :: 0 <= i < j < |tokens| ==>
                  KeyOf(tokens[i].broker, tokens[i].client) != KeyOf(tokens[j].broker, tokens[j].client)
      decreases keys
    {
      var key :| key in keys;
      assert records[key] !in tokens && records[key] in records.Values;
      tokens := tokens + [records[key]];
      keys := keys - {key};
    }
    tokens := SortTokens(tokens);
    SortedIsListing(tokens, records);
    file := AuthFile(AUTH_VERSION, tokens);
  }

  lemma SortedIsListing(tokens: seq<TokenRecord>, records: map<string, TokenRecord>)
    requires Sorted(tokens) && forall k :: k in records ==> k == KeyOf(records[k].broker, records[k].client)
    requires forall r :: r in tokens <==> r in records.Values
    ensures Listing(tokens, records)
  {
    hide KeyOf, TokenLess;
    forall i, j | 0 <= i < j < |tokens|
      ensures KeyOf(tokens[i].broker, tokens[i].client) != KeyOf(tokens[j].broker, tokens[j].client)
    {
      TokensAreOrdered(tokens[i], tokens[i]);
      assert tokens[i] in tokens && tokens[j] in tokens;
      var a :| a in records && records[a] == tokens[i];
      var b :| b in records && records[b] == tokens[j];
    }
  }

  lemma SomeMember(tokens: seq<TokenRecord>)
    ensures tokens != [] ==> tokens[0] in tokens
  {
  }

  /** The same records always make the same file. */
  lemma {:induction false} OneSortedListing(a: seq<TokenRecord>, b: seq<TokenRecord>)
    requires Sorted(a) && Sorted(b) && forall t :: t in a <==> t in b
    ensures a == b
  {
    hide TokenLess, Sorted;
    if a == [] {
      SomeMember(b);
    } else {
      assert a[0] in a;
      SortedTail(a);
      SortedTail(b);
      assert a == [a[0]] + a[1..] && b == [b[0]] + b[1..];
      TokensAreOrdered(a[0], b[0]);
      assert b[0] in b && a[0] == b[0];
      TokensAreOrdered(a[0], a[0]);
      forall t ensures t in a[1..] <==> t in b[1..] {
        assert t in a[1..] ==> t != a[0] && t in b;
        assert t in b[1..] ==> t != b[0] && t in a;
      }
      OneSortedListing(a[1..], b[1..]);
    }
  }

  /** The part of the maps that a set of records accounts for. */
  ghost predicate PartOf(loaded: Tokens, t: Tokens, tokens: seq<TokenRecord>) {
    && (forall k :: k in loaded.records <==> k in t.records && t.records[k] in tokens)
    && (forall k :: k in loaded.records ==> loaded.records[k] == t.records[k])
    && (forall p :: p in loaded.live <==> p in t.live && t.live[p].key in loaded.records)
    && (forall p :: p in loaded.live ==> loaded.live[p] == t.live[p])
  }

  lemma {:induction false} ListingLoads(policy: Policy, t: Tokens, tokens: seq<TokenRecord>)
    requires Mirror(t) && InPolicy(policy, t)
    requires forall r :: r in tokens ==> r in t.records.Values
    requires forall i, j :: 0 <= i < j < |tokens| ==>
               KeyOf(tokens[i].broker, tokens[i].client) != KeyOf(tokens[j].broker, tokens[j].client)
    ensures LoadAll(policy, tokens).Ok? && PartOf(LoadAll(policy, tokens).value, t, tokens)
  {
    hide LoadRecord, KeyOf;
    if tokens != [] {
      var init, last := tokens[..|tokens| - 1], tokens[|tokens| - 1];
      ListingLoads(policy, t, init);
      assert tokens == init + [last] && last in tokens;
      forall r | r in init ensures KeyOf(r.broker, r.client) != KeyOf(last.broker, last.client) {
        var i :| 0 <= i < |init| && init[i] == r;
        assert tokens[i] == r;
      }
      NextLoads(policy, t, init, last, LoadAll(policy, init).value);
    }
  }

  lemma NextLoads(policy: Policy, t: Tokens, init: seq<TokenRecord>, last: TokenRecord, loaded: Tokens)
    requires Mirror(t) && InPolicy(policy, t) && PartOf(loaded, t, init) && last in t.records.Values
    requires forall r :: r in init ==> KeyOf(r.broker, r.client) != KeyOf(last.broker, last.client)
    ensures LoadRecord(policy, loaded, last).Ok? && PartOf(LoadRecord(policy, loaded, last).value, t, init + [last])
  {
    var key := KeyOf(last.broker, last.client);
    var k :| k in t.records && t.records[k] == last;
    assert k == key && last !in init;
    assert Listed(t, key, Access) && Listed(t, key, Refresh);
    NextPart(policy, t, init, key, loaded);
  }

  lemma NextPart(policy: Policy, t: Tokens, init: seq<TokenRecord>, key: string, loaded: Tokens)
    requires PartOf(loaded, t, init) && key in t.records && Allowed(policy, t.records[key])
    requires WellFormed(key, t.records[key]) && t.records[key] !in init
    requires Listed(t, key, Access) && Listed(t, key, Refresh)
    requires forall k :: k in t.records && k != key ==> t.records[k] != t.records[key]
    requires forall p :: p in t.live ==> Leads(t, p)
    ensures LoadRecord(policy, loaded, t.records[key]).Ok?
    ensures PartOf(LoadRecord(policy, loaded, t.records[key]).value, t, init + [t.records[key]])
  {
    var last := t.records[key];
    assert key !in loaded.records;
  }

  /**
   * Saving and loading under the same policy rebuilds exactly the same records
   * and the same live placeholders, in whatever order the records were written.
   */
  lemma SaveThenLoad(policy: Policy, t: Tokens, file: AuthFile)
    requires Mirror(t) && InPolicy(policy, t)
    requires file.version == AUTH_VERSION && Listing(file.tokens, t.records)
    ensures Load(policy, file) == Ok(t)
  {
    ListingLoads(policy, t, file.tokens);
    var loaded := LoadAll(policy, file.tokens).value;
    assert forall k :: k in t.records ==> t.records[k] in t.records.Values;
    assert loaded.records == t.records;
    assert loaded.live == t.live;
  }
}

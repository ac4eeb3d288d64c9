/**
 * OAuth token virtualization: the records of real tokens, the index from virtual
 * to real ones, and how a token response and a saved file change them.
 */
module OAuthTokens {
  import opened Bytes

  datatype Kind = Access | Refresh

  datatype Definition = Definition(name: string, clients: seq<string>, issuerHost: string, tokenPath: string,
                                   apiHosts: seq<string>)

  datatype TokenRecord = TokenRecord(
    broker: string,
    client: string,
    issuerHost: string,
    accessToken: string,
    refreshToken: string,
    accessPlaceholder: string,
    refreshPlaceholder: string,
    accessExpiresAt: Option<int>,
    updatedAt: int)

  datatype Reference = Reference(key: string, kind: Kind)

  /** The broker's two maps: the records by broker and client, and the live placeholders. */
  datatype Tokens = Tokens(records: map<string, TokenRecord>, live: map<string, Reference>)

  const EMPTY := Tokens(map[], map[])

  function KeyOf(broker: string, client: string): string {
    broker + ['\0'] + client
  }

  /** Broker names are identifiers; what matters here is that they contain no NUL. */
  predicate Identifier(name: string) {
    '\0' !in name
  }

  lemma {:induction false} KeyDetermines(broker: string, client: string, broker': string, client': string)
    requires Identifier(broker) && Identifier(broker') && KeyOf(broker, client) == KeyOf(broker', client')
    ensures broker == broker' && client == client'
  {
    assert KeyOf(broker, client)[0] == KeyOf(broker', client')[0];
    if broker != "" && broker' != "" {
      assert KeyOf(broker, client)[1..] == KeyOf(broker[1..], client);
      assert KeyOf(broker', client')[1..] == KeyOf(broker'[1..], client');
      KeyDetermines(broker[1..], client, broker'[1..], client');
      assert broker == [broker[0]] + broker[1..] && broker' == [broker'[0]] + broker'[1..];
    } else {
      assert KeyOf("", client)[1..] == client && KeyOf("", client')[1..] == client';
    }
  }

  function PlaceholderOf(r: TokenRecord, kind: Kind): string {
    if kind.Access? then r.accessPlaceholder else r.refreshPlaceholder
  }

  function RealToken(r: TokenRecord, kind: Kind): string {
    if kind.Access? then r.accessToken else r.refreshToken
  }

  /** When the token ends, if it does. */
  function Until(r: TokenRecord, kind: Kind): Option<int> {
    if kind.Access? then r.accessExpiresAt else None
  }

  /** A record as the broker keeps it: under its own key, with a usable access token. */
  predicate WellFormed(key: string, r: TokenRecord) {
    && key == KeyOf(r.broker, r.client) && Identifier(r.broker)
    && r.accessToken != "" && r.accessPlaceholder != ""
    && (r.refreshPlaceholder != "" ==> r.refreshToken != "")
  }

  /** The live placeholder p is that of the record it leads to. */
  ghost predicate Leads(t: Tokens, p: string)
    requires p in t.live
  {
    p != "" && t.live[p].key in t.records && PlaceholderOf(t.records[t.live[p].key], t.live[p].kind) == p
  }

  /** The placeholder of that kind of the record at k, if it has one, is live and leads there. */
  ghost predicate Listed(t: Tokens, k: string, kind: Kind)
    requires k in t.records
  {
    var p := PlaceholderOf(t.records[k], kind);
    p != "" ==> p in t.live && t.live[p] == Reference(k, kind)
  }

  /** The live placeholders are exactly the placeholders of the records, each leading back to its own. */
  ghost predicate Mirror(t: Tokens) {
    && (forall k :: k in t.records ==> WellFormed(k, t.records[k]))
    && (forall p :: p in t.live ==> Leads(t, p))
    && (forall k, kind :: k in t.records ==> Listed(t, k, kind))
  }

  // --- a token response ---

  datatype RefreshField = Missing | Null | NotAString | Present(value: string)

  /** What a response to a token request says, as far as it is JSON. */
  datatype Response = Response(access: Option<string>, refresh: RefreshField, expiresAt: Option<int>)

  datatype ObserveError = NotJson | NoAccessToken | RefreshNotAString | NotSaved

  /** Random material drawn for one response. */
  datatype Drawn = Drawn(access: string, refresh: string)

  /** The refresh token and placeholder the new record will carry. */
  function NextRefresh(previous: Option<TokenRecord>, refresh: RefreshField, drawn: Drawn): (string, string) {
    if refresh.Present? then (refresh.value, if refresh.value != "" then drawn.refresh else "")
    else if previous.Some? && previous.value.refreshToken != "" && previous.value.refreshPlaceholder != "" then
      (previous.value.refreshToken, previous.value.refreshPlaceholder)
    else ("", "")
  }

  function Lookup(t: Tokens, key: string): Option<TokenRecord> {
    if key in t.records then Some(t.records[key]) else None
  }

  function NextRecord(t: Tokens, d: Definition, client: string, r: Response, drawn: Drawn, now: int): TokenRecord
    requires r.access.Some?
  {
    var (refresh, placeholder) := NextRefresh(Lookup(t, KeyOf(d.name, client)), r.refresh, drawn);
    TokenRecord(d.name, client, d.issuerHost, r.access.value, refresh, drawn.access, placeholder, r.expiresAt, now)
  }

  /** The placeholders of the record that is replaced stop being live, those of the new one become live. */
  function Replaced(t: Tokens, key: string, record: TokenRecord): Tokens {
    var previous := Lookup(t, key);
    var kept :=
      if previous.Some? then t.live - {previous.value.accessPlaceholder, previous.value.refreshPlaceholder} else t.live;
    var withAccess := kept[record.accessPlaceholder := Reference(key, Access)];
    Tokens(t.records[key := record],
           if record.refreshPlaceholder != "" then withAccess[record.refreshPlaceholder := Reference(key, Refresh)]
           else withAccess)
  }

  /** Freshly drawn placeholders: not empty, distinct and not among those in use. */
  predicate Fresh(drawn: Drawn, used: set<string>) {
    && drawn.access != "" && drawn.refresh != "" && drawn.access != drawn.refresh
    && drawn.access !in used && drawn.refresh !in used
  }

  lemma ObserveLists(t: Tokens, d: Definition, client: string, r: Response, drawn: Drawn, now: int, k: string,
                     kind: Kind)
    requires Mirror(t) && r.access.Some? && Fresh(drawn, t.live.Keys)
    requires k in Replaced(t, KeyOf(d.name, client), NextRecord(t, d, client, r, drawn, now)).records
    ensures Listed(Replaced(t, KeyOf(d.name, client), NextRecord(t, d, client, r, drawn, now)), k, kind)
  {
    hide KeyOf;
    var key := KeyOf(d.name, client);
    if key in t.records {
      assert Listed(t, key, Refresh);
    }
    if k != key {
      assert Listed(t, k, kind);
      if key in t.records && PlaceholderOf(t.records[k], kind) != "" {
        OthersKeep(t, k, kind, key, Access);
        OthersKeep(t, k, kind, key, Refresh);
      }
    }
  }

  lemma ObserveLeads(t: Tokens, d: Definition, client: string, r: Response, drawn: Drawn, now: int, p: string)
    requires Mirror(t) && r.access.Some? && Fresh(drawn, t.live.Keys)
    requires p in Replaced(t, KeyOf(d.name, client), NextRecord(t, d, client, r, drawn, now)).live
    ensures Leads(Replaced(t, KeyOf(d.name, client), NextRecord(t, d, client, r, drawn, now)), p)
  {
    hide KeyOf;
    var key := KeyOf(d.name, client);
    var record := NextRecord(t, d, client, r, drawn, now);
    if key in t.records {
      assert Listed(t, key, Refresh);
    }
    if p != record.accessPlaceholder && p != record.refreshPlaceholder {
      assert Leads(t, p);
      assert t.live[p].key != key;
    }
  }

  /** Observing a token response keeps the two maps mirrored, whether or not it carries a refresh token. */
  lemma ObserveMirrors(t: Tokens, d: Definition, client: string, r: Response, drawn: Drawn, now: int)
    requires Mirror(t) && Identifier(d.name) && r.access.Some? && r.access.value != "" && Fresh(drawn, t.live.Keys)
    ensures Mirror(Replaced(t, KeyOf(d.name, client), NextRecord(t, d, client, r, drawn, now)))
  {
    var after := Replaced(t, KeyOf(d.name, client), NextRecord(t, d, client, r, drawn, now));
    forall k, kind | k in after.records ensures Listed(after, k, kind) {
      ObserveLists(t, d, client, r, drawn, now, k, kind);
    }
    forall p | p in after.live ensures Leads(after, p) {
      ObserveLeads(t, d, client, r, drawn, now, p);
    }
  }

  /** Different records, or the two kinds of one, never share a placeholder. */
  lemma OthersKeep(t: Tokens, k: string, kind: Kind, other: string, otherKind: Kind)
    requires Mirror(t) && k in t.records && other in t.records && Reference(k, kind) != Reference(other, otherKind)
    requires PlaceholderOf(t.records[k], kind) != ""
    ensures PlaceholderOf(t.records[k], kind) != PlaceholderOf(t.records[other], otherKind)
  {
    assert Listed(t, k, kind) && Listed(t, other, otherKind);
  }

  // --- resolving placeholders over a run ---

  /** What a placeholder stands for, and until when. */
  datatype Issue = Issue(token: string, kind: Kind, broker: string, client: string, until: Option<int>)

  function Resolve(t: Tokens, p: string): Option<Issue> {
    if p in t.live && t.live[p].key in t.records then
      var r := t.records[t.live[p].key];
      Some(Issue(RealToken(r, t.live[p].kind), t.live[p].kind, r.broker, r.client, Until(r, t.live[p].kind)))
    else None
  }

  /** One observed response, with the definition it matched and what was drawn for it. */
  datatype Event = Event(definition: Definition, client: string, response: Response, drawn: Drawn, now: int)

  /** The maps, and everything each placeholder was ever issued for. */
  datatype History = History(tokens: Tokens, issued: map<string, Issue>)

  /** The placeholders a response hands out, and what for. */
  function Issues(e: Event): map<string, Issue>
    requires e.response.access.Some?
  {
    var access :=
      map[e.drawn.access := Issue(e.response.access.value, Access, e.definition.name, e.client, e.response.expiresAt)];
    if e.response.refresh.Present? && e.response.refresh.value != "" then
      access[e.drawn.refresh := Issue(e.response.refresh.value, Refresh, e.definition.name, e.client, None)]
    else access
  }

  function Observed(h: History, e: Event): History
    requires e.response.access.Some?
  {
    var key := KeyOf(e.definition.name, e.client);
    var record := NextRecord(h.tokens, e.definition, e.client, e.response, e.drawn, e.now);
    History(Replaced(h.tokens, key, record), h.issued + Issues(e))
  }

  /** Every live placeholder resolves to what it was issued for. */
  ghost predicate Faithful(h: History) {
    && Mirror(h.tokens)
    && forall p :: p in h.tokens.live ==> p in h.issued && Resolve(h.tokens, p) == Some(h.issued[p])
  }

  predicate Usable(e: Event, issued: map<string, Issue>) {
    && e.response.access.Some? && e.response.access.value != ""
    && Identifier(e.definition.name) && Fresh(e.drawn, issued.Keys)
  }

  // --- which placeholders are live, and for what ---

  /** What the live placeholders stand for. */
  ghost function View(t: Tokens): map<string, Issue> {
    map p | p in t.live && Resolve(t, p).Some? :: Resolve(t, p).value
  }

  /**
   * A response changes the placeholders of its own broker and client only: they give
   * way to the ones it hands out, except that a refresh token it does not mention stays.
   */
  function Granted(g: map<string, Issue>, e: Event): map<string, Issue>
    requires e.response.access.Some?
  {
    (map p | p in g && (!IsOf(g[p], e) || (g[p].kind.Refresh? && !e.response.refresh.Present?)) :: g[p]) + Issues(e)
  }

  predicate IsOf(issue: Issue, e: Event) {
    issue.broker == e.definition.name && issue.client == e.client
  }

  /** In mirrored maps a placeholder belongs to a broker and client exactly if it leads to their record. */
  lemma OwnPlaceholder(t: Tokens, e: Event, p: string)
    requires Mirror(t) && Identifier(e.definition.name) && p in t.live
    ensures Resolve(t, p).Some? && p in View(t) && View(t)[p] == Resolve(t, p).value
    ensures View(t)[p].kind == t.live[p].kind
    ensures IsOf(View(t)[p], e) <==> t.live[p].key == KeyOf(e.definition.name, e.client)
  {
    assert Leads(t, p);
    var r := t.records[t.live[p].key];
    assert WellFormed(t.live[p].key, r);
    if t.live[p].key == KeyOf(e.definition.name, e.client) {
      KeyDetermines(r.broker, r.client, e.definition.name, e.client);
    }
  }

  /** A live placeholder of another broker or client stays what it is. */
  lemma OthersStay(t: Tokens, e: Event, p: string)
    requires Mirror(t) && Identifier(e.definition.name) && e.response.access.Some? && Fresh(e.drawn, t.live.Keys)
    requires p in t.live && t.live[p].key != KeyOf(e.definition.name, e.client)
    ensures var key := KeyOf(e.definition.name, e.client);
            var after := Replaced(t, key, NextRecord(t, e.definition, e.client, e.response, e.drawn, e.now));
            p in after.live && after.live[p] == t.live[p] && Resolve(after, p) == Resolve(t, p)
  {
    hide KeyOf;
    var key := KeyOf(e.definition.name, e.client);
    assert Leads(t, p);
    if key in t.records {
      assert Listed(t, key, Access) && Listed(t, key, Refresh);
    }
  }

  /** A refresh token the response does not mention keeps its placeholder. */
  lemma OmittedStays(t: Tokens, e: Event, p: string)
    requires Mirror(t) && Identifier(e.definition.name) && e.response.access.Some? && Fresh(e.drawn, t.live.Keys)
    requires p in t.live && t.live[p] == Reference(KeyOf(e.definition.name, e.client), Refresh)
    requires !e.response.refresh.Present?
    ensures var key := KeyOf(e.definition.name, e.client);
            var after := Replaced(t, key, NextRecord(t, e.definition, e.client, e.response, e.drawn, e.now));
            p in after.live && after.live[p] == t.live[p] && Resolve(after, p) == Resolve(t, p)
  {
    hide KeyOf;
    var key := KeyOf(e.definition.name, e.client);
    assert Leads(t, p);
    assert WellFormed(key, t.records[key]);
    OwnPlaceholder(t, e, p);
  }

  /** What is live afterwards was live for somebody else, is an omitted refresh token, or was just handed out. */
  lemma LiveAfter(t: Tokens, e: Event, p: string)
    requires Mirror(t) && Identifier(e.definition.name) && e.response.access.Some? && Fresh(e.drawn, t.live.Keys)
    ensures var key := KeyOf(e.definition.name, e.client);
            var after := Replaced(t, key, NextRecord(t, e.definition, e.client, e.response, e.drawn, e.now));
            p in after.live <==>
            || p in Issues(e)
            || (p in t.live && t.live[p].key != key)
            || (p in t.live && t.live[p] == Reference(key, Refresh) && !e.response.refresh.Present?)
  {
    hide KeyOf;
    var key := KeyOf(e.definition.name, e.client);
    if p in t.live {
      assert Leads(t, p);
    }
    if key in t.records {
      assert Listed(t, key, Access) && Listed(t, key, Refresh) && WellFormed(key, t.records[key]);
    }
  }

  lemma IssuedNow(t: Tokens, e: Event, p: string)
    requires Mirror(t) && e.response.access.Some? && Fresh(e.drawn, t.live.Keys) && p in Issues(e)
    ensures var key := KeyOf(e.definition.name, e.client);
            var after := Replaced(t, key, NextRecord(t, e.definition, e.client, e.response, e.drawn, e.now));
            Resolve(after, p) == Some(Issues(e)[p])
  {
    hide KeyOf;
    var key := KeyOf(e.definition.name, e.client);
    if key in t.records {
      assert Listed(t, key, Refresh);
    }
  }

  /** A response grants exactly what it hands out and leaves exactly what it should. */
  lemma ResponseGrants(t: Tokens, e: Event)
    requires Mirror(t) && Identifier(e.definition.name) && e.response.access.Some? && e.response.access.value != ""
    requires Fresh(e.drawn, t.live.Keys)
    ensures var key := KeyOf(e.definition.name, e.client);
            var after := Replaced(t, key, NextRecord(t, e.definition, e.client, e.response, e.drawn, e.now));
            View(after) == Granted(View(t), e)
  {
    hide KeyOf, Mirror, Replaced, NextRecord, Resolve, Issues, Fresh, IsOf;
    var key := KeyOf(e.definition.name, e.client);
    var after := Replaced(t, key, NextRecord(t, e.definition, e.client, e.response, e.drawn, e.now));
    ObserveMirrors(t, e.definition, e.client, e.response, e.drawn, e.now);
    forall p
      ensures p in View(after) <==> p in Granted(View(t), e)
      ensures p in View(after) ==> View(after)[p] == Granted(View(t), e)[p]
    {
      LiveAfter(t, e, p);
      if p in t.live {
        OwnPlaceholder(t, e, p);
      }
      if p in after.live {
        OwnPlaceholder(after, e, p);
      }
      if p in Issues(e) {
        IssuedNow(t, e, p);
      } else if p in t.live && t.live[p].key != key {
        OthersStay(t, e, p);
      } else if p in t.live && t.live[p] == Reference(key, Refresh) && !e.response.refresh.Present? {
        OmittedStays(t, e, p);
      }
    }
  }

  /** A placeholder live after a response resolves to what it was issued for. */
  lemma ObservedResolves(h: History, e: Event, p: string)
    requires Faithful(h) && Usable(e, h.issued) && p in Observed(h, e).tokens.live
    ensures p in Observed(h, e).issued && Resolve(Observed(h, e).tokens, p) == Some(Observed(h, e).issued[p])
  {
    hide Mirror, Replaced, NextRecord, Resolve, Issues, IsOf;
    ObserveMirrors(h.tokens, e.definition, e.client, e.response, e.drawn, e.now);
    ResponseGrants(h.tokens, e);
    OwnPlaceholder(Observed(h, e).tokens, e, p);
  }

  /** One response: what was issued stays issued, live placeholders stay faithful, dropped ones stay dropped. */
  lemma ObservedFaithful(h: History, e: Event)
    requires Faithful(h) && Usable(e, h.issued)
    ensures Faithful(Observed(h, e))
    ensures forall p :: p in h.issued ==> p in Observed(h, e).issued && Observed(h, e).issued[p] == h.issued[p]
    ensures forall p :: p in h.issued && p !in h.tokens.live ==> p !in Observed(h, e).tokens.live
  {
    ObserveMirrors(h.tokens, e.definition, e.client, e.response, e.drawn, e.now);
    ObservedGrows(h, e);
    hide Resolve, Mirror;
    forall p | p in Observed(h, e).tokens.live
      ensures p in Observed(h, e).issued && Resolve(Observed(h, e).tokens, p) == Some(Observed(h, e).issued[p])
    {
      ObservedResolves(h, e, p);
    }
  }

  lemma ObservedGrows(h: History, e: Event)
    requires Faithful(h) && Usable(e, h.issued)
    ensures forall p :: p in h.issued ==> p in Observed(h, e).issued && Observed(h, e).issued[p] == h.issued[p]
    ensures forall p :: p in h.issued && p !in h.tokens.live ==> p !in Observed(h, e).tokens.live
  {
    var t, key := h.tokens, KeyOf(e.definition.name, e.client);
    if key in t.records && t.records[key].refreshPlaceholder != "" {
      assert Listed(t, key, Refresh);
    }
  }

  function Play(h: History, events: seq<Event>): History
    requires AllUsable(h, events)
    decreases |events|
  {
    if events == [] then h else Play(Observed(h, events[0]), events[1..])
  }

  /** Each response of the run has an access token and was given placeholders never issued before. */
  predicate AllUsable(h: History, events: seq<Event>)
    decreases |events|
  {
    events == [] || (Usable(events[0], h.issued) && AllUsable(Observed(h, events[0]), events[1..]))
  }

  /**
   * Over any run of token responses the two maps stay mirrored, every live
   * placeholder resolves to the token, kind and client it was issued for, and a
   * placeholder that was dropped never becomes live again.
   */
  lemma {:induction false} RunsAreFaithful(h: History, events: seq<Event>)
    requires Faithful(h) && AllUsable(h, events)
    ensures Faithful(Play(h, events))
    ensures forall p :: p in h.issued ==> p in Play(h, events).issued && Play(h, events).issued[p] == h.issued[p]
    ensures forall p :: p in h.issued && p !in h.tokens.live ==> p !in Play(h, events).tokens.live
    decreases |events|
  {
    hide Faithful, Observed;
    if events != [] {
      ObservedFaithful(h, events[0]);
      RunsAreFaithful(Observed(h, events[0]), events[1..]);
    }
  }

  /** What a run of responses grants, one after the other. */
  function GrantedBy(g: map<string, Issue>, events: seq<Event>): map<string, Issue>
    requires forall e :: e in events ==> e.response.access.Some?
    decreases |events|
  {
    if events == [] then g else GrantedBy(Granted(g, events[0]), events[1..])
  }

  lemma {:induction false} UsableHaveAccess(h: History, events: seq<Event>)
    requires AllUsable(h, events)
    ensures forall e :: e in events ==> e.response.access.Some?
    decreases |events|
  {
    hide Observed;
    if events != [] {
      UsableHaveAccess(Observed(h, events[0]), events[1..]);
      assert forall e :: e in events ==> e == events[0] || e in events[1..];
    }
  }

  /** Over any run the live placeholders, and what they stand for, are exactly what the responses granted. */
  lemma {:induction false} RunsGrant(h: History, events: seq<Event>)
    requires Faithful(h) && AllUsable(h, events)
    ensures forall e :: e in events ==> e.response.access.Some?
    ensures View(Play(h, events).tokens) == GrantedBy(View(h.tokens), events)
    decreases |events|
  {
    hide Observed, Faithful, Usable, View, Granted;
    UsableHaveAccess(h, events);
    if events != [] {
      ObservedFaithful(h, events[0]);
      ObservedGrants(h, events[0]);
      RunsGrant(Observed(h, events[0]), events[1..]);
    }
  }

  lemma ObservedGrants(h: History, e: Event)
    requires Faithful(h) && Usable(e, h.issued)
    ensures View(Observed(h, e).tokens) == Granted(View(h.tokens), e)
  {
    hide Mirror, View, Granted, Replaced, NextRecord, Resolve;
    ResponseGrants(h.tokens, e);
  }
}

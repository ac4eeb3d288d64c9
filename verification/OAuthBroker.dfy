/** The OAuth broker: observing token responses and putting real tokens into requests. */
module OAuthBroker {
  import opened Bytes
  import opened OAuthTokens
  import opened OAuthFile
  import opened OAuthOrder
  import HostPattern

  // --- text ---

  predicate OccursAt(s: string, t: string, i: nat) {
    i + |t| <= |s| && s[i..i + |t|] == t
  }

  predicate Contains(s: string, t: string) {
    exists i :: 0 <= i <= |s| && OccursAt(s, t, i)
  }

  function ReplaceAll(s: string, from: string, to: string): string
    requires from != ""
  {
    if |s| < |from| then s
    else if from <= s then to + ReplaceAll(s[|from|..], from, to)
    else [s[0]] + ReplaceAll(s[1..], from, to)
  }

  function Host(host: string): string {
    HostPattern.ToLower(HostPattern.TrimDot(host))
  }

  /** An access token may go to the API hosts, a refresh token only back to its issuer. */
  predicate TokenHostAllowed(d: Definition, kind: Kind, host: string) {
    if kind.Refresh? then Host(host) == d.issuerHost else HostPattern.Matches(d.apiHosts, Host(host))
  }

  function TokenName(broker: string, kind: Kind): string {
    "oauth_" + broker + (if kind.Access? then "_access" else "_refresh") + "_token"
  }

  // --- substitution in a request value ---

  /** Headers and query values carry credentials; bodies carry content. */
  datatype Site = Credential | Body

  /** How generated placeholders look, with or without a real token behind them. */
  datatype Shapes = Shapes(occurs: string -> bool, whole: string -> bool, virtualJwt: string -> bool)

  datatype Request = Request(client: string, host: string, secure: bool, site: Site, allowScheme: bool, now: int)

  datatype ReplaceError = NotComplete | Plaintext | WrongClient | WrongHost | Expired | Unavailable | Unknown

  datatype Replacement = Replacement(text: string, names: set<string>)

  predicate Known(t: Tokens, value: string) {
    exists p :: p in t.live && Contains(value, p)
  }

  /** The parts of a value that may be a credential: all of it, or what follows a scheme. */
  function Candidates(value: string, allowScheme: bool): seq<string> {
    var trimmed := HostPattern.TrimSpace(value);
    var space := FirstSpace(trimmed, 0);
    [trimmed] + if allowScheme && space < |trimmed| then [HostPattern.TrimSpace(trimmed[space + 1..])] else []
  }

  function FirstSpace(s: string, from: nat): (i: nat)
    requires from <= |s|
    ensures from <= i <= |s|
    ensures i < |s| ==> s[i] == ' '
    decreases |s| - from
  {
    if from == |s| || s[from] == ' ' then from else FirstSpace(s, from + 1)
  }

  predicate JwtInCredential(shapes: Shapes, value: string, allowScheme: bool) {
    exists i :: 0 <= i < |Candidates(value, allowScheme)| && shapes.virtualJwt(Candidates(value, allowScheme)[i])
  }

  predicate ValidCredential(t: Tokens, shapes: Shapes, value: string, allowScheme: bool) {
    exists i :: 0 <= i < |Candidates(value, allowScheme)| &&
      var candidate := Candidates(value, allowScheme)[i];
      candidate in t.live || (!Known(t, value) && (shapes.whole(candidate) || shapes.virtualJwt(candidate)))
  }

  /** The real token behind a live placeholder, if this request may carry it. */
  function Authorize(policy: Policy, t: Tokens, p: string, q: Request): Result<Issue, ReplaceError>
    requires p in t.live
  {
    var reference := t.live[p];
    if reference.key !in t.records || t.records[reference.key].client != q.client then Err(WrongClient)
    else
      var r := t.records[reference.key];
      if r.broker !in policy || !TokenHostAllowed(policy[r.broker], reference.kind, q.host) then Err(WrongHost)
      else if reference.kind.Access? && r.accessExpiresAt.Some? && q.now > r.accessExpiresAt.value then Err(Expired)
      else if RealToken(r, reference.kind) == "" then Err(Unavailable)
      else Ok(Issue(RealToken(r, reference.kind), reference.kind, r.broker, r.client, Until(r, reference.kind)))
  }

  /** Replaces the placeholders of the list, one after the other, wherever they still occur. */
  function ReplaceListed(policy: Policy, t: Tokens, order: seq<string>, text: string, q: Request)
    : Result<Replacement, ReplaceError>
    requires forall i :: 0 <= i < |order| ==> order[i] in t.live && order[i] != ""
  {
    if order == [] then Ok(Replacement(text, {}))
    else if !Contains(text, order[0]) then ReplaceListed(policy, t, order[1..], text, q)
    else
      var issue := Authorize(policy, t, order[0], q);
      if issue.Err? then Err(issue.error)
      else
        var rest := ReplaceListed(policy, t, order[1..], ReplaceAll(text, order[0], issue.value.token), q);
        if rest.Err? then rest
        else Ok(rest.value.(names := rest.value.names + {TokenName(issue.value.broker, issue.value.kind)}))
  }

  /** The live placeholders, each once, longer ones first. */
  ghost predicate LongestFirst(order: seq<string>, t: Tokens) {
    && (forall i :: 0 <= i < |order| ==> order[i] in t.live && order[i] != "")
    && Arrangement(order, t.live.Keys)
  }

  /** The order in which the broker looks for its live placeholders. */
  ghost function OrderOf(t: Tokens): (order: seq<string>)
    requires Mirror(t)
    ensures LongestFirst(order, t)
  {
    NoEmptyPlaceholder(t);
    Ordered(t.live.Keys)
  }

  lemma NoEmptyPlaceholder(t: Tokens)
    requires Mirror(t)
    ensures "" !in t.live
  {
    assert forall p :: p in t.live ==> Leads(t, p) && p != "";
  }

  lemma OneOrder(order: seq<string>, t: Tokens)
    requires Mirror(t) && LongestFirst(order, t)
    ensures order == OrderOf(t)
  {
    OneArrangement(order, OrderOf(t), t.live.Keys);
  }

  predicate IssuerHost(defs: seq<Definition>, host: string) {
    exists i :: 0 <= i < |defs| && defs[i].issuerHost == Host(host)
  }

  function ReplaceValue(defs: seq<Definition>, policy: Policy, shapes: Shapes, t: Tokens, order: seq<string>,
                        value: string, q: Request)
    : Result<Replacement, ReplaceError>
    requires forall i :: 0 <= i < |order| ==> order[i] in t.live && order[i] != ""
  {
    if q.site.Body? && !IssuerHost(defs, q.host) then Ok(Replacement(value, {}))
    else if !Known(t, value)
        && !(q.site.Credential? && (shapes.occurs(value) || JwtInCredential(shapes, value, q.allowScheme))) then
      Ok(Replacement(value, {}))
    else if q.site.Credential? && !ValidCredential(t, shapes, value, q.allowScheme) then Err(NotComplete)
    else if !q.secure then Err(Plaintext)
    else
      var replaced := ReplaceListed(policy, t, order, value, q);
      if replaced.Err? then replaced
      else if q.site.Credential?
          && (shapes.occurs(replaced.value.text) || JwtInCredential(shapes, replaced.value.text, q.allowScheme)) then
        Err(Unknown)
      else replaced
  }

  predicate MatchesEndpoint(d: Definition, client: string, host: string, path: string) {
    client in d.clients && d.issuerHost == Host(host) && d.tokenPath == path
  }

  class Broker {
    const defs: seq<Definition>
    const policy: Policy
    var records: map<string, TokenRecord>
    var live: map<string, Reference>

    ghost predicate Valid()
      reads this
    {
      && PolicyOk(policy)
      && (forall i :: 0 <= i < |defs| ==> defs[i].name in policy && policy[defs[i].name] == defs[i])
      && Mirror(Current()) && InPolicy(policy, Current())
    }

    function Current(): Tokens
      reads this
    {
      Tokens(records, live)
    }

    /** Starts from the maps loaded from the auth file. */
    constructor (defs: seq<Definition>, policy: Policy, loaded: Tokens)
      requires PolicyOk(policy) && Mirror(loaded) && InPolicy(policy, loaded)
      requires forall i :: 0 <= i < |defs| ==> defs[i].name in policy && policy[defs[i].name] == defs[i]
      ensures Valid() && Current() == loaded && this.defs == defs && this.policy == policy
    {
      this.defs, this.policy := defs, policy;
      records, live := loaded.records, loaded.live;
    }

    /** The first definition whose token endpoint this is for this client. */
    method MatchDefinition(client: string, host: string, path: string) returns (r: Option<Definition>)
      ensures r.None? ==> forall i :: 0 <= i < |defs| ==> !MatchesEndpoint(defs[i], client, host, path)
      ensures r.Some? ==>
                exists i :: && 0 <= i < |defs| && r.value == defs[i]
                            && MatchesEndpoint(defs[i], client, host, path)
                            && forall k :: 0 <= k < i ==> !MatchesEndpoint(defs[k], client, host, path)
    {
      hide MatchesEndpoint;
      for i := 0 to |defs|
        invariant forall k :: 0 <= k < i ==> !MatchesEndpoint(defs[k], client, host, path)
      {
        if MatchesEndpoint(defs[i], client, host, path) {
          return Some(defs[i]);
        }
      }
      return None;
    }

    /** The response carries an access token, and a refresh token only as a string. */
    predicate Usable(response: Option<Response>) {
      && response.Some? && response.value.access.Some? && response.value.access.value != ""
      && !response.value.refresh.NotAString?
    }

    /**
     * Virtualizes a successful token response: the client gets the placeholders
     * instead of the tokens. The maps change even if saving them then fails.
     */
    method ObserveTokenResponse(d: Definition, client: string, response: Option<Response>, drawn: Drawn, now: int,
                                saved: bool)
      returns (r: Result<Drawn, ObserveError>)
      requires Valid() && d in defs && client in d.clients && Fresh(drawn, live.Keys)
      modifies this
      ensures Valid()
      ensures response.None? ==> r == Err(NotJson) && Current() == old(Current())
      ensures response.Some? && (response.value.access.None? || response.value.access.value == "") ==>
        r == Err(NoAccessToken) && Current() == old(Current())
      ensures response.Some? && response.value.access.Some? && response.value.access.value != "" &&
              response.value.refresh.NotAString? ==>
        r == Err(RefreshNotAString) && Current() == old(Current())
      ensures Usable(response) ==> r.Ok? || r == Err(NotSaved)
      ensures Usable(response) ==>
                View(Current()) == Granted(View(old(Current())), Event(d, client, response.value, drawn, now))
      ensures r.Ok? || r == Err(NotSaved) ==>
        && Usable(response)
        && var record := NextRecord(old(Current()), d, client, response.value, drawn, now);
        && Current() == Replaced(old(Current()), KeyOf(d.name, client), record)
        && (r.Ok? <==> saved)
        && (r.Ok? ==> r.value == Drawn(record.accessPlaceholder, record.refreshPlaceholder))
    {
      if response.None? {
        return Err(NotJson);
      }
      var fields := response.value;
      if fields.access.None? || fields.access.value == "" {
        return Err(NoAccessToken);
      }
      if fields.refresh.NotAString? {
        return Err(RefreshNotAString);
      }
      ObserveMirrors(Current(), d, client, fields, drawn, now);
      ResponseGrants(Current(), Event(d, client, fields, drawn, now));
      NoEmptyPlaceholder(Current());
      hide Mirror, Fresh, View, Granted;
      var key := KeyOf(d.name, client);
      var previous := if key in records then Some(records[key]) else None;
      var refresh, refreshPlaceholder := "", "";
      if fields.refresh.Present? {
        refresh := fields.refresh.value;
        if refresh != "" {
          refreshPlaceholder := drawn.refresh;
        }
      } else if previous.Some? && previous.value.refreshToken != "" && previous.value.refreshPlaceholder != "" {
        refresh, refreshPlaceholder := previous.value.refreshToken, previous.value.refreshPlaceholder;
      }
      var record := TokenRecord(d.name, client, d.issuerHost, fields.access.value, refresh,
                                drawn.access, refreshPlaceholder, fields.expiresAt, now);
      InPolicyAfter(Current(), key, record);
      Install(key, previous, record);
      if !saved {
        return Err(NotSaved);
      }
      return Ok(Drawn(record.accessPlaceholder, record.refreshPlaceholder));
    }

    lemma InPolicyAfter(t: Tokens, key: string, record: TokenRecord)
      requires InPolicy(policy, t) && Allowed(policy, record)
      ensures InPolicy(policy, Replaced(t, key, record))
    {
    }

    /** Drops the placeholders of the previous record and stores the new one with its own. */
    method Install(key: string, previous: Option<TokenRecord>, record: TokenRecord)
      requires previous == if key in records then Some(records[key]) else None
      requires "" !in live
      modifies this
      ensures Current() == Replaced(old(Current()), key, record)
    {
      if previous.Some? {
        live := live - {previous.value.accessPlaceholder};
        if previous.value.refreshPlaceholder != "" {
          live := live - {previous.value.refreshPlaceholder};
        }
      }
      ghost var kept := live;
      assert previous.Some? ==>
               kept == old(live) - {previous.value.accessPlaceholder, previous.value.refreshPlaceholder};
      records := records[key := record];
      live := live[record.accessPlaceholder := Reference(key, Access)];
      if record.refreshPlaceholder != "" {
        live := live[record.refreshPlaceholder := Reference(key, Refresh)];
      }
    }

    /** Substitutes the real tokens this request may carry, or refuses the value. */
    method ReplaceRequestValue(shapes: Shapes, value: string, q: Request) returns (r: Result<Replacement, ReplaceError>)
      requires Valid()
      ensures r == ReplaceValue(defs, policy, shapes, Current(), OrderOf(Current()), value, q)
    {
      hide Mirror, InPolicy, PolicyOk, ReplaceListed, ValidCredential, JwtInCredential, Known;
      if q.site.Body? && !IssuerHost(defs, q.host) {
        return Ok(Replacement(value, {}));
      }
      var present := Known(Current(), value);
      if q.site.Credential? && !present {
        present := shapes.occurs(value) || JwtInCredential(shapes, value, q.allowScheme);
      }
      if !present {
        return Ok(Replacement(value, {}));
      }
      if q.site.Credential? && !ValidCredential(Current(), shapes, value, q.allowScheme) {
        return Err(NotComplete);
      }
      if !q.secure {
        return Err(Plaintext);
      }
      var order := SortPlaceholders(live.Keys);
      assert order == OrderOf(Current());
      r := ReplaceEach(order, value, q);
      if r.Ok? && q.site.Credential?
         && (shapes.occurs(r.value.text) || JwtInCredential(shapes, r.value.text, q.allowScheme)) {
        return Err(Unknown);
      }
    }

    method ReplaceEach(order: seq<string>, value: string, q: Request) returns (r: Result<Replacement, ReplaceError>)
      requires forall i :: 0 <= i < |order| ==> order[i] in live && order[i] != ""
      ensures r == ReplaceListed(policy, Current(), order, value, q)
    {
      hide Authorize, ReplaceAll, Contains, WithNames, ReplaceListed;
      var used: set<string>, out := {}, value;
      ghost var t := Current();
      assert order[0..] == order;
      NoNames(ReplaceListed(policy, t, order, value, q));
      for i := 0 to |order|
        invariant ReplaceListed(policy, t, order, value, q) ==
                    WithNames(used, ReplaceListed(policy, t, order[i..], out, q))
      {
        var p := order[i];
        assert order[i..][1..] == order[i + 1..];
        ListedStep(policy, t, order[i..], order[i + 1..], out, q, used);
        if Contains(out, p) {
          var issue := Authorize(policy, Current(), p, q);
          if issue.Err? {
            return Err(issue.error);
          }
          out := ReplaceAll(out, p, issue.value.token);
          used := used + {TokenName(issue.value.broker, issue.value.kind)};
        }
      }
      NothingLeft(policy, t, out, q, used);
      return Ok(Replacement(out, used));
    }
  }

  lemma NothingLeft(policy: Policy, t: Tokens, text: string, q: Request, used: set<string>)
    ensures WithNames(used, ReplaceListed(policy, t, [], text, q)) == Ok(Replacement(text, used))
  {
    assert used + {} == used;
  }

  function WithNames(names: set<string>, r: Result<Replacement, ReplaceError>): Result<Replacement, ReplaceError> {
    if r.Err? then r else Ok(r.value.(names := names + r.value.names))
  }

  lemma NoNames(r: Result<Replacement, ReplaceError>)
    ensures WithNames({}, r) == r
  {
    if r.Ok? {
      assert {} + r.value.names == r.value.names;
    }
  }

  lemma ListedStep(policy: Policy, t: Tokens, order: seq<string>, later: seq<string>, text: string, q: Request,
                   used: set<string>)
    requires forall i :: 0 <= i < |order| ==> order[i] in t.live && order[i] != ""
    requires order != [] && later == order[1..]
    ensures WithNames(used, ReplaceListed(policy, t, order, text, q)) ==
            if !Contains(text, order[0]) then WithNames(used, ReplaceListed(policy, t, later, text, q))
            else
              var issue := Authorize(policy, t, order[0], q);
              if issue.Err? then Err(issue.error)
              else WithNames(used + {TokenName(issue.value.broker, issue.value.kind)},
                             ReplaceListed(policy, t, later, ReplaceAll(text, order[0], issue.value.token), q))
  {
    hide Contains, Authorize, ReplaceAll, TokenName;
    if Contains(text, order[0]) && Authorize(policy, t, order[0], q).Ok? {
      var issue := Authorize(policy, t, order[0], q).value;
      var rest := ReplaceListed(policy, t, later, ReplaceAll(text, order[0], issue.token), q);
      if rest.Ok? {
        var name := TokenName(issue.broker, issue.kind);
        assert used + (rest.value.names + {name}) == used + {name} + rest.value.names;
      }
    }
  }

  // --- what substitution guarantees ---

  /** A request may carry this token: right client, right host, not expired. */
  ghost predicate MayCarry(policy: Policy, q: Request, t: Tokens, p: string) {
    && p in t.live && t.live[p].key in t.records
    && var r := t.records[t.live[p].key];
    && r.client == q.client && r.broker in policy
    && TokenHostAllowed(policy[r.broker], t.live[p].kind, q.host)
    && (t.live[p].kind.Access? && r.accessExpiresAt.Some? ==> q.now <= r.accessExpiresAt.value)
  }

  /** The text after each placeholder of a list, one after the other, gave way to the token it stands for. */
  ghost function Exchanged(t: Tokens, used: seq<string>, text: string): string
    requires forall i :: 0 <= i < |used| ==> used[i] in t.live && used[i] != "" && t.live[used[i]].key in t.records
  {
    if used == [] then text
    else
      var p := used[0];
      Exchanged(t, used[1..], ReplaceAll(text, p, RealToken(t.records[t.live[p].key], t.live[p].kind)))
  }

  ghost function NamesOf(t: Tokens, used: seq<string>): set<string>
    requires forall i :: 0 <= i < |used| ==> used[i] in t.live && t.live[used[i]].key in t.records
  {
    if used == [] then {}
    else NamesOf(t, used[1..]) + {TokenName(t.records[t.live[used[0]].key].broker, t.live[used[0]].kind)}
  }

  /**
   * The text is what replacing these placeholders by their own tokens makes of the
   * value, and the names are exactly theirs; the request may carry each of them.
   */
  ghost predicate Exchange(policy: Policy, t: Tokens, q: Request, used: seq<string>, value: string, r: Replacement) {
    && (forall i :: 0 <= i < |used| ==> used[i] != "" && MayCarry(policy, q, t, used[i]))
    && r == Replacement(Exchanged(t, used, value), NamesOf(t, used))
  }

  lemma NothingExchanged(policy: Policy, t: Tokens, q: Request, value: string)
    ensures Exchange(policy, t, q, [], value, Replacement(value, {}))
  {
  }

  lemma OneExchanged(policy: Policy, t: Tokens, q: Request, p: string, used: seq<string>, value: string,
                     rest: Replacement)
    requires MayCarry(policy, q, t, p) && p != ""
    requires var r := t.records[t.live[p].key];
             Exchange(policy, t, q, used, ReplaceAll(value, p, RealToken(r, t.live[p].kind)), rest)
    ensures var r := t.records[t.live[p].key];
            Exchange(policy, t, q, [p] + used, value,
                     rest.(names := rest.names + {TokenName(r.broker, t.live[p].kind)}))
  {
    hide ReplaceAll, TokenName, TokenHostAllowed;
    assert ([p] + used)[1..] == used;
    assert forall i :: 1 <= i < |[p] + used| ==> ([p] + used)[i] == used[i - 1];
  }

  /** The placeholders used are some of the list, in its order, so longer ones before shorter ones and none twice. */
  predicate Sublist(used: seq<string>, order: seq<string>) {
    used == [] ||
    (order != [] && if used[0] == order[0] then Sublist(used[1..], order[1..]) else Sublist(used, order[1..]))
  }

  lemma {:induction false} ListedExchanges(policy: Policy, t: Tokens, order: seq<string>, text: string, q: Request)
    returns (used: seq<string>)
    requires forall i :: 0 <= i < |order| ==> order[i] in t.live && order[i] != ""
    requires ReplaceListed(policy, t, order, text, q).Ok?
    ensures Sublist(used, order) && Exchange(policy, t, q, used, text, ReplaceListed(policy, t, order, text, q).value)
    ensures (forall i :: 0 <= i < |order| ==> !Contains(text, order[i])) <==> used == []
  {
    hide Contains, ReplaceAll, TokenHostAllowed, TokenName, Exchange;
    if order == [] {
      used := [];
      NothingExchanged(policy, t, q, text);
    } else if Contains(text, order[0]) {
      var issue := Authorize(policy, t, order[0], q);
      used := ListedExchanges(policy, t, order[1..], ReplaceAll(text, order[0], issue.value.token), q);
      OneExchanged(policy, t, q, order[0], used, text,
                   ReplaceListed(policy, t, order[1..], ReplaceAll(text, order[0], issue.value.token), q).value);
      used := [order[0]] + used;
    } else {
      used := ListedExchanges(policy, t, order[1..], text, q);
      SublistLater(used, order);
      assert (forall i :: 0 <= i < |order[1..]| ==> !Contains(text, order[1..][i])) ==>
               forall i :: 1 <= i < |order| ==> order[i] == order[1..][i - 1];
    }
  }

  lemma {:induction false} SublistLater(used: seq<string>, order: seq<string>)
    requires order != [] && Sublist(used, order[1..])
    ensures Sublist(used, order)
  {
    if used != [] && used[0] == order[0] {
      SublistTail(used, order[1..]);
    }
  }

  lemma {:induction false} SublistTail(used: seq<string>, order: seq<string>)
    requires used != [] && Sublist(used, order)
    ensures Sublist(used[1..], order)
  {
    if used[0] == order[0] {
      SublistLater(used[1..], order);
    } else {
      SublistTail(used, order[1..]);
      SublistLater(used[1..], order);
    }
  }

  /**
   * A value changes only over a secure connection, and then into what replacing some
   * live placeholders by the very tokens they stand for makes of it: tokens of this
   * client, for a host they are meant for and not expired, whose names are reported.
   */
  lemma SubstitutionIsAuthorized(defs: seq<Definition>, policy: Policy, shapes: Shapes, t: Tokens, order: seq<string>,
                                 value: string, q: Request)
    returns (used: seq<string>)
    requires LongestFirst(order, t)
    requires ReplaceValue(defs, policy, shapes, t, order, value, q).Ok?
    ensures var r := ReplaceValue(defs, policy, shapes, t, order, value, q).value;
            && Sublist(used, order) && Exchange(policy, t, q, used, value, r)
            && (used != [] ==> q.secure)
            && (used == [] ==> r == Replacement(value, {}))
  {
    hide ReplaceListed, Known, JwtInCredential, ValidCredential, IssuerHost, Exchange, Sublist;
    NothingExchanged(policy, t, q, value);
    EmptySublist(order);
    used := [];
    var listed := ReplaceListed(policy, t, order, value, q);
    if listed.Ok? && ReplaceValue(defs, policy, shapes, t, order, value, q) == listed && q.secure {
      used := ListedExchanges(policy, t, order, value, q);
      EmptyExchange(policy, t, q, value, listed.value);
    }
  }

  lemma EmptySublist(order: seq<string>)
    ensures Sublist([], order)
  {
  }

  lemma EmptyExchange(policy: Policy, t: Tokens, q: Request, value: string, r: Replacement)
    ensures Exchange(policy, t, q, [], value, r) ==> r == Replacement(value, {})
  {
  }

  lemma {:induction false} NothingListed(policy: Policy, t: Tokens, order: seq<string>, text: string, q: Request)
    requires forall i :: 0 <= i < |order| ==> order[i] in t.live && order[i] != ""
    requires forall i :: 0 <= i < |order| ==> !Contains(text, order[i])
    ensures ReplaceListed(policy, t, order, text, q) == Ok(Replacement(text, {}))
  {
    hide Contains;
    if order != [] {
      NothingListed(policy, t, order[1..], text, q);
    }
  }

  lemma OnlyItself(p: string, other: string)
    requires |other| >= |p| && Contains(p, other)
    ensures p == other
  {
    var i :| 0 <= i <= |p| && OccursAt(p, other, i);
    assert p[0..|p|] == p;
  }

  lemma ReplaceWhole(p: string, to: string)
    requires p != ""
    ensures Contains(p, p) && ReplaceAll(p, p, to) == to
  {
    assert OccursAt(p, p, 0);
    assert p[|p|..] == "" && to + "" == to;
    assert ReplaceAll("", p, to) == "";
  }

  /** The longer placeholders are passed over, the exact one is replaced, and the later ones meet only its token. */
  lemma {:induction false} ExactListed(policy: Policy, t: Tokens, order: seq<string>, k: nat, q: Request)
    requires forall i :: 0 <= i < |order| ==> order[i] in t.live && order[i] != ""
    requires forall i, j :: 0 <= i < j < |order| ==> order[i] != order[j] && |order[i]| >= |order[j]|
    requires k < |order|
    ensures var issue := Authorize(policy, t, order[k], q);
            ReplaceListed(policy, t, order, order[k], q) ==
            if issue.Err? then Err(issue.error)
            else WithNames({TokenName(issue.value.broker, issue.value.kind)},
                           ReplaceListed(policy, t, order[k + 1..], issue.value.token, q))
  {
    hide Contains, ReplaceAll, Authorize, TokenName;
    if k == 0 {
      var issue := Authorize(policy, t, order[0], q);
      ReplaceWhole(order[0], if issue.Ok? then issue.value.token else "");
      if issue.Ok? {
        var name := TokenName(issue.value.broker, issue.value.kind);
        var rest := ReplaceListed(policy, t, order[1..], issue.value.token, q);
        assert rest.Ok? ==> {name} + rest.value.names == rest.value.names + {name};
      }
    } else {
      if Contains(order[k], order[0]) {
        OnlyItself(order[k], order[0]);
      }
      ExactListed(policy, t, order[1..], k - 1, q);
      assert order[1..][k..] == order[k + 1..];
    }
  }

  /** Whether a credential still looks like a placeholder after the exchange. */
  predicate LooksVirtual(shapes: Shapes, text: string, allowScheme: bool) {
    shapes.occurs(text) || JwtInCredential(shapes, text, allowScheme)
  }

  /**
   * A credential that is exactly a live placeholder gives way to the token it was
   * issued for, or the request is refused for the reason its check gives; shorter
   * placeholders are then looked for in that token.
   */
  lemma ExactCredential(defs: seq<Definition>, policy: Policy, shapes: Shapes, t: Tokens, order: seq<string>, k: nat,
                        q: Request)
    requires LongestFirst(order, t) && k < |order| && q.site.Credential? && HostPattern.TrimSpace(order[k]) == order[k]
    ensures var issue := Authorize(policy, t, order[k], q);
            ReplaceValue(defs, policy, shapes, t, order, order[k], q) ==
            if !q.secure then Err(Plaintext)
            else if issue.Err? then Err(issue.error)
            else
              var rest := ReplaceListed(policy, t, order[k + 1..], issue.value.token, q);
              if rest.Ok? && LooksVirtual(shapes, rest.value.text, q.allowScheme) then Err(Unknown)
              else WithNames({TokenName(issue.value.broker, issue.value.kind)}, rest)
  {
    hide ReplaceListed, Authorize, JwtInCredential, Contains, TokenName;
    Descending(order);
    ExactListed(policy, t, order, k, q);
    ReplaceWhole(order[k], "");
    assert Known(t, order[k]);
    assert Candidates(order[k], q.allowScheme)[0] == order[k];
  }

  lemma NamesDiffer(a: string, b: string, x: Kind, y: Kind)
    requires TokenName(a, x) == TokenName(b, y)
    ensures a == b && x == y
  {
    var m, n := TokenName(a, x), TokenName(b, y);
    assert m[|m| - 7] == if x.Access? then 's' else 'h';
    assert n[|n| - 7] == if y.Access? then 's' else 'h';
    assert m[6..6 + |a|] == a && n[6..6 + |b|] == b;
  }

  /** Two live placeholders one request may carry are reported under different names. */
  lemma CarriedNamesDiffer(policy: Policy, q: Request, t: Tokens, a: string, b: string)
    requires Mirror(t) && MayCarry(policy, q, t, a) && MayCarry(policy, q, t, b)
    requires TokenName(t.records[t.live[a].key].broker, t.live[a].kind) ==
               TokenName(t.records[t.live[b].key].broker, t.live[b].kind)
    ensures a == b
  {
    hide TokenHostAllowed;
    NamesDiffer(t.records[t.live[a].key].broker, t.records[t.live[b].key].broker, t.live[a].kind, t.live[b].kind);
    assert Leads(t, a) && Leads(t, b);
    assert WellFormed(t.live[a].key, t.records[t.live[a].key]) && WellFormed(t.live[b].key, t.records[t.live[b].key]);
  }

  lemma {:induction false} SublistMembers(used: seq<string>, order: seq<string>)
    requires used != [] && Sublist(used, order)
    ensures used[0] in order
  {
    if used[0] != order[0] {
      SublistMembers(used, order[1..]);
    }
  }

  /** The later placeholders leave a token as it is, under its one name, exactly if none of them occurs in it. */
  lemma TokenUntouched(policy: Policy, t: Tokens, order: seq<string>, k: nat, q: Request)
    requires Mirror(t) && LongestFirst(order, t) && k < |order| && Authorize(policy, t, order[k], q).Ok?
    ensures var issue := Authorize(policy, t, order[k], q).value;
            var name := TokenName(issue.broker, issue.kind);
            WithNames({name}, ReplaceListed(policy, t, order[k + 1..], issue.token, q)) ==
                Ok(Replacement(issue.token, {name}))
            <==> forall i :: k < i < |order| ==> !Contains(issue.token, order[i])
  {
    hide Contains, ReplaceAll, TokenHostAllowed, TokenName, Exchange, Mirror, ReplaceListed;
    Descending(order);
    var issue, later := Authorize(policy, t, order[k], q).value, order[k + 1..];
    var name, rest := TokenName(issue.broker, issue.kind), ReplaceListed(policy, t, later, issue.token, q);
    assert forall i :: 0 <= i < |later| ==> later[i] == order[k + 1 + i];
    assert forall i :: k < i < |order| ==> order[i] == later[i - k - 1];
    if forall i :: k < i < |order| ==> !Contains(issue.token, order[i]) {
      NothingListed(policy, t, later, issue.token, q);
      assert {name} + {} == {name};
    } else if rest.Ok? {
      var used := ListedExchanges(policy, t, later, issue.token, q);
      SublistMembers(used, later);
      assert MayCarry(policy, q, t, order[k]);
      OtherName(policy, t, q, order[k], used, issue.token, rest.value);
    }
  }

  lemma OtherName(policy: Policy, t: Tokens, q: Request, p: string, used: seq<string>, text: string, r: Replacement)
    requires Mirror(t) && MayCarry(policy, q, t, p) && Exchange(policy, t, q, used, text, r) && used != []
             && used[0] != p
    ensures var name := TokenName(t.records[t.live[p].key].broker, t.live[p].kind);
            {name} + r.names != {name}
  {
    hide ReplaceAll, TokenHostAllowed, TokenName, Mirror;
    var other := TokenName(t.records[t.live[used[0]].key].broker, t.live[used[0]].kind);
    assert MayCarry(policy, q, t, used[0]);
    assert other in r.names;
    if other == TokenName(t.records[t.live[p].key].broker, t.live[p].kind) {
      CarriedNamesDiffer(policy, q, t, p, used[0]);
    }
  }

  /**
   * So the credential becomes exactly its token, under its one name, if and only if
   * the connection is secure, the request may carry the token, and the token itself
   * neither contains a shorter live placeholder nor looks like one.
   */
  lemma ExactlyTheToken(defs: seq<Definition>, policy: Policy, shapes: Shapes, t: Tokens, order: seq<string>, k: nat,
                        q: Request)
    requires Mirror(t) && LongestFirst(order, t) && k < |order| && q.site.Credential?
             && HostPattern.TrimSpace(order[k]) == order[k]
    ensures var issue := Authorize(policy, t, order[k], q);
            (issue.Ok? && ReplaceValue(defs, policy, shapes, t, order, order[k], q)
                          == Ok(Replacement(issue.value.token, {TokenName(issue.value.broker, issue.value.kind)})))
            <==> q.secure && issue.Ok?
                 && (forall i :: k < i < |order| ==> !Contains(issue.value.token, order[i]))
                 && !LooksVirtual(shapes, issue.value.token, q.allowScheme)
  {
    hide ReplaceListed, ReplaceValue, Authorize, Contains, TokenName, LooksVirtual, Mirror;
    ExactCredential(defs, policy, shapes, t, order, k, q);
    if Authorize(policy, t, order[k], q).Ok? {
      TokenUntouched(policy, t, order, k, q);
    }
  }

  // --- a token that contains a placeholder ---

  /** Two clients' tokens under short placeholders; the first token ends in the second placeholder. */
  const HOLDER := TokenRecord("a", "c", "i", "xP", "", "LONG", "", None, 0)
  const HELD := TokenRecord("b", "c", "i", "y", "", "P", "", None, 0)

  function ExampleDefinition(name: string): Definition {
    Definition(name, ["c"], "i", "/token", ["h"])
  }

  const EXAMPLE_POLICY: Policy := map["a" := ExampleDefinition("a"), "b" := ExampleDefinition("b")]

  const EXAMPLE_TOKENS := Tokens(
    map[KeyOf("a", "c") := HOLDER, KeyOf("b", "c") := HELD],
    map["LONG" := Reference(KeyOf("a", "c"), Access), "P" := Reference(KeyOf("b", "c"), Access)])

  lemma ExampleLoads()
    ensures PolicyOk(EXAMPLE_POLICY) && LoadAll(EXAMPLE_POLICY, [HOLDER, HELD]) == Ok(EXAMPLE_TOKENS)
  {
    var a, b := KeyOf("a", "c"), KeyOf("b", "c");
    assert a[0] != b[0];
    assert [HOLDER, HELD][..1] == [HOLDER] && [HOLDER][..0] == [];
    var first := Tokens(map[a := HOLDER], map["LONG" := Reference(a, Access)]);
    assert LoadAll(EXAMPLE_POLICY, []) == Ok(EMPTY);
    assert LoadAll(EXAMPLE_POLICY, [HOLDER]) == Ok(first);
    assert LoadRecord(EXAMPLE_POLICY, first, HELD) == Ok(EXAMPLE_TOKENS);
  }

  /**
   * A credential that is exactly a placeholder, carried where its token may go, does
   * not become that token: the shorter placeholder inside the token gives way too.
   */
  lemma TokenCanHoldPlaceholder(defs: seq<Definition>, shapes: Shapes)
    ensures var q := Request("c", "h", true, Credential, false, 0);
            var r := ReplaceValue(defs, EXAMPLE_POLICY, shapes, EXAMPLE_TOKENS, ["LONG", "P"], "LONG", q);
            && PolicyOk(EXAMPLE_POLICY) && LoadAll(EXAMPLE_POLICY, [HOLDER, HELD]) == Ok(EXAMPLE_TOKENS)
            && LongestFirst(["LONG", "P"], EXAMPLE_TOKENS)
            && Authorize(EXAMPLE_POLICY, EXAMPLE_TOKENS, "LONG", q) == Ok(Issue("xP", Access, "a", "c", None))
            && r != Ok(Replacement("xP", {TokenName("a", Access)}))
            && r == if LooksVirtual(shapes, "xy", false) then Err(Unknown)
                    else Ok(Replacement("xy", {TokenName("a", Access), TokenName("b", Access)}))
  {
    hide TokenName, LooksVirtual, LoadAll, PolicyOk, HostPattern.TrimSpace, Authorize, ReplaceValue, Contains;
    hide ReplaceAll;
    var q, t := Request("c", "h", true, Credential, false, 0), EXAMPLE_TOKENS;
    ExampleLoads();
    ExampleOrder();
    ExampleAuthorized(q);
    ExampleText();
    ExactCredential(defs, EXAMPLE_POLICY, shapes, t, ["LONG", "P"], 0, q);
    assert ["LONG", "P"][1..] == ["P"] && ["P"][1..] == [];
    assert ReplaceListed(EXAMPLE_POLICY, t, [], "xy", q) == Ok(Replacement("xy", {}));
    var a, b := TokenName("a", Access), TokenName("b", Access);
    assert {} + {b} == {b} && {a} + {b} == {a, b};
    assert "xy"[1] != "xP"[1];
    assert ReplaceListed(EXAMPLE_POLICY, t, ["P"], "xP", q) == Ok(Replacement("xy", {b}));
  }

  lemma ExampleOrder()
    ensures LongestFirst(["LONG", "P"], EXAMPLE_TOKENS)
  {
  }

  lemma ExampleAuthorized(q: Request)
    requires q.client == "c" && q.host == "h"
    ensures Authorize(EXAMPLE_POLICY, EXAMPLE_TOKENS, "LONG", q) == Ok(Issue("xP", Access, "a", "c", None))
    ensures Authorize(EXAMPLE_POLICY, EXAMPLE_TOKENS, "P", q) == Ok(Issue("y", Access, "b", "c", None))
  {
    assert KeyOf("a", "c")[0] != KeyOf("b", "c")[0];
    assert Host("h") == "h";
    assert HostPattern.MatchesOne(["h"][0], "h");
  }

  lemma ExampleText()
    ensures HostPattern.TrimSpace("LONG") == "LONG"
    ensures Contains("xP", "P") && ReplaceAll("xP", "P", "y") == "xy"
  {
    assert OccursAt("xP", "P", 1);
    assert "xP"[1..] == "P" && "P"[1..] == "";
    assert ReplaceAll("", "P", "y") == "";
    assert ReplaceAll("P", "P", "y") == "y" + "" == "y";
    assert "xP"[0] != "P"[0] && ['x'] + "y" == "xy";
  }
}

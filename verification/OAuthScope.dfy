/** Which request may carry which token, and where in it: label by label and letter by letter. */
module OAuthScope {
  import opened Bytes
  import opened OAuthBroker
  import opened OAuthTokens
  import opened OAuthFile
  import HostPattern

  // --- hosts ---

  /** The hosts of a definition as its validation leaves them. */
  ghost predicate HostsOk(d: Definition) {
    HostPattern.Valid(d.issuerHost) && forall p :: p in d.apiHosts ==> HostPattern.Canonical(p)
  }

  ghost predicate PolicyHostsOk(policy: Policy) {
    forall n :: n in policy ==> HostsOk(policy[n])
  }

  /** The labels of the host are those of the issuer. */
  predicate AtIssuer(d: Definition, host: string) {
    HostPattern.HostFits(d.issuerHost, host)
  }

  /** A refresh token goes to its issuer only, an access token only where the labels fit an API host. */
  ghost predicate MayGo(d: Definition, kind: Kind, host: string) {
    match kind
    case Refresh => AtIssuer(d, host)
    case Access => exists p :: p in d.apiHosts && HostPattern.HostFits(p, HostPattern.TrimDot(host))
  }

  lemma AtIssuerIs(d: Definition, host: string)
    requires HostPattern.Valid(d.issuerHost)
    ensures Host(host) == d.issuerHost <==> AtIssuer(d, host)
  {
    hide HostPattern.Valid, HostPattern.HostFits, HostPattern.ToLower, HostPattern.TrimDot;
    HostPattern.ValidHostChars(d.issuerHost);
    assert d.issuerHost[0] == '.' || HostPattern.LabelChar(d.issuerHost[0]);
    HostPattern.MatchesOneIs(d.issuerHost, host);
  }

  lemma MayGoIs(d: Definition, kind: Kind, host: string)
    requires HostsOk(d)
    ensures TokenHostAllowed(d, kind, host) <==> MayGo(d, kind, host)
  {
    hide HostPattern.Valid, HostPattern.Canonical, HostPattern.HostFits, HostPattern.Matches;
    AtIssuerIs(d, host);
    HostPattern.MatchesLowered(d.apiHosts, host);
  }

  lemma IssuerHostIs(defs: seq<Definition>, host: string)
    requires forall d :: d in defs ==> HostPattern.Valid(d.issuerHost)
    ensures IssuerHost(defs, host) <==> exists d :: d in defs && AtIssuer(d, host)
  {
    hide HostPattern.Valid, AtIssuer, Host;
    forall d | d in defs ensures Host(host) == d.issuerHost <==> AtIssuer(d, host) {
      AtIssuerIs(d, host);
    }
    if d :| d in defs && AtIssuer(d, host) {
      var i :| 0 <= i < |defs| && defs[i] == d;
      assert defs[i].issuerHost == Host(host);
    }
  }

  /** A token response is expected from the issuer's own token path, for the clients served. */
  lemma EndpointIs(d: Definition, client: string, host: string, path: string)
    requires HostPattern.Valid(d.issuerHost)
    ensures MatchesEndpoint(d, client, host, path) <==> client in d.clients && AtIssuer(d, host) && path == d.tokenPath
  {
    hide HostPattern.Valid, AtIssuer, Host;
    AtIssuerIs(d, host);
  }

  // --- tokens ---

  /** The request is this token's client's, goes where the token may go, and the token has not expired. */
  ghost predicate Entitled(policy: Policy, t: Tokens, p: string, q: Request)
    requires p in t.live
  {
    && Resolve(t, p).Some?
    && var issue := Resolve(t, p).value;
    && issue.client == q.client && issue.broker in policy
    && MayGo(policy[issue.broker], issue.kind, q.host)
    && match issue.until case Some(end) => q.now <= end case None => true
  }

  lemma EntitledIs(policy: Policy, t: Tokens, p: string, q: Request)
    requires PolicyHostsOk(policy) && p in t.live
    ensures MayCarry(policy, q, t, p) <==> Entitled(policy, t, p, q)
  {
    hide HostsOk, TokenHostAllowed, MayGo;
    if t.live[p].key in t.records && t.records[t.live[p].key].broker in policy {
      MayGoIs(policy[t.records[t.live[p].key].broker], t.live[p].kind, q.host);
    }
  }

  /** A live placeholder gives exactly the requests entitled to it a token, the one it was issued for. */
  lemma AuthorizeIs(policy: Policy, t: Tokens, p: string, q: Request)
    requires Mirror(t) && PolicyHostsOk(policy) && p in t.live
    ensures Authorize(policy, t, p, q).Ok? <==> Entitled(policy, t, p, q)
    ensures Authorize(policy, t, p, q).Ok? ==> Resolve(t, p) == Some(Authorize(policy, t, p, q).value)
  {
    hide HostsOk, TokenHostAllowed, MayGo;
    assert Leads(t, p);
    var r := t.records[t.live[p].key];
    assert WellFormed(t.live[p].key, r);
    if r.broker in policy {
      MayGoIs(policy[r.broker], t.live[p].kind, q.host);
    }
  }

  /** Every token put into a request was one it is entitled to. */
  lemma OnlyEntitledTokens(defs: seq<Definition>, policy: Policy, shapes: Shapes, t: Tokens, order: seq<string>,
                           value: string, q: Request)
    returns (used: seq<string>)
    requires LongestFirst(order, t) && PolicyHostsOk(policy)
    requires ReplaceValue(defs, policy, shapes, t, order, value, q).Ok?
    ensures var r := ReplaceValue(defs, policy, shapes, t, order, value, q).value;
            && Exchange(policy, t, q, used, value, r) && (used != [] ==> q.secure)
            && forall p :: p in used ==> p in t.live && Entitled(policy, t, p, q)
  {
    hide ReplaceValue, Entitled, LongestFirst, Sublist;
    used := SubstitutionIsAuthorized(defs, policy, shapes, t, order, value, q);
    hide MayCarry;
    forall p | p in used ensures p in t.live && Entitled(policy, t, p, q) {
      var i :| 0 <= i < |used| && used[i] == p;
      assert MayCarry(policy, q, t, used[i]);
      CarriedIsLive(policy, t, p, q);
      EntitledIs(policy, t, p, q);
    }
  }

  lemma CarriedIsLive(policy: Policy, t: Tokens, p: string, q: Request)
    requires MayCarry(policy, q, t, p)
    ensures p in t.live
  {
  }

  // --- places ---

  /** A text that occurs has something before it and something after it. */
  lemma ContainsIs(s: string, t: string)
    ensures Contains(s, t) <==> exists before: string, after: string :: s == before + t + after
  {
    if i :| 0 <= i <= |s| && OccursAt(s, t, i) {
      assert s == s[..i] + t + s[i + |t|..];
    }
    if before: string, after: string :| s == before + t + after {
      assert OccursAt(s, t, |before|);
    }
  }

  /** What is left of a value without white space around it, or, behind a scheme, of the rest of that. */
  ghost predicate CandidateOf(value: string, allowScheme: bool, candidate: string) {
    var trimmed := HostPattern.TrimSpace(value);
    || candidate == trimmed
    || (allowScheme &&
        exists scheme: string, rest: string :: ' ' !in scheme && trimmed == scheme + " " + rest
                                               && candidate == HostPattern.TrimSpace(rest))
  }

  lemma {:induction false} FirstSpaceIs(s: string, from: nat)
    requires from <= |s|
    ensures forall k :: from <= k < FirstSpace(s, from) ==> s[k] != ' '
    decreases |s| - from
  {
    if from < |s| && s[from] != ' ' {
      FirstSpaceIs(s, from + 1);
    }
  }

  /** Cutting at a space after a text without one cuts at the first space. */
  lemma FirstSpaceAfter(scheme: string, rest: string)
    requires ' ' !in scheme
    ensures FirstSpace(scheme + " " + rest, 0) == |scheme|
  {
    var s := scheme + " " + rest;
    var i := FirstSpace(s, 0);
    FirstSpaceIs(s, 0);
    assert forall k :: 0 <= k < |scheme| ==> s[k] == scheme[k] && scheme[k] in scheme;
    assert s[|scheme|] == ' ';
  }

  lemma CandidatesAre(value: string, allowScheme: bool, candidate: string)
    ensures candidate in Candidates(value, allowScheme) <==> CandidateOf(value, allowScheme, candidate)
  {
    hide HostPattern.TrimSpace, FirstSpace;
    var trimmed := HostPattern.TrimSpace(value);
    var i := FirstSpace(trimmed, 0);
    FirstSpaceIs(trimmed, 0);
    if i < |trimmed| {
      assert trimmed == trimmed[0..i] + " " + trimmed[i + 1..];
    }
    if scheme: string, rest: string :| ' ' !in scheme && trimmed == scheme + " " + rest {
      FirstSpaceAfter(scheme, rest);
      assert trimmed[|scheme| + 1..] == rest;
      forall other: string, more: string | ' ' !in other && trimmed == other + " " + more ensures more == rest {
        FirstSpaceAfter(other, more);
        assert trimmed[|other| + 1..] == more;
      }
    }
  }

  /**
   * A header or query value in which a token was put is, but for a scheme and white
   * space, one live placeholder; and what goes out does not look like one any more.
   */
  lemma CredentialIsComplete(defs: seq<Definition>, policy: Policy, shapes: Shapes, t: Tokens, order: seq<string>,
                             value: string, q: Request)
    requires LongestFirst(order, t) && q.site.Credential?
    requires ReplaceValue(defs, policy, shapes, t, order, value, q).Ok?
    requires ReplaceValue(defs, policy, shapes, t, order, value, q).value != Replacement(value, {})
    ensures exists p :: p in t.live && CandidateOf(value, q.allowScheme, p)
    ensures var text := ReplaceValue(defs, policy, shapes, t, order, value, q).value.text;
            && !shapes.occurs(text)
            && forall c :: CandidateOf(text, q.allowScheme, c) ==> !shapes.virtualJwt(c)
  {
    hide ReplaceListed, Candidates, CandidateOf, Contains;
    var text := ReplaceValue(defs, policy, shapes, t, order, value, q).value.text;
    if !Known(t, value) {
      NothingKnown(policy, t, order, value, q);
    }
    var i :| 0 <= i < |Candidates(value, q.allowScheme)| && Candidates(value, q.allowScheme)[i] in t.live;
    CandidatesAre(value, q.allowScheme, Candidates(value, q.allowScheme)[i]);
    forall c | CandidateOf(text, q.allowScheme, c) ensures !shapes.virtualJwt(c) {
      CandidatesAre(text, q.allowScheme, c);
      var k :| 0 <= k < |Candidates(text, q.allowScheme)| && Candidates(text, q.allowScheme)[k] == c;
    }
  }

  lemma NothingKnown(policy: Policy, t: Tokens, order: seq<string>, value: string, q: Request)
    requires LongestFirst(order, t) && !Known(t, value)
    ensures ReplaceListed(policy, t, order, value, q) == Ok(Replacement(value, {}))
  {
    hide Contains;
    NothingListed(policy, t, order, value, q);
  }

  /** Content is changed only on its way to an issuer. */
  lemma BodiesChangeAtIssuers(defs: seq<Definition>, policy: Policy, shapes: Shapes, t: Tokens, order: seq<string>,
                              value: string, q: Request)
    requires LongestFirst(order, t) && q.site.Body? && forall d :: d in defs ==> HostPattern.Valid(d.issuerHost)
    requires ReplaceValue(defs, policy, shapes, t, order, value, q) != Ok(Replacement(value, {}))
    ensures exists d :: d in defs && AtIssuer(d, q.host)
  {
    hide ReplaceListed, Known, HostPattern.Valid, AtIssuer, IssuerHost;
    IssuerHostIs(defs, q.host);
  }

  // --- outcomes ---

  ghost predicate Mentions(t: Tokens, value: string) {
    exists p :: p in t.live && Occurs(p, value)
  }

  ghost predicate Occurs(p: string, value: string) {
    exists before: string, after: string :: value == before + p + after
  }

  /** The value has the shape of a placeholder somewhere, whether or not there is a token behind it. */
  ghost predicate LooksLikeOne(shapes: Shapes, value: string, allowScheme: bool) {
    shapes.occurs(value) || exists c :: CandidateOf(value, allowScheme, c) && shapes.virtualJwt(c)
  }

  /** The value is one placeholder: a live one, or, if it mentions none, one by its shape. */
  ghost predicate IsOne(t: Tokens, shapes: Shapes, value: string, allowScheme: bool) {
    exists c :: CandidateOf(value, allowScheme, c)
                && (c in t.live || (!Mentions(t, value) && (shapes.whole(c) || shapes.virtualJwt(c))))
  }

  /** There is something to be done about the value: content matters at an issuer only. */
  ghost predicate Concerned(defs: seq<Definition>, t: Tokens, shapes: Shapes, value: string, q: Request) {
    if q.site.Body? then Mentions(t, value) && exists d :: d in defs && AtIssuer(d, q.host)
    else Mentions(t, value) || LooksLikeOne(shapes, value, q.allowScheme)
  }

  lemma KnownIs(t: Tokens, value: string)
    ensures Known(t, value) <==> Mentions(t, value)
  {
    hide Contains, Occurs;
    forall p | p in t.live ensures Contains(value, p) <==> Occurs(p, value) {
      OccursIs(p, value);
    }
  }

  lemma OccursIs(p: string, value: string)
    ensures Contains(value, p) <==> Occurs(p, value)
  {
    hide Contains;
    ContainsIs(value, p);
  }

  lemma CredentialLooks(shapes: Shapes, value: string, allowScheme: bool)
    ensures JwtInCredential(shapes, value, allowScheme) || shapes.occurs(value) <==>
            LooksLikeOne(shapes, value, allowScheme)
  {
    hide Candidates, CandidateOf;
    forall c ensures c in Candidates(value, allowScheme) <==> CandidateOf(value, allowScheme, c) {
      CandidatesAre(value, allowScheme, c);
    }
  }

  lemma CredentialIsOne(t: Tokens, shapes: Shapes, value: string, allowScheme: bool)
    ensures ValidCredential(t, shapes, value, allowScheme) <==> IsOne(t, shapes, value, allowScheme)
  {
    hide Candidates, CandidateOf, Known, Mentions;
    KnownIs(t, value);
    forall c ensures c in Candidates(value, allowScheme) <==> CandidateOf(value, allowScheme, c) {
      CandidatesAre(value, allowScheme, c);
    }
  }

  /** What a value that does not concern the broker, may not hold a token, or may not leave in the clear leads to. */
  lemma OutcomeIs(defs: seq<Definition>, policy: Policy, shapes: Shapes, t: Tokens, order: seq<string>,
                  value: string, q: Request)
    requires LongestFirst(order, t) && forall d :: d in defs ==> HostPattern.Valid(d.issuerHost)
    ensures var r := ReplaceValue(defs, policy, shapes, t, order, value, q);
            var whole := q.site.Credential? ==> IsOne(t, shapes, value, q.allowScheme);
            if !Concerned(defs, t, shapes, value, q) then r == Ok(Replacement(value, {}))
            else if !whole then r == Err(NotComplete)
            else if !q.secure then r == Err(Plaintext)
            else
              var done := ReplaceListed(policy, t, order, value, q);
              && (r != done <==> q.site.Credential? && done.Ok? && LooksLikeOne(shapes, done.value.text, q.allowScheme))
              && (r != done ==> r == Err(Unknown))
  {
    hide ReplaceListed, Known, Mentions, JwtInCredential, LooksLikeOne, ValidCredential, IsOne, HostPattern.Valid,
         AtIssuer, IssuerHost;
    IssuerHostIs(defs, q.host);
    KnownIs(t, value);
    CredentialLooks(shapes, value, q.allowScheme);
    CredentialIsOne(t, shapes, value, q.allowScheme);
    var done := ReplaceListed(policy, t, order, value, q);
    if done.Ok? {
      CredentialLooks(shapes, done.value.text, q.allowScheme);
    }
  }

  /** The request may not carry the token, for this reason. */
  ghost predicate Refused(policy: Policy, issue: Issue, q: Request, e: ReplaceError) {
    match e
    case WrongClient => issue.client != q.client
    case WrongHost =>
      issue.client == q.client && (issue.broker !in policy || !MayGo(policy[issue.broker], issue.kind, q.host))
    case Expired =>
      && issue.client == q.client && issue.broker in policy && MayGo(policy[issue.broker], issue.kind, q.host)
      && issue.until.Some? && issue.until.value < q.now
    case _ => false
  }

  lemma RefusalIs(policy: Policy, t: Tokens, p: string, q: Request)
    requires Mirror(t) && PolicyHostsOk(policy) && p in t.live
    ensures Resolve(t, p).Some?
    ensures var issue := Authorize(policy, t, p, q);
            if issue.Ok? then Entitled(policy, t, p, q) else Refused(policy, Resolve(t, p).value, q, issue.error)
  {
    hide HostsOk, TokenHostAllowed, MayGo;
    assert Leads(t, p);
    var r := t.records[t.live[p].key];
    assert WellFormed(t.live[p].key, r);
    if r.broker in policy {
      MayGoIs(policy[r.broker], t.live[p].kind, q.host);
    }
  }

  /**
   * Where live placeholders are mentioned, the longest of them decides first: the request
   * is entitled to its token, which is then among those named, or refused for what is wrong with it.
   */
  lemma LongestDecides(policy: Policy, t: Tokens, order: seq<string>, value: string, q: Request) returns (p: string)
    requires Mirror(t) && PolicyHostsOk(policy) && LongestFirst(order, t) && Mentions(t, value)
    ensures p in t.live && Occurs(p, value) && forall o :: o in t.live && Occurs(o, value) ==> |o| <= |p|
    ensures var r, issue := ReplaceListed(policy, t, order, value, q), Resolve(t, p);
            && issue.Some? && (!Entitled(policy, t, p, q) ==> r.Err? && Refused(policy, issue.value, q, r.error))
            && (r.Ok? ==> TokenName(issue.value.broker, issue.value.kind) in r.value.names)
  {
    hide Contains, Occurs, Refused, Entitled, Authorize, ReplaceAll, TokenName, HostsOk;
    var k := FirstIn(t, order, value);
    p := order[k];
    RefusalIs(policy, t, p, q);
    AuthorizeIs(policy, t, p, q);
    SkipsTo(policy, t, order, k, value, q);
    assert order[k..][0] == p;
    LongestMentioned(t, order, k, value);
  }

  lemma LongestMentioned(t: Tokens, order: seq<string>, k: nat, value: string)
    requires LongestFirst(order, t) && k < |order|
    requires Contains(value, order[k]) && forall i :: 0 <= i < k ==> !Contains(value, order[i])
    ensures Occurs(order[k], value) && forall o :: o in t.live && Occurs(o, value) ==> |o| <= |order[k]|
  {
    hide Contains, Occurs;
    forall o | o in t.live && Occurs(o, value) ensures |o| <= |order[k]| {
      OccursIs(o, value);
      assert o in order;
      var i :| 0 <= i < |order| && order[i] == o;
    }
    OccursIs(order[k], value);
  }

  lemma FirstIn(t: Tokens, order: seq<string>, value: string) returns (k: nat)
    requires LongestFirst(order, t) && Mentions(t, value)
    ensures k < |order| && Contains(value, order[k]) && forall i :: 0 <= i < k ==> !Contains(value, order[i])
  {
    hide Contains, Occurs;
    var p :| p in t.live && Occurs(p, value);
    OccursIs(p, value);
    assert p in order;
    var n :| 0 <= n < |order| && order[n] == p;
    k := 0;
    while !Contains(value, order[k])
      invariant k <= n && forall i :: 0 <= i < k ==> !Contains(value, order[i])
      decreases n - k
    {
      k := k + 1;
    }
  }

  lemma {:induction false} SkipsTo(policy: Policy, t: Tokens, order: seq<string>, k: nat, text: string, q: Request)
    requires forall i :: 0 <= i < |order| ==> order[i] in t.live && order[i] != ""
    requires k <= |order| && forall i :: 0 <= i < k ==> !Contains(text, order[i])
    ensures ReplaceListed(policy, t, order, text, q) == ReplaceListed(policy, t, order[k..], text, q)
  {
    hide Contains, Authorize;
    if k > 0 {
      SkipsTo(policy, t, order[1..], k - 1, text, q);
      assert order[1..][k - 1..] == order[k..];
    } else {
      assert order[0..] == order;
    }
  }

  // --- replacing ---

  function JoinWith(parts: seq<string>, glue: string): string
    requires parts != []
  {
    if |parts| == 1 then parts[0] else parts[0] + glue + JoinWith(parts[1..], glue)
  }

  /** The first occurrence of a text in part + from is the one at the end. */
  ghost predicate UpToFirst(part: string, from: string) {
    forall i :: 0 <= i < |part| ==> !OccursAt(part + from, from, i)
  }

  /**
   * Replacing cuts a text at the occurrences met from left to right and joins the parts
   * again with the replacement; no part contains what was replaced.
   */
  lemma {:induction false} ReplaceAllIs(s: string, from: string, to: string) returns (parts: seq<string>)
    requires from != ""
    ensures parts != [] && s == JoinWith(parts, from) && ReplaceAll(s, from, to) == JoinWith(parts, to)
    ensures forall k :: 0 <= k < |parts| - 1 ==> UpToFirst(parts[k], from)
    ensures forall k :: 0 <= k < |parts| ==> !Contains(parts[k], from)
  {
    hide Contains, UpToFirst, ReplaceAll, JoinWith;
    ReplaceStep(s, from, to);
    if |s| < |from| {
      parts := [s];
      JoinOne(s, from);
      JoinOne(s, to);
      ShortHasNone(s, from);
    } else if from <= s {
      var rest := ReplaceAllIs(s[|from|..], from, to);
      parts := [""] + rest;
      assert s == from + s[|from|..];
      JoinNext(rest, from);
      JoinNext(rest, to);
      ShortHasNone("", from);
      NothingBefore(from);
    } else {
      var rest := ReplaceAllIs(s[1..], from, to);
      var first := [s[0]] + rest[0];
      parts := [first] + rest[1..];
      assert s == [s[0]] + s[1..];
      JoinFirst(s[0], rest, from);
      JoinFirst(s[0], rest, to);
      FirstHasNone(s, from, rest);
    }
  }

  lemma ReplaceStep(s: string, from: string, to: string)
    requires from != ""
    ensures ReplaceAll(s, from, to) ==
            if |s| < |from| then s
            else if from <= s then to + ReplaceAll(s[|from|..], from, to)
            else [s[0]] + ReplaceAll(s[1..], from, to)
  {
  }

  lemma JoinOne(s: string, glue: string)
    ensures JoinWith([s], glue) == s
  {
  }

  lemma JoinNext(rest: seq<string>, glue: string)
    requires rest != []
    ensures JoinWith([""] + rest, glue) == glue + JoinWith(rest, glue)
  {
    assert ([""] + rest)[1..] == rest;
    assert "" + glue == glue;
  }

  lemma ShortHasNone(s: string, from: string)
    requires |s| < |from|
    ensures !Contains(s, from)
  {
  }

  lemma NothingBefore(from: string)
    ensures UpToFirst("", from)
  {
  }

  lemma JoinFirst(c: char, parts: seq<string>, glue: string)
    requires parts != []
    ensures JoinWith([[c] + parts[0]] + parts[1..], glue) == [c] + JoinWith(parts, glue)
  {
    if |parts| > 1 {
      assert ([[c] + parts[0]] + parts[1..])[1..] == parts[1..];
    } else {
      assert [[c] + parts[0]] + parts[1..] == [[c] + parts[0]];
    }
  }

  lemma StartOccurs(s: string, t: string)
    ensures OccursAt(s, t, 0) <==> t <= s
  {
  }

  /** Where a text does not start with what is looked for, the first part may begin one letter earlier. */
  lemma FirstHasNone(s: string, from: string, parts: seq<string>)
    requires from != "" && s != "" && !(from <= s) && parts != [] && s[1..] == JoinWith(parts, from)
    requires !Contains(parts[0], from) && (|parts| > 1 ==> UpToFirst(parts[0], from))
    ensures !Contains([s[0]] + parts[0], from) && (|parts| > 1 ==> UpToFirst([s[0]] + parts[0], from))
  {
    var first := [s[0]] + parts[0];
    PartStarts(parts, from);
    assert s == [s[0]] + s[1..];
    forall i | 0 <= i <= |first| ensures !OccursAt(first, from, i) {
      if i == 0 {
        StartOccurs(first, from);
        assert first <= s;
      } else if OccursAt(first, from, i) {
        assert first[i..i + |from|] == parts[0][i - 1..i - 1 + |from|];
        assert OccursAt(parts[0], from, i - 1);
      }
    }
    if |parts| > 1 {
      assert first + from <= s;
      forall i | 0 <= i < |first| ensures !OccursAt(first + from, from, i) {
        if i == 0 {
          StartOccurs(first + from, from);
        } else if OccursAt(first + from, from, i) {
          assert (first + from)[i..i + |from|] == (parts[0] + from)[i - 1..i - 1 + |from|];
          assert OccursAt(parts[0] + from, from, i - 1);
        }
      }
    }
  }

  lemma PartStarts(parts: seq<string>, glue: string)
    requires parts != []
    ensures parts[0] <= JoinWith(parts, glue) && (|parts| > 1 ==> parts[0] + glue <= JoinWith(parts, glue))
  {
  }
}

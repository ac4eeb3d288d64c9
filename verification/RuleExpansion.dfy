/** Request rules: validation, expansion to one host each, and matching. */
module RuleExpansion {
  import opened Bytes
  import HostPattern

  /** A rule names its hosts with host or hosts; after expansion only with host. */
  datatype Rule = Rule(host: string, hosts: seq<string>, methods: seq<string>, pathPrefixes: seq<string>,
                       maxRequestBytes: int)

  datatype Complaint =
    | HostAndHosts | HostRequired | NothingSet | NegativeCap
    | BadMethod(index: nat) | BadPathPrefix(index: nat) | BadHost(index: nat)

  datatype Fault = Fault(rule: nat, complaint: Complaint)

  // --- methods and paths ---

  /** Upper case of one character; outside ASCII only two letters have an ASCII upper case. */
  function UpperChar(c: char): char {
    if 'a' <= c <= 'z' then (c as int - 32) as char
    else if c == '\U{131}' then 'I'
    else if c == '\U{17F}' then 'S'
    else c
  }

  function ToUpper(s: string): (r: string)
    ensures |r| == |s| && forall i :: 0 <= i < |s| ==> r[i] == UpperChar(s[i])
  {
    if s == [] then [] else [UpperChar(s[0])] + ToUpper(s[1..])
  }

  function CanonicalMethod(verb: string): string {
    ToUpper(HostPattern.TrimSpace(verb))
  }

  predicate ValidMethod(verb: string) {
    verb != "" && verb != "CONNECT" && forall i :: 0 <= i < |verb| ==> 'A' <= verb[i] <= 'Z'
  }

  /** A canonical method is a fixed point. */
  lemma CanonicalMethodStays(verb: string)
    requires ValidMethod(verb)
    ensures CanonicalMethod(verb) == verb
  {
    HostPattern.TrimmedStays(verb);
  }

  /** c is the capital letter, its small letter, or one of two further letters with that capital. */
  predicate SpellsCapital(c: char, capital: char) {
    || c == capital || c as int == capital as int + 32
    || (capital == 'I' && c == '\U{131}') || (capital == 'S' && c == '\U{17F}')
  }

  predicate Spells(written: string, capitals: string) {
    |written| == |capitals| && forall i :: 0 <= i < |capitals| ==> SpellsCapital(written[i], capitals[i])
  }

  predicate Letter(c: char) {
    'a' <= c <= 'z' || 'A' <= c <= 'Z' || c == '\U{131}' || c == '\U{17F}'
  }

  lemma CapitalIs(c: char, capital: char)
    requires 'A' <= capital <= 'Z'
    ensures UpperChar(c) == capital <==> SpellsCapital(c, capital)
    ensures 'A' <= UpperChar(c) <= 'Z' <==> Letter(c)
  {
  }

  lemma UpperSpells(trimmed: string, verb: string)
    requires forall c :: c in verb ==> 'A' <= c <= 'Z'
    ensures ToUpper(trimmed) == verb <==> Spells(trimmed, verb)
  {
    hide SpellsCapital, UpperChar;
    if |trimmed| == |verb| {
      forall i | 0 <= i < |verb| ensures UpperChar(trimmed[i]) == verb[i] <==> SpellsCapital(trimmed[i], verb[i]) {
        assert verb[i] in verb;
        CapitalIs(trimmed[i], verb[i]);
      }
    }
  }

  /** A method is canonicalized to the one it spells in either case, white space around it aside. */
  lemma CanonicalMethodIs(written: string, verb: string)
    requires ValidMethod(verb)
    ensures CanonicalMethod(written) == verb <==> Spells(HostPattern.TrimSpace(written), verb)
  {
    UpperSpells(HostPattern.TrimSpace(written), verb);
  }

  /** What is written is a method exactly if it is a word of letters, and not the one that opens tunnels. */
  lemma WrittenMethodIs(written: string)
    ensures var trimmed := HostPattern.TrimSpace(written);
            ValidMethod(CanonicalMethod(written)) <==>
            trimmed != "" && (forall c :: c in trimmed ==> Letter(c)) && !Spells(trimmed, "CONNECT")
  {
    hide HostPattern.TrimSpace, Spells, Letter, UpperChar;
    var trimmed := HostPattern.TrimSpace(written);
    UpperSpells(trimmed, "CONNECT");
    forall i | 0 <= i < |trimmed| ensures 'A' <= ToUpper(trimmed)[i] <= 'Z' <==> Letter(trimmed[i]) {
      CapitalIs(trimmed[i], 'A');
    }
    assert forall i :: 0 <= i < |trimmed| ==> trimmed[i] in trimmed;
  }

  function TrimSlash(s: string): string {
    if s != [] && s[|s| - 1] == '/' then s[..|s| - 1] else s
  }

  /** A canonical absolute path. */
  predicate ValidPathPrefix(prefix: string) {
    && "/" <= prefix
    && (forall i :: 0 <= i < |prefix| ==> prefix[i] > ' ' && prefix[i] !in "%?#\\" && prefix[i] != '\U{7F}')
    && var segments := HostPattern.Split(TrimSlash(prefix[1..]), '/');
       && (prefix == "/" || "" !in segments)
       && "." !in segments && ".." !in segments
  }

  /** A segment of a canonical path. */
  predicate GoodSegment(segment: string) {
    && segment != "" && segment != "." && segment != ".."
    && forall c :: c in segment ==> c > ' ' && c !in "/%?#\\" && c != '\U{7F}'
  }

  /** A canonical path prefix is a slash, or good segments with a slash before each and perhaps one at the end. */
  lemma ValidPathPrefixIs(prefix: string)
    ensures ValidPathPrefix(prefix) <==>
            || prefix == "/"
            || exists segments :: IsPathOf(prefix, segments)
  {
    hide HostPattern.Split, HostPattern.Join;
    if ValidPathPrefix(prefix) && prefix != "/" {
      PathHasSegments(prefix);
    }
    if segments :| IsPathOf(prefix, segments) {
      SegmentsMakePath(prefix, segments);
    }
    if prefix == "/" {
      HostPattern.PieceSplits("", '/');
    }
  }

  ghost predicate IsPathOf(prefix: string, segments: seq<string>) {
    && segments != [] && (forall i :: 0 <= i < |segments| ==> GoodSegment(segments[i]))
    && var joined := "/" + HostPattern.Join(segments, '/');
       prefix == joined || prefix == joined + "/"
  }

  lemma PathHasSegments(prefix: string)
    requires ValidPathPrefix(prefix) && prefix != "/"
    ensures IsPathOf(prefix, HostPattern.Split(TrimSlash(prefix[1..]), '/'))
  {
    hide HostPattern.Split, HostPattern.Join;
    var rest := TrimSlash(prefix[1..]);
    var segments := HostPattern.Split(rest, '/');
    HostPattern.SplitJoins(rest, '/');
    HostPattern.SplitChars(rest, '/');
    HostPattern.SplitHasPieces(rest, '/');
    assert prefix == "/" + prefix[1..];
    assert prefix[1..] == rest || prefix[1..] == rest + "/";
    forall i | 0 <= i < |segments| ensures GoodSegment(segments[i]) {
      assert segments[i] in segments;
      forall c | c in segments[i] ensures c in rest {
        var j :| 0 <= j < |segments[i]| && segments[i][j] == c;
      }
      PieceIsGood(prefix, segments[i]);
    }
  }

  lemma PieceIsGood(prefix: string, segment: string)
    requires ValidPathPrefix(prefix) && prefix != "/" && segment in HostPattern.Split(TrimSlash(prefix[1..]), '/')
    requires '/' !in segment && forall c :: c in segment ==> c in TrimSlash(prefix[1..])
    ensures GoodSegment(segment)
  {
    hide HostPattern.Split;
    var rest := TrimSlash(prefix[1..]);
    forall c | c in segment ensures c > ' ' && c !in "/%?#\\" && c != '\U{7F}' {
      var k :| 0 <= k < |rest| && rest[k] == c;
      assert prefix[k + 1] == c;
    }
  }

  lemma SegmentsMakePath(prefix: string, segments: seq<string>)
    requires IsPathOf(prefix, segments)
    ensures ValidPathPrefix(prefix)
  {
    hide HostPattern.Split, HostPattern.Join;
    var joined := HostPattern.Join(segments, '/');
    HostPattern.JoinSplits(segments, '/');
    JoinedSegments(segments);
    assert prefix[1..] == joined || prefix[1..] == joined + "/";
    assert TrimSlash(prefix[1..]) == joined;
    forall i | 0 <= i < |prefix| ensures prefix[i] > ' ' && prefix[i] !in "%?#\\" && prefix[i] != '\U{7F}' {
      if prefix[i] != '/' {
        assert prefix[i] == joined[i - 1];
        assert joined[i - 1] in joined;
      }
    }
  }

  lemma {:induction false} JoinedSegments(segments: seq<string>)
    requires segments != [] && forall i :: 0 <= i < |segments| ==> GoodSegment(segments[i])
    ensures var joined := HostPattern.Join(segments, '/');
            && joined != "" && joined[|joined| - 1] != '/'
            && forall c :: c in joined && c != '/' ==> c > ' ' && c !in "%?#\\" && c != '\U{7F}'
  {
    var first := segments[0];
    assert forall i :: 0 <= i < |first| ==> first[i] in first;
    if |segments| > 1 {
      JoinedSegments(segments[1..]);
    }
  }

  predicate PathMatches(prefix: string, path: string) {
    if prefix != "" && prefix[|prefix| - 1] == '/' then prefix <= path
    else path == prefix || prefix + "/" <= path
  }

  predicate PathPermitted(rule: Rule, path: string) {
    rule.pathPrefixes == [] || exists i :: 0 <= i < |rule.pathPrefixes| && PathMatches(rule.pathPrefixes[i], path)
  }

  /** Whether a validated rule permits a request to a host it applies to. */
  predicate Permits(rule: Rule, verb: string, path: string) {
    (rule.methods == [] || verb in rule.methods) && PathPermitted(rule, path)
  }

  /** A rule applies to a host whatever its case; both the caller and the pattern matcher drop a trailing dot. */
  predicate Applies(pattern: string, host: string) {
    HostPattern.Matches([pattern], HostPattern.ToLower(HostPattern.TrimDot(host)))
  }

  lemma AppliesIs(pattern: string, host: string)
    ensures Applies(pattern, host) == HostPattern.Matches([pattern], HostPattern.ToLower(HostPattern.TrimDot(host)))
  {
  }

  /** A canonical pattern applies exactly to the hosts whose labels fit it, up to two dots at the end. */
  lemma AppliesMeans(pattern: string, host: string)
    requires HostPattern.Canonical(pattern)
    ensures Applies(pattern, host) <==> HostPattern.HostFits(pattern, HostPattern.TrimDot(host))
  {
    hide HostPattern.Matches, HostPattern.HostFits, HostPattern.Canonical;
    HostPattern.MatchesLowered([pattern], host);
    assert pattern in [pattern];
  }

  /** The segments of path begin with those of prefix; behind a final slash there is at least one more. */
  predicate SegmentsBegin(prefix: string, path: string) {
    var own, segments := HostPattern.Split(TrimSlash(prefix), '/'), HostPattern.Split(path, '/');
    own <= segments && (TrimSlash(prefix) != prefix ==> |own| < |segments|)
  }

  /** A prefix matches whole segments only. */
  lemma PathMatchesIs(prefix: string, path: string)
    ensures PathMatches(prefix, path) <==> SegmentsBegin(prefix, path)
  {
    hide HostPattern.Split;
    HostPattern.PrefixIsPieces(path, TrimSlash(prefix), '/');
    if TrimSlash(prefix) != prefix {
      assert prefix == TrimSlash(prefix) + ['/'];
    }
  }

  /** A rule permits its methods, or any, under its path prefixes, or anywhere. */
  lemma PermitsIs(rule: Rule, verb: string, path: string)
    ensures Permits(rule, verb, path) <==>
            && (rule.methods != [] ==> verb in rule.methods)
            && (rule.pathPrefixes != [] ==> exists p :: p in rule.pathPrefixes && SegmentsBegin(p, path))
  {
    hide PathMatches, SegmentsBegin;
    forall p | p in rule.pathPrefixes ensures PathMatches(p, path) <==> SegmentsBegin(p, path) {
      PathMatchesIs(p, path);
    }
    if rule.pathPrefixes != [] && exists p :: p in rule.pathPrefixes && SegmentsBegin(p, path) {
      var p :| p in rule.pathPrefixes && SegmentsBegin(p, path);
      var i :| 0 <= i < |rule.pathPrefixes| && rule.pathPrefixes[i] == p;
      assert PathMatches(rule.pathPrefixes[i], path);
    }
  }

  // --- what rules mean before they are expanded ---

  function Patterns(rule: Rule): seq<string> {
    if rule.host != "" then [rule.host] else rule.hosts
  }

  predicate AppliesAsWritten(rule: Rule, host: string) {
    exists j :: 0 <= j < |Patterns(rule)| &&
      HostPattern.Normalize(Patterns(rule)[j]).Some? && Applies(HostPattern.Normalize(Patterns(rule)[j]).value, host)
  }

  predicate PermitsAsWritten(rule: Rule, verb: string, path: string) {
    && (rule.methods == [] || exists i :: 0 <= i < |rule.methods| && CanonicalMethod(rule.methods[i]) == verb)
    && PathPermitted(rule, path)
  }

  /** The first rule as written that applies to the host and permits the request. */
  function FirstAsWritten(rules: seq<Rule>, host: string, verb: string, path: string): Option<Rule> {
    if rules == [] then None
    else
      var last := rules[|rules| - 1];
      var earlier := FirstAsWritten(rules[..|rules| - 1], host, verb, path);
      if earlier.None? && AppliesAsWritten(last, host) && PermitsAsWritten(last, verb, path) then Some(last)
      else earlier
  }

  predicate RestrictedAsWritten(rules: seq<Rule>, host: string) {
    exists i :: 0 <= i < |rules| && AppliesAsWritten(rules[i], host)
  }

  // --- matching expanded rules ---

  /** The first rule that applies to the host and permits the request. */
  function FirstPermitting(rules: seq<Rule>, host: string, verb: string, path: string): Option<Rule> {
    if rules == [] then None
    else
      var last := rules[|rules| - 1];
      var earlier := FirstPermitting(rules[..|rules| - 1], host, verb, path);
      if earlier.None? && Applies(last.host, host) && Permits(last, verb, path) then Some(last) else earlier
  }

  predicate Restricted(rules: seq<Rule>, host: string) {
    exists i :: 0 <= i < |rules| && Applies(rules[i].host, host)
  }

  lemma {:induction false} FirstStays(rules: seq<Rule>, n: nat, host: string, verb: string, path: string)
    requires n <= |rules| && FirstPermitting(rules[..n], host, verb, path).Some?
    ensures FirstPermitting(rules, host, verb, path) == FirstPermitting(rules[..n], host, verb, path)
  {
    if n == |rules| {
      TakeAll(rules);
    } else {
      assert rules[..|rules| - 1][..n] == rules[..n];
      FirstStays(rules[..|rules| - 1], n, host, verb, path);
    }
  }

  /**
   * The first rule that permits the request, if any; a host no rule applies to is
   * allowed without one.
   */
  method MatchRule(rules: seq<Rule>, host: string, verb: string, path: string)
    returns (rule: Option<Rule>, allowed: bool)
    ensures rule == FirstPermitting(rules, host, verb, path)
    ensures allowed <==> rule.Some? || !Restricted(rules, host)
  {
    hide Applies, Permits, HostPattern.Matches;
    var lowered := HostPattern.ToLower(HostPattern.TrimDot(host));
    var restricted := false;
    for i := 0 to |rules|
      invariant FirstPermitting(rules[..i], host, verb, path) == None
      invariant restricted <==> exists k :: 0 <= k < i && Applies(rules[k].host, host)
    {
      TakeOne(rules, i);
      assert rules[..i + 1][..i] == rules[..i];
      AppliesIs(rules[i].host, host);
      if HostPattern.Matches([rules[i].host], lowered) {
        restricted := true;
        if Permits(rules[i], verb, path) {
          FirstStays(rules, i + 1, host, verb, path);
          return Some(rules[i]), true;
        }
      }
    }
    TakeAll(rules);
    return None, !restricted;
  }

  /** The rule is for this host and permits this request, told label by label and segment by segment. */
  ghost predicate Admits(rule: Rule, host: string, verb: string, path: string) {
    && HostPattern.HostFits(rule.host, HostPattern.TrimDot(host))
    && (rule.methods != [] ==> verb in rule.methods)
    && (rule.pathPrefixes != [] ==> exists p :: p in rule.pathPrefixes && SegmentsBegin(p, path))
  }

  /** The first rule to admit the request is found; a host is restricted exactly if some rule's pattern fits it. */
  lemma {:induction false} FirstPermittingIs(rules: seq<Rule>, host: string, verb: string, path: string)
    requires forall r :: r in rules ==> HostPattern.Canonical(r.host)
    ensures var found := FirstPermitting(rules, host, verb, path);
            && (found.None? <==> forall i :: 0 <= i < |rules| ==> !Admits(rules[i], host, verb, path))
            && (found.Some? ==>
                  exists k :: && 0 <= k < |rules| && rules[k] == found.value && Admits(rules[k], host, verb, path)
                              && forall i :: 0 <= i < k ==> !Admits(rules[i], host, verb, path))
    ensures Restricted(rules, host) <==>
            exists r :: r in rules && HostPattern.HostFits(r.host, HostPattern.TrimDot(host))
  {
    hide HostPattern.Canonical, HostPattern.HostFits, SegmentsBegin, Admits, Applies, Permits;
    forall r | r in rules
      ensures Applies(r.host, host) <==> HostPattern.HostFits(r.host, HostPattern.TrimDot(host))
      ensures Applies(r.host, host) && Permits(r, verb, path) <==> Admits(r, host, verb, path)
    {
      AdmitsIs(r, host, verb, path);
    }
    if rules != [] {
      var n := |rules| - 1;
      FirstPermittingIs(rules[..n], host, verb, path);
      assert forall i :: 0 <= i < n ==> rules[..n][i] == rules[i];
    }
    if r :| r in rules && HostPattern.HostFits(r.host, HostPattern.TrimDot(host)) {
      var i :| 0 <= i < |rules| && rules[i] == r;
      assert Applies(rules[i].host, host);
    }
  }

  lemma AdmitsIs(rule: Rule, host: string, verb: string, path: string)
    requires HostPattern.Canonical(rule.host)
    ensures Applies(rule.host, host) <==> HostPattern.HostFits(rule.host, HostPattern.TrimDot(host))
    ensures Applies(rule.host, host) && Permits(rule, verb, path) <==> Admits(rule, host, verb, path)
  {
    hide HostPattern.Canonical, HostPattern.HostFits, SegmentsBegin, Applies, Permits;
    AppliesMeans(rule.host, host);
    PermitsIs(rule, verb, path);
  }

  // --- expansion ---

  function CanonicalMethods(methods: seq<string>): Result<seq<string>, Complaint>
  {
    if methods == [] then Ok([])
    else
      var done := CanonicalMethods(methods[..|methods| - 1]);
      var verb := CanonicalMethod(methods[|methods| - 1]);
      if done.Err? then done
      else if ValidMethod(verb) then Ok(done.value + [verb])
      else Err(BadMethod(|methods| - 1))
  }

  lemma {:induction false} CanonicalMethodsAre(methods: seq<string>)
    ensures var r := CanonicalMethods(methods);
            && (r.Ok? <==> forall i :: 0 <= i < |methods| ==> ValidMethod(CanonicalMethod(methods[i])))
            && (r.Ok? ==>
                  && |r.value| == |methods|
                  && forall i :: 0 <= i < |methods| ==> r.value[i] == CanonicalMethod(methods[i]))
  {
    hide ValidMethod, CanonicalMethod;
    if methods != [] {
      var n := |methods| - 1;
      CanonicalMethodsAre(methods[..n]);
      assert forall i :: 0 <= i < n ==> methods[..n][i] == methods[i];
    }
  }

  /** The position of the first path prefix that is not valid, or their number. */
  function FirstBadPrefix(prefixes: seq<string>): (n: nat)
    ensures n <= |prefixes|
  {
    if prefixes == [] || !ValidPathPrefix(prefixes[0]) then 0 else 1 + FirstBadPrefix(prefixes[1..])
  }

  lemma {:induction false} FirstBadPrefixIs(prefixes: seq<string>, n: nat)
    requires n <= |prefixes|
    ensures n == FirstBadPrefix(prefixes) <==>
            && (n < |prefixes| ==> !ValidPathPrefix(prefixes[n]))
            && forall i :: 0 <= i < n ==> ValidPathPrefix(prefixes[i])
  {
    hide ValidPathPrefix;
    if prefixes != [] && n > 0 {
      FirstBadPrefixIs(prefixes[1..], n - 1);
      assert forall i :: 1 <= i < n ==> prefixes[1..][i - 1] == prefixes[i];
    }
  }

  /** A rule with every field but its hosts validated and in canonical form. */
  function Normalized(rule: Rule): Result<Rule, Complaint> {
    var methods := CanonicalMethods(rule.methods);
    var bad := FirstBadPrefix(rule.pathPrefixes);
    if rule.methods == [] && rule.pathPrefixes == [] && rule.maxRequestBytes == 0 then Err(NothingSet)
    else if methods.Err? then Err(methods.error)
    else if bad < |rule.pathPrefixes| then Err(BadPathPrefix(bad))
    else if rule.maxRequestBytes < 0 then Err(NegativeCap)
    else Ok(rule.(methods := methods.value))
  }

  /** The distinct canonical hosts of some patterns, in the order they first occur. */
  function DistinctHosts(patterns: seq<string>): Result<seq<string>, Complaint>
  {
    if patterns == [] then Ok([])
    else
      var done := DistinctHosts(patterns[..|patterns| - 1]);
      var host := HostPattern.Normalize(patterns[|patterns| - 1]);
      if done.Err? then done
      else if host.None? then Err(BadHost(|patterns| - 1))
      else if host.value in done.value then done
      else Ok(done.value + [host.value])
  }

  predicate NormalizesTo(patterns: seq<string>, host: string) {
    exists j :: 0 <= j < |patterns| && HostPattern.Normalize(patterns[j]) == Some(host)
  }

  lemma NormalizesToLast(patterns: seq<string>, last: string, host: string)
    ensures NormalizesTo(patterns + [last], host) <==>
              NormalizesTo(patterns, host) || HostPattern.Normalize(last) == Some(host)
  {
    hide HostPattern.Normalize;
    var all := patterns + [last];
    assert all[|patterns|] == last;
    if j :| 0 <= j < |patterns| && HostPattern.Normalize(patterns[j]) == Some(host) {
      assert all[j] == patterns[j];
    }
  }

  lemma {:induction false} DistinctHostsAre(patterns: seq<string>)
    ensures var r := DistinctHosts(patterns);
            && (r.Ok? <==> forall j :: 0 <= j < |patterns| ==> HostPattern.Normalize(patterns[j]).Some?)
            && (r.Ok? ==> forall h :: h in r.value <==> NormalizesTo(patterns, h))
  {
    hide HostPattern.Normalize;
    if patterns != [] {
      var n := |patterns| - 1;
      DistinctHostsAre(patterns[..n]);
      assert forall i :: 0 <= i < n ==> patterns[..n][i] == patterns[i];
      var r := DistinctHosts(patterns);
      if r.Ok? {
        assert patterns == patterns[..n] + [patterns[n]];
        forall h ensures h in r.value <==> NormalizesTo(patterns, h) {
          hide NormalizesTo;
          NormalizesToLast(patterns[..n], patterns[n], h);
        }
      }
    }
  }

  /** One single-host rule per host. */
  function Singles(rule: Rule, hosts: seq<string>): (r: seq<Rule>)
    ensures |r| == |hosts| && forall i :: 0 <= i < |hosts| ==> r[i] == rule.(host := hosts[i], hosts := [])
  {
    if hosts == [] then []
    else Singles(rule, hosts[..|hosts| - 1]) + [rule.(host := hosts[|hosts| - 1], hosts := [])]
  }

  function ExpandedRule(rule: Rule): Result<seq<Rule>, Complaint> {
    if rule.host != "" && rule.hosts != [] then Err(HostAndHosts)
    else if Patterns(rule) == [] then Err(HostRequired)
    else
      var normalized := Normalized(rule);
      if normalized.Err? then Err(normalized.error)
      else
        var hosts := DistinctHosts(Patterns(rule));
        if hosts.Err? then Err(hosts.error) else Ok(Singles(normalized.value, hosts.value))
  }

  function Expanded(rules: seq<Rule>): Result<seq<Rule>, Fault> {
    if rules == [] then Ok([])
    else
      var done := Expanded(rules[..|rules| - 1]);
      var more := ExpandedRule(rules[|rules| - 1]);
      if done.Err? then done
      else if more.Err? then Err(Fault(|rules| - 1, more.error))
      else Ok(done.value + more.value)
  }

  lemma {:induction false} MethodFaultStays(methods: seq<string>, n: nat)
    requires n <= |methods| && CanonicalMethods(methods[..n]).Err?
    ensures CanonicalMethods(methods) == CanonicalMethods(methods[..n])
  {
    if n == |methods| {
      TakeAll(methods);
    } else {
      assert methods[..|methods| - 1][..n] == methods[..n];
      MethodFaultStays(methods[..|methods| - 1], n);
    }
  }

  lemma {:induction false} HostFaultStays(patterns: seq<string>, n: nat)
    requires n <= |patterns| && DistinctHosts(patterns[..n]).Err?
    ensures DistinctHosts(patterns) == DistinctHosts(patterns[..n])
  {
    if n == |patterns| {
      TakeAll(patterns);
    } else {
      assert patterns[..|patterns| - 1][..n] == patterns[..n];
      HostFaultStays(patterns[..|patterns| - 1], n);
    }
  }

  lemma {:induction false} FaultStays(rules: seq<Rule>, n: nat)
    requires n <= |rules| && Expanded(rules[..n]).Err?
    ensures Expanded(rules) == Expanded(rules[..n])
  {
    if n == |rules| {
      TakeAll(rules);
    } else {
      assert rules[..|rules| - 1][..n] == rules[..n];
      FaultStays(rules[..|rules| - 1], n);
    }
  }

  method Normalize(rule: Rule) returns (r: Result<Rule, Complaint>)
    ensures r == Normalized(rule)
  {
    hide ValidMethod, ValidPathPrefix, CanonicalMethod;
    if |rule.methods| == 0 && |rule.pathPrefixes| == 0 && rule.maxRequestBytes == 0 {
      return Err(NothingSet);
    }
    var methods := [];
    for i := 0 to |rule.methods|
      invariant CanonicalMethods(rule.methods[..i]) == Ok(methods)
    {
      TakeOne(rule.methods, i);
      assert rule.methods[..i + 1][..i] == rule.methods[..i];
      var verb := CanonicalMethod(rule.methods[i]);
      if !ValidMethod(verb) {
        MethodFaultStays(rule.methods, i + 1);
        return Err(BadMethod(i));
      }
      methods := methods + [verb];
    }
    TakeAll(rule.methods);
    for i := 0 to |rule.pathPrefixes|
      invariant forall k :: 0 <= k < i ==> ValidPathPrefix(rule.pathPrefixes[k])
    {
      if !ValidPathPrefix(rule.pathPrefixes[i]) {
        FirstBadPrefixIs(rule.pathPrefixes, i);
        return Err(BadPathPrefix(i));
      }
    }
    FirstBadPrefixIs(rule.pathPrefixes, |rule.pathPrefixes|);
    if rule.maxRequestBytes < 0 {
      return Err(NegativeCap);
    }
    return Ok(rule.(methods := methods));
  }

  /** The single-host rules of one rule. */
  method ExpandRule(rule: Rule) returns (r: Result<seq<Rule>, Complaint>)
    ensures r == ExpandedRule(rule)
  {
    hide Normalized, HostPattern.Normalize;
    if rule.host != "" && |rule.hosts| > 0 {
      return Err(HostAndHosts);
    }
    var patterns := rule.hosts;
    if rule.host != "" {
      patterns := [rule.host];
    }
    if |patterns| == 0 {
      return Err(HostRequired);
    }
    var normalized := Normalize(rule);
    if normalized.Err? {
      return Err(normalized.error);
    }
    var seen: seq<string>, expanded: seq<Rule> := [], [];
    for j := 0 to |patterns|
      invariant DistinctHosts(patterns[..j]) == Ok(seen)
      invariant expanded == Singles(normalized.value, seen)
    {
      TakeOne(patterns, j);
      assert patterns[..j + 1][..j] == patterns[..j];
      var host := HostPattern.Normalize(patterns[j]);
      if host.None? {
        HostFaultStays(patterns, j + 1);
        return Err(BadHost(j));
      }
      if host.value !in seen {
        assert (seen + [host.value])[..|seen|] == seen;
        seen := seen + [host.value];
        expanded := expanded + [normalized.value.(host := host.value, hosts := [])];
      }
    }
    TakeAll(patterns);
    return Ok(expanded);
  }

  method ExpandRules(rules: seq<Rule>) returns (r: Result<seq<Rule>, Fault>)
    ensures r == Expanded(rules)
  {
    hide ExpandedRule;
    var expanded: seq<Rule> := [];
    for i := 0 to |rules|
      invariant Expanded(rules[..i]) == Ok(expanded)
    {
      TakeOne(rules, i);
      assert rules[..i + 1][..i] == rules[..i];
      var more := ExpandRule(rules[i]);
      if more.Err? {
        FaultStays(rules, i + 1);
        return Err(Fault(i, more.error));
      }
      expanded := expanded + more.value;
    }
    TakeAll(rules);
    return Ok(expanded);
  }

  // --- what expansion preserves ---

  /** What a rule must satisfy to be accepted. */
  predicate Acceptable(rule: Rule) {
    && (rule.host == "" || rule.hosts == []) && Patterns(rule) != []
    && (rule.methods != [] || rule.pathPrefixes != [] || rule.maxRequestBytes != 0)
    && (forall i :: 0 <= i < |rule.methods| ==> ValidMethod(CanonicalMethod(rule.methods[i])))
    && (forall i :: 0 <= i < |rule.pathPrefixes| ==> ValidPathPrefix(rule.pathPrefixes[i]))
    && rule.maxRequestBytes >= 0
    && forall j :: 0 <= j < |Patterns(rule)| ==> HostPattern.Normalize(Patterns(rule)[j]).Some?
  }

  /** Expansion succeeds exactly if every rule is acceptable. */
  lemma {:induction false} ExpansionSucceeds(rules: seq<Rule>)
    ensures Expanded(rules).Ok? <==> forall i :: 0 <= i < |rules| ==> Acceptable(rules[i])
  {
    hide ExpandedRule, Acceptable;
    if rules != [] {
      var n := |rules| - 1;
      ExpansionSucceeds(rules[..n]);
      RuleSucceeds(rules[n]);
      assert forall i :: 0 <= i < n ==> rules[..n][i] == rules[i];
    }
  }

  lemma RuleSucceeds(rule: Rule)
    ensures ExpandedRule(rule).Ok? <==> Acceptable(rule)
  {
    hide ValidMethod, CanonicalMethod, ValidPathPrefix, HostPattern.Normalize;
    CanonicalMethodsAre(rule.methods);
    FirstBadPrefixIs(rule.pathPrefixes, |rule.pathPrefixes|);
    DistinctHostsAre(Patterns(rule));
  }

  /** The expanded rule keeps the limits of the rule it comes from. */
  predicate SameLimits(single: Rule, rule: Rule) {
    && single.maxRequestBytes == rule.maxRequestBytes && single.pathPrefixes == rule.pathPrefixes
    && CanonicalMethods(rule.methods) == Ok(single.methods)
  }

  lemma {:induction false} FirstOfBoth(a: seq<Rule>, b: seq<Rule>, host: string, verb: string, path: string)
    ensures var first := FirstPermitting(a, host, verb, path);
            FirstPermitting(a + b, host, verb, path) ==
            if first.Some? then first else FirstPermitting(b, host, verb, path)
    ensures Restricted(a + b, host) <==> Restricted(a, host) || Restricted(b, host)
  {
    hide Applies, Permits;
    RestrictedOfBoth(a, b, host);
    if b == [] {
      assert a + b == a;
    } else {
      var n := |b| - 1;
      assert (a + b)[..|a + b| - 1] == a + b[..n];
      FirstOfBoth(a, b[..n], host, verb, path);
    }
  }

  lemma RestrictedOfBoth(a: seq<Rule>, b: seq<Rule>, host: string)
    ensures Restricted(a + b, host) <==> Restricted(a, host) || Restricted(b, host)
  {
    hide Applies;
    var both := a + b;
    if i :| 0 <= i < |a| && Applies(a[i].host, host) {
      assert both[i] == a[i];
    }
    if i :| 0 <= i < |b| && Applies(b[i].host, host) {
      assert both[|a| + i] == b[i];
    }
  }

  /** Among the single-host rules of one rule the first to permit is one whose host applies. */
  lemma {:induction false} FirstSingle(rule: Rule, hosts: seq<string>, host: string, verb: string, path: string)
    ensures var first := FirstPermitting(Singles(rule, hosts), host, verb, path);
            && (first.Some? <==> Permits(rule, verb, path) && AnyApplies(hosts, host))
            && (first.Some? ==> first.value == rule.(host := first.value.host, hosts := []))
    ensures Restricted(Singles(rule, hosts), host) <==> AnyApplies(hosts, host)
  {
    hide Applies, AnyApplies, Permits, Restricted;
    SinglesRestrict(rule, hosts, host);
    LastApplies(hosts, host);
    if hosts != [] {
      var n := |hosts| - 1;
      FirstSingle(rule, hosts[..n], host, verb, path);
      SinglesInit(rule, hosts);
      PermitsWhateverHost(rule, hosts[n], verb, path);
    }
  }

  predicate AnyApplies(hosts: seq<string>, host: string) {
    exists h :: h in hosts && Applies(h, host)
  }

  lemma LastApplies(hosts: seq<string>, host: string)
    ensures hosts == [] ==> !AnyApplies(hosts, host)
    ensures hosts != [] ==>
      var n := |hosts| - 1;
      AnyApplies(hosts, host) <==> AnyApplies(hosts[..n], host) || Applies(hosts[n], host)
  {
    hide Applies;
    if hosts != [] {
      assert hosts == hosts[..|hosts| - 1] + [hosts[|hosts| - 1]];
    }
  }

  lemma SinglesInit(rule: Rule, hosts: seq<string>)
    requires hosts != []
    ensures var n := |hosts| - 1;
            && |Singles(rule, hosts)| == n + 1 && Singles(rule, hosts)[..n] == Singles(rule, hosts[..n])
            && Singles(rule, hosts)[n] == rule.(host := hosts[n], hosts := [])
  {
  }

  lemma PermitsWhateverHost(rule: Rule, host: string, verb: string, path: string)
    ensures Permits(rule.(host := host, hosts := []), verb, path) == Permits(rule, verb, path)
  {
  }

  lemma SinglesRestrict(rule: Rule, hosts: seq<string>, host: string)
    ensures Restricted(Singles(rule, hosts), host) <==> AnyApplies(hosts, host)
  {
    hide Applies;
    if h :| h in hosts && Applies(h, host) {
      var i :| 0 <= i < |hosts| && hosts[i] == h;
      assert Singles(rule, hosts)[i].host == h;
    }
  }

  /** The single-host rules of a rule together mean what it means as written. */
  lemma RuleKeepsMeaning(rule: Rule, host: string, verb: string, path: string)
    requires ExpandedRule(rule).Ok?
    ensures var first := FirstPermitting(ExpandedRule(rule).value, host, verb, path);
            && (first.Some? <==> AppliesAsWritten(rule, host) && PermitsAsWritten(rule, verb, path))
            && (first.Some? ==> SameLimits(first.value, rule))
    ensures Restricted(ExpandedRule(rule).value, host) <==> AppliesAsWritten(rule, host)
  {
    hide Applies, FirstPermitting, Singles, Restricted, PathPermitted, HostPattern.Normalize, CanonicalMethod;
    hide ValidMethod;
    var hosts := DistinctHosts(Patterns(rule)).value;
    var normalized := Normalized(rule).value;
    FirstSingle(normalized, hosts, host, verb, path);
    HostsApply(rule, hosts, host);
    MethodsPermit(rule, normalized, verb);
    PathsPermit(rule, normalized, path);
  }

  lemma HostsApply(rule: Rule, hosts: seq<string>, host: string)
    requires DistinctHosts(Patterns(rule)) == Ok(hosts)
    ensures AppliesAsWritten(rule, host) <==> AnyApplies(hosts, host)
  {
    hide Applies, HostPattern.Normalize, DistinctHosts;
    DistinctHostsAre(Patterns(rule));
  }

  lemma MethodsPermit(rule: Rule, normalized: Rule, verb: string)
    requires CanonicalMethods(rule.methods) == Ok(normalized.methods)
    ensures (normalized.methods == [] <==> rule.methods == [])
    ensures verb in normalized.methods <==>
              exists i :: 0 <= i < |rule.methods| && CanonicalMethod(rule.methods[i]) == verb
  {
    hide CanonicalMethod, ValidMethod, CanonicalMethods;
    CanonicalMethodsAre(rule.methods);
    var methods := CanonicalMethods(rule.methods).value;
    if i :| 0 <= i < |rule.methods| && CanonicalMethod(rule.methods[i]) == verb {
      assert methods[i] == verb;
    }
  }

  lemma PathsPermit(rule: Rule, normalized: Rule, path: string)
    requires normalized.pathPrefixes == rule.pathPrefixes
    ensures PathPermitted(normalized, path) == PathPermitted(rule, path)
  {
  }

  /**
   * For every request the expanded rules decide as the rules were written: a rule
   * permits it exactly if the first rule as written does, with the same limits, and
   * the host is restricted exactly if it was.
   */
  lemma {:induction false} ExpansionKeepsMeaning(rules: seq<Rule>, host: string, verb: string, path: string)
    requires Expanded(rules).Ok?
    ensures var first := FirstPermitting(Expanded(rules).value, host, verb, path);
            var written := FirstAsWritten(rules, host, verb, path);
            && (first.Some? <==> written.Some?)
            && (first.Some? ==> SameLimits(first.value, written.value))
    ensures Restricted(Expanded(rules).value, host) <==> RestrictedAsWritten(rules, host)
  {
    hide AppliesAsWritten, PermitsAsWritten, SameLimits, ExpandedRule, Applies, Permits;
    if rules != [] {
      var n := |rules| - 1;
      ExpansionKeepsMeaning(rules[..n], host, verb, path);
      RuleKeepsMeaning(rules[n], host, verb, path);
      FirstOfBoth(Expanded(rules[..n]).value, ExpandedRule(rules[n]).value, host, verb, path);
      assert RestrictedAsWritten(rules, host) <==>
               RestrictedAsWritten(rules[..n], host) || AppliesAsWritten(rules[n], host) by {
        assert forall i :: 0 <= i < n ==> rules[..n][i] == rules[i];
      }
    }
  }

  // --- expanding again changes nothing ---

  /** A rule as expansion leaves it. */
  predicate Canonical(rule: Rule) {
    && rule.hosts == [] && rule.host != "" && HostPattern.Normalize(rule.host) == Some(rule.host)
    && Normalized(rule) == Ok(rule)
  }

  lemma OneHost(host: string)
    requires HostPattern.Normalize(host) == Some(host)
    ensures DistinctHosts([host]) == Ok([host])
  {
    hide HostPattern.Normalize;
    assert [host][..0] == [];
    assert DistinctHosts([]) == Ok([]);
    assert [] + [host] == [host];
  }

  lemma CanonicalExpandsToItself(rule: Rule)
    requires Canonical(rule)
    ensures ExpandedRule(rule) == Ok([rule])
  {
    hide HostPattern.Normalize, Normalized;
    OneHost(rule.host);
    hide DistinctHosts;
    assert Singles(rule, [rule.host]) == [rule];
  }

  lemma NormalizedStays(rule: Rule, host: string)
    requires Normalized(rule).Ok?
    ensures var single := Normalized(rule).value.(host := host, hosts := []);
            Normalized(single) == Ok(single)
  {
    hide CanonicalMethod, ValidMethod, ValidPathPrefix, CanonicalMethods;
    CanonicalMethodsAre(rule.methods);
    var single := Normalized(rule).value.(host := host, hosts := []);
    forall i | 0 <= i < |single.methods|
      ensures CanonicalMethod(single.methods[i]) == single.methods[i] && ValidMethod(single.methods[i])
    {
      CanonicalMethodStays(single.methods[i]);
    }
    CanonicalMethodsAre(single.methods);
    assert CanonicalMethods(single.methods).value == single.methods;
  }

  lemma ExpandedAreCanonical(rule: Rule)
    requires ExpandedRule(rule).Ok?
    ensures forall r :: r in ExpandedRule(rule).value ==> Canonical(r)
  {
    hide HostPattern.Normalize, Normalized, DistinctHosts;
    var hosts := DistinctHosts(Patterns(rule)).value;
    forall r | r in ExpandedRule(rule).value ensures Canonical(r) {
      NormalizedStays(rule, r.host);
      DistinctHostsAre(Patterns(rule));
      assert r.host in hosts;
      var j :| 0 <= j < |Patterns(rule)| && HostPattern.Normalize(Patterns(rule)[j]) == Some(r.host);
      HostPattern.NormalizeIdempotent(Patterns(rule)[j]);
      HostPattern.NormalizedIsNotEmpty(Patterns(rule)[j]);
    }
  }

  lemma {:induction false} CanonicalStay(rules: seq<Rule>)
    requires forall r :: r in rules ==> Canonical(r)
    ensures Expanded(rules) == Ok(rules)
  {
    hide ExpandedRule, Canonical;
    if rules != [] {
      var n := |rules| - 1;
      CanonicalStay(rules[..n]);
      CanonicalExpandsToItself(rules[n]);
      assert rules == rules[..n] + [rules[n]];
    }
  }

  lemma {:induction false} ExpansionIsCanonical(rules: seq<Rule>)
    requires Expanded(rules).Ok?
    ensures forall r :: r in Expanded(rules).value ==> Canonical(r)
  {
    hide ExpandedRule, Canonical;
    if rules != [] {
      var n := |rules| - 1;
      ExpansionIsCanonical(rules[..n]);
      ExpandedAreCanonical(rules[n]);
    }
  }

  /** Expanding the expanded rules changes nothing. */
  lemma ExpansionIsIdempotent(rules: seq<Rule>)
    requires Expanded(rules).Ok?
    ensures Expanded(Expanded(rules).value) == Expanded(rules)
  {
    ExpansionIsCanonical(rules);
    CanonicalStay(Expanded(rules).value);
  }
}

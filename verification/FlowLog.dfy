/** Recorded flows, filters, and what a newest-first listing of them is. */
module FlowLog {
  import opened Bytes
  import HostPattern

  /** The part of a flow the stores look at; capture stands for everything a summary leaves out. */
  datatype Flow = Flow(
    id: nat,
    sessionId: string,
    client: string,
    httpMethod: string,
    host: string,
    mode: string,
    decision: string,
    capture: string)

  /** Empty strings, an empty session list and a zero cursor do not restrict; glob decides patterns with * or ?. */
  datatype Filter = Filter(
    client: string,
    host: string,
    decision: string,
    mode: string,
    httpMethod: string,
    sessions: seq<string>,
    beforeId: nat,
    glob: (string, string) -> bool)

  predicate MatchHostPattern(glob: (string, string) -> bool, pattern: string, host: string) {
    var p, h := HostPattern.ToLower(HostPattern.TrimSpace(pattern)), HostPattern.ToLower(HostPattern.TrimSpace(host));
    || p == "" || p == h
    || ("*." <= p && (h == p[2..] || HostPattern.HasSuffix(h, "." + p[2..])))
    || (('*' in p || '?' in p) && glob(p, h))
  }

  /** Everything but the cursor. */
  predicate MatchesContent(f: Flow, filter: Filter) {
    && (filter.client == "" || f.client == filter.client)
    && (filter.host == "" || MatchHostPattern(filter.glob, filter.host, f.host))
    && (filter.decision == "" || f.decision == filter.decision)
    && (filter.mode == "" || f.mode == filter.mode)
    && (filter.httpMethod == "" || f.httpMethod == filter.httpMethod)
    && (filter.sessions == [] || f.sessionId in filter.sessions)
  }

  predicate Before(f: Flow, cursor: nat) {
    cursor == 0 || f.id < cursor
  }

  predicate Matches(f: Flow, filter: Filter) {
    MatchesContent(f, filter) && Before(f, filter.beforeId)
  }

  /**
   * A host pattern asks for one host, or behind a wildcard for a domain: the labels of
   * the host are those of the domain, or end in them; other patterns are left to glob.
   */
  predicate AsksForHost(glob: (string, string) -> bool, pattern: string, host: string) {
    var p, h := HostPattern.ToLower(HostPattern.TrimSpace(pattern)), HostPattern.ToLower(HostPattern.TrimSpace(host));
    var labels := HostPattern.Split(h, '.');
    || p == "" || p == h
    || ("*." <= p && EndsIn(labels, HostPattern.Split(p[2..], '.')))
    || (('*' in p || '?' in p) && glob(p, h))
  }

  predicate EndsIn(labels: seq<string>, last: seq<string>) {
    |labels| >= |last| && labels[|labels| - |last|..] == last
  }

  lemma MatchHostPatternIs(glob: (string, string) -> bool, pattern: string, host: string)
    ensures MatchHostPattern(glob, pattern, host) <==> AsksForHost(glob, pattern, host)
  {
    hide HostPattern.ToLower, HostPattern.TrimSpace, HostPattern.Split, HostPattern.HasSuffix;
    var p, h := HostPattern.ToLower(HostPattern.TrimSpace(pattern)), HostPattern.ToLower(HostPattern.TrimSpace(host));
    if "*." <= p {
      var labels, last := HostPattern.Split(h, '.'), HostPattern.Split(p[2..], '.');
      HostPattern.SuffixIsPieces(h, p[2..], '.');
      assert ['.'] + p[2..] == "." + p[2..];
      if |labels| == |last| {
        assert labels[0..] == labels;
        if labels == last {
          HostPattern.SplitDetermines(h, p[2..], '.');
        }
      }
    }
  }

  /** The flow is one that every part of the filter that is set asks for. */
  predicate AskedFor(f: Flow, filter: Filter) {
    && (filter.client != "" ==> f.client == filter.client)
    && (filter.host != "" ==> AsksForHost(filter.glob, filter.host, f.host))
    && (filter.decision != "" ==> f.decision == filter.decision)
    && (filter.mode != "" ==> f.mode == filter.mode)
    && (filter.httpMethod != "" ==> f.httpMethod == filter.httpMethod)
    && (filter.sessions != [] ==> f.sessionId in filter.sessions)
    && (filter.beforeId > 0 ==> f.id < filter.beforeId)
  }

  lemma MatchesIs(f: Flow, filter: Filter)
    ensures Matches(f, filter) <==> AskedFor(f, filter)
  {
    MatchHostPatternIs(filter.glob, filter.host, f.host);
  }

  /** The matching flows from the newest back, at most limit of them. */
  function NewestFirst(flows: seq<Flow>, filter: Filter, limit: nat): (r: seq<Flow>)
    ensures |r| <= limit && |r| <= |flows|
  {
    if flows == [] || limit == 0 then []
    else
      var last, earlier := flows[|flows| - 1], flows[..|flows| - 1];
      if Matches(last, filter) then [last] + NewestFirst(earlier, filter, limit - 1)
      else NewestFirst(earlier, filter, limit)
  }

  /** The last n flows of a log. */
  function Latest(log: seq<Flow>, n: nat): seq<Flow> {
    log[|log| - Min(n, |log|)..]
  }

  /** Flows are numbered from one in the order they were added. */
  predicate Numbered(log: seq<Flow>) {
    forall i :: 0 <= i < |log| ==> log[i].id == i + 1
  }

  predicate Ascending(flows: seq<Flow>) {
    forall i, j :: 0 <= i < j < |flows| ==> flows[i].id < flows[j].id
  }

  predicate Descending(flows: seq<Flow>) {
    forall i, j :: 0 <= i < j < |flows| ==> flows[i].id > flows[j].id
  }

  /** None left out that is newer than the last, or none at all if there are fewer than allowed. */
  predicate Complete(r: seq<Flow>, flows: seq<Flow>, filter: Filter, limit: nat) {
    forall f :: f in flows && Matches(f, filter) && (|r| < limit || (r != [] && f.id >= r[|r| - 1].id)) ==> f in r
  }

  /** Matching flows only, newest first, and none left out. */
  predicate Lists(r: seq<Flow>, flows: seq<Flow>, filter: Filter, limit: nat) {
    Descending(r) && (forall f :: f in r ==> f in flows && Matches(f, filter)) && Complete(r, flows, filter, limit)
  }

  lemma ListsNothing(flows: seq<Flow>, filter: Filter, limit: nat)
    requires flows == [] || limit == 0
    ensures Lists([], flows, filter, limit)
  {
    hide Matches;
  }

  lemma OneMoreFlow(flows: seq<Flow>, last: Flow)
    ensures forall f :: f in flows + [last] <==> f in flows || f == last
    ensures forall f :: f in [last] + flows <==> f in flows || f == last
  {
  }

  lemma DescendingMore(rest: seq<Flow>, last: Flow)
    requires Descending(rest) && forall f :: f in rest ==> f.id < last.id
    ensures Descending([last] + rest)
  {
    var r := [last] + rest;
    forall i, j | 0 <= i < j < |r| ensures r[i].id > r[j].id {
      assert r[j] == rest[j - 1] && rest[j - 1] in rest;
      assert i > 0 ==> r[i] == rest[i - 1];
    }
  }

  lemma CompleteMore(rest: seq<Flow>, earlier: seq<Flow>, last: Flow, filter: Filter, limit: nat)
    requires Complete(rest, earlier, filter, limit) && forall f :: f in earlier ==> f.id < last.id
    ensures Complete([last] + rest, earlier + [last], filter, limit + 1)
  {
    hide Matches;
    OneMoreFlow(earlier, last);
    OneMoreFlow(rest, last);
    var r := [last] + rest;
    assert r[|r| - 1] == if rest == [] then last else rest[|rest| - 1];
  }

  lemma ListsMore(rest: seq<Flow>, earlier: seq<Flow>, last: Flow, filter: Filter, limit: nat)
    requires Lists(rest, earlier, filter, limit) && Matches(last, filter)
    requires forall f :: f in earlier ==> f.id < last.id
    ensures Lists([last] + rest, earlier + [last], filter, limit + 1)
  {
    hide Matches, Complete, Descending;
    OneMoreFlow(earlier, last);
    OneMoreFlow(rest, last);
    DescendingMore(rest, last);
    CompleteMore(rest, earlier, last, filter, limit);
  }

  lemma ListsLess(rest: seq<Flow>, earlier: seq<Flow>, last: Flow, filter: Filter, limit: nat)
    requires Lists(rest, earlier, filter, limit) && !Matches(last, filter)
    ensures Lists(rest, earlier + [last], filter, limit)
  {
    hide Matches, Descending;
    OneMoreFlow(earlier, last);
  }

  lemma AscendingInit(flows: seq<Flow>)
    requires Ascending(flows) && flows != []
    ensures var n := |flows| - 1;
            Ascending(flows[..n]) && forall f :: f in flows[..n] ==> f.id < flows[n].id
  {
    var n := |flows| - 1;
    assert forall i :: 0 <= i < n ==> flows[..n][i] == flows[i];
  }

  /**
   * A listing holds matching flows only, newest first, and leaves out none newer than its
   * last, or none at all if it is short.
   */
  lemma {:induction false} ListingIs(flows: seq<Flow>, filter: Filter, limit: nat)
    requires Ascending(flows)
    ensures Lists(NewestFirst(flows, filter, limit), flows, filter, limit)
  {
    hide Matches, Lists, Ascending;
    if flows == [] || limit == 0 {
      ListsNothing(flows, filter, limit);
    } else {
      var last, earlier := flows[|flows| - 1], flows[..|flows| - 1];
      assert flows == earlier + [last];
      AscendingInit(flows);
      if Matches(last, filter) {
        ListingIs(earlier, filter, limit - 1);
        ListsMore(NewestFirst(earlier, filter, limit - 1), earlier, last, filter, limit - 1);
      } else {
        ListingIs(earlier, filter, limit);
        ListsLess(NewestFirst(earlier, filter, limit), earlier, last, filter, limit);
      }
    }
  }
}

/** Keyset pages over a store, and what following their cursors returns while flows keep arriving. */
module FlowPages {
  import opened Bytes
  import opened FlowLog
  import opened FlowStore

  const CONNECT := "CONNECT"

  datatype Page = Page(flows: seq<Flow>, sessionParents: seq<Flow>, nextBeforeId: nat, hasMore: bool)

  /** The limit a request is answered with: any limit that is not usable means the whole capacity. */
  function EffectiveLimit(limit: int, capacity: nat): (r: nat)
    ensures r <= capacity && (0 < limit <= capacity ==> r == limit) && (capacity > 0 ==> r > 0)
  {
    if limit <= 0 || limit > capacity then capacity else limit
  }

  /** The sessions of a page whose CONNECT flow is not on it, each once, in order of appearance. */
  function MissingSessions(flows: seq<Flow>, present: set<string>): seq<string> {
    if flows == [] then []
    else
      var earlier, last := MissingSessions(flows[..|flows| - 1], present), flows[|flows| - 1].sessionId;
      if last == "" || last in present || last in earlier then earlier else earlier + [last]
  }

  function PresentSessions(flows: seq<Flow>): set<string> {
    set f | f in flows && f.httpMethod == CONNECT && f.sessionId != "" :: f.sessionId
  }

  function ParentFilter(filter: Filter, sessions: seq<string>, before: nat): Filter {
    filter.(mode := "", httpMethod := CONNECT, sessions := sessions, beforeId := before)
  }

  function SmallestId(flows: seq<Flow>): nat
    requires flows != []
  {
    if |flows| == 1 then flows[0].id
    else Min(SmallestId(flows[..|flows| - 1]), flows[|flows| - 1].id)
  }

  /** The page of what is retained at first, with the parents found in what is retained a little later. */
  function PageOf(contents: seq<Flow>, later: seq<Flow>, filter: Filter, limit: nat, summary: bool): Page {
    var items := Shown(NewestFirst(contents, filter, limit), summary);
    if items == [] then Page(items, [], 0, |items| == limit)
    else
      var missing, before := MissingSessions(items, PresentSessions(items)), SmallestId(items);
      var parents := if missing == [] then []
                     else Shown(NewestFirst(later, ParentFilter(filter, missing, before), |missing|), summary);
      Page(items, parents, before, |items| == limit)
  }

  /** The smallest id on a page and the sessions whose CONNECT flow is on it. */
  method ScanPage(items: seq<Flow>) returns (minId: nat, present: set<string>)
    requires items != []
    ensures minId == SmallestId(items) && present == PresentSessions(items)
  {
    minId, present := items[0].id, {};
    for i := 0 to |items|
      invariant minId == if i == 0 then items[0].id else SmallestId(items[..i])
      invariant present == PresentSessions(items[..i])
    {
      assert items[..i + 1][..i] == items[..i];
      if items[i].id < minId {
        minId := items[i].id;
      }
      if items[i].httpMethod == CONNECT && items[i].sessionId != "" {
        present := present + {items[i].sessionId};
      }
      PresentOneMore(items, i);
    }
    TakeAll(items);
  }

  method CollectMissing(items: seq<Flow>, present: set<string>) returns (missing: seq<string>)
    ensures missing == MissingSessions(items, present)
  {
    missing := [];
    for i := 0 to |items|
      invariant missing == MissingSessions(items[..i], present)
    {
      assert items[..i + 1][..i] == items[..i];
      var session := items[i].sessionId;
      if session != "" && session !in present && session !in missing {
        missing := missing + [session];
      }
    }
    TakeAll(items);
  }

  /** Other threads add these flows. */
  method AddAll(backend: MemoryBackend, flows: seq<Flow>, capacity: nat)
    requires backend.Valid() && capacity > 0 && backend.flows.Length in {0, capacity}
    modifies backend, backend.flows
    ensures backend.Valid() && |backend.log| == old(|backend.log|) + |flows| && old(backend.log) <= backend.log
    ensures backend.flows.Length in {0, capacity} && (backend.flows == old(backend.flows) || fresh(backend.flows))
    ensures flows == [] ==> backend.Contents() == old(backend.Contents())
  {
    hide Ring, Latest, Numbered;
    for i := 0 to |flows|
      invariant backend.Valid() && |backend.log| == old(|backend.log|) + i && old(backend.log) <= backend.log
      invariant backend.flows.Length in {0, capacity} && (backend.flows == old(backend.flows) || fresh(backend.flows))
      invariant i == 0 ==> backend.Contents() == old(backend.Contents())
    {
      var stored := backend.Add(flows[i], capacity);
    }
  }

  /** A page; between its two listings the lock is free, and other threads may add flows. */
  method ListPage(backend: MemoryBackend, filter: Filter, limit: int, capacity: nat, summary: bool, between: seq<Flow>)
    returns (page: Page)
    requires backend.Valid() && capacity > 0 && backend.flows.Length in {0, capacity}
    modifies backend, backend.flows
    ensures backend.Valid() && old(backend.log) <= backend.log
    ensures page == PageOf(old(backend.Contents()), backend.Contents(), filter,
                           EffectiveLimit(limit, capacity), summary)
  {
    hide NewestFirst, Latest, Ring, Numbered, MissingSessions, SmallestId, PresentSessions;
    var effective := if limit <= 0 || limit > capacity then capacity else limit;
    var items := backend.List(filter, effective, summary);
    page := Page(items, [], 0, |items| == effective);
    if |items| == 0 {
      return;
    }
    var minId, present := ScanPage(items);
    var missing := CollectMissing(items, present);
    var parents: seq<Flow> := [];
    if |missing| > 0 {
      AddAll(backend, between, capacity);
      parents := backend.List(ParentFilter(filter, missing, minId), |missing|, summary);
    }
    page := Page(items, parents, minId, |items| == effective);
  }

  lemma PresentOneMore(items: seq<Flow>, i: nat)
    requires i < |items|
    ensures PresentSessions(items[..i + 1]) ==
            PresentSessions(items[..i]) +
            if items[i].httpMethod == CONNECT && items[i].sessionId != "" then {items[i].sessionId} else {}
  {
    TakeOne(items, i);
    assert forall f :: f in items[..i + 1] <==> f in items[..i] || f == items[i];
  }

  // --- what a page is ---

  lemma {:induction false} SmallestIsLast(flows: seq<Flow>)
    requires flows != [] && Descending(flows)
    ensures SmallestId(flows) == flows[|flows| - 1].id
  {
    if |flows| > 1 {
      SmallestIsLast(flows[..|flows| - 1]);
    }
  }

  lemma NumberedTail(log: seq<Flow>, n: nat)
    requires Numbered(log)
    ensures Ascending(Latest(log, n))
    ensures forall f :: f in Latest(log, n) ==> 1 <= f.id <= |log|
  {
  }

  /** The cursor of a page is the id of its last flow, which is the smallest on it. */
  lemma CursorIsLast(log: seq<Flow>, capacity: nat, later: seq<Flow>, filter: Filter, limit: nat, summary: bool)
    requires Numbered(log)
    ensures var page := PageOf(Latest(log, capacity), later, filter, limit, summary);
            var flows := NewestFirst(Latest(log, capacity), filter, limit);
            flows != [] ==> page.nextBeforeId == flows[|flows| - 1].id
  {
    NumberedTail(log, capacity);
    ListingIs(Latest(log, capacity), filter, limit);
    var flows := NewestFirst(Latest(log, capacity), filter, limit);
    if flows != [] {
      SmallestIsLast(Shown(flows, summary));
    }
  }

  // --- following the cursors ---

  /** The log as each page finds it: flows are only ever added between two pages. */
  ghost predicate Growing(logs: seq<seq<Flow>>) {
    && (forall k :: 0 <= k < |logs| ==> Numbered(logs[k]))
    && forall k :: 0 <= k < |logs| - 1 ==> logs[k] <= logs[k + 1]
  }

  function PageFlows(log: seq<Flow>, capacity: nat, filter: Filter, limit: nat): seq<Flow> {
    NewestFirst(Latest(log, capacity), filter, limit)
  }

  /** The pages read one after the other, each from the cursor of the one before, until one is not full. */
  function Walk(logs: seq<seq<Flow>>, capacity: nat, filter: Filter, limit: nat): seq<seq<Flow>>
    requires limit > 0
    decreases |logs|
  {
    if logs == [] then []
    else
      var page := PageFlows(logs[0], capacity, filter, limit);
      if |page| < limit then [page]
      else [page] + Walk(logs[1..], capacity, filter.(beforeId := page[|page| - 1].id), limit)
  }

  /** The walk has come to a page that says there are no more. */
  predicate Finished(pages: seq<seq<Flow>>, limit: nat) {
    pages != [] && |pages[|pages| - 1]| < limit
  }

  function Concat(pages: seq<seq<Flow>>): seq<Flow> {
    if pages == [] then [] else pages[0] + Concat(pages[1..])
  }

  lemma PageIs(log: seq<Flow>, capacity: nat, filter: Filter, limit: nat)
    requires Numbered(log)
    ensures var page := PageFlows(log, capacity, filter, limit);
            && Descending(page)
            && (forall f :: f in page ==> f in Latest(log, capacity) && Matches(f, filter) && f.id >= 1)
            && (forall f ::
                  && f in Latest(log, capacity) && Matches(f, filter)
                  && (|page| < limit || (page != [] && f.id >= page[|page| - 1].id)) ==>
                    f in page)
  {
    NumberedTail(log, capacity);
    ListingIs(Latest(log, capacity), filter, limit);
  }

  /** The walk returns matching flows only, in strictly decreasing order of id, so no flow twice. */
  lemma {:induction false} WalkDescends(logs: seq<seq<Flow>>, capacity: nat, filter: Filter, limit: nat)
    requires limit > 0 && Growing(logs)
    ensures Descending(Concat(Walk(logs, capacity, filter, limit)))
    ensures forall f :: f in Concat(Walk(logs, capacity, filter, limit)) ==> Matches(f, filter)
    decreases |logs|
  {
    hide PageFlows, Latest, Numbered;
    if logs != [] {
      PageIs(logs[0], capacity, filter, limit);
      var page := PageFlows(logs[0], capacity, filter, limit);
      if |page| < limit {
        OnePage(page);
      } else {
        var next := filter.(beforeId := page[|page| - 1].id);
        assert page[|page| - 1] in page;
        WalkDescends(logs[1..], capacity, next, limit);
        assert ([page] + Walk(logs[1..], capacity, next, limit))[1..] == Walk(logs[1..], capacity, next, limit);
        MatchesLower(filter, next);
      }
    }
  }

  lemma OnePage(page: seq<Flow>)
    ensures Concat([page]) == page
  {
    assert page + [] == page;
  }

  lemma MatchesLower(filter: Filter, next: Filter)
    requires next == filter.(beforeId := next.beforeId) && next.beforeId > 0
    requires filter.beforeId == 0 || next.beforeId <= filter.beforeId
    ensures forall f :: Matches(f, next) <==> MatchesContent(f, filter) && f.id < next.beforeId
    ensures forall f :: Matches(f, next) ==> Matches(f, filter)
  {
  }

  /** The number of the page that covers an id: the first that is not full or reaches down to it. */
  function Turn(pages: seq<seq<Flow>>, id: nat, limit: nat): (k: nat)
    requires limit > 0 && pages != []
    ensures k < |pages|
  {
    if |pages| == 1 || |pages[0]| < limit || pages[0][|pages[0]| - 1].id <= id then 0
    else 1 + Turn(pages[1..], id, limit)
  }

  /**
   * Every matching flow is on the page that covers its id, unless it was no longer
   * retained when that page was read, whatever was added in between.
   */
  lemma {:induction false} WalkMissesNothing(logs: seq<seq<Flow>>, capacity: nat, filter: Filter, limit: nat, f: Flow)
    requires limit > 0 && Growing(logs) && Finished(Walk(logs, capacity, filter, limit), limit) && Matches(f, filter)
    ensures var pages := Walk(logs, capacity, filter, limit);
            var k := Turn(pages, f.id, limit);
            k < |logs| && (f in Latest(logs[k], capacity) ==> f in pages[k])
    decreases |logs|
  {
    hide PageFlows, Latest, Numbered, Walk, Matches;
    WalkStarts(logs, capacity, filter, limit);
    var pages, page := Walk(logs, capacity, filter, limit), PageFlows(logs[0], capacity, filter, limit);
    PageIs(logs[0], capacity, filter, limit);
    PageFits(logs[0], capacity, filter, limit);
    if |page| == limit && page[|page| - 1].id > f.id {
      var next := filter.(beforeId := page[|page| - 1].id);
      assert page[|page| - 1] in page;
      NextMatches(filter, next, page[|page| - 1], f);
      assert pages[1..] == Walk(logs[1..], capacity, next, limit);
      WalkMissesNothing(logs[1..], capacity, next, limit, f);
    }
  }

  lemma NextMatches(filter: Filter, next: Filter, last: Flow, f: Flow)
    requires Matches(last, filter) && Matches(f, filter) && f.id < last.id && next == filter.(beforeId := last.id)
    ensures Matches(f, next)
  {
  }

  lemma WalkStarts(logs: seq<seq<Flow>>, capacity: nat, filter: Filter, limit: nat)
    requires limit > 0 && Finished(Walk(logs, capacity, filter, limit), limit)
    ensures logs != []
    ensures var pages, page := Walk(logs, capacity, filter, limit), PageFlows(logs[0], capacity, filter, limit);
            if |page| < limit then pages == [page]
            else
              var later := Walk(logs[1..], capacity, filter.(beforeId := page[|page| - 1].id), limit);
              pages == [page] + later && Finished(later, limit)
  {
    hide PageFlows;
    assert logs != [];
    var page := PageFlows(logs[0], capacity, filter, limit);
    if |page| >= limit {
      var later := Walk(logs[1..], capacity, filter.(beforeId := page[|page| - 1].id), limit);
      assert later != [] ==> ([page] + later)[|later|] == later[|later| - 1];
    }
  }

  /** Following cursors ends: each full page moves the cursor down, and no id is below one. */
  lemma {:induction false} WalkFinishes(logs: seq<seq<Flow>>, capacity: nat, filter: Filter, limit: nat)
    requires limit > 0 && Growing(logs) && logs != []
    requires if filter.beforeId == 0 then |logs| > |logs[0]| + 1 else |logs| >= filter.beforeId
    ensures Finished(Walk(logs, capacity, filter, limit), limit)
    decreases |logs|
  {
    hide Latest, PageFlows, Numbered, MatchesContent, Descending, Ascending;
    PageIs(logs[0], capacity, filter, limit);
    NumberedTail(logs[0], capacity);
    var page := PageFlows(logs[0], capacity, filter, limit);
    PageFits(logs[0], capacity, filter, limit);
    if |page| == limit {
      var last := page[|page| - 1];
      assert last in page;
      WalkFinishes(logs[1..], capacity, filter.(beforeId := last.id), limit);
    }
  }

  lemma PageFits(log: seq<Flow>, capacity: nat, filter: Filter, limit: nat)
    ensures |PageFlows(log, capacity, filter, limit)| <= limit
  {
  }

  // --- the parents of a page's sessions ---

  lemma {:induction false} MissingSessionsAre(flows: seq<Flow>, present: set<string>)
    ensures var missing := MissingSessions(flows, present);
            && (forall n :: n in missing <==> n != "" && n !in present && exists f :: f in flows && f.sessionId == n)
            && Distinct(missing)
  {
    if flows != [] {
      var earlier, last := flows[..|flows| - 1], flows[|flows| - 1];
      MissingSessionsAre(earlier, present);
      assert flows == earlier + [last];
      assert forall f :: f in flows <==> f in earlier || f == last;
    }
  }

  /** Distinct elements of a list, as many as it has, are all of it. */
  lemma {:induction false} Pigeonhole(names: seq<string>, all: seq<string>)
    requires Distinct(names) && forall n :: n in names ==> n in all
    ensures |names| <= |all|
    ensures |names| == |all| ==> forall n :: n in all ==> n in names
  {
    var s, t := set n | n in names, set n | n in all;
    SizeOf(names);
    SizeAtMost(all);
    SubsetSize(s, t);
    if |names| == |all| {
      assert s == t;
      assert forall n :: n in all ==> n in t;
    }
  }

  lemma {:induction false} SizeOf(names: seq<string>)
    requires Distinct(names)
    ensures |set n | n in names| == |names|
  {
    if names != [] {
      var init, last := names[..|names| - 1], names[|names| - 1];
      SizeOf(init);
      assert (set n | n in names) == (set n | n in init) + {last};
    }
  }

  lemma {:induction false} SizeAtMost(names: seq<string>)
    ensures |set n | n in names| <= |names|
  {
    if names != [] {
      var init, last := names[..|names| - 1], names[|names| - 1];
      SizeAtMost(init);
      assert (set n | n in names) == (set n | n in init) + {last};
    }
  }

  lemma {:induction false} SubsetSize(s: set<string>, t: set<string>)
    requires s <= t
    ensures |s| <= |t| && (|s| == |t| ==> s == t)
    decreases s
  {
    if s != {} {
      var x :| x in s;
      SubsetSize(s - {x}, t - {x});
    }
  }

  /** Each session has at most one CONNECT flow. */
  predicate OneConnectEach(contents: seq<Flow>) {
    forall f, g ::
      && f in contents && g in contents && f.httpMethod == g.httpMethod == CONNECT
      && f.sessionId == g.sessionId != "" ==>
        f == g
  }

  lemma SessionsDistinct(contents: seq<Flow>, flows: seq<Flow>)
    requires OneConnectEach(contents) && Descending(flows)
    requires forall f :: f in flows ==> f in contents && f.httpMethod == CONNECT && f.sessionId != ""
    ensures forall i, j :: 0 <= i < j < |flows| ==> flows[i].sessionId != flows[j].sessionId
  {
    forall i, j | 0 <= i < j < |flows| ensures flows[i].sessionId != flows[j].sessionId {
      assert flows[i] in flows && flows[j] in flows && flows[i].id > flows[j].id;
    }
  }

  lemma ParentsAre(contents: seq<Flow>, filter: Filter, missing: seq<string>, before: nat)
    requires Ascending(contents) && missing != [] && before > 0
    requires Distinct(missing) && "" !in missing
    ensures var wanted := ParentFilter(filter, missing, before);
            var parents := NewestFirst(contents, wanted, |missing|);
            && (forall f :: f in parents ==> f in contents && Matches(f, wanted))
            && (OneConnectEach(contents) ==> forall f :: f in contents && Matches(f, wanted) ==> f in parents)
  {
    var wanted := ParentFilter(filter, missing, before);
    var parents := NewestFirst(contents, wanted, |missing|);
    ListingIs(contents, wanted, |missing|);
    if OneConnectEach(contents) && |parents| == |missing| {
      NoneLeftOut(contents, wanted, parents, missing);
    }
  }

  lemma NoneLeftOut(contents: seq<Flow>, wanted: Filter, parents: seq<Flow>, missing: seq<string>)
    requires OneConnectEach(contents) && Descending(parents) && |parents| == |missing|
    requires wanted.httpMethod == CONNECT && wanted.sessions == missing != [] && "" !in missing
    requires forall f :: f in parents ==> f in contents && Matches(f, wanted)
    ensures forall f :: f in contents && Matches(f, wanted) ==> f in parents
  {
    SessionsDistinct(contents, parents);
    var names := seq(|parents|, i requires 0 <= i < |parents| => parents[i].sessionId);
    Pigeonhole(names, missing);
    forall f | f in contents && Matches(f, wanted) ensures f in parents {
      var i :| 0 <= i < |names| && names[i] == f.sessionId;
      assert parents[i] in parents;
    }
  }

  /** A session on the page whose CONNECT flow is not on it. */
  predicate Orphaned(flows: seq<Flow>, session: string) {
    session != "" && session !in PresentSessions(flows) && exists f :: f in flows && f.sessionId == session
  }

  /**
   * The flow is the CONNECT flow, older than the page, that an orphaned session on it
   * asks for; the filter's client, host and decision count, its mode and method do not.
   */
  predicate Wanted(page: Page, filter: Filter, f: Flow) {
    && Orphaned(page.flows, f.sessionId) && f.httpMethod == CONNECT && f.id < page.nextBeforeId
    && (filter.client != "" ==> f.client == filter.client)
    && (filter.host != "" ==> AsksForHost(filter.glob, filter.host, f.host))
    && (filter.decision != "" ==> f.decision == filter.decision)
  }

  function Brief(f: Flow, summary: bool): Flow {
    if summary then Summary(f) else f
  }

  lemma ShownMembers(flows: seq<Flow>, summary: bool)
    ensures forall f :: f in flows ==> Brief(f, summary) in Shown(flows, summary)
    ensures forall g :: g in Shown(flows, summary) ==> exists f :: f in flows && g == Brief(f, summary)
  {
    var shown := Shown(flows, summary);
    forall f | f in flows ensures Brief(f, summary) in shown {
      var i :| 0 <= i < |flows| && flows[i] == f;
      assert shown[i] == Brief(f, summary);
    }
    forall g | g in shown ensures exists f :: f in flows && g == Brief(f, summary) {
      var i :| 0 <= i < |shown| && shown[i] == g;
      assert flows[i] in flows && g == Brief(flows[i], summary);
    }
  }

  /**
   * The parents that go with a page are CONNECT flows older than the page, of
   * sessions on it whose CONNECT flow is not; and where sessions have one CONNECT
   * flow each, none that the rest of the filter admits and that is still retained is
   * left out. Flows added since the page was listed make no difference to that.
   */
  lemma PageParentsAre(contents: seq<Flow>, later: seq<Flow>, filter: Filter, limit: nat, summary: bool)
    requires Ascending(contents) && (forall f :: f in contents ==> f.id > 0) && Ascending(later)
    ensures var page := PageOf(contents, later, filter, limit, summary);
            && (forall g :: g in page.sessionParents ==> IsParent(page, filter, later, g, summary))
            && (OneConnectEach(later) ==>
                  forall f :: f in later && Wanted(page, filter, f) ==> Brief(f, summary) in page.sessionParents)
  {
    hide NewestFirst, SmallestId, MissingSessions, PresentSessions, OneConnectEach, Ascending, MatchHostPattern;
    hide Descending, Distinct, Shown, AsksForHost;
    var items := Shown(NewestFirst(contents, filter, limit), summary);
    if items != [] {
      var missing, before := MissingSessions(items, PresentSessions(items)), SmallestId(items);
      MissingSessionsAre(items, PresentSessions(items));
      PositiveCursor(contents, filter, limit, summary);
      if missing != [] {
        OrphansParents(later, filter, missing, before);
        ShownMembers(NewestFirst(later, ParentFilter(filter, missing, before), |missing|), summary);
      }
    }
  }

  ghost predicate IsParent(page: Page, filter: Filter, later: seq<Flow>, g: Flow, summary: bool) {
    exists f :: f in later && g == Brief(f, summary) && Wanted(page, filter, f)
  }

  lemma PositiveCursor(contents: seq<Flow>, filter: Filter, limit: nat, summary: bool)
    requires Ascending(contents) && forall f :: f in contents ==> f.id > 0
    ensures var items := Shown(NewestFirst(contents, filter, limit), summary);
            items != [] ==> SmallestId(items) > 0
  {
    hide Matches, NewestFirst, SmallestId;
    var flows := NewestFirst(contents, filter, limit);
    ListingIs(contents, filter, limit);
    var items := Shown(flows, summary);
    if items != [] {
      SmallestIsLast(items);
      assert flows[|flows| - 1] in flows;
    }
  }

  predicate WantedBy(filter: Filter, missing: seq<string>, before: nat, f: Flow) {
    && f.sessionId in missing && f.httpMethod == CONNECT && f.id < before
    && (filter.client != "" ==> f.client == filter.client)
    && (filter.host != "" ==> AsksForHost(filter.glob, filter.host, f.host))
    && (filter.decision != "" ==> f.decision == filter.decision)
  }

  lemma OrphansParents(contents: seq<Flow>, filter: Filter, missing: seq<string>, before: nat)
    requires Ascending(contents) && missing != [] && before > 0
    requires Distinct(missing) && "" !in missing
    ensures var parents := NewestFirst(contents, ParentFilter(filter, missing, before), |missing|);
            && (forall f :: f in parents ==> f in contents && WantedBy(filter, missing, before, f))
            && (OneConnectEach(contents) ==>
                  forall f :: f in contents && WantedBy(filter, missing, before, f) ==> f in parents)
  {
    hide NewestFirst, OneConnectEach, Ascending, MatchHostPattern, AsksForHost;
    ParentsAre(contents, filter, missing, before);
    forall f | f in contents
      ensures WantedBy(filter, missing, before, f) <==> Matches(f, ParentFilter(filter, missing, before))
    {
      MatchHostPatternIs(filter.glob, filter.host, f.host);
    }
  }
}

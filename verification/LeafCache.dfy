/** The interception authority's cache of leaf certificates, under an arbitrary clock. */
module LeafCache {
  import opened Bytes
  import opened NameOrder

  const SECOND := 1_000_000_000
  const MINUTE := 60 * SECOND
  const HOUR := 60 * MINUTE
  const LEAF_LIFETIME := 24 * HOUR
  const CLOCK_SKEW := HOUR
  const RENEW_MARGIN := 5 * MINUTE
  const MAX_CACHED := 1024

  /** A certificate as clients see it: validity times are whole seconds. */
  datatype Leaf = Leaf(host: string, notBefore: int, notAfter: int)

  datatype Cached = Cached(leaf: Leaf, issuedAt: int, notAfter: int, lastUsed: int)

  type Cache = map<string, Cached>

  /** Encoding a certificate drops fractions of a second. */
  function WholeSecond(t: int): (r: int)
    ensures t - SECOND < r <= t && r % SECOND == 0
    ensures t % SECOND == 0 ==> r == t
  {
    t - t % SECOND
  }

  // --- which entry is evicted ---

  /** Used longer ago, or at the same time and with the smaller name. */
  predicate Older(cache: Cache, a: string, b: string)
    requires a in cache && b in cache
  {
    cache[a].lastUsed < cache[b].lastUsed || (cache[a].lastUsed == cache[b].lastUsed && NameLess(a, b))
  }

  lemma OlderIsTransitive(cache: Cache, a: string, b: string, c: string)
    requires a in cache && b in cache && c in cache && Older(cache, a, b) && Older(cache, b, c)
    ensures Older(cache, a, c)
  {
    if NameLess(a, b) && NameLess(b, c) {
      NamesAreTransitive(a, b, c);
    }
  }

  /** The scan for the oldest entry in iteration order; the empty name means none found yet. */
  function Pick(cache: Cache, order: seq<string>, oldest: string): string
    requires forall n :: n in order ==> n in cache
    requires oldest == "" || oldest in cache
  {
    if order == [] then oldest
    else Pick(cache, order[1..], if oldest == "" || Older(cache, order[0], oldest) then order[0] else oldest)
  }

  /** Visits every entry once. */
  ghost predicate Visits(order: seq<string>, names: set<string>) {
    (forall n :: n in order <==> n in names) && Distinct(order)
  }

  lemma {:induction false} PickFinds(cache: Cache, order: seq<string>, oldest: string)
    requires "" !in order && (forall n :: n in order ==> n in cache) && (oldest == "" || oldest in cache)
    ensures var p := Pick(cache, order, oldest);
            && (p == "" <==> order == [] && oldest == "")
            && (p != "" ==>
                  && (p == oldest || p in order) && p in cache
                  && (forall n :: n in order && n != p ==> Older(cache, p, n))
                  && (oldest != "" && oldest != p ==> Older(cache, p, oldest)))
  {
    if order != [] {
      var first, rest := order[0], order[1..];
      var next := if oldest == "" || Older(cache, first, oldest) then first else oldest;
      PickFinds(cache, rest, next);
      var p := Pick(cache, order, oldest);
      assert order == [first] + rest;
      if oldest != "" {
        NamesAreOrdered(first, oldest);
      }
      if next != p {
        if next == first && first != oldest && oldest != "" {
          OlderIsTransitive(cache, p, first, oldest);
        } else if next == oldest && first != oldest {
          assert Older(cache, oldest, first);
          OlderIsTransitive(cache, p, oldest, first);
        }
      }
    }
  }

  /**
   * Among non-empty names the scan finds the least recently used one, whatever
   * order the entries are visited in.
   */
  lemma PickIgnoresOrder(cache: Cache, order: seq<string>, other: seq<string>)
    requires "" !in cache && cache != map[] && Visits(order, cache.Keys) && Visits(other, cache.Keys)
    ensures var p := Pick(cache, order, "");
            && p in cache && p == Pick(cache, other, "")
            && forall n :: n in cache && n != p ==>
                 && cache[p].lastUsed <= cache[n].lastUsed
                 && (cache[p].lastUsed == cache[n].lastUsed ==> NameLess(p, n))
  {
    var some :| some in cache;
    assert some in order && some in other;
    PickFinds(cache, order, "");
    PickFinds(cache, other, "");
    NamesAreOrdered(Pick(cache, order, ""), Pick(cache, other, ""));
  }

  // --- making room ---

  function Unexpired(cache: Cache, now: int): Cache {
    map n | n in cache && now < cache[n].notAfter :: cache[n]
  }

  /** What is left when an entry is to be added: a full cache first loses what has expired, then its oldest entry. */
  function Purged(cache: Cache, now: int): Cache {
    if |cache| >= MAX_CACHED then Unexpired(cache, now) else cache
  }

  function MadeRoom(cache: Cache, now: int, order: seq<string>): Cache
    requires forall n :: n in order ==> n in Purged(cache, now)
  {
    var purged := Purged(cache, now);
    if |purged| >= MAX_CACHED then
      var oldest := Pick(purged, order, "");
      if oldest != "" then purged - {oldest} else purged
    else purged
  }

  lemma UnexpiredSize(cache: Cache, now: int)
    ensures |Unexpired(cache, now)| <= |cache|
  {
    Subset(Unexpired(cache, now).Keys, cache.Keys);
  }

  lemma {:induction false} Subset(a: set<string>, b: set<string>)
    requires a <= b
    ensures |a| <= |b|
    decreases a
  {
    if a != {} {
      var x :| x in a;
      Subset(a - {x}, b - {x});
    }
  }

  lemma RemovedSize(cache: Cache, name: string)
    requires name in cache
    ensures |cache - {name}| == |cache| - 1
  {
    assert cache.Keys == (cache - {name}).Keys + {name};
  }

  lemma AddedSize(cache: Cache, name: string, entry: Cached)
    ensures |cache[name := entry]| == |cache| + if name in cache then 0 else 1
  {
    assert cache[name := entry].Keys == cache.Keys + {name};
  }

  lemma {:induction false} PickIsVisited(cache: Cache, order: seq<string>, oldest: string)
    requires (forall n :: n in order ==> n in cache) && (oldest == "" || oldest in cache)
    ensures Pick(cache, order, oldest) == "" || Pick(cache, order, oldest) in cache
  {
    if order != [] {
      PickIsVisited(cache, order[1..], if oldest == "" || Older(cache, order[0], oldest) then order[0] else oldest);
    }
  }

  /**
   * Adding an entry keeps the cache within its bound exactly if the host already
   * has an entry left, there is room, or the scan finds an entry with a name.
   */
  lemma BoundKept(cache: Cache, now: int, order: seq<string>, host: string, entry: Cached)
    requires |cache| <= MAX_CACHED && Visits(order, Purged(cache, now).Keys)
    ensures |MadeRoom(cache, now, order)[host := entry]| <= MAX_CACHED <==>
            host in Purged(cache, now) || |Purged(cache, now)| < MAX_CACHED || Pick(Purged(cache, now), order, "") != ""
  {
    UnexpiredSize(cache, now);
    var purged := Purged(cache, now);
    PickIsVisited(purged, order, "");
    if Pick(purged, order, "") != "" {
      RemovedSize(purged, Pick(purged, order, ""));
    }
    AddedSize(MadeRoom(cache, now, order), host, entry);
  }

  /** Without an entry for the empty host the scan always finds one, so the bound is always kept. */
  lemma BoundKeptForNamedHosts(cache: Cache, now: int, order: seq<string>, host: string, entry: Cached)
    requires |cache| <= MAX_CACHED && Visits(order, Purged(cache, now).Keys) && "" !in cache
    ensures |MadeRoom(cache, now, order)[host := entry]| <= MAX_CACHED
  {
    hide Pick;
    var purged := Purged(cache, now);
    BoundKept(cache, now, order, host, entry);
    if |purged| >= MAX_CACHED {
      assert purged.Keys != {};
      var some :| some in purged.Keys;
      assert some in order;
      PickFinds(purged, order, "");
    }
  }

  lemma {:induction false} PickAppended(cache: Cache, order: seq<string>, last: string, oldest: string)
    requires (forall n :: n in order ==> n in cache) && last in cache && (oldest == "" || oldest in cache)
    ensures Pick(cache, order, oldest) == "" || Pick(cache, order, oldest) in cache
    ensures Pick(cache, order + [last], oldest) ==
            var p := Pick(cache, order, oldest);
            if p == "" || Older(cache, last, p) then last else p
  {
    hide Older;
    PickIsVisited(cache, order, oldest);
    if order == [] {
      assert [last][1..] == [] && [] + [last] == [last];
    } else {
      var next := if oldest == "" || Older(cache, order[0], oldest) then order[0] else oldest;
      PickAppended(cache, order[1..], last, next);
      assert (order + [last])[1..] == order[1..] + [last];
    }
  }

  /** The entry for the empty name was used no later than any other. */
  predicate EmptyIsOldest(cache: Cache) {
    "" in cache && forall n :: n in cache ==> cache[""].lastUsed <= cache[n].lastUsed
  }

  lemma OldestOfAll(cache: Cache, order: seq<string>, p: string)
    requires "" in cache && p in cache && forall n :: n in cache ==> n in order || n == ""
    requires forall n :: n in order ==> n in cache
    requires forall n :: n in order && n != p ==> Older(cache, p, n)
    requires Older(cache, "", p)
    ensures EmptyIsOldest(cache)
  {
    forall n | n in cache && n != "" ensures Older(cache, "", n) {
      if n != p {
        OlderIsTransitive(cache, "", p, n);
      }
    }
  }

  lemma OnlyTheEmpty(cache: Cache)
    requires "" in cache && forall n :: n in cache ==> n == ""
    ensures EmptyIsOldest(cache)
  {
  }

  lemma YoungerThanSome(cache: Cache, p: string)
    requires "" in cache && p in cache && p != "" && !Older(cache, "", p)
    ensures !EmptyIsOldest(cache)
  {
  }

  /**
   * The scan finds no entry with a name exactly if the entry for the empty host is
   * the least recently used one and is visited last.
   */
  lemma EmptyHostIsNeverEvicted(cache: Cache, order: seq<string>)
    requires cache != map[] && Visits(order, cache.Keys)
    ensures Pick(cache, order, "") == "" <==> order[|order| - 1] == "" && EmptyIsOldest(cache)
  {
    hide Pick, Older, Distinct, EmptyIsOldest;
    var some :| some in cache;
    assert some in order;
    var init, last := order[..|order| - 1], order[|order| - 1];
    assert order == init + [last];
    AppendDistinct(init, last);
    PickAppended(cache, init, last, "");
    if last == "" {
      PickFinds(cache, init, "");
      var p := Pick(cache, init, "");
      if init == [] {
        OnlyTheEmpty(cache);
      } else if Older(cache, "", p) {
        OldestOfAll(cache, init, p);
      } else {
        YoungerThanSome(cache, p);
      }
    }
  }

  /** Some order visits every entry, with the empty name, if there is one, last. */
  lemma {:induction false} VisitedLast(names: set<string>) returns (order: seq<string>)
    ensures Visits(order, names)
    ensures "" in names ==> order != [] && order[|order| - 1] == ""
    decreases names
  {
    if names == {} {
      order := [];
    } else {
      var last :| last in names;
      if "" in names {
        last := "";
      }
      var init := VisitedLast(names - {last});
      AppendDistinct(init, last);
      order := init + [last];
    }
  }

  /** Some order of visiting the entries lets the cache outgrow its bound. */
  ghost predicate CanOutgrow(cache: Cache, now: int, host: string, entry: Cached) {
    exists order :: Visits(order, Purged(cache, now).Keys) && |MadeRoom(cache, now, order)[host := entry]| > MAX_CACHED
  }

  /**
   * Whatever the order, the bound is kept, unless nothing has expired from a full
   * cache, the host is not in it, and the least recently used entry in it is one
   * for the empty host.
   */
  lemma OutgrowsExactly(cache: Cache, now: int, host: string, entry: Cached)
    requires |cache| <= MAX_CACHED
    ensures CanOutgrow(cache, now, host, entry) <==>
            |Purged(cache, now)| == MAX_CACHED && host !in Purged(cache, now) && EmptyIsOldest(Purged(cache, now))
  {
    hide Pick, EmptyIsOldest, MadeRoom, Distinct;
    var purged := Purged(cache, now);
    UnexpiredSize(cache, now);
    if CanOutgrow(cache, now, host, entry) {
      var order :| Visits(order, purged.Keys) && |MadeRoom(cache, now, order)[host := entry]| > MAX_CACHED;
      BoundKept(cache, now, order, host, entry);
      EmptyHostIsNeverEvicted(purged, order);
    }
    if |purged| == MAX_CACHED && host !in purged && EmptyIsOldest(purged) {
      EmptyIsThere(purged);
      var order := VisitedLast(purged.Keys);
      EmptyHostIsNeverEvicted(purged, order);
      VisitsOnly(order, purged.Keys);
      BoundKept(cache, now, order, host, entry);
      assert |MadeRoom(cache, now, order)[host := entry]| > MAX_CACHED;
    }
  }

  lemma EmptyIsThere(cache: Cache)
    requires EmptyIsOldest(cache)
    ensures "" in cache
  {
  }

  lemma VisitsOnly(order: seq<string>, names: set<string>)
    requires Visits(order, names)
    ensures forall n :: n in order <==> n in names
  {
  }

  // --- issuing and returning leaves ---

  datatype Window = Window(notBefore: int, notAfter: int)

  /** The authority's own validity is in whole seconds. */
  predicate WindowOk(ca: Window) {
    ca.notBefore % SECOND == 0 && ca.notAfter % SECOND == 0
  }

  function LeafEnd(ca: Window, now: int): int {
    Min(now + LEAF_LIFETIME, ca.notAfter)
  }

  /** Backdated for clients whose clocks run behind, but never before the authority itself. */
  function LeafStart(ca: Window, now: int): int {
    Max(now - CLOCK_SKEW, ca.notBefore)
  }

  /** An entry as issuing made it. */
  predicate EntryOk(ca: Window, name: string, c: Cached) {
    && c.leaf == Leaf(name, WholeSecond(LeafStart(ca, c.issuedAt)), WholeSecond(c.notAfter))
    && c.notAfter == LeafEnd(ca, c.issuedAt)
    && c.issuedAt + RENEW_MARGIN < c.notAfter
  }

  /** The names still present, in the order they are visited. */
  function Left(order: seq<string>, cache: Cache): (left: seq<string>)
    ensures forall n :: n in left <==> n in order && n in cache
  {
    if order == [] then []
    else (if order[0] in cache then [order[0]] else []) + Left(order[1..], cache)
  }

  lemma {:induction false} LeftDistinct(order: seq<string>, cache: Cache)
    requires Distinct(order)
    ensures Distinct(Left(order, cache))
  {
    if order != [] {
      assert order == [order[0]] + order[1..];
      PrependDistinct(order[0], order[1..]);
      LeftDistinct(order[1..], cache);
      PrependDistinct(order[0], Left(order[1..], cache));
      assert [] + Left(order[1..], cache) == Left(order[1..], cache);
    }
  }

  lemma LeftVisits(order: seq<string>, cache: Cache, now: int)
    requires Visits(order, cache.Keys)
    ensures Visits(Left(order, Purged(cache, now)), Purged(cache, now).Keys)
  {
    LeftDistinct(order, Purged(cache, now));
  }

  predicate StillFresh(c: Cached, now: int) {
    now >= c.issuedAt && now + RENEW_MARGIN < c.notAfter
  }

  /** A cached leaf that is handed out again. */
  predicate Hit(cache: Cache, host: string, now: int) {
    host in cache && StillFresh(cache[host], now)
  }

  function NewEntry(ca: Window, host: string, now: int): (c: Cached)
    ensures EntryOk(ca, host, c) <==> now + RENEW_MARGIN < LeafEnd(ca, now)
  {
    Cached(Leaf(host, WholeSecond(LeafStart(ca, now)), WholeSecond(LeafEnd(ca, now))), now, LeafEnd(ca, now), now)
  }

  /**
   * A leaf fit to serve: for this host, within the authority's validity, valid now
   * exactly if the authority has started, and running out more than five minutes
   * from now, up to the fraction of a second its encoding drops.
   */
  predicate Serves(ca: Window, leaf: Leaf, host: string, now: int) {
    && leaf.host == host
    && ca.notBefore <= leaf.notBefore && leaf.notAfter <= ca.notAfter
    && (leaf.notBefore <= now <==> ca.notBefore <= now)
    && leaf.notAfter > now + RENEW_MARGIN - SECOND
    && leaf.notAfter % SECOND == 0
  }

  /**
   * The leaf was cut off by the authority's end, which is a whole second, or it has
   * more than the margin left from the second it was issued in.
   */
  predicate FullMargin(ca: Window, c: Cached, now: int) {
    || ca.notAfter <= c.issuedAt + LEAF_LIFETIME
    || now + RENEW_MARGIN < c.issuedAt - c.issuedAt % SECOND + LEAF_LIFETIME
  }

  lemma DayLater(t: int)
    ensures WholeSecond(t + LEAF_LIFETIME) == t - t % SECOND + LEAF_LIFETIME
  {
    assert LEAF_LIFETIME % SECOND == 0;
    assert (t + LEAF_LIFETIME) % SECOND == t % SECOND;
  }

  /** Exactly then does a fresh leaf, as it is encoded, last for more than five minutes. */
  lemma MarginHolds(ca: Window, name: string, c: Cached, now: int)
    requires WindowOk(ca) && EntryOk(ca, name, c) && StillFresh(c, now)
    ensures c.leaf.notAfter > now + RENEW_MARGIN <==> FullMargin(ca, c, now)
  {
    hide WholeSecond;
    DayLater(c.issuedAt);
    if ca.notAfter <= c.issuedAt + LEAF_LIFETIME {
      assert WholeSecond(ca.notAfter) == ca.notAfter;
    }
  }

  /** A leaf just issued always does. */
  lemma NewLeafHasMargin(ca: Window, host: string, now: int)
    requires WindowOk(ca) && now + RENEW_MARGIN < LeafEnd(ca, now)
    ensures NewEntry(ca, host, now).leaf.notAfter > now + RENEW_MARGIN
  {
    var c := NewEntry(ca, host, now);
    MarginHolds(ca, host, c, now);
    hide WholeSecond, EntryOk;
    assert now % SECOND < SECOND;
  }

  lemma {:induction false} SecondsStep(a: int, b: int)
    requires a % SECOND == 0 && a <= b
    ensures a <= WholeSecond(b)
  {
    assert a == SECOND * (a / SECOND);
    assert WholeSecond(b) == SECOND * (b / SECOND);
  }

  /** Whatever was cached serves while it is fresh, even after the clock stepped back and forth. */
  lemma FreshEntryServes(ca: Window, host: string, c: Cached, now: int)
    requires WindowOk(ca) && EntryOk(ca, host, c) && StillFresh(c, now)
    ensures Serves(ca, c.leaf, host, now)
  {
    hide WholeSecond;
    SecondsStep(ca.notBefore, LeafStart(ca, c.issuedAt));
  }

  /** Entries kept by making room are entries that were there. */
  lemma RoomKeepsEntries(cache: Cache, now: int, order: seq<string>)
    requires forall n :: n in order ==> n in Purged(cache, now)
    ensures forall n :: n in MadeRoom(cache, now, order) ==> n in cache && MadeRoom(cache, now, order)[n] == cache[n]
  {
    hide Pick;
  }

  class Authority {
    const ca: Window
    var cache: Cache

    ghost predicate Valid()
      reads this
    {
      WindowOk(ca) && forall n :: n in cache ==> EntryOk(ca, n, cache[n])
    }

    /** As long as no certificate is asked for without a host. */
    ghost predicate Bounded()
      reads this
    {
      |cache| <= MAX_CACHED && "" !in cache
    }

    constructor (ca: Window)
      requires WindowOk(ca)
      ensures Valid() && Bounded() && this.ca == ca && cache == map[]
    {
      this.ca, cache := ca, map[];
    }

    /**
     * A leaf for a host at this time, cached or new; whenever one is returned it
     * serves, and the cache stays within its bound.
     */
    method CertificateFor(host: string, now: int, order: seq<string>) returns (r: Result<Leaf, ()>)
      requires Valid() && Visits(order, cache.Keys)
      modifies this
      ensures Valid()
      ensures old(Bounded()) && host != "" ==> Bounded()
      ensures r.Err? <==> !Hit(old(cache), host, now) && now + RENEW_MARGIN >= LeafEnd(ca, now)
      ensures r.Err? ==> cache == old(cache)
      ensures r.Ok? ==>
                && host in cache && cache[host].leaf == r.value
                && cache[host].lastUsed == now && StillFresh(cache[host], now)
      ensures r.Ok? ==> Serves(ca, r.value, host, now)
      ensures r.Ok? && Hit(old(cache), host, now) ==>
        (r.value.notAfter > now + RENEW_MARGIN <==> FullMargin(ca, old(cache)[host], now))
      ensures r.Ok? && !Hit(old(cache), host, now) ==> r.value.notAfter > now + RENEW_MARGIN
      ensures Hit(old(cache), host, now) <==>
                && host in old(cache) && old(cache)[host].issuedAt <= now
                && old(cache)[host].notAfter - now > 5 * 60 * 1_000_000_000
      ensures Hit(old(cache), host, now) ==> r == Ok(old(cache)[host].leaf)
      ensures Hit(old(cache), host, now) ==> cache == old(cache)[host := old(cache)[host].(lastUsed := now)]
      ensures r.Ok? && !Hit(old(cache), host, now) ==>
        var left := Left(order, Purged(old(cache), now));
        && Visits(left, Purged(old(cache), now).Keys)
        && cache == MadeRoom(old(cache), now, left)[host := NewEntry(ca, host, now)]
    {
      hide Left, MadeRoom, Purged, Serves, WholeSecond, FullMargin;
      LeftVisits(order, cache, now);
      if host in cache && StillFresh(cache[host], now) {
        FreshEntryServes(ca, host, cache[host], now);
        MarginHolds(ca, host, cache[host], now);
        AddedSize(cache, host, cache[host].(lastUsed := now));
        cache := cache[host := cache[host].(lastUsed := now)];
        return Ok(cache[host].leaf);
      }
      var notAfter := now + LEAF_LIFETIME;
      if ca.notAfter < notAfter {
        notAfter := ca.notAfter;
      }
      if now + RENEW_MARGIN >= notAfter {
        return Err(());
      }
      var notBefore := now - CLOCK_SKEW;
      if ca.notBefore > notBefore {
        notBefore := ca.notBefore;
      }
      var leaf := Leaf(host, WholeSecond(notBefore), WholeSecond(notAfter));
      NewLeafHasMargin(ca, host, now);
      MakeRoom(now, order);
      Store(host, Cached(leaf, now, notAfter, now), old(cache), now, order);
      return Ok(leaf);
    }

    /** Adds a new entry to a cache with room for it. */
    method Store(host: string, entry: Cached, ghost before: Cache, ghost now: int, ghost order: seq<string>)
      requires WindowOk(ca) && (forall n :: n in before ==> EntryOk(ca, n, before[n])) && EntryOk(ca, host, entry)
               && StillFresh(entry, now)
      requires Visits(order, before.Keys)
               && (forall n :: n in Left(order, Purged(before, now)) ==> n in Purged(before, now))
      requires cache == MadeRoom(before, now, Left(order, Purged(before, now)))
      modifies this
      ensures Valid() && Serves(ca, entry.leaf, host, now)
      ensures |before| <= MAX_CACHED && "" !in before && host != "" ==> Bounded()
      ensures cache == old(cache)[host := entry]
    {
      hide Left, MadeRoom, Purged, Serves, EntryOk;
      FreshEntryServes(ca, host, entry, now);
      LeftVisits(order, before, now);
      RoomKeepsEntries(before, now, Left(order, Purged(before, now)));
      if |before| <= MAX_CACHED && "" !in before {
        BoundKeptForNamedHosts(before, now, Left(order, Purged(before, now)), host, entry);
      }
      cache := cache[host := entry];
    }

    /** Drops expired entries and then the oldest one, if the cache is still full. */
    method MakeRoom(now: int, order: seq<string>)
      requires Visits(order, cache.Keys)
      modifies this
      ensures forall n :: n in Left(order, Purged(old(cache), now)) ==> n in Purged(old(cache), now)
      ensures cache == MadeRoom(old(cache), now, Left(order, Purged(old(cache), now)))
    {
      hide Left, Pick, Unexpired;
      if |cache| >= MAX_CACHED {
        PurgeExpired(now, order);
      }
      LeftVisits(order, old(cache), now);
      if |cache| >= MAX_CACHED {
        EvictOldest(Left(order, cache));
      }
    }

    method PurgeExpired(now: int, order: seq<string>)
      requires Visits(order, cache.Keys)
      modifies this
      ensures cache == Unexpired(old(cache), now)
    {
      ghost var before := cache;
      for i := 0 to |order|
        invariant forall n :: n in cache <==> n in before && (n in order[..i] ==> now < before[n].notAfter)
        invariant forall n :: n in cache ==> cache[n] == before[n]
      {
        TakeOne(order, i);
        if order[i] in cache && now >= cache[order[i]].notAfter {
          cache := cache - {order[i]};
        }
      }
      TakeAll(order);
    }

    method EvictOldest(order: seq<string>)
      requires forall n :: n in order ==> n in cache
      modifies this
      ensures var oldest := Pick(old(cache), order, "");
              cache == if oldest != "" then old(cache) - {oldest} else old(cache)
    {
      hide Older;
      var oldest := "";
      assert order[0..] == order;
      for i := 0 to |order|
        invariant cache == old(cache)
        invariant oldest == "" || oldest in cache
        invariant Pick(cache, order, "") == Pick(cache, order[i..], oldest)
      {
        assert order[i..][1..] == order[i + 1..];
        if oldest == "" || Older(cache, order[i], oldest) {
          oldest := order[i];
        }
      }
      if oldest != "" {
        cache := cache - {oldest};
      }
    }
  }

  /**
   * A leaf issued within a second is encoded up to a second short, so it can be handed out
   * with less than five minutes left.
   */
  lemma MarginCanFallShort()
    ensures var ca := Window(0, 1000 * HOUR);
            var issued, now := SECOND / 2, LEAF_LIFETIME - RENEW_MARGIN + SECOND / 5;
            var c := Cached(Leaf("h", WholeSecond(LeafStart(ca, issued)), WholeSecond(LeafEnd(ca, issued))), issued,
                            LeafEnd(ca, issued), issued);
            EntryOk(ca, "h", c) && StillFresh(c, now) && c.leaf.notAfter < now + RENEW_MARGIN
  {
  }
}

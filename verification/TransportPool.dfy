/**
 * The cache of upstream transports: reference-counted, bounded, least recently
 * used out first. An evicted transport drains until its last user releases it.
 * Every method body is one critical section or one call outside the lock, so
 * whatever their order, threads only ever see the states described here.
 */
module TransportPool {
  import opened Bytes
  import HostPattern

  const MAX_CACHED := 64

  datatype Key = Key(scheme: string, host: string, ip: string, port: int)

  /** What a transport is shared by; the address is in its unmapped form. */
  function KeyFor(scheme: string, host: string, ip: string, port: int): Key {
    Key(HostPattern.ToLower(scheme), HostPattern.ToLower(HostPattern.TrimDot(host)), ip, port)
  }

  /** Two destinations share a transport exactly if they differ in letter case and one dot after the host at most. */
  lemma SameKey(scheme: string, host: string, ip: string, port: int, scheme': string, host': string, ip': string,
                port': int)
    ensures KeyFor(scheme, host, ip, port) == KeyFor(scheme', host', ip', port') <==>
            ip == ip' && port == port' && SameText(scheme, scheme')
            && SameText(HostPattern.TrimDot(host), HostPattern.TrimDot(host'))
  {
    HostPattern.ToLowerIs(scheme, scheme');
    HostPattern.ToLowerIs(HostPattern.TrimDot(host), HostPattern.TrimDot(host'));
  }

  predicate SameText(a: string, b: string) {
    |a| == |b| && forall i :: 0 <= i < |a| ==> HostPattern.SameUpToCase(a[i], b[i])
  }

  class Transport {
    const key: Key
    var lastUsed: int
    var active: nat
    var draining: bool
    /** Whether idle connections may be kept open. */
    var idle: bool

    constructor (key: Key, now: int)
      ensures this.key == key && lastUsed == now && active == 0 && !draining && idle
    {
      this.key, lastUsed, active, draining, idle := key, now, 0, false, true;
    }

    method CloseIdleConnections()
      modifies this`idle
      ensures !idle
    {
      idle := false;
    }
  }

  /** Outstanding acquisitions by number: each is the transport it holds. */
  type Leases = map<nat, Transport>

  ghost function Holders(leases: Leases, t: Transport): set<nat> {
    set l | l in leases && leases[l] == t
  }

  lemma LeaseTaken(leases: Leases, lease: nat, t: Transport, u: Transport)
    requires lease !in leases
    ensures |Holders(leases[lease := t], u)| == |Holders(leases, u)| + if u == t then 1 else 0
  {
    if u == t {
      assert Holders(leases[lease := t], u) == Holders(leases, u) + {lease};
    } else {
      assert Holders(leases[lease := t], u) == Holders(leases, u);
    }
  }

  lemma LeaseReturned(leases: Leases, lease: nat, u: Transport)
    requires lease in leases
    ensures |Holders(leases, u)| == |Holders(leases - {lease}, u)| + if u == leases[lease] then 1 else 0
  {
    if u == leases[lease] {
      assert Holders(leases, u) == Holders(leases - {lease}, u) + {lease};
    } else {
      assert Holders(leases, u) == Holders(leases - {lease}, u);
    }
  }

  lemma Appended<T>(s: seq<T>, x: T)
    requires Distinct(s) && x !in s
    ensures Distinct(s + [x]) && forall y :: y in s + [x] <==> y in s || y == x
  {
  }

  lemma Inserted<K, V>(m: map<K, V>, k: K, v: V)
    requires k !in m
    ensures |m[k := v]| == |m| + 1 && m[k := v] - {k} == m
  {
    assert m[k := v].Keys == m.Keys + {k};
  }

  lemma Removed<K, V>(m: map<K, V>, k: K)
    requires k in m
    ensures |m - {k}| == |m| - 1
  {
    assert m.Keys == (m - {k}).Keys + {k};
  }

  class Pool {
    var transports: map<Key, Transport>
    var draining: seq<Transport>
    var closed: bool
    /** Every transport ever made, and the acquisitions not yet released. */
    ghost var all: set<Transport>
    ghost var leases: Leases
    ghost var issued: nat
    /** The transports whose idle connections some thread is about to close, now that it has left the lock. */
    ghost var closing: set<Transport>

    /** The count of a transport is the number of acquisitions outstanding on it. */
    ghost predicate Counted()
      reads this`leases, this`issued, this`all, all`active
    {
      && (forall l :: l in leases ==> l < issued && leases[l] in all)
      && (forall t :: t in all ==> t.active == |Holders(leases, t)|)
    }

    /** The cache is bounded and holds, each under its own key, exactly the transports that are not draining. */
    ghost predicate Cached()
      reads this`transports, this`closed, this`all, all`draining
    {
      && |transports| <= MAX_CACHED
      && (forall k :: k in transports ==> transports[k] in all && transports[k].key == k && !transports[k].draining)
      && (forall t :: t in all && !t.draining && !closed ==> t.key in transports && transports[t.key] == t)
    }

    /** Until the handler closes, exactly the evicted transports still in use are listed, each once. */
    ghost predicate Drained()
      reads this`transports, this`draining, this`closed, this`all, all`draining, all`active
    {
      && Distinct(draining)
      && (forall t :: t in draining ==> t in all)
      && (forall t :: t in all && !closed ==> (t in draining <==> t.draining && t.active > 0))
      && (closed ==> draining == [] && transports == map[])
    }

    /** No connection stays idle on a transport that will not be used again, unless someone is about to close it. */
    ghost predicate NoLeak()
      reads this`closed, this`all, this`closing, all`draining, all`active, all`idle
    {
      && closing <= all
      && forall t :: t in all && t.active == 0 && (t.draining || closed) ==> !t.idle || t in closing
    }

    ghost predicate Valid()
      reads this, all
    {
      Counted() && Cached() && Drained() && NoLeak()
    }

    constructor ()
      ensures Valid() && !closed && transports == map[] && leases == map[] && all == {} && closing == {}
    {
      transports, draining, closed := map[], [], false;
      all, leases, issued, closing := {}, map[], 0, {};
    }

    /** The entry unused for longest; some entry if several are. */
    method Oldest() returns (oldestKey: Key)
      requires transports != map[]
      ensures oldestKey in transports
      ensures forall k :: k in transports ==> transports[oldestKey].lastUsed <= transports[k].lastUsed
    {
      var keys := transports.Keys;
      oldestKey :| oldestKey in keys;
      keys := keys - {oldestKey};
      while keys != {}
        invariant keys <= transports.Keys && oldestKey in transports
        invariant forall k :: k in transports && k !in keys ==> transports[oldestKey].lastUsed <= transports[k].lastUsed
        decreases keys
      {
        var key :| key in keys;
        if transports[key].lastUsed < transports[oldestKey].lastUsed {
          oldestKey := key;
        }
        keys := keys - {key};
      }
    }

    /** Takes the least recently used entry out; it drains if it is in use. */
    method EvictOldest() returns (oldestKey: Key)
      requires Valid() && !closed && transports != map[]
      modifies this`transports, this`draining, all`draining, all`idle
      ensures Valid()
      ensures oldestKey in old(transports) && old(transports)[oldestKey].draining
      ensures forall k :: k in old(transports) ==> old(transports[oldestKey].lastUsed) <= old(transports[k].lastUsed)
      ensures transports == old(transports) - {oldestKey} && |transports| == |old(transports)| - 1
    {
      hide Counted, Cached, Drained, NoLeak;
      AllInAll();
      oldestKey := Oldest();
      Evict(oldestKey);
    }

    lemma AllInAll()
      requires Cached()
      ensures forall k :: k in transports ==> transports[k] in all
    {
    }

    /** What taking the entry for key out of the cache changes. */
    twostate predicate TakenOut(key: Key)
      reads this, all
    {
      && closed == old(closed) && all == old(all) && closing == old(closing) && key in old(transports)
      && transports == old(transports) - {key}
      && forall t :: t in all ==>
        && t.active == old(t.active)
        && t.draining == (old(t.draining) || t == old(transports)[key])
        && t.idle == (old(t.idle) && t != old(transports)[key])
    }

    twostate lemma TakenOutCached(key: Key)
      requires TakenOut(key) && old(Cached()) && !closed
      ensures Cached()
    {
      Removed(old(transports), key);
    }

    twostate lemma TakenOutDrained(key: Key)
      requires TakenOut(key) && old(Cached()) && old(Drained()) && !closed
      requires draining == old(draining) + if old(transports)[key].active > 0 then [old(transports)[key]] else []
      ensures Drained()
    {
      var oldest := old(transports)[key];
      assert oldest !in old(draining);
      Appended(old(draining), oldest);
    }

    twostate lemma TakenOutNoLeak(key: Key)
      requires TakenOut(key) && old(NoLeak())
      ensures NoLeak()
    {
    }

    method Evict(key: Key)
      requires Valid() && !closed && key in transports
      modifies this`transports, this`draining, {transports[key]}`draining, {transports[key]}`idle
      ensures Valid() && old(transports[key]).draining
      ensures transports == old(transports) - {key} && |transports| == |old(transports)| - 1
    {
      hide Counted, Cached, Drained, NoLeak;
      InAll(key);
      var oldest := transports[key];
      Removed(transports, key);
      transports := transports - {key};
      oldest.draining := true;
      oldest.CloseIdleConnections();
      if oldest.active > 0 {
        draining := draining + [oldest];
      }
      assert draining == old(draining) + if oldest.active > 0 then [oldest] else [];
      assert TakenOut(key);
      hide TakenOut;
      TakenOutCached(key);
      TakenOutDrained(key);
      TakenOutNoLeak(key);
    }

    lemma InAll(key: Key)
      requires Cached() && key in transports
      ensures transports[key] in all
    {
    }

    /**
     * What asking for a key does to the cache: its own transport is used if it has
     * one; otherwise a new one joins, and only if the cache was full does one entry
     * leave it, one that had not been used for longest.
     */
    twostate predicate Asked(key: Key, now: int)
      reads this, all
    {
      && key in transports && transports[key] in all && transports[key].lastUsed == now
      && (forall t :: t in old(all) && t in all && t != transports[key] ==> t.lastUsed == old(t.lastUsed))
      && (key in old(transports) ==> transports == old(transports))
      && (key !in old(transports) ==> transports[key] !in old(all))
      && (key !in old(transports) && |old(transports)| < MAX_CACHED ==>
            transports == old(transports)[key := transports[key]])
      && (key !in old(transports) && |old(transports)| >= MAX_CACHED ==>
            exists gone :: gone in old(transports) && LeastRecent(gone) &&
                           transports == (old(transports) - {gone})[key := transports[key]])
    }

    /** The entry had been unused for at least as long as every other one. */
    twostate predicate LeastRecent(gone: Key)
      requires gone in old(transports)
    {
      forall k :: k in old(transports) ==> old(transports[gone].lastUsed) <= old(transports[k].lastUsed)
    }

    /** The transport for a key, made and cached if there is none; null once the handler is closed. */
    method Lookup(key: Key, now: int) returns (t: Transport?)
      requires Valid()
      modifies this`transports, this`draining, this`all, all`lastUsed, all`draining, all`idle
      ensures Valid() && fresh(all - old(all)) && old(all) <= all
      ensures t == null <==> closed
      ensures t == null ==> transports == old(transports)
      ensures t != null ==> Asked(key, now) && t == transports[key]
    {
      hide Counted, Drained, NoLeak;
      if closed {
        return null;
      }
      if key in transports {
        t := transports[key];
        t.lastUsed := now;
        return;
      }
      if |transports| >= MAX_CACHED {
        var gone := EvictOldest();
        t := Insert(key, now);
        assert LeastRecent(gone);
        return;
      }
      t := Insert(key, now);
    }

    /** Makes a transport nobody uses yet and caches it. */
    method Insert(key: Key, now: int) returns (t: Transport)
      requires Valid() && !closed && key !in transports && |transports| < MAX_CACHED
      modifies this`transports, this`all
      ensures t !in old(all)
      ensures Valid() && fresh(t) && all == old(all) + {t}
      ensures transports == old(transports)[key := t] && t.lastUsed == now
    {
      hide Holders, Distinct;
      t := new Transport(key, now);
      Unheld(t);
      Inserted(transports, key, t);
      transports := transports[key := t];
      all := all + {t};
    }

    lemma Unheld(t: Transport)
      requires Counted() && t !in all
      ensures |Holders(leases, t)| == 0
    {
      assert Holders(leases, t) == {};
    }

    /** Takes out an acquisition of the transport pinned to this destination. */
    method Acquire(scheme: string, host: string, ip: string, port: int, now: int)
      returns (t: Transport?, ghost lease: nat)
      requires Valid()
      modifies this, all
      ensures Valid() && fresh(all - old(all)) && old(all) <= all
      ensures closed == old(closed) && closing == old(closing) && (t == null <==> closed)
      ensures t == null ==> leases == old(leases) && issued == old(issued) && transports == old(transports)
      ensures t != null ==> Asked(KeyFor(scheme, host, ip, port), now)
      ensures t != null ==>
                KeyFor(scheme, host, ip, port) in transports && t == transports[KeyFor(scheme, host, ip, port)]
      ensures t != null ==>
                && lease !in old(leases) && lease == old(issued) && issued == lease + 1
                && leases == old(leases)[lease := t]
    {
      hide Counted, Drained, NoLeak, KeyFor;
      t := Lookup(KeyFor(scheme, host, ip, port), now);
      lease := issued;
      if t != null {
        NotDraining(KeyFor(scheme, host, ip, port));
        Hold(t);
      }
    }

    lemma NotDraining(key: Key)
      requires Cached() && key in transports
      ensures !transports[key].draining
    {
    }

    /**
     * A transport in use may leave connections idle between requests, also while it drains or
     * after the handler closed.
     */
    method KeepIdle(t: Transport, ghost lease: nat)
      requires Valid() && lease in leases && leases[lease] == t
      modifies t`idle
      ensures Valid() && t.idle
    {
      HeldIsUsed(t, lease);
      t.idle := true;
    }

    /** Counts one more user of a transport that is not draining. */
    method Hold(t: Transport)
      requires Valid() && t in all && !t.draining && !closed
      modifies this`leases, this`issued, t`active
      ensures Valid() && old(issued) !in old(leases)
      ensures issued == old(issued) + 1 && leases == old(leases)[old(issued) := t]
    {
      hide Cached, Holders;
      forall u | u in all ensures |Holders(leases[issued := t], u)| == |Holders(leases, u)| + if u == t then 1 else 0 {
        LeaseTaken(leases, issued, t, u);
      }
      leases := leases[issued := t];
      issued := issued + 1;
      t.active := t.active + 1;
    }

    /** What giving back one acquisition of t changes, apart from the list of draining transports. */
    twostate predicate GivenBack(lease: nat)
      reads this, all
    {
      && closed == old(closed) && all == old(all) && issued == old(issued)
      && lease in old(leases) && leases == old(leases) - {lease}
      && var t := old(leases)[lease];
      && t in all && (forall u :: u in all ==>
        && u.active == old(u.active) - (if u == t then 1 else 0)
        && u.draining == old(u.draining)
        && u.idle == old(u.idle) && u.lastUsed == old(u.lastUsed))
      && closing == old(closing) + if MustClose(t) then {t} else {}
    }

    /** The transport is out of the cache for good: its idle connections are to be closed. */
    predicate MustClose(t: Transport)
      reads this`closed, t`draining, t`active
    {
      closed || (t.draining && t.active == 0)
    }

    twostate lemma GivenBackCounted(lease: nat)
      requires GivenBack(lease) && old(Counted())
      ensures Counted()
    {
      hide Holders;
      forall u | u in all ensures u.active == |Holders(leases, u)| {
        LeaseReturned(old(leases), lease, u);
      }
    }

    twostate lemma GivenBackDrained(lease: nat)
      requires GivenBack(lease) && old(Drained()) && transports == old(transports) && Distinct(draining)
      requires var t := old(leases)[lease];
               forall u :: u in draining <==> u in old(draining) && !(u == t && t.draining && t.active == 0)
      requires |draining| <= |old(draining)|
      ensures Drained()
    {
    }

    twostate lemma GivenBackNoLeak(lease: nat)
      requires GivenBack(lease) && old(NoLeak())
      ensures NoLeak()
    {
    }

    /** An acquired transport is one of the pool's, and in use. */
    lemma HeldIsUsed(t: Transport, lease: nat)
      requires Counted() && lease in leases && leases[lease] == t
      ensures t in all && t.active > 0
    {
      assert lease in Holders(leases, t);
    }

    lemma DrainingInUse()
      requires Drained()
      ensures draining != [] ==> draining[0] in all && draining[0].active > 0
    {
      if draining != [] {
        assert draining[0] in draining;
      }
    }

    /** With no acquisition outstanding nothing is in use or draining, and nothing out of the cache is idle. */
    lemma UnusedPool()
      requires Valid() && leases == map[]
      ensures draining == []
      ensures forall t :: t in all ==> t.active == 0 && (t.draining || closed ==> !t.idle || t in closing)
    {
      hide Cached, Drained;
      forall t | t in all ensures t.active == 0 {
        assert Holders(leases, t) == {};
      }
      DrainingInUse();
    }

    lemma DrainingListed()
      requires Drained()
      ensures Distinct(draining)
    {
    }

    /** Gives one acquisition back; the caller closes the idle connections if told to. */
    method Release(t: Transport, ghost lease: nat) returns (closeIdle: bool)
      requires Valid() && lease in leases && leases[lease] == t
      modifies this`draining, this`leases, this`closing, all
      ensures Valid() && GivenBack(lease) && closeIdle == MustClose(t)
    {
      hide Counted, Cached, Drained, NoLeak, Distinct, GivenBack;
      HeldIsUsed(t, lease);
      DrainingListed();
      closeIdle := GiveBack(t, lease);
      GivenBackCounted(lease);
      GivenBackDrained(lease);
      GivenBackNoLeak(lease);
    }

    /** Counts one user less; a transport that drains stops doing so after its last user. */
    method GiveBack(t: Transport, ghost lease: nat) returns (closeIdle: bool)
      requires lease in leases && leases[lease] == t && t in all && t.active > 0 && Distinct(draining)
      modifies this`draining, this`leases, this`closing, t`active
      ensures GivenBack(lease) && closeIdle == MustClose(t)
      ensures Distinct(draining) && |draining| <= |old(draining)|
      ensures forall u :: u in draining <==> u in old(draining) && !(u == t && t.draining && t.active == 0)
    {
      leases := leases - {lease};
      if t.active > 0 {
        t.active := t.active - 1;
      }
      closeIdle := closed;
      if t.draining && t.active == 0 {
        closeIdle := true;
        RemoveDraining(t);
      }
      if closeIdle {
        closing := closing + {t};
      }
    }

    /** Outside the lock: the idle connections of a transport are closed. */
    method CloseIdle(t: Transport)
      requires Valid() && t in all
      modifies this`closing, t`idle
      ensures Valid() && !t.idle && closing == old(closing) - {t}
    {
      hide Counted, Cached, Drained;
      t.CloseIdleConnections();
      closing := closing - {t};
    }

    /** Removes the first occurrence of target, which is the only one. */
    method RemoveDraining(target: Transport)
      requires Distinct(draining)
      modifies this`draining
      ensures Distinct(draining)
      ensures forall t :: t in draining <==> t in old(draining) && t != target
      ensures |draining| <= |old(draining)|
    {
      for i := 0 to |draining|
        invariant draining == old(draining)
        invariant target !in draining[..i]
      {
        if draining[i] == target {
          draining := draining[..i] + draining[i + 1..];
          return;
        }
      }
      assert draining[..|draining|] == draining;
    }

    /**
     * Closing the handler empties the cache; the caller closes the idle connections of all
     * that was in it or draining.
     */
    method Close() returns (toClose: seq<Transport>)
      requires Valid()
      modifies this`transports, this`draining, this`closed, this`closing
      ensures Valid() && closed && transports == map[] && draining == []
      ensures forall t :: t in toClose <==> t in old(transports).Values || t in old(draining)
      ensures closing == old(closing) + (set t | t in toClose)
      ensures forall t :: t in all && t.active == 0 && t.idle ==> t in closing
    {
      hide Counted, Holders;
      toClose := Collect();
      closed, transports, draining := true, map[], [];
      closing := closing + (set t | t in toClose);
    }

    /** Every transport cached or draining. */
    method Collect() returns (found: seq<Transport>)
      requires Valid()
      ensures forall t :: t in found <==> t in transports.Values || t in draining
      ensures forall t :: t in found ==> t in all
      ensures forall k :: k in transports ==> transports[k] in found
    {
      hide Counted, NoLeak, Holders, Distinct;
      found := [];
      var keys := transports.Keys;
      while keys != {}
        invariant keys <= transports.Keys
        invariant forall t :: t in found ==> t in transports.Values
        invariant forall k :: k in transports && k !in keys ==> transports[k] in found
        decreases keys
      {
        var key :| key in keys;
        found := found + [transports[key]];
        keys := keys - {key};
      }
      found := found + draining;
    }
  }

  /** How a round trip through an acquired transport ends. */
  datatype RoundTripEnd = Failed | WithoutBody | WithBody

  /** A response body that releases its transport once, at the first read error or close. */
  class TrackedBody {
    const pool: Pool
    const transport: Transport
    ghost const lease: nat
    var released: bool

    /** The body's acquisition is outstanding exactly until the body has released it. */
    ghost predicate Tracks()
      reads this, pool
    {
      && lease < pool.issued
      && (!released ==> lease in pool.leases && pool.leases[lease] == transport)
      && (released ==> lease !in pool.leases)
    }

    constructor (pool: Pool, transport: Transport, ghost lease: nat)
      requires lease in pool.leases && pool.leases[lease] == transport && lease < pool.issued
      ensures this.pool == pool && this.transport == transport && this.lease == lease && !released && Tracks()
    {
      this.pool, this.transport, this.lease, released := pool, transport, lease, false;
    }

    /** Releases the transport the first time; the caller closes idle connections if told to. */
    method ReleaseOnce() returns (closeIdle: bool)
      requires pool.Valid() && Tracks()
      modifies this`released, pool`draining, pool`leases, pool`closing, pool.all
      ensures pool.Valid() && Tracks() && released
      ensures pool.leases == old(pool.leases) - {lease}
      ensures pool.closing == old(pool.closing) + if closeIdle then {transport} else {}
      ensures closeIdle <==> !old(released) && pool.MustClose(transport)
    {
      closeIdle := false;
      if !released {
        released := true;
        closeIdle := pool.Release(transport, lease);
      }
    }

    /** A read keeps the transport unless it reports an error or the end. */
    method Read(error: bool) returns (closeIdle: bool)
      requires pool.Valid() && Tracks()
      modifies this`released, pool`draining, pool`leases, pool`closing, pool.all
      ensures pool.Valid() && Tracks()
      ensures released <==> old(released) || error
      ensures closeIdle <==> error && !old(released) && pool.MustClose(transport)
      ensures pool.leases == if error then old(pool.leases) - {lease} else old(pool.leases)
      ensures pool.closing == old(pool.closing) + if closeIdle then {transport} else {}
    {
      closeIdle := false;
      if error {
        closeIdle := ReleaseOnce();
      }
    }

    method Close() returns (closeIdle: bool)
      requires pool.Valid() && Tracks()
      modifies this`released, pool`draining, pool`leases, pool`closing, pool.all
      ensures pool.Valid() && Tracks() && released
      ensures pool.leases == old(pool.leases) - {lease}
      ensures pool.closing == old(pool.closing) + if closeIdle then {transport} else {}
      ensures closeIdle <==> !old(released) && pool.MustClose(transport)
    {
      closeIdle := ReleaseOnce();
    }
  }

  /** After the round trip: the acquisition is released at once, or handed to exactly one body. */
  method FinishRoundTrip(pool: Pool, transport: Transport, ghost lease: nat, end: RoundTripEnd)
    returns (body: TrackedBody?, closeIdle: bool)
    requires pool.Valid() && lease in pool.leases && pool.leases[lease] == transport
    modifies pool`draining, pool`leases, pool`closing, pool.all
    ensures pool.Valid()
    ensures body == null <==> !end.WithBody?
    ensures body == null ==> pool.leases == old(pool.leases) - {lease}
    ensures pool.closing == old(pool.closing) + if closeIdle then {transport} else {}
    ensures closeIdle <==> body == null && pool.MustClose(transport)
    ensures body != null ==> fresh(body) && body.pool == pool && body.transport == transport && body.lease == lease
    ensures body != null ==> body.Tracks() && !body.released && pool.leases == old(pool.leases)
  {
    if !end.WithBody? {
      closeIdle := pool.Release(transport, lease);
      return null, closeIdle;
    }
    body := new TrackedBody(pool, transport, lease);
    return body, false;
  }
}

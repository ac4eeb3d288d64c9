/**
 * All users of the transport cache together: threads with a round trip in flight
 * and response bodies not yet read to their end. Whatever they do in whatever
 * order, every acquisition is given back exactly once.
 */
module TransportTraffic {
  import opened TransportPool

  /** Who has an acquisition: a thread with a round trip in flight, or the body with this number. */
  datatype Owner = Thread(thread: nat) | Body(body: nat)

  /** A body: its acquisition, the transport it keeps alive and whether it has released it. */
  datatype Entry = Entry(lease: nat, transport: Transport, released: bool)

  /**
   * The books: the acquisitions outstanding and how many there ever were, whether the
   * handler has closed, the acquisitions of the threads in flight with their
   * transports, every body handed out, and who has what.
   */
  datatype Books = Books(
    leases: Leases,
    issued: nat,
    closed: bool,
    flying: map<nat, nat>,
    carries: map<nat, Transport>,
    bodies: seq<Entry>,
    owner: map<nat, Owner>)

  /** Exactly the outstanding acquisitions have an owner, who is in flight with it or has not released it. */
  ghost predicate Owned(b: Books) {
    && b.owner.Keys == b.leases.Keys
    && forall l :: l in b.owner ==>
         match b.owner[l]
         case Thread(th) => th in b.flying && b.flying[th] == l
         case Body(k) => k < |b.bodies| && b.bodies[k].lease == l && !b.bodies[k].released
  }

  ghost predicate ThreadOk(b: Books, th: nat)
    requires th in b.flying
  {
    var l := b.flying[th];
    && l in b.owner && b.owner[l] == Thread(th)
    && l in b.leases && th in b.carries && b.leases[l] == b.carries[th]
  }

  ghost predicate BodyOk(b: Books, k: nat)
    requires k < |b.bodies|
  {
    var e := b.bodies[k];
    && e.lease < b.issued
    && (e.released ==> e.lease !in b.leases)
    && (!e.released ==>
          && e.lease in b.owner && b.owner[e.lease] == Body(k)
          && e.lease in b.leases && b.leases[e.lease] == e.transport)
  }

  /** No two bodies ever had the same acquisition. */
  ghost predicate Apart(b: Books) {
    forall i, j :: 0 <= i < j < |b.bodies| ==> b.bodies[i].lease != b.bodies[j].lease
  }

  ghost predicate Balanced(b: Books) {
    && Owned(b) && Apart(b)
    && b.flying.Keys == b.carries.Keys
    && (forall th :: th in b.flying ==> ThreadOk(b, th))
    && (forall k :: 0 <= k < |b.bodies| ==> BodyOk(b, k))
    && (forall l :: l in b.leases ==> l < b.issued)
  }

  // --- what the steps change ---

  ghost function Taken(b: Books, th: nat, t: Transport): Books {
    b.(leases := b.leases[b.issued := t], issued := b.issued + 1, flying := b.flying[th := b.issued],
       carries := b.carries[th := t], owner := b.owner[b.issued := Thread(th)])
  }

  ghost function Landed(b: Books, th: nat): Books
    requires th in b.flying
  {
    b.(leases := b.leases - {b.flying[th]}, flying := b.flying - {th}, carries := b.carries - {th},
       owner := b.owner - {b.flying[th]})
  }

  ghost function Passed(b: Books, th: nat): Books
    requires th in b.flying && th in b.carries
  {
    b.(flying := b.flying - {th}, carries := b.carries - {th}, owner := b.owner[b.flying[th] := Body(|b.bodies|)],
       bodies := b.bodies + [Entry(b.flying[th], b.carries[th], false)])
  }

  ghost function Dropped(b: Books, k: nat): Books
    requires k < |b.bodies|
  {
    var e := b.bodies[k];
    b.(leases := b.leases - {e.lease}, owner := b.owner - {e.lease}, bodies := b.bodies[k := e.(released := true)])
  }

  lemma TakenBalances(b: Books, th: nat, t: Transport)
    requires Balanced(b) && th !in b.flying
    ensures Balanced(Taken(b, th, t))
  {
    var after := Taken(b, th, t);
    forall u | u in after.flying ensures ThreadOk(after, u) {
      assert u != th ==> ThreadOk(b, u);
    }
    forall k | 0 <= k < |after.bodies| ensures BodyOk(after, k) {
      assert BodyOk(b, k);
    }
  }

  lemma LandedBalances(b: Books, th: nat)
    requires Balanced(b) && th in b.flying
    ensures Balanced(Landed(b, th))
  {
    var after := Landed(b, th);
    assert ThreadOk(b, th);
    forall u | u in after.flying ensures ThreadOk(after, u) {
      assert ThreadOk(b, u);
    }
    forall k | 0 <= k < |after.bodies| ensures BodyOk(after, k) {
      assert BodyOk(b, k);
    }
  }

  lemma PassedBalances(b: Books, th: nat)
    requires Balanced(b) && th in b.flying
    ensures th in b.carries && Balanced(Passed(b, th))
  {
    var after := Passed(b, th);
    assert ThreadOk(b, th);
    forall u | u in after.flying ensures ThreadOk(after, u) {
      assert ThreadOk(b, u);
    }
    forall k | 0 <= k < |after.bodies| ensures BodyOk(after, k) {
      assert k < |b.bodies| ==> BodyOk(b, k);
    }
    forall i | 0 <= i < |b.bodies| ensures b.bodies[i].lease != b.flying[th] {
      assert BodyOk(b, i);
    }
  }

  lemma DroppedBalances(b: Books, k: nat)
    requires Balanced(b) && k < |b.bodies|
    ensures Balanced(Dropped(b, k))
  {
    var after := Dropped(b, k);
    assert BodyOk(b, k);
    forall u | u in after.flying ensures ThreadOk(after, u) {
      assert ThreadOk(b, u);
    }
    forall i | 0 <= i < |after.bodies| ensures BodyOk(after, i) {
      assert BodyOk(b, i);
    }
  }

  /** One step of one of the users, or of the handler's shutdown. */
  datatype Action =
    | Begin(thread: nat, scheme: string, host: string, ip: string, port: int, now: int)
    | KeepIdle(thread: nat)
    | End(thread: nat, how: RoundTripEnd)
    | KeepIdleFor(body: nat)
    | Read(body: nat, error: bool)
    | CloseBody(body: nat)
    | CloseHandler
    | CloseIdle(which: nat)

  /** What a step does to the books, if it is possible at this point. */
  ghost predicate BooksStep(b: Books, action: Action, after: Books) {
    match action
    case Begin(th, _, _, _, _, _) =>
      if th in b.flying || b.closed then after == b
      else th in after.carries && after == Taken(b, th, after.carries[th])
    case End(th, how) =>
      if th !in b.flying || th !in b.carries then after == b
      else after == if how.WithBody? then Passed(b, th) else Landed(b, th)
    case Read(k, error) => after == if k < |b.bodies| && error then Dropped(b, k) else b
    case CloseBody(k) => after == if k < |b.bodies| then Dropped(b, k) else b
    case CloseHandler => after == b.(closed := true)
    case _ => after == b
  }

  /** When nobody is in flight and every body has released its acquisition, none is outstanding. */
  lemma NothingOwed(b: Books)
    requires Balanced(b) && b.flying == map[] && forall k :: 0 <= k < |b.bodies| ==> b.bodies[k].released
    ensures b.leases == map[]
  {
    assert b.owner.Keys == {};
    assert b.leases.Keys == {};
  }

  // --- runs of the books ---

  ghost predicate IsTrace(actions: seq<Action>, trace: seq<Books>) {
    |trace| == |actions| + 1 && forall i :: 0 <= i < |actions| ==> BooksStep(trace[i], actions[i], trace[i + 1])
  }

  /**
   * One step keeps the books balanced. At most one acquisition is added, under the
   * next number, and at most one given back, by its owner; none comes back.
   */
  lemma StepBalances(b: Books, action: Action, after: Books)
    requires Balanced(b) && BooksStep(b, action, after)
    ensures Balanced(after)
    ensures b.issued <= after.issued <= b.issued + 1
    ensures after.issued > b.issued ==> action.Begin? && b.issued in after.leases
    ensures forall l :: l in after.leases ==> l in b.leases || (l == b.issued && l < after.issued)
    ensures forall l :: l in b.leases && l !in after.leases ==> GivesBack(b, action, l)
  {
    hide Balanced;
    match action
    case Begin(th, _, _, _, _, _) =>
      if after != b {
        KeysAgree(b);
        TakenBalances(b, th, after.carries[th]);
      }
    case End(th, how) =>
      if th in b.flying {
        LandedBalances(b, th);
        PassedBalances(b, th);
      }
    case Read(k, error) =>
      if k < |b.bodies| {
        DroppedBalances(b, k);
      }
    case CloseBody(k) =>
      if k < |b.bodies| {
        DroppedBalances(b, k);
      }
    case CloseHandler =>
      ClosedBalances(b);
    case _ =>
  }

  lemma ClosedBalances(b: Books)
    requires Balanced(b)
    ensures Balanced(b.(closed := true))
  {
    var after := b.(closed := true);
    forall u | u in after.flying ensures ThreadOk(after, u) {
      assert ThreadOk(b, u);
    }
    forall k | 0 <= k < |after.bodies| ensures BodyOk(after, k) {
      assert BodyOk(b, k);
    }
  }

  lemma KeysAgree(b: Books)
    requires Balanced(b)
    ensures b.flying.Keys == b.carries.Keys
  {
  }

  /** The step gives back this acquisition on behalf of whoever has it. */
  ghost predicate GivesBack(b: Books, action: Action, l: nat) {
    match action
    case End(th, how) => !how.WithBody? && th in b.flying && b.flying[th] == l
    case Read(k, error) => error && k < |b.bodies| && b.bodies[k].lease == l
    case CloseBody(k) => k < |b.bodies| && b.bodies[k].lease == l
    case _ => false
  }

  /** Along a run the books stay balanced, and a number not yet issued has not been used. */
  lemma {:induction false} TraceBalances(actions: seq<Action>, trace: seq<Books>, n: nat)
    requires IsTrace(actions, trace) && Balanced(trace[0]) && n < |trace|
    ensures Balanced(trace[n])
    ensures forall i :: 0 <= i <= n ==> trace[i].issued <= trace[n].issued
    ensures forall i, l :: 0 <= i <= n && l in trace[i].leases ==> l < trace[n].issued
  {
    hide Balanced, BooksStep;
    if n > 0 {
      TraceBalances(actions, trace, n - 1);
      StepBalances(trace[n - 1], actions[n - 1], trace[n]);
    }
    NumbersIssued(trace[n]);
  }

  lemma NumbersIssued(b: Books)
    requires Balanced(b)
    ensures forall l :: l in b.leases ==> l < b.issued
  {
  }

  /**
   * Every acquisition made during a run is outstanding from the step that made it to
   * the step by which its owner gives it back, if there is one, and never again: so it
   * is given back at most once.
   */
  lemma {:induction false} OutstandingOnce(actions: seq<Action>, trace: seq<Books>, l: nat, n: nat)
    returns (first: nat, last: nat)
    requires IsTrace(actions, trace) && Balanced(trace[0])
    requires n < |trace| && trace[0].issued <= l < trace[n].issued
    ensures first < last <= n && actions[first].Begin?
    ensures forall i :: 0 <= i <= n ==> (l in trace[i].leases <==> first < i <= last)
    ensures last < n ==> GivesBack(trace[last], actions[last], l)
    decreases n
  {
    hide Balanced, BooksStep, GivesBack;
    TraceBalances(actions, trace, n - 1);
    StepBalances(trace[n - 1], actions[n - 1], trace[n]);
    if l < trace[n - 1].issued {
      first, last := OutstandingOnce(actions, trace, l, n - 1);
      if l in trace[n].leases {
        last := n;
      }
    } else {
      first, last := n - 1, n;
    }
  }

  // --- the users themselves ---

  ghost function SetOf<T>(s: seq<T>): (r: set<T>)
    ensures forall k :: 0 <= k < |s| ==> s[k] in r
  {
    set x | x in s
  }

  lemma OneMore(bodies: seq<TrackedBody>, body: TrackedBody)
    ensures SetOf(bodies + [body]) == SetOf(bodies) + {body}
  {
  }

  class Traffic {
    const pool: Pool
    /** The transports of the round trips in flight, by thread, and every body handed out. */
    var inFlight: map<nat, Transport>
    var bodies: seq<TrackedBody>
    /** The transports whose idle connections are still to be closed by whoever has just left the lock. */
    var toClose: seq<Transport>
    ghost var books: Books

    ghost function Handed(): set<TrackedBody>
      reads this`bodies
    {
      SetOf(bodies)
    }

    /** The books say who is in flight and which bodies there are. */
    ghost predicate Users()
      reads this`inFlight, this`bodies, this`books, Handed()
    {
      && books.carries == inFlight
      && |books.bodies| == |bodies|
      && forall k :: 0 <= k < |bodies| ==> IsEntry(k)
    }

    ghost predicate IsEntry(k: nat)
      requires k < |bodies| && k < |books.bodies|
      reads this`bodies, this`books, bodies[k]
    {
      bodies[k].pool == pool && books.bodies[k] == Entry(bodies[k].lease, bodies[k].transport, bodies[k].released)
    }

    /** The books say what is. */
    ghost predicate Mirrored()
      reads this`inFlight, this`bodies, this`books, pool`leases, pool`issued, pool`closed, Handed()
    {
      books.leases == pool.leases && books.issued == pool.issued && books.closed == pool.closed && Users()
    }

    /** Whatever is about to be closed is on somebody's list. */
    ghost predicate Listed()
      reads this`toClose, pool`closing, pool`all
    {
      (forall t :: t in pool.closing ==> t in toClose) && forall t :: t in toClose ==> t in pool.all
    }

    ghost predicate Valid()
      reads this, pool, pool.all, Handed()
    {
      pool.Valid() && Mirrored() && Balanced(books) && Listed()
    }

    constructor (pool: Pool)
      requires pool.Valid() && pool.leases == map[] && pool.closing == {}
      ensures Valid() && this.pool == pool && inFlight == map[] && bodies == [] && toClose == []
    {
      this.pool, inFlight, bodies, toClose := pool, map[], [], [];
      books := Books(pool.leases, pool.issued, pool.closed, map[], map[], [], map[]);
    }

    /** What a step that gives up its use of t leaves to be closed outside the lock. */
    ghost function Left(gaveUp: bool, t: Transport): seq<Transport>
      reads this, pool, pool.all
    {
      if gaveUp && t in pool.all && pool.MustClose(t) then [t] else []
    }

    /** Which transports a step leaves to be closed, and which it takes off that list. */
    twostate predicate Leaves(action: Action)
      reads this, pool, pool.all, Handed()
    {
      match action
      case End(thread, how) =>
        toClose == old(toClose) +
                   if thread in old(inFlight) then Left(!how.WithBody?, old(inFlight)[thread]) else []
      case Read(k, error) =>
        toClose == old(toClose) +
                   if k < |old(bodies)| then Left(error && !old(bodies[k].released), old(bodies)[k].transport) else []
      case CloseBody(k) =>
        toClose == old(toClose) +
                   if k < |old(bodies)| then Left(!old(bodies[k].released), old(bodies)[k].transport) else []
      case CloseHandler =>
        && old(toClose) <= toClose
        && SetOf(toClose[|old(toClose)|..]) == old(pool.transports).Values + SetOf(old(pool.draining))
      case CloseIdle(which) =>
        toClose == if which < |old(toClose)| then old(toClose)[..which] + old(toClose)[which + 1..] else old(toClose)
      case _ => toClose == old(toClose)
    }

    /** A round trip begins with the transport cached for its destination, unless the handler is closed. */
    twostate predicate Goes(action: Action)
      requires action.Begin?
      reads this, pool
    {
      action.thread !in old(inFlight) && !old(pool.closed) ==>
        var key := KeyFor(action.scheme, action.host, action.ip, action.port);
        key in pool.transports && inFlight == old(inFlight)[action.thread := pool.transports[key]]
    }

    /** What a step does: to the books, to who is in flight, and to the list of what is left to be closed. */
    twostate predicate Does(action: Action)
      reads this, pool, pool.all, Handed()
    {
      BooksStep(old(books), action, books) && (action.Begin? ==> Goes(action)) && Leaves(action)
    }

    /** A thread acquires the transport of its destination for a round trip, unless the handler is closed. */
    method Begin(thread: nat, scheme: string, host: string, ip: string, port: int, now: int)
      requires Valid() && thread !in inFlight
      modifies this`inFlight, this`books, pool, pool.all
      ensures Valid() && fresh(pool.all - old(pool.all)) && pool.closed == old(pool.closed)
      ensures pool.closed ==> inFlight == old(inFlight) && pool.leases == old(pool.leases) && books == old(books)
      ensures !pool.closed ==>
        && KeyFor(scheme, host, ip, port) in pool.transports
        && inFlight == old(inFlight)[thread := pool.transports[KeyFor(scheme, host, ip, port)]]
        && pool.leases == old(pool.leases)[old(pool.issued) := inFlight[thread]]
        && books == Taken(old(books), thread, inFlight[thread])
      ensures Does(Action.Begin(thread, scheme, host, ip, port, now))
    {
      hide Pool.Valid, Pool.Asked, KeyFor, Balanced;
      KeysMatch();
      var t, lease := pool.Acquire(scheme, host, ip, port, now);
      if t != null {
        TakenBalances(books, thread, t);
        inFlight := inFlight[thread := t];
        books := Taken(books, thread, t);
        forall k | 0 <= k < |bodies| ensures IsEntry(k) {
          assert old(IsEntry(k));
        }
      }
    }

    lemma KeysMatch()
      requires Balanced(books)
      ensures books.flying.Keys == books.carries.Keys
      ensures forall th :: th in books.flying ==>
                books.flying[th] in books.leases && books.leases[books.flying[th]] == books.carries[th]
    {
      assert forall th :: th in books.flying ==> ThreadOk(books, th);
    }

    /** A thread's round trip ends: its acquisition is given back or passes to a new body. */
    method End(thread: nat, how: RoundTripEnd)
      requires Valid() && thread in inFlight
      modifies this, pool`draining, pool`leases, pool`closing, pool.all
      ensures Valid() && fresh(Handed() - old(Handed())) && inFlight == old(inFlight) - {thread}
      ensures old(thread in books.flying && books.flying[thread] in pool.leases)
      ensures how.WithBody? ==>
        && pool.leases == old(pool.leases) && |bodies| == |old(bodies)| + 1 && bodies[..|old(bodies)|] == old(bodies)
        && bodies[|old(bodies)|].transport == old(inFlight[thread]) && !bodies[|old(bodies)|].released
        && books == Passed(old(books), thread)
      ensures !how.WithBody? ==>
        && pool.leases == old(pool.leases) - {old(books.flying[thread])} && bodies == old(bodies)
        && books == Landed(old(books), thread)
      ensures Does(Action.End(thread, how))
    {
      hide Pool.Valid, Balanced, TrackedBody.Tracks, SetOf, Listed, Landed, Passed, Pool.MustClose, Goes;
      Ticket(thread);
      AllListed();
      var t := inFlight[thread];
      var body, closeIdle := FinishRoundTrip(pool, t, books.flying[thread], how);
      Enlist(t, closeIdle, old(pool.closing));
      if body == null {
        Land(thread);
      } else {
        Pass(thread, body);
      }
    }

    lemma AllListed()
      requires Listed()
      ensures (forall t :: t in pool.closing ==> t in toClose) && forall t :: t in toClose ==> t in pool.all
    {
    }

    lemma Ticket(thread: nat)
      requires pool.Valid() && Mirrored() && Balanced(books) && thread in inFlight
      ensures thread in books.flying && books.flying[thread] in pool.leases
      ensures pool.leases[books.flying[thread]] == inFlight[thread] && inFlight[thread] in pool.all
    {
      hide Balanced;
      KeysMatch();
    }

    /** Whoever was told to close the idle connections of a transport remembers it. */
    method Enlist(t: Transport, closeIdle: bool, ghost before: set<Transport>)
      requires (forall u :: u in before ==> u in toClose) && (forall u :: u in toClose ==> u in pool.all)
      requires pool.closing == before + if closeIdle then {t} else {}
      requires closeIdle ==> t in pool.all
      modifies this`toClose
      ensures Listed() && toClose == old(toClose) + if closeIdle then [t] else []
    {
      if closeIdle {
        toClose := toClose + [t];
      }
    }

    /** The books after an acquisition was given back at the end of a round trip. */
    method Land(thread: nat)
      requires Users() && Balanced(books) && thread in books.flying
      requires books.issued == pool.issued && books.closed == pool.closed
      requires pool.leases == books.leases - {books.flying[thread]}
      modifies this`inFlight, this`books
      ensures Mirrored() && Balanced(books) && inFlight == old(inFlight) - {thread}
      ensures books == Landed(old(books), thread)
    {
      hide Balanced;
      LandedBalances(books, thread);
      inFlight := inFlight - {thread};
      books := Landed(books, thread);
      forall k | 0 <= k < |bodies| ensures IsEntry(k) {
        assert old(IsEntry(k));
      }
    }

    /** The books after an acquisition has passed to a body. */
    method Pass(thread: nat, body: TrackedBody)
      requires Mirrored() && Balanced(books) && thread in books.flying && thread in inFlight
      requires body.pool == pool && body.transport == inFlight[thread] && body.lease == books.flying[thread]
               && !body.released
      modifies this`inFlight, this`bodies, this`books
      ensures Mirrored() && Balanced(books) && inFlight == old(inFlight) - {thread} && bodies == old(bodies) + [body]
      ensures books == Passed(old(books), thread) && Handed() == old(Handed()) + {body}
    {
      hide Balanced, SetOf;
      PassedBalances(books, thread);
      OneMore(bodies, body);
      inFlight, bodies, books := inFlight - {thread}, bodies + [body], Passed(books, thread);
      forall k | 0 <= k < |bodies| ensures IsEntry(k) {
        assert k < |old(bodies)| ==> old(IsEntry(k));
      }
    }

    /**
     * Each body handed out tracks its own acquisition of a transport of the pool, and
     * different bodies have different ones.
     */
    lemma AllTrack(k: nat)
      requires Valid() && k < |bodies|
      ensures bodies[k].pool == pool && bodies[k].Tracks() && bodies[k] in Handed() && |books.bodies| == |bodies|
      ensures books.bodies[k] == Entry(bodies[k].lease, bodies[k].transport, bodies[k].released)
              && books.carries == inFlight
      ensures !bodies[k].released ==> bodies[k].transport in pool.all
      ensures forall i :: 0 <= i < |bodies| && i != k ==>
                bodies[i].lease != bodies[k].lease && bodies[i] != bodies[k] && IsEntry(i)
      ensures (forall t :: t in pool.closing ==> t in toClose) && forall t :: t in toClose ==> t in pool.all
    {
      hide Pool.Cached, Pool.Drained, Pool.NoLeak, Holders, SetOf;
      assert IsEntry(k) && BodyOk(books, k);
      forall i | 0 <= i < |bodies| && i != k ensures bodies[i].lease != bodies[k].lease {
        assert IsEntry(i);
        assert books.bodies[i].lease != books.bodies[k].lease;
      }
    }

    method Read(k: nat, error: bool)
      requires Valid() && k < |bodies|
      modifies this`books, this`toClose, bodies[k], pool`draining, pool`leases, pool`closing, pool.all
      ensures Valid() && (bodies[k].released <==> old(bodies[k].released) || error)
      ensures pool.leases == if error then old(pool.leases) - {bodies[k].lease} else old(pool.leases)
      ensures k < |old(books).bodies| && books == if error then Dropped(old(books), k) else old(books)
      ensures Does(Action.Read(k, error))
    {
      hide Pool.Valid, Balanced, TrackedBody.Tracks, SetOf, Listed;
      AllTrack(k);
      var closeIdle := bodies[k].Read(error);
      Enlist(bodies[k].transport, closeIdle, old(pool.closing));
      if error {
        Drop(k);
      }
    }

    method CloseBody(k: nat)
      requires Valid() && k < |bodies|
      modifies this`books, this`toClose, bodies[k], pool`draining, pool`leases, pool`closing, pool.all
      ensures Valid() && bodies[k].released && pool.leases == old(pool.leases) - {bodies[k].lease}
      ensures k < |old(books).bodies| && books == Dropped(old(books), k)
      ensures Does(Action.CloseBody(k))
    {
      hide Pool.Valid, Balanced, TrackedBody.Tracks, SetOf, Listed;
      AllTrack(k);
      var closeIdle := bodies[k].Close();
      Enlist(bodies[k].transport, closeIdle, old(pool.closing));
      Drop(k);
    }

    /** The books after a body has released its acquisition. */
    method Drop(k: nat)
      requires Balanced(books) && books.carries == inFlight
      requires books.issued == pool.issued && books.closed == pool.closed
      requires k < |bodies| == |books.bodies| && forall i :: 0 <= i < |bodies| && i != k ==> IsEntry(i)
      requires bodies[k].pool == pool && bodies[k].released
      requires books.bodies[k].lease == bodies[k].lease && books.bodies[k].transport == bodies[k].transport
      requires pool.leases == books.leases - {bodies[k].lease}
      modifies this`books
      ensures Mirrored() && Balanced(books) && books == Dropped(old(books), k)
    {
      hide Balanced, SetOf;
      DroppedBalances(books, k);
      books := Dropped(books, k);
      forall i | 0 <= i < |bodies| ensures IsEntry(i) {
        if i != k {
          assert old(IsEntry(i));
        }
      }
    }

    /** The connection of a round trip in flight becomes idle. */
    method KeepIdle(thread: nat)
      requires Valid() && thread in inFlight
      modifies {inFlight[thread]}`idle
      ensures Valid() && inFlight[thread].idle && Does(Action.KeepIdle(thread))
    {
      hide Pool.Valid, Balanced;
      Ticket(thread);
      pool.KeepIdle(inFlight[thread], books.flying[thread]);
    }

    /** The connection of a body not yet released becomes idle. */
    method KeepIdleFor(k: nat)
      requires Valid() && k < |bodies| && !bodies[k].released
      modifies {bodies[k].transport}`idle
      ensures Valid() && bodies[k].transport.idle && Does(Action.KeepIdleFor(k))
    {
      hide Pool.Valid, Balanced;
      AllTrack(k);
      pool.KeepIdle(bodies[k].transport, bodies[k].lease);
    }

    /** Every transport cached or draining is left to be closed, once per call. */
    method CloseHandler()
      requires Valid()
      modifies this`toClose, this`books, pool`transports, pool`draining, pool`closed, pool`closing
      ensures Valid() && pool.closed && pool.transports == map[] && books == old(books).(closed := true)
      ensures Does(Action.CloseHandler)
    {
      hide Pool.Valid, Balanced;
      var found := pool.Close();
      InPool();
      ClosedBalances(books);
      toClose, books := toClose + found, books.(closed := true);
      assert toClose[|old(toClose)|..] == found;
      forall k | 0 <= k < |bodies| ensures IsEntry(k) {
        assert old(IsEntry(k));
      }
    }

    lemma InPool()
      requires pool.Valid()
      ensures pool.closing <= pool.all
    {
    }

    /** Outside the lock the idle connections of one transport on the list are closed. */
    method CloseIdle(which: nat)
      requires Valid() && which < |toClose|
      modifies this`toClose, pool`closing, {toClose[which]}`idle
      ensures Valid() && !old(toClose[which]).idle && Does(Action.CloseIdle(which))
    {
      hide Pool.Valid, Balanced;
      var t := toClose[which];
      pool.CloseIdle(t);
      toClose := toClose[..which] + toClose[which + 1..];
    }

    /** The step is one somebody can take at this point. */
    predicate Possible(action: Action)
      reads this, SetOf(bodies)
    {
      match action
      case Begin(thread, _, _, _, _, _) => thread !in inFlight
      case KeepIdle(thread) => thread in inFlight
      case End(thread, _) => thread in inFlight
      case KeepIdleFor(k) => k < |bodies| && !bodies[k].released
      case Read(k, _) => k < |bodies|
      case CloseBody(k) => k < |bodies|
      case CloseHandler => true
      case CloseIdle(which) => which < |toClose|
    }

    /** One step, if it is possible at this point. */
    method Step(action: Action)
      requires Valid()
      modifies this, pool, pool.all, Handed()
      ensures Valid() && fresh(pool.all - old(pool.all)) && fresh(Handed() - old(Handed()))
      ensures Does(action)
    {
      hide Valid, Does, SetOf;
      if !Possible(action) {
        Stays(action);
      } else if action.Begin? || action.KeepIdle? || action.End? {
        StepOfThread(action);
      } else if action.KeepIdleFor? || action.Read? || action.CloseBody? {
        StepOfBody(action);
      } else {
        StepOfHandler(action);
      }
    }

    method StepOfThread(action: Action)
      requires Valid() && Possible(action) && (action.Begin? || action.KeepIdle? || action.End?)
      modifies this, pool, pool.all
      ensures Valid() && fresh(pool.all - old(pool.all)) && fresh(Handed() - old(Handed()))
      ensures Does(action)
    {
      hide Valid, Does, SetOf;
      match action
      case Begin(thread, scheme, host, ip, port, now) => Begin(thread, scheme, host, ip, port, now);
      case KeepIdle(thread) =>
        ThreadKnown(thread);
        KeepIdle(thread);
      case End(thread, how) => End(thread, how);
    }

    method StepOfBody(action: Action)
      requires Valid() && Possible(action) && (action.KeepIdleFor? || action.Read? || action.CloseBody?)
      modifies this, pool, pool.all, Handed()
      ensures Valid() && pool.all == old(pool.all) && Handed() == old(Handed())
      ensures Does(action)
    {
      hide Valid, Does, SetOf;
      match action
      case KeepIdleFor(k) =>
        BodyKnown(k);
        KeepIdleFor(k);
      case Read(k, error) =>
        BodyKnown(k);
        Read(k, error);
      case CloseBody(k) =>
        BodyKnown(k);
        CloseBody(k);
    }

    method StepOfHandler(action: Action)
      requires Valid() && Possible(action) && (action.CloseHandler? || action.CloseIdle?)
      modifies this, pool, pool.all
      ensures Valid() && pool.all == old(pool.all) && Handed() == old(Handed())
      ensures Does(action)
    {
      hide Valid, Does, SetOf;
      match action
      case CloseHandler => CloseHandler();
      case CloseIdle(which) =>
        ListKnown(which);
        CloseIdle(which);
    }

    twostate lemma Stays(action: Action)
      requires old(Valid()) && !Possible(action)
      requires books == old(books) && toClose == old(toClose) && inFlight == old(inFlight) && bodies == old(bodies)
      requires pool.leases == old(pool.leases) && pool.closed == old(pool.closed)
      requires forall b :: b in Handed() ==> b.released == old(b.released)
      ensures Does(action)
    {
    }

    lemma ThreadKnown(thread: nat)
      requires Valid() && thread in inFlight
      ensures inFlight[thread] in pool.all
    {
      hide Pool.Valid, Balanced;
      Ticket(thread);
    }

    lemma BodyKnown(k: nat)
      requires Valid() && k < |bodies|
      ensures bodies[k] in Handed() && (!bodies[k].released ==> bodies[k].transport in pool.all)
    {
      hide Pool.Valid, Balanced;
      AllTrack(k);
    }

    lemma ListKnown(which: nat)
      requires Valid() && which < |toClose|
      ensures toClose[which] in pool.all
    {
    }

    lemma InHanded()
      ensures forall k :: 0 <= k < |bodies| ==> bodies[k] in Handed()
    {
    }

    /**
     * Everyone is done: no round trip is in flight, every body was read to its end or closed,
     * nothing is left to close.
     */
    ghost predicate Quiet()
      reads this, Handed()
    {
      inFlight == map[] && toClose == [] && forall b :: b in Handed() ==> b.released
    }

    /**
     * Over any run of steps the books change as the steps say, and the acquisitions
     * outstanding are exactly those of threads in flight and of bodies not yet released,
     * all distinct; so once everyone is done, every acquisition has been given back.
     */
    method Run(actions: seq<Action>) returns (ghost trace: seq<Books>)
      requires Valid()
      modifies this, pool, pool.all, Handed()
      ensures Valid()
      ensures IsTrace(actions, trace) && trace[0] == old(books) && trace[|actions|] == books
      ensures Quiet() ==>
        && pool.leases == map[] && pool.draining == []
        && forall t :: t in pool.all ==> t.active == 0 && (t.draining || pool.closed ==> !t.idle)
    {
      hide Valid, BooksStep;
      trace := [books];
      for i := 0 to |actions|
        invariant Valid() && fresh(pool.all - old(pool.all)) && fresh(Handed() - old(Handed()))
        invariant |trace| == i + 1 && trace[0] == old(books) && trace[i] == books
        invariant forall k :: 0 <= k < i ==> BooksStep(trace[k], actions[k], trace[k + 1])
      {
        Step(actions[i]);
        trace := trace + [books];
      }
      if Quiet() {
        AllGivenBack();
      }
    }

    /** When everyone is done nothing is held, nothing drains, and nothing is idle on a transport out of the cache. */
    lemma AllGivenBack()
      requires Valid() && Quiet()
      ensures pool.leases == map[] && pool.draining == []
      ensures forall t :: t in pool.all ==> t.active == 0 && (t.draining || pool.closed ==> !t.idle)
    {
      InHanded();
      BooksEmpty();
      pool.UnusedPool();
    }

    lemma BooksEmpty()
      requires Mirrored() && Balanced(books) && Quiet()
      ensures pool.leases == map[]
    {
      KeysMatch();
      hide Balanced;
      assert books.flying.Keys == {};
      assert books.flying == map[];
      forall k | 0 <= k < |books.bodies| ensures books.bodies[k].released {
        assert IsEntry(k);
        assert bodies[k] in Handed();
      }
      NothingOwed(books);
    }
  }
}

/** The flow stores: a ring buffer in memory and a table that is trimmed in batches. */
module FlowStore {
  import opened Bytes
  import opened FlowLog

  // --- the ring buffer ---

  /** The index i places after start in a ring of n. */
  function Slot(start: nat, i: nat, n: nat): (index: nat)
    requires start < n && i <= n
    ensures index < n
  {
    if start + i < n then start + i else start + i - n
  }

  lemma SlotIsRemainder(start: nat, i: nat, n: nat)
    requires start < n && i <= n
    ensures (start + i) % n == Slot(start, i, n)
  {
    if start + i >= n {
      assert start + i == n + Slot(start, i, n);
    }
  }

  /** The count elements from start on, around the end of the buffer. */
  function Ring(buffer: seq<Flow>, start: nat, count: nat): (r: seq<Flow>)
    requires count <= |buffer| && (buffer != [] ==> start < |buffer|)
    ensures |r| == count
    ensures forall i :: 0 <= i < count ==> r[i] == buffer[Slot(start, i, |buffer|)]
  {
    seq(count, i requires 0 <= i < count => buffer[Slot(start, i, |buffer|)])
  }

  lemma RingGrows(buffer: seq<Flow>, start: nat, count: nat, x: Flow)
    requires count < |buffer| && start < |buffer|
    ensures Ring(buffer[Slot(start, count, |buffer|) := x], start, count + 1) == Ring(buffer, start, count) + [x]
  {
  }

  lemma RingTurns(buffer: seq<Flow>, start: nat, x: Flow)
    requires start < |buffer|
    ensures Ring(buffer[start := x], Slot(start, 1, |buffer|), |buffer|) == Ring(buffer, start, |buffer|)[1..] + [x]
  {
  }

  /** The ring buffer, allocated when the first flow is added. */
  class MemoryBackend {
    var nextId: nat
    var start: nat
    var count: nat
    var flows: array<Flow>
    /** Every flow ever added. */
    ghost var log: seq<Flow>

    /** The buffer holds the latest flows, as many as fit, in a ring. */
    ghost predicate Valid()
      reads this, flows
    {
      && Numbered(log) && nextId == |log|
      && count == Min(flows.Length, |log|)
      && (if flows.Length == 0 then start == 0 && log == [] else start < flows.Length)
      && Ring(flows[..], start, count) == Contents()
    }

    /** What is retained: the latest flows, as many as the buffer holds. */
    ghost function Contents(): seq<Flow>
      reads this
    {
      Latest(log, flows.Length)
    }

    constructor ()
      ensures Valid() && log == [] && flows.Length == 0
    {
      nextId, start, count, flows, log := 0, 0, 0, new Flow[0], [];
    }

    /** Numbers a flow and stores it, over the oldest one if the buffer is full. */
    method Add(item: Flow, capacity: nat) returns (stored: Flow)
      requires Valid() && capacity > 0 && flows.Length in {0, capacity}
      modifies this, flows
      ensures Valid() && flows.Length == capacity && (flows == old(flows) || fresh(flows))
      ensures stored == item.(id := old(nextId) + 1)
      ensures log == old(log) + [stored]
    {
      hide Ring, Latest;
      EmptyRing();
      if flows.Length == 0 {
        flows := new Flow[capacity](_ => item);
      }
      nextId := nextId + 1;
      stored := item.(id := nextId);
      Put(stored);
      LatestGrows(log, stored, flows.Length);
      log := log + [stored];
    }

    lemma EmptyRing()
      ensures forall b: seq<Flow> :: b != [] ==> Ring(b, 0, 0) == []
      ensures forall n: nat :: Latest([], n) == []
    {
    }

    /** Writes the next element of the ring. */
    method Put(item: Flow)
      requires flows.Length > 0 && start < flows.Length && count <= flows.Length
      modifies this`start, this`count, flows
      ensures start < flows.Length && count == Min(flows.Length, old(count) + 1)
      ensures Ring(flows[..], start, count) ==
              (if old(count) == flows.Length then old(Ring(flows[..], start, count))[1..]
               else old(Ring(flows[..], start, count))) + [item]
    {
      ghost var buffer := flows[..];
      var index := (start + count) % flows.Length;
      SlotIsRemainder(start, count, flows.Length);
      if count == flows.Length {
        RingTurns(buffer, start, item);
        SlotIsRemainder(start, 1, flows.Length);
        flows[start] := item;
        assert flows[..] == buffer[start := item];
        start := (start + 1) % flows.Length;
      } else {
        RingGrows(buffer, start, count, item);
        flows[index] := item;
        assert flows[..] == buffer[index := item];
        count := count + 1;
      }
    }

    /** The matching flows, newest first; a summary leaves the captured data out. */
    method List(filter: Filter, limit: nat, summary: bool) returns (out: seq<Flow>)
      requires Valid()
      ensures out == Shown(NewestFirst(Contents(), filter, limit), summary)
    {
      hide Matches, NewestFirst, Ring, Latest, Numbered, Slot, Shown, Remains;
      ghost var all := Contents();
      out := [];
      var offset := 0;
      NothingListed(all, filter, limit, summary);
      while offset < count && |out| < limit
        invariant 0 <= offset <= count && |out| <= limit
        invariant Remains(all, count - offset, filter, limit, summary, out)
      {
        var index := (start + count - 1 - offset) % flows.Length;
        var item := flows[index];
        SlotIsRemainder(start, count - 1 - offset, flows.Length);
        assert item == Ring(flows[..], start, count)[count - 1 - offset];
        ListStep(all, count - offset, filter, limit, summary, out);
        if Matches(item, filter) {
          out := out + [if summary then Summary(item) else item];
        }
        offset := offset + 1;
      }
      ListEnds(all, count - offset, filter, limit, summary, out);
    }
  }

  lemma LatestGrows(log: seq<Flow>, x: Flow, n: nat)
    requires n > 0
    ensures Latest(log + [x], n) == (if n <= |log| then Latest(log, n)[1..] else Latest(log, n)) + [x]
  {
  }

  /** The listing is what is listed already and then that of the first n flows, as far as there is room. */
  ghost predicate Remains(all: seq<Flow>, n: nat, filter: Filter, limit: nat, summary: bool, out: seq<Flow>) {
    && n <= |all| && |out| <= limit
    && Shown(NewestFirst(all, filter, limit), summary) ==
         out + Shown(NewestFirst(all[..n], filter, limit - |out|), summary)
  }

  lemma NothingListed(all: seq<Flow>, filter: Filter, limit: nat, summary: bool)
    ensures Remains(all, |all|, filter, limit, summary, [])
  {
    hide NewestFirst, Shown;
    TakeAll(all);
    var listed := Shown(NewestFirst(all, filter, limit), summary);
    assert [] + listed == listed;
  }

  lemma ListStep(all: seq<Flow>, n: nat, filter: Filter, limit: nat, summary: bool, out: seq<Flow>)
    requires Remains(all, n, filter, limit, summary, out) && n > 0 && |out| < limit
    ensures var item := all[n - 1];
            Remains(all, n - 1, filter, limit, summary,
                    if Matches(item, filter) then out + [if summary then Summary(item) else item] else out)
  {
    hide Matches, Shown;
    var item, earlier := all[n - 1], all[..n - 1];
    TakeOne(all, n - 1);
    assert all[..n][..n - 1] == earlier;
    if Matches(item, filter) {
      var rest := NewestFirst(earlier, filter, limit - |out| - 1);
      ShownFirst(item, rest, summary);
      Associates(out, [if summary then Summary(item) else item], Shown(rest, summary));
    }
  }

  lemma ShownFirst(item: Flow, rest: seq<Flow>, summary: bool)
    ensures Shown([item] + rest, summary) == [if summary then Summary(item) else item] + Shown(rest, summary)
  {
    assert ([item] + rest)[1..] == rest;
  }

  lemma ListEnds(all: seq<Flow>, n: nat, filter: Filter, limit: nat, summary: bool, out: seq<Flow>)
    requires Remains(all, n, filter, limit, summary, out) && (n == 0 || |out| == limit)
    ensures out == Shown(NewestFirst(all, filter, limit), summary)
  {
  }

  function Summary(f: Flow): Flow {
    f.(capture := "")
  }

  /** A summary keeps everything a filter or a page looks at. */
  lemma SummaryShows(f: Flow, filter: Filter)
    ensures Summary(f).id == f.id && Summary(f).sessionId == f.sessionId && Summary(f).httpMethod == f.httpMethod
    ensures Matches(Summary(f), filter) <==> Matches(f, filter)
  {
  }

  function Shown(flows: seq<Flow>, summary: bool): (r: seq<Flow>)
    ensures |r| == |flows|
    ensures forall i :: 0 <= i < |flows| ==> r[i] == if summary then Summary(flows[i]) else flows[i]
  {
    if flows == [] then [] else [if summary then Summary(flows[0]) else flows[0]] + Shown(flows[1..], summary)
  }

  lemma NothingLatest(n: nat)
    ensures Latest([], n) == [] && Numbered([])
  {
  }

  const RETENTION_BATCH := 100

  /** The table: rows in insertion order and a counter of them, so that trimming needs no count query. */
  class SqliteBackend {
    var rows: seq<Flow>
    var retained: nat
    var sequence: nat
    ghost var log: seq<Flow>

    /** The rows are the latest flows: all of them, or at least capacity, and never a whole batch more. */
    ghost predicate Valid(capacity: nat)
      reads this
    {
      && Numbered(log) && sequence == |log|
      && retained == |rows| && rows == Latest(log, retained)
      && Min(capacity, |log|) <= retained < capacity + Min(RETENTION_BATCH, capacity)
    }

    constructor (capacity: nat)
      requires capacity > 0
      ensures Valid(capacity) && log == [] && rows == []
    {
      hide Latest, Numbered;
      NothingLatest(0);
      rows, retained, sequence, log := [], 0, 0, [];
    }

    /** Inserts a flow and trims when a whole batch is over capacity; a failed transaction changes nothing. */
    method Add(item: Flow, capacity: nat, commits: bool) returns (stored: Option<Flow>)
      requires Valid(capacity) && capacity > 0
      modifies this
      ensures Valid(capacity)
      ensures stored == if commits then Some(item.(id := old(sequence) + 1)) else None
      ensures log == if commits then old(log) + [stored.value] else old(log)
      ensures !commits ==> rows == old(rows) && retained == old(retained)
    {
      var added := item.(id := sequence + 1);
      var after := rows + [added];
      var kept := retained + 1;
      var batch := Min(RETENTION_BATCH, capacity);
      if kept >= capacity + batch {
        after := after[kept - capacity..];
        kept := capacity;
      }
      if !commits {
        return None;
      }
      rows, retained, sequence, log := after, kept, sequence + 1, log + [added];
      return Some(added);
    }
  }

  /** A filter that lets everything through. */
  predicate Unfiltered(filter: Filter) {
    && filter.client == filter.host == filter.decision == filter.mode == filter.httpMethod == ""
    && filter.sessions == [] && filter.beforeId == 0
  }

  /** An unfiltered listing of a log's tail is its latest flows in reverse. */
  lemma {:induction false} UnfilteredTail(log: seq<Flow>, n: nat, m: nat, filter: Filter, limit: nat)
    requires Unfiltered(filter) && Min(limit, |log|) <= n && Min(limit, |log|) <= m
    ensures NewestFirst(Latest(log, n), filter, limit) == NewestFirst(Latest(log, m), filter, limit)
  {
    hide Latest;
    if log == [] {
      NothingLatest(n);
      NothingLatest(m);
    } else if limit > 0 {
      var earlier := log[..|log| - 1];
      UnfilteredTail(earlier, n - 1, m - 1, filter, limit - 1);
      TailOf(log, n);
      TailOf(log, m);
    }
  }

  lemma TailOf(log: seq<Flow>, n: nat)
    requires log != [] && n > 0
    ensures var tail := Latest(log, n);
            tail != [] && tail[|tail| - 1] == log[|log| - 1] && tail[..|tail| - 1] == Latest(log[..|log| - 1], n - 1)
  {
  }

  /**
   * After the same successful additions the two stores show the same unfiltered
   * listing for every limit up to their capacity, although the table holds more.
   */
  lemma StoresAgree(ring: MemoryBackend, table: SqliteBackend, capacity: nat, filter: Filter, limit: nat)
    requires ring.Valid() && table.Valid(capacity) && ring.log == table.log
    requires ring.flows.Length == capacity || ring.log == []
    requires Unfiltered(filter) && limit <= capacity
    ensures NewestFirst(ring.Contents(), filter, limit) == NewestFirst(table.rows, filter, limit)
  {
    hide NewestFirst, Latest, Ring, Numbered;
    UnfilteredTail(ring.log, ring.flows.Length, table.retained, filter, limit);
  }
}

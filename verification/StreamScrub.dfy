/**
 * Streaming responses: records are read through a bounded buffer, scrubbed one
 * by one and written at once. Because no value contains a line break, the result
 * is the scrub of the whole stream.
 */
module StreamScrub {
  import opened Bytes
  import opened SecretPolicy
  import opened MatchReference
  import opened Sinks
  import ScrubCoverage
  import Scrubber
  import MaskedValue

  // --- scrubbing distributes over records ---

  /** What the broker's construction checks: no value and no representation contains a line break. */
  predicate Clean(secrets: seq<Secret>) {
    forall s :: s in secrets ==> NoLineBreak(s.value) && forall r :: r in s.representations ==> NoLineBreak(r)
  }

  predicate CleanNeedles(needles: seq<ReferenceNeedle>) {
    forall n :: n in needles ==> LF !in n.from
  }

  predicate CleanItems(items: seq<Secret>) {
    forall s :: s in items ==> LF !in s.value
  }

  predicate EndsLine(data: bytes) {
    data != [] && data[|data| - 1] == LF
  }

  lemma PrefixWithinLine(text: bytes, data: bytes, more: bytes)
    requires EndsLine(data) && LF !in text
    ensures text <= data + more <==> text <= data
  {
    assert (data + more)[|data| - 1] == LF;
    if text <= data + more {
      assert forall k :: 0 <= k < |text| ==> text[k] == (data + more)[k] && text[k] in text;
    }
  }

  lemma VisiblePrefixEndsBefore(text: bytes, data: bytes)
    requires EndsLine(data) && LF !in text && text <= data
    ensures |text| < |data|
  {
    assert forall k :: 0 <= k < |text| ==> text[k] == data[k] && text[k] in text;
  }

  lemma {:induction false} FirstPrefixExtends(needles: seq<ReferenceNeedle>, data: bytes, more: bytes)
    requires EndsLine(data) && CleanNeedles(needles)
    ensures FirstPrefix(needles, data + more) == FirstPrefix(needles, data)
  {
    if needles != [] {
      PrefixWithinLine(needles[0].from, data, more);
      FirstPrefixExtends(needles[1..], data, more);
    }
  }

  lemma PrefixFitsExtends(data: bytes, more: bytes, value: bytes, prefix: nat)
    requires EndsLine(data) && LF !in value
    ensures MaskedValue.PrefixFits(data + more, value, prefix) == MaskedValue.PrefixFits(data, value, prefix)
    ensures MaskedValue.PrefixFits(data, value, prefix) ==>
      && MaskedValue.MaskRun(data + more, prefix) == MaskedValue.MaskRun(data, prefix)
      && MaskedValue.MaskRun(data, prefix).end < |data|
  {
    hide MaskedValue.MaskRun;
    if MaskedValue.MIN_VISIBLE <= prefix <= |value| {
      PrefixWithinLine(value[..prefix], data, more);
      if value[..prefix] <= data {
        VisiblePrefixEndsBefore(value[..prefix], data);
        MaskedValue.MaskRunExtends(data, more, prefix);
      }
    }
  }

  lemma {:induction false} PrefixSearchExtends(data: bytes, more: bytes, value: bytes, prefix: nat)
    requires EndsLine(data) && LF !in value
    requires prefix <= Min(MaskedValue.MAX_PREFIX, |value| - MaskedValue.MIN_VISIBLE)
    ensures MaskedValue.PrefixSearch(data + more, value, prefix) == MaskedValue.PrefixSearch(data, value, prefix)
  {
    hide MaskedValue.MaskRun, MaskedValue.SuffixSearch;
    if prefix >= MaskedValue.MIN_VISIBLE {
      PrefixFitsExtends(data, more, value, prefix);
      PrefixSearchExtends(data, more, value, prefix - 1);
      if MaskedValue.PrefixFits(data, value, prefix) {
        var end := MaskedValue.MaskRun(data, prefix).end;
        assert (data + more)[end..] == data[end..] + more;
        SuffixSearchExtends(data[end..], more, value, Min(MaskedValue.MAX_SUFFIX, |value| - prefix));
      }
    }
  }

  lemma {:induction false} SuffixSearchExtends(rest: bytes, more: bytes, value: bytes, suffix: nat)
    requires EndsLine(rest) && LF !in value && suffix <= |value|
    ensures MaskedValue.SuffixSearch(rest + more, value, suffix) == MaskedValue.SuffixSearch(rest, value, suffix)
  {
    if suffix >= MaskedValue.MIN_VISIBLE {
      PrefixWithinLine(value[|value| - suffix..], rest, more);
      SuffixSearchExtends(rest, more, value, suffix - 1);
    }
  }

  lemma {:induction false} FirstMaskedExtends(items: seq<Secret>, data: bytes, more: bytes)
    requires EndsLine(data) && CleanItems(items)
    ensures FirstMasked(items, data + more) == FirstMasked(items, data)
  {
    if items != [] {
      var value := items[0].value;
      if |value| >= 2 * MaskedValue.MIN_VISIBLE {
        PrefixSearchExtends(data, more, value, Min(MaskedValue.MAX_PREFIX, |value| - MaskedValue.MIN_VISIBLE));
      }
      FirstMaskedExtends(items[1..], data, more);
    }
  }

  lemma StepExtends(needles: seq<ReferenceNeedle>, items: seq<Secret>, data: bytes, more: bytes)
    requires CleanNeedles(needles) && CleanItems(items) && EndsLine(data)
    ensures Step(needles, items, data + more) == Step(needles, items, data)
  {
    FirstPrefixExtends(needles, data, more);
    FirstMaskedExtends(items, data, more);
  }

  function Joined(first: Rewritten, second: Rewritten): Rewritten {
    Rewritten(first.data + second.data, first.names + second.names)
  }

  /** One step of the rewriting: what it emits and how much it consumes. */
  function Emitted(step: Option<Replacement>, data: bytes): Rewritten
    requires data != []
  {
    if step.Some? then Rewritten(step.value.to, {step.value.name}) else Rewritten([data[0]], {})
  }

  function Consumed(step: Option<Replacement>): nat {
    if step.Some? then step.value.length else 1
  }

  lemma RewriteStep(needles: seq<ReferenceNeedle>, items: seq<Secret>, data: bytes)
    requires data != []
    ensures var step := Step(needles, items, data);
            && 0 < Consumed(step) <= |data|
            && Rewrite(needles, items, data) ==
                 Joined(Emitted(step, data), Rewrite(needles, items, data[Consumed(step)..]))
  {
  }

  lemma JoinedAssociates(a: Rewritten, b: Rewritten, c: Rewritten)
    ensures Joined(Joined(a, b), c) == Joined(a, Joined(b, c))
  {
    assert a.data + b.data + c.data == a.data + (b.data + c.data);
  }

  /** After a line break the rewriting starts afresh. */
  lemma {:induction false} RewriteConcat(needles: seq<ReferenceNeedle>, items: seq<Secret>, data: bytes, more: bytes)
    requires CleanNeedles(needles) && CleanItems(items) && (data == [] || EndsLine(data))
    ensures Rewrite(needles, items, data + more) == Joined(Rewrite(needles, items, data), Rewrite(needles, items, more))
    decreases |data|
  {
    hide Step, Joined;
    if data == [] {
      assert data + more == more;
      NothingJoined(Rewrite(needles, items, more));
    } else {
      StepExtends(needles, items, data, more);
      RewriteStep(needles, items, data);
      RewriteStep(needles, items, data + more);
      var length := Consumed(Step(needles, items, data));
      assert (data + more)[length..] == data[length..] + more;
      RewriteConcat(needles, items, data[length..], more);
      JoinedAssociates(Emitted(Step(needles, items, data), data), Rewrite(needles, items, data[length..]),
                       Rewrite(needles, items, more));
    }
  }

  lemma NothingJoined(r: Rewritten)
    ensures Joined(Rewritten([], {}), r) == r
  {
  }

  /** Scrubbing a stream cut after a line break is scrubbing both parts. */
  lemma ScrubConcat(secrets: seq<Secret>, data: bytes, more: bytes, client: string, host: string)
    requires Clean(secrets) && (data == [] || EndsLine(data))
    ensures ReferenceScrub(secrets, data + more, client, host) ==
            Joined(ReferenceScrub(secrets, data, client, host), ReferenceScrub(secrets, more, client, host))
  {
    hide InScope, ScrubNeedles, ScopedSecrets, StableSort, Rewrite;
    ScrubCoverage.SortedScrubNeedlesAre(secrets, client, host);
    ScrubCoverage.ScrubNeedlesAre(secrets, client, host);
    RewriteConcat(StableSort(ScrubNeedles(secrets, client, host)), ScopedSecrets(secrets, client, host), data, more);
  }

  // --- the buffered reader ---

  datatype SliceStatus = Newline | BufferFull | End

  /** The position just after the first line feed among the first n bytes, or n. */
  function LineEnd(data: bytes, n: nat): (end: nat)
    requires n <= |data|
    ensures end <= n
    ensures LF !in data[..end] || (end > 0 && data[end - 1] == LF && LF !in data[..end - 1])
    ensures end < n ==> end > 0 && data[end - 1] == LF
    ensures n > 0 ==> end > 0
  {
    if n == 0 then 0
    else if data[0] == LF then 1
    else
      var later := LineEnd(data[1..], n - 1);
      assert data[..later + 1] == [data[0]] + data[1..][..later];
      assert later > 0 ==> data[..later] == [data[0]] + data[1..][..later - 1];
      later + 1
  }

  /** How much one read of a line returns: at most the buffer's size. */
  function SliceLength(rest: bytes, size: nat): nat {
    LineEnd(rest, Min(size, |rest|))
  }

  class LineReader {
    const data: bytes
    const size: nat
    /** Whether the stream breaks off with an error instead of ending. */
    const fails: bool
    var pos: nat

    ghost predicate Valid()
      reads this
    {
      pos <= |data| && size > 0
    }

    ghost function Rest(): bytes
      reads this
      requires Valid()
    {
      data[pos..]
    }

    constructor (data: bytes, size: nat, fails: bool)
      requires size > 0
      ensures Valid() && pos == 0 && this.data == data && this.size == size && this.fails == fails
    {
      this.data, this.size, this.fails, pos := data, size, fails, 0;
    }

    /**
     * The next bytes up to and including a line feed. Without one in the buffer it
     * returns a full buffer, or whatever is left; if exactly a full buffer is left,
     * the end may already have been noticed.
     */
    method ReadSlice() returns (part: bytes, status: SliceStatus)
      requires Valid()
      modifies this`pos
      ensures Valid() && pos == old(pos) + |part| && part == data[old(pos)..pos]
      ensures |part| == SliceLength(old(Rest()), size)
      ensures status.Newline? <==> EndsLine(part)
      ensures status.Newline? ==> |part| > 0
      ensures status.BufferFull? ==> |part| == size
      ensures status.End? ==> pos == |data|
    {
      var rest := data[pos..];
      var n := SliceLength(rest, size);
      part := rest[..n];
      var noticed: bool := *;
      if EndsLine(part) {
        status := Newline;
      } else if n < size {
        status := End;
      } else if n == |rest| && noticed {
        status := End;
      } else {
        status := BufferFull;
      }
      pos := pos + n;
    }
  }

  // --- records ---

  datatype StreamError = LimitExceeded | EndOfStream | ReadFailed | WriteFailed

  /** A record's length and whether a separator, rather than the end of the stream, ends it. */
  datatype Cut = Cut(length: nat, terminated: bool)

  /** The slice is an empty line once its line break is dropped. */
  predicate Blank(part: bytes) {
    var line := if EndsLine(part) then part[..|part| - 1] else part;
    line == [] || line == [CR]
  }

  /** The next record: one line, or for an event stream all slices up to one that is blank. */
  function NextRecord(rest: bytes, sse: bool, size: nat): (cut: Cut)
    requires size > 0
    ensures cut.length <= |rest|
    ensures cut.terminated ==> EndsLine(rest[..cut.length])
    ensures !cut.terminated ==> cut.length == |rest|
    ensures rest != [] ==> cut.length > 0
    decreases |rest|
  {
    var n := SliceLength(rest, size);
    if n == 0 then Cut(0, false)
    else if rest[n - 1] == LF && (!sse || Blank(rest[..n])) then Cut(n, true)
    else
      var later := NextRecord(rest[n..], sse, size);
      EndsLineToo(rest, n, later.length);
      Cut(n + later.length, later.terminated)
  }

  lemma EndsLineToo(rest: bytes, n: nat, m: nat)
    requires n + m <= |rest|
    ensures EndsLine(rest[n..][..m]) ==> EndsLine(rest[..n + m])
  {
  }

  /** What reading a record yields: a whole record within the limit, or why there is none. */
  function ReadOutcome(rest: bytes, cut: Cut, fails: bool, limit: nat): Result<bytes, StreamError>
    requires cut.length <= |rest|
  {
    if cut.length > limit then Err(LimitExceeded)
    else if cut.terminated || (!fails && rest != []) then Ok(rest[..cut.length])
    else Err(if fails then ReadFailed else EndOfStream)
  }

  method ReadStreamingRecord(reader: LineReader, sse: bool, limit: nat) returns (r: Result<bytes, StreamError>)
    requires reader.Valid()
    modifies reader`pos
    ensures reader.Valid()
    ensures r == ReadOutcome(old(reader.Rest()), NextRecord(old(reader.Rest()), sse, reader.size), reader.fails, limit)
    ensures r.Ok? ==> reader.pos == old(reader.pos) + |r.value|
  {
    hide NextRecord, SliceLength, Blank, EndsLine, ReadOutcome;
    ghost var rest := reader.Rest();
    var record: bytes := [];
    while true
      invariant reader.Valid() && old(reader.pos) + |record| == reader.pos
      invariant record == rest[..|record|] && |record| <= limit
      invariant NextRecord(rest, sse, reader.size) == Later(|record|, NextRecord(rest[|record|..], sse, reader.size))
      decreases |reader.data| - reader.pos
    {
      ghost var read := |record|;
      SameRest(reader.data, old(reader.pos), read, read);
      var part, status := reader.ReadSlice();
      SameRest(reader.data, old(reader.pos), read, read + |part|);
      RecordStep(rest, read, part, sse, reader.size);
      RecordEnds(rest, read, part, sse, reader.size, reader.fails, limit);
      record := record + part;
      if |record| > limit {
        return Err(LimitExceeded);
      }
      if status.BufferFull? {
        continue;
      }
      if status.End? && reader.fails {
        return Err(ReadFailed);
      }
      if |record| == 0 && status.End? {
        return Err(EndOfStream);
      }
      if !sse || Blank(part) || status.End? {
        return Ok(record);
      }
    }
  }

  /** The cut of a record after read bytes of it. */
  function Later(read: nat, cut: Cut): Cut {
    Cut(read + cut.length, cut.terminated)
  }

  lemma SameRest(data: bytes, pos: nat, from: nat, to: nat)
    requires from <= to && pos + to <= |data|
    ensures data[pos..][from..] == data[pos + from..]
    ensures data[pos..][from..to] == data[pos + from..pos + to]
  {
  }

  lemma RecordStep(rest: bytes, read: nat, part: bytes, sse: bool, size: nat)
    requires size > 0 && read <= |rest|
    requires |part| == SliceLength(rest[read..], size) && part == rest[read..read + |part|]
    ensures read + |part| <= |rest| && rest[..read] + part == rest[..read + |part|]
    ensures if EndsLine(part) && (!sse || Blank(part)) then NextRecord(rest[read..], sse, size) == Cut(|part|, true)
            else NextRecord(rest[read..], sse, size) == Later(|part|, NextRecord(rest[read + |part|..], sse, size))
    ensures rest[|rest|..] == [] && NextRecord([], sse, size) == Cut(0, false)
    ensures rest != [] && read == 0 ==> |part| > 0
    ensures |part| == 0 ==> read == |rest|
  {
    assert rest[read..][|part|..] == rest[read + |part|..];
    assert rest[read..][..|part|] == part;
  }

  /** The outcomes of the exits of the reading loop. */
  lemma RecordEnds(rest: bytes, read: nat, part: bytes, sse: bool, size: nat, fails: bool, limit: nat)
    requires size > 0 && read <= |rest| && read <= limit
    requires |part| == SliceLength(rest[read..], size) && part == rest[read..read + |part|]
    requires NextRecord(rest, sse, size) == Later(read, NextRecord(rest[read..], sse, size))
    ensures var outcome, end := ReadOutcome(rest, NextRecord(rest, sse, size), fails, limit), read + |part|;
            && (end > limit ==> outcome == Err(LimitExceeded))
            && (end <= limit && EndsLine(part) && (!sse || Blank(part)) ==> outcome == Ok(rest[..end]))
            && (end <= limit && !EndsLine(part) && end == |rest| ==>
                  outcome == if fails then Err(ReadFailed) else if end == 0 then Err(EndOfStream) else Ok(rest[..end]))
  {
    hide NextRecord, SliceLength, Blank, EndsLine;
    RecordStep(rest, read, part, sse, size);
    var end := read + |part|;
    if end <= limit && end == |rest| {
      TakeAll(rest);
    }
  }

  /** Every record of the stream is within the limit. */
  predicate AllFit(rest: bytes, sse: bool, size: nat, limit: nat)
    requires size > 0
    decreases |rest|
  {
    var cut := NextRecord(rest, sse, size);
    cut.length <= limit && (rest == [] || AllFit(rest[cut.length..], sse, size, limit))
  }

  /** How far a stream can be read in whole records. */
  function Readable(rest: bytes, sse: bool, size: nat, fails: bool, limit: nat): (n: nat)
    requires size > 0
    ensures n <= |rest|
    decreases |rest|
  {
    var cut := NextRecord(rest, sse, size);
    if rest == [] || ReadOutcome(rest, cut, fails, limit).Err? then 0
    else cut.length + Readable(rest[cut.length..], sse, size, fails, limit)
  }

  /** Why reading a stream stops: it ends, it breaks off, or a record is too long. */
  function Ending(rest: bytes, sse: bool, size: nat, fails: bool, limit: nat): StreamError
    requires size > 0
    decreases |rest|
  {
    var cut := NextRecord(rest, sse, size);
    match ReadOutcome(rest, cut, fails, limit)
    case Ok(_) => Ending(rest[cut.length..], sse, size, fails, limit)
    case Err(error) => error
  }

  /** A stream that does not break off can be read to its end exactly when every record fits. */
  lemma {:induction false} ReadableIsAll(rest: bytes, sse: bool, size: nat, limit: nat)
    requires size > 0
    ensures Readable(rest, sse, size, false, limit) == |rest| <==> AllFit(rest, sse, size, limit)
    decreases |rest|
  {
    var cut := NextRecord(rest, sse, size);
    if rest != [] && cut.length <= limit {
      ReadableIsAll(rest[cut.length..], sse, size, limit);
    }
  }

  /**
   * Scrubs and forwards record by record. What is written is the scrub of everything
   * that can be read in whole records, or its beginning if writing fails, which is
   * reported exactly when it happens; the stream counts as forwarded exactly when
   * nothing fails, the stream does not break off and every record fits.
   */
  method StreamResponseBody(broker: Scrubber.Broker, reader: LineReader, output: ByteSink, sse: bool, limit: nat,
                            client: string, host: string)
    returns (names: set<string>, outcome: Result<(), StreamError>)
    requires broker.Valid() && Clean(broker.secrets) && reader.Valid() && reader.pos == 0
    modifies reader`pos, output
    ensures var whole := Readable(reader.data, sse, reader.size, reader.fails, limit);
            var scrubbed := ReferenceScrub(broker.secrets, reader.data[..whole], client, host);
            && old(output.sent) <= output.sent <= old(output.sent) + scrubbed.data && names <= scrubbed.names
            && (outcome != Err(WriteFailed) ==>
                  output.sent == old(output.sent) + scrubbed.data && names == scrubbed.names)
    ensures output.failures == old(output.failures) + if outcome == Err(WriteFailed) then 1 else 0
    ensures outcome != Err(WriteFailed) ==>
              var ending := Ending(reader.data, sse, reader.size, reader.fails, limit);
              outcome == if ending == EndOfStream then Ok(()) else Err(ending)
    ensures outcome.Ok? <==>
            output.failures == old(output.failures) && !reader.fails && AllFit(reader.data, sse, reader.size, limit)
    ensures outcome.Ok? ==>
              Rewritten(output.sent[|old(output.sent)|..], names) ==
              ReferenceScrub(broker.secrets, reader.data, client, host)
  {
    hide ReferenceScrub, NextRecord, ReadOutcome, Readable, Ending, AllFit, Clean, EndsLine, Scrubber.Broker.Valid;
    names := {};
    ghost var before, data := output.sent, reader.data;
    ghost var out: bytes := [];
    ScrubNothing(broker.secrets, client, host);
    NothingRead(data, before);
    while true
      invariant reader.Valid() && broker.Valid() && output.sent == before + out
      invariant output.failures == old(output.failures)
      invariant LineStart(data, reader.pos) || (reader.pos == |data| && !reader.fails)
      invariant Rewritten(out, names) == ReferenceScrub(broker.secrets, data[..reader.pos], client, host)
      invariant AllFit(data, sse, reader.size, limit) == AllFit(data[reader.pos..], sse, reader.size, limit)
      invariant Readable(data, sse, reader.size, reader.fails, limit) ==
                reader.pos + Readable(data[reader.pos..], sse, reader.size, reader.fails, limit)
      invariant Ending(data, sse, reader.size, reader.fails, limit) ==
                Ending(data[reader.pos..], sse, reader.size, reader.fails, limit)
      decreases |data| - reader.pos
    {
      ghost var start := reader.pos;
      RecordFacts(data[start..], sse, reader.size, reader.fails, limit);
      var record := ReadStreamingRecord(reader, sse, limit);
      if record.Err? {
        NotWritten(data[start..], sse, reader.size, reader.fails, limit);
        WholeStream(data, sse, reader.size, limit);
        if record.error != EndOfStream {
          return names, Err(record.error);
        }
        var closed := output.Finish();
        return names, if closed then Ok(()) else Err(WriteFailed);
      }
      SameRest(data, start, |record.value|, |record.value|);
      Extended(data, start, |record.value|);
      var transformed, found := broker.Scrub(record.value, client, host);
      RecordScrubbed(broker.secrets, data, start, record.value, client, host);
      names := names + found;
      Associates(before, out, transformed);
      var ok := output.Write(transformed);
      if !ok {
        ghost var whole := Readable(data, sse, reader.size, reader.fails, limit);
        ScrubGrows(broker.secrets, data, start + |record.value|, whole, client, host);
        PrefixOf(before, out, transformed, output.sent,
                 ReferenceScrub(broker.secrets, data[..whole], client, host).data);
        return names, Err(WriteFailed);
      }
      out := out + transformed;
    }
  }

  /** Nothing or whole lines have been read. */
  predicate LineStart(data: bytes, pos: nat)
    requires pos <= |data|
  {
    pos == 0 || EndsLine(data[..pos])
  }

  lemma NothingRead(data: bytes, before: bytes)
    ensures data[..0] == [] && data[0..] == data && before + [] == before && LineStart(data, 0)
  {
  }

  lemma NotWritten(rest: bytes, sse: bool, size: nat, fails: bool, limit: nat)
    requires size > 0
    ensures ReadOutcome(rest, NextRecord(rest, sse, size), fails, limit) != Err(WriteFailed)
  {
  }

  lemma RecordScrubbed(secrets: seq<Secret>, data: bytes, start: nat, record: bytes, client: string, host: string)
    requires Clean(secrets) && start + |record| <= |data| && record == data[start..][..|record|]
             && LineStart(data, start)
    ensures ReferenceScrub(secrets, data[..start + |record|], client, host) ==
            Joined(ReferenceScrub(secrets, data[..start], client, host), ReferenceScrub(secrets, record, client, host))
  {
    hide ReferenceScrub, Clean;
    Extended(data, start, |record|);
    ScrubConcat(secrets, data[..start], record, client, host);
  }

  /** What was scrubbed of whole lines is the beginning of what is scrubbed of more. */
  lemma ScrubGrows(secrets: seq<Secret>, data: bytes, n: nat, whole: nat, client: string, host: string)
    requires Clean(secrets) && n <= whole <= |data| && (LineStart(data, n) || n == |data|)
    ensures var some := ReferenceScrub(secrets, data[..n], client, host);
            var more := ReferenceScrub(secrets, data[..whole], client, host);
            some.data <= more.data && some.names <= more.names
  {
    hide ReferenceScrub, Clean;
    if n < whole {
      Extended(data, n, whole - n);
      ScrubConcat(secrets, data[..n], data[n..][..whole - n], client, host);
    }
  }

  lemma PrefixOf(before: bytes, out: bytes, transformed: bytes, sent: bytes, all: bytes)
    requires out + transformed <= all && before + out <= sent <= before + out + transformed
    ensures before <= sent <= before + all
  {
    assert forall k :: 0 <= k < |before| ==> before[k] == (before + out)[k];
    assert forall k :: 0 <= k < |sent| ==> sent[k] == (before + out + transformed)[k];
    assert before + out + transformed == before + (out + transformed);
    assert forall k :: |before| <= k < |sent| ==>
             (before + (out + transformed))[k] == (out + transformed)[k - |before|];
    assert forall k :: 0 <= k < |out + transformed| ==> (out + transformed)[k] == all[k];
  }

  lemma WholeStream(data: bytes, sse: bool, size: nat, limit: nat)
    requires size > 0
    ensures AllFit(data, sse, size, limit) ==> data[..Readable(data, sse, size, false, limit)] == data
  {
    ReadableIsAll(data, sse, size, limit);
  }

  lemma Extended(data: bytes, start: nat, n: nat)
    requires start + n <= |data|
    ensures data[..start] + data[start..][..n] == data[..start + n]
    ensures EndsLine(data[start..][..n]) ==> EndsLine(data[..start + n])
  {
  }

  lemma ScrubNothing(secrets: seq<Secret>, client: string, host: string)
    ensures ReferenceScrub(secrets, [], client, host) == Rewritten([], {})
  {
  }

  /** What reading one record means for the rest of the stream. */
  lemma RecordFacts(rest: bytes, sse: bool, size: nat, fails: bool, limit: nat)
    requires size > 0
    ensures var cut := NextRecord(rest, sse, size);
            match ReadOutcome(rest, cut, fails, limit)
            case Ok(record) =>
              && record == rest[..cut.length] && 0 < cut.length
              && Readable(rest, sse, size, fails, limit) ==
                   cut.length + Readable(rest[cut.length..], sse, size, fails, limit)
              && AllFit(rest, sse, size, limit) == AllFit(rest[cut.length..], sse, size, limit)
              && Ending(rest, sse, size, fails, limit) == Ending(rest[cut.length..], sse, size, fails, limit)
              && (EndsLine(record) || (cut.length == |rest| && !fails))
            case Err(error) =>
              && Readable(rest, sse, size, fails, limit) == 0 && Ending(rest, sse, size, fails, limit) == error
              && (error == EndOfStream ==> !fails && AllFit(rest, sse, size, limit))
              && (error != EndOfStream ==> fails || !AllFit(rest, sse, size, limit))
  {
  }

  lemma SliceFacts(rest: bytes, size: nat)
    ensures var n := SliceLength(rest, size);
            && n <= |rest|
            && (n == 0 || rest[n - 1] != LF ==> LF !in rest[..n])
            && (n > 0 && rest[n - 1] == LF ==> LF !in rest[..n - 1])
            && (size > 0 && rest != [] ==> n > 0)
  {
  }

  /** Outside event streams a record is exactly one line, however the buffer cuts it. */
  lemma {:induction false} PlainRecordIsOneLine(rest: bytes, size: nat)
    requires size > 0
    ensures var cut := NextRecord(rest, false, size);
            LF !in (if cut.terminated then rest[..cut.length - 1] else rest)
    decreases |rest|
  {
    hide LineEnd;
    var n, cut := SliceLength(rest, size), NextRecord(rest, false, size);
    SliceFacts(rest, size);
    if n > 0 && rest[n - 1] != LF {
      PlainRecordIsOneLine(rest[n..], size);
      var later := NextRecord(rest[n..], false, size);
      if cut.terminated {
        Splice(rest, n, cut.length - 1);
      } else {
        Splice(rest, n, |rest|);
        assert rest[..|rest|] == rest && rest[n..][..|rest| - n] == rest[n..];
      }
    }
  }

  lemma {:induction false} LineEndIs(data: bytes, n: nat, end: nat)
    requires end <= n <= |data|
    requires (end == n && LF !in data[..n]) || (end > 0 && data[end - 1] == LF && LF !in data[..end - 1])
    ensures LineEnd(data, n) == end
  {
    if n > 0 && data[0] != LF {
      assert data[..n] == [data[0]] + data[1..][..n - 1];
      assert end > 0 ==> data[..end - 1] == if end == 1 then [] else [data[0]] + data[1..][..end - 2];
      LineEndIs(data[1..], n - 1, end - 1);
    } else if n > 0 {
      assert forall e :: 1 <= e <= |data| ==> data[..e][0] == LF && LF in data[..e];
    }
  }

  /** What is left of n bytes after reading them a full buffer at a time. */
  function LastSlice(n: nat, size: nat): (r: nat)
    requires size > 0
    ensures r < size && r <= n
  {
    if n < size then n else LastSlice(n - size, size)
  }

  /** The line ends an event: after its full buffers nothing is left of it, or just a carriage return. */
  predicate EndsEvent(line: bytes, size: nat)
    requires size > 0
  {
    var left := LastSlice(|line|, size);
    left == 0 || (left == 1 && line[|line| - 1] == CR)
  }

  /**
   * In an event stream only the last slice of a line is looked at. A line ends the
   * record if that slice is blank, and otherwise the record goes on with the rest.
   */
  lemma {:induction false} LineOfEvent(line: bytes, more: bytes, size: nat)
    requires size > 0 && LF !in line
    ensures NextRecord(line + [LF] + more, true, size) ==
            if EndsEvent(line, size) then Cut(|line| + 1, true) else Later(|line| + 1, NextRecord(more, true, size))
    decreases |line|
  {
    hide NextRecord, SliceLength, Blank;
    var rest := line + [LF] + more;
    if |line| < size {
      ShortLine(line, more, size);
      EventStep(rest, |line| + 1, size);
      assert rest[|line| + 1..] == more && rest[..|line| + 1] == line + [LF];
      BlankLine(line);
    } else {
      LongLine(line, more, size);
      EventStep(rest, size, size);
      assert rest[size - 1] == line[size - 1] != LF;
      assert rest[size..] == line[size..] + [LF] + more;
      LineOfEvent(line[size..], more, size);
      LongEnds(line, size);
    }
  }

  lemma EventStep(rest: bytes, n: nat, size: nat)
    requires n == SliceLength(rest, size) && 0 < n <= |rest| && size > 0
    ensures NextRecord(rest, true, size) ==
            if rest[n - 1] == LF && Blank(rest[..n]) then Cut(n, true) else Later(n, NextRecord(rest[n..], true, size))
  {
    hide SliceLength, Blank;
  }

  lemma LongEnds(line: bytes, size: nat)
    requires |line| >= size > 0
    ensures EndsEvent(line, size) == EndsEvent(line[size..], size)
  {
  }

  lemma ShortLine(line: bytes, more: bytes, size: nat)
    requires LF !in line && |line| < size
    ensures SliceLength(line + [LF] + more, size) == |line| + 1
  {
    var rest := line + [LF] + more;
    assert rest[..|line|] == line;
    LineEndIs(rest, Min(size, |rest|), |line| + 1);
  }

  lemma LongLine(line: bytes, more: bytes, size: nat)
    requires LF !in line && |line| >= size > 0
    ensures SliceLength(line + [LF] + more, size) == size
  {
    var rest := line + [LF] + more;
    assert rest[..size] == line[..size];
    LineEndIs(rest, size, size);
  }

  lemma BlankLine(line: bytes)
    ensures Blank(line + [LF]) <==> line == [] || line == [CR]
  {
    assert (line + [LF])[..|line|] == line;
  }

  /** A line ends the record exactly if nothing, or just a carriage return, is left of it after its full buffers. */
  lemma EventEndsExactly(line: bytes, more: bytes, size: nat)
    requires size > 0 && LF !in line
    ensures NextRecord(line + [LF] + more, true, size) == Cut(|line| + 1, true) <==> EndsEvent(line, size)
  {
    LineOfEvent(line, more, size);
  }

  /**
   * So a line that is not blank but fills the buffer any number of times ends it, also with
   * a carriage return after.
   */
  lemma {:induction false} FullBufferEndsEvent(line: bytes, more: bytes, size: nat, times: nat)
    requires size > 0 && LF !in line && |line| == times * size
    ensures NextRecord(line + [LF] + more, true, size) == Cut(|line| + 1, true)
    ensures size > 1 ==> NextRecord(line + [CR] + [LF] + more, true, size) == Cut(|line| + 2, true)
  {
    hide NextRecord, EndsEvent;
    FullEnds(line, size, times);
    LineOfEvent(line, more, size);
    if size > 1 {
      LineOfEvent(line + [CR], more, size);
    }
  }

  lemma FullEnds(line: bytes, size: nat, times: nat)
    requires size > 0 && |line| == times * size
    ensures EndsEvent(line, size) && (size > 1 ==> EndsEvent(line + [CR], size))
  {
    hide LastSlice;
    FullSlices(times, size, 0);
    if size > 1 {
      FullSlices(times, size, 1);
    }
  }

  lemma {:induction false} FullSlices(times: nat, size: nat, left: nat)
    requires left < size
    ensures LastSlice(times * size + left, size) == left
  {
    if times > 0 {
      assert times * size == (times - 1) * size + size;
      FullSlices(times - 1, size, left);
    }
  }
}

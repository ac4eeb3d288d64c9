/**
 * The WebSocket relay (sections 5.4 and 5.5 of RFC 6455): fragments are gathered
 * into whole messages, each message is transformed and forwarded as one frame,
 * control frames pass in between.
 */
module WsRelay {
  import opened Bytes
  import opened Sinks
  import opened WsFrames
  import WsRoundTrip
  import Utf8

  datatype Direction = ClientToUpstream | UpstreamToClient

  /** What the relay asks of the secret brokers, for the client and host of the session. */
  datatype Mediator = Mediator(
    placeholderNames: bytes -> set<string>,
    scrub: bytes -> (bytes, set<string>),
    substitute: bytes -> Option<bytes>)

  /** One direction of a session; compression holds if it was negotiated. */
  datatype Session = Session(
    direction: Direction,
    mediator: Option<Mediator>,
    limit: nat,
    compression: bool,
    inflate: bytes -> Option<bytes>)

  datatype RelayError =
    | BadFrame(error: FrameError) | UnexpectedCompression | MessageInterrupted | StrayContinuation | TooLong
    | PlaceholderInControl | ControlTooLong | UnsupportedOpcode | BadCompressedMessage
    | PlaceholderInBinary | SecretInBinary | NotUtf8 | BadSubstitution

  // --- what happens to one control payload and to one whole message ---

  function MediateControl(s: Session, payload: bytes): (r: Result<bytes, RelayError>)
    ensures r.Ok? && |payload| <= 125 ==> |r.value| <= 125
  {
    if s.mediator.None? then Ok(payload)
    else if s.direction.ClientToUpstream? then
      if s.mediator.value.placeholderNames(payload) != {} then Err(PlaceholderInControl) else Ok(payload)
    else
      var scrubbed := s.mediator.value.scrub(payload).0;
      if |scrubbed| > 125 then Err(ControlTooLong) else Ok(scrubbed)
  }

  function Inflated(s: Session, compressed: bool, message: bytes): Result<bytes, RelayError> {
    if !compressed then Ok(message)
    else
      var plain := s.inflate(message);
      if plain.None? then Err(BadCompressedMessage)
      else if |plain.value| > s.limit then Err(TooLong)
      else Ok(plain.value)
  }

  function MediateBinary(s: Session, message: bytes): Result<bytes, RelayError> {
    if s.mediator.None? then Ok(message)
    else if s.direction.ClientToUpstream? then
      if s.mediator.value.placeholderNames(message) != {} then Err(PlaceholderInBinary) else Ok(message)
    else if s.mediator.value.scrub(message).1 != {} then Err(SecretInBinary)
    else Ok(message)
  }

  function MediateText(s: Session, message: bytes): Result<bytes, RelayError> {
    if !Utf8.Valid(message) then Err(NotUtf8)
    else
      var transformed :=
        if s.mediator.None? then Some(message)
        else if s.direction.UpstreamToClient? then Some(s.mediator.value.scrub(message).0)
        else if s.mediator.value.placeholderNames(message) != {} then s.mediator.value.substitute(message)
        else Some(message);
      if transformed.None? then Err(BadSubstitution)
      else if |transformed.value| > s.limit then Err(TooLong)
      else Ok(transformed.value)
  }

  /** The payload a whole message is forwarded with. */
  function MediateMessage(s: Session, opcode: Opcode, compressed: bool, message: bytes): (r: Result<bytes, RelayError>)
    ensures r.Ok? && |message| <= s.limit ==> |r.value| <= s.limit
  {
    var plain := Inflated(s, compressed, message);
    if plain.Err? then plain
    else if opcode == BINARY then MediateBinary(s, plain.value)
    else MediateText(s, plain.value)
  }

  // --- the relay as a state machine over frames ---

  /** The message gathered so far, if one is in progress. */
  datatype State = Idle | Gathering(opcode: Opcode, compressed: bool, message: bytes)

  datatype Outcome = Running | Closed | Failed(error: RelayError)

  datatype Progress = Progress(state: State, out: seq<Frame>, outcome: Outcome)

  function Complete(s: Session, opcode: Opcode, compressed: bool, message: bytes): Progress {
    var payload := MediateMessage(s, opcode, compressed, message);
    if payload.Err? then Progress(Idle, [], Failed(payload.error))
    else Progress(Idle, [Frame(true, s.compression, opcode, payload.value)], Running)
  }

  function Forward(s: Session, state: State, opcode: Opcode, payload: bytes): Progress {
    var mediated := MediateControl(s, payload);
    if mediated.Err? then Progress(state, [], Failed(mediated.error))
    else Progress(state, [Frame(true, false, opcode, mediated.value)], if opcode == CLOSE then Closed else Running)
  }

  function Step(s: Session, state: State, f: Frame): Progress {
    if f.compressed && !s.compression then Progress(state, [], Failed(UnexpectedCompression))
    else if f.opcode == TEXT || f.opcode == BINARY then
      if state.Gathering? then Progress(state, [], Failed(MessageInterrupted))
      else if f.fin then Complete(s, f.opcode, f.compressed, f.payload)
      else Progress(Gathering(f.opcode, f.compressed, f.payload), [], Running)
    else if f.opcode == CONTINUATION then
      if state.Idle? then Progress(state, [], Failed(StrayContinuation))
      else if |state.message| + |f.payload| > s.limit then Progress(state, [], Failed(TooLong))
      else if f.fin then Complete(s, state.opcode, state.compressed, state.message + f.payload)
      else Progress(state.(message := state.message + f.payload), [], Running)
    else if f.opcode == CLOSE || f.opcode == PING || f.opcode == PONG then Forward(s, state, f.opcode, f.payload)
    else Progress(state, [], Failed(UnsupportedOpcode))
  }

  /** Runs until the frames are used up or a step closes the connection or fails. */
  function Run(s: Session, state: State, frames: seq<Frame>): Progress
    decreases |frames|
  {
    if frames == [] then Progress(state, [], Running)
    else
      var first := Step(s, state, frames[0]);
      if !first.outcome.Running? then first
      else
        var rest := Run(s, first.state, frames[1..]);
        rest.(out := first.out + rest.out)
  }

  /** One thing after another, until one of them closes the connection or fails. */
  function Then(first: Progress, second: Progress): Progress {
    if first.outcome.Running? then second.(out := first.out + second.out) else first
  }

  lemma {:induction false} RunConcat(s: Session, state: State, a: seq<Frame>, b: seq<Frame>)
    ensures Run(s, state, a + b) == Then(Run(s, state, a), Run(s, Run(s, state, a).state, b))
    decreases |a|
  {
    hide Step;
    if a == [] {
      assert a + b == b && [] + Run(s, state, b).out == Run(s, state, b).out;
    } else {
      assert (a + b)[1..] == a[1..] + b;
      var first := Step(s, state, a[0]);
      if first.outcome.Running? {
        RunConcat(s, first.state, a[1..], b);
        var middle := Run(s, first.state, a[1..]);
        Associates(first.out, middle.out, Run(s, middle.state, b).out);
      }
    }
  }

  lemma RunOne(s: Session, state: State, f: Frame)
    ensures Run(s, state, [f]) == Step(s, state, f)
  {
    hide Step;
    var first := Step(s, state, f);
    assert [f][1..] == [];
    assert first.out + [] == first.out;
  }

  lemma RunAppended(s: Session, state: State, frames: seq<Frame>, f: Frame)
    ensures Run(s, state, frames + [f]) == Then(Run(s, state, frames), Step(s, Run(s, state, frames).state, f))
  {
    RunConcat(s, state, frames, [f]);
    RunOne(s, Run(s, state, frames).state, f);
  }

  lemma NothingRuns(s: Session, state: State)
    ensures Run(s, state, []) == Progress(state, [], Running)
  {
  }

  /** What a stretch of frames writes is the beginning of what more of them write, and all of it if it ends the run. */
  lemma RunsOn(s: Session, frames: seq<Frame>, n: nat)
    requires n <= |frames|
    ensures Run(s, Idle, frames[..n]).out <= Run(s, Idle, frames).out
    ensures !Run(s, Idle, frames[..n]).outcome.Running? ==> Run(s, Idle, frames) == Run(s, Idle, frames[..n])
  {
    assert frames == frames[..n] + frames[n..];
    RunConcat(s, Idle, frames[..n], frames[n..]);
  }

  lemma NextRuns(s: Session, frames: seq<Frame>, n: nat)
    requires n < |frames| && Run(s, Idle, frames[..n]).outcome.Running?
    ensures var before := Run(s, Idle, frames[..n]);
            var step := Step(s, before.state, frames[n]);
            Run(s, Idle, frames[..n + 1]) == step.(out := before.out + step.out)
  {
    hide Run, Step;
    TakeOne(frames, n);
    RunAppended(s, Idle, frames[..n], frames[n]);
  }

  // --- the loop over a byte stream ---

  /** The frames a byte stream consists of, up to the first one that cannot be read. */
  datatype Stream = Stream(frames: seq<Frame>, error: FrameError)

  function Frames(data: bytes, expectMask: bool, limit: nat): Stream
    decreases |data|
  {
    var decoded := Decode(data, expectMask, limit);
    if decoded.Err? then Stream([], decoded.error)
    else
      FrameTakesBytes(data, expectMask, limit);
      var rest := Frames(data[decoded.value.consumed..], expectMask, limit);
      Stream([decoded.value.frame] + rest.frames, rest.error)
  }

  lemma FrameTakesBytes(data: bytes, expectMask: bool, limit: nat)
    requires Decode(data, expectMask, limit).Ok?
    ensures 0 < Decode(data, expectMask, limit).value.consumed <= |data|
    ensures Legal(Decode(data, expectMask, limit).value.frame, limit)
  {
    WsRoundTrip.ReadThenWrite(data, expectMask, limit);
  }

  function Wire(f: Frame, deflate: bytes -> bytes): Frame {
    f.(payload := if f.compressed then deflate(f.payload) else f.payload)
  }

  /** The bytes of a list of frames, the i-th masked with the i-th key. */
  function EncodeAll(frames: seq<Frame>, keys: nat -> Option<Key>, deflate: bytes -> bytes): bytes {
    if frames == [] then []
    else
      var last := |frames| - 1;
      EncodeAll(frames[..last], keys, deflate) + Encode(Wire(frames[last], deflate), keys(last))
  }

  /** Relaying a byte stream: the run over its frames, ended by the read error if nothing ended it before. */
  function Relayed(s: Session, stream: Stream): Progress {
    var run := Run(s, Idle, stream.frames);
    if run.outcome.Running? then run.(outcome := Failed(BadFrame(stream.error))) else run
  }

  /** The relay's own variables: the reused buffer and what it holds. */
  class Assembler {
    var message: bytes
    var opcode: Opcode
    var compressed: bool
    var fragmented: bool

    constructor ()
      ensures Current() == Idle && message == []
    {
      message, opcode, compressed, fragmented := [], TEXT, false, false;
    }

    function Current(): State
      reads this
    {
      if fragmented then Gathering(opcode, compressed, message) else Idle
    }

    /** Takes one frame: at most one frame is to be written, and relaying may end. */
    method Accept(s: Session, frame: Frame) returns (out: Option<Frame>, outcome: Outcome)
      modifies this
      ensures var step := Step(s, old(Current()), frame);
              && outcome == step.outcome
              && step.out == (if out.Some? then [out.value] else [])
              && (!outcome.Failed? ==> Current() == step.state)
    {
      hide MediateControl, MediateMessage;
      if frame.compressed && !s.compression {
        return None, Failed(UnexpectedCompression);
      }
      if frame.opcode == TEXT || frame.opcode == BINARY {
        if fragmented {
          return None, Failed(MessageInterrupted);
        }
        opcode, compressed, message, fragmented := frame.opcode, frame.compressed, frame.payload, !frame.fin;
      } else if frame.opcode == CONTINUATION {
        if !fragmented {
          return None, Failed(StrayContinuation);
        }
        if |message| + |frame.payload| > s.limit {
          return None, Failed(TooLong);
        }
        message, fragmented := message + frame.payload, !frame.fin;
      } else if frame.opcode == CLOSE || frame.opcode == PING || frame.opcode == PONG {
        var payload := MediateControl(s, frame.payload);
        if payload.Err? {
          return None, Failed(payload.error);
        }
        return Some(Frame(true, false, frame.opcode, payload.value)), if frame.opcode == CLOSE then Closed else Running;
      } else {
        return None, Failed(UnsupportedOpcode);
      }
      if fragmented {
        return None, Running;
      }
      var payload := MediateMessage(s, opcode, compressed, message);
      if payload.Err? {
        return None, Failed(payload.error);
      }
      message := [];
      return Some(Frame(true, s.compression, opcode, payload.value)), Running;
    }
  }

  /** How relaying ends: by itself, because a write fails, or because the other direction ended. */
  datatype RelayEnd = Ended(outcome: Outcome) | WriteFailed | Cancelled

  /** No turn before this one sees the cancellation. */
  ghost predicate Uncancelled(cancel: nat -> bool, turn: nat) {
    forall n: nat | n < turn :: !cancel(n)
  }

  lemma StillUncancelled(cancel: nat -> bool, turn: nat)
    requires Uncancelled(cancel, turn) && !cancel(turn)
    ensures Uncancelled(cancel, turn + 1)
  {
  }

  /**
   * Relaying stops in the given turn, with the frames sent: as the run over all
   * frames does; or before, having sent what the earlier turns emit, because the
   * cancellation is seen in this turn or because its own frame cannot be written.
   */
  ghost predicate StopsIn(s: Session, all: Stream, cancel: nat -> bool, turn: nat, end: RelayEnd, sent: seq<Frame>) {
    && turn <= |all.frames|
    && Uncancelled(cancel, turn) && (end.Cancelled? <==> cancel(turn))
    && var before := Run(s, Idle, all.frames[..turn]);
    && before.outcome.Running?
    && match end
       case Ended(outcome) =>
         && Relayed(s, all) == Progress(Relayed(s, all).state, sent, outcome)
         && (turn < |all.frames| ==> !Step(s, before.state, all.frames[turn]).outcome.Running?)
       case WriteFailed =>
         turn < |all.frames| && sent == before.out && Step(s, before.state, all.frames[turn]).out != []
       case Cancelled => sent == before.out
  }

  /**
   * Reads frames, gathers fragments in one reused buffer and writes the mediated
   * frames, until the connection closes, something fails, or the cancellation is
   * seen. A failed write is reported exactly if there is one; it may have passed on
   * the beginning of its frame.
   */
  method RelayWebSocket(s: Session, source: ByteSource, expectMask: bool, sink: ByteSink, keys: nat -> Option<Key>,
                        deflate: bytes -> bytes, cancel: nat -> bool)
    returns (end: RelayEnd, ghost sent: seq<Frame>, ghost turn: nat)
    requires source.Valid() && s.limit <= MAX_LENGTH && forall p :: |deflate(p)| <= MAX_LENGTH
    modifies source`pos, sink
    ensures StopsIn(s, Frames(old(source.Rest()), expectMask, s.limit), cancel, turn, end, sent)
    ensures sink.failures == old(sink.failures) + if end.WriteFailed? then 1 else 0
    ensures !end.WriteFailed? ==> sink.sent == old(sink.sent) + EncodeAll(sent, keys, deflate)
    ensures end.WriteFailed? ==>
              var attempted := Run(s, Idle, Frames(old(source.Rest()), expectMask, s.limit).frames[..turn + 1]).out;
              && old(sink.sent) + EncodeAll(sent, keys, deflate) <= sink.sent
              && sink.sent <= old(sink.sent) + EncodeAll(attempted, keys, deflate)
  {
    hide Decode, Encode, Frames, Run, Step, Bounded, EncodeAll, Relayed, StopsIn, Uncancelled, Legal;
    var assembler := new Assembler();
    var turns := 0;
    var written := 0;
    sent, turn := [], 0;
    ghost var before, all := sink.sent, Frames(source.Rest(), expectMask, s.limit);
    RelayStarts(s, all, cancel);
    NothingEncoded(before, keys, deflate);
    while true
      invariant source.Valid() && written == |sent| && turns == turn <= |all.frames|
      invariant Uncancelled(cancel, turn) && Bounded(s, assembler.Current())
      invariant Frames(source.Rest(), expectMask, s.limit) == Stream(all.frames[turn..], all.error)
      invariant Run(s, Idle, all.frames[..turn]) == Progress(assembler.Current(), sent, Running)
      invariant sink.sent == before + EncodeAll(sent, keys, deflate) && sink.failures == old(sink.failures)
      decreases |source.data| - source.pos
    {
      if cancel(turns) {
        CancelledIn(s, all, cancel, turn);
        return Cancelled, sent, turn;
      }
      ghost var rest, state := source.Rest(), assembler.Current();
      FramesStep(rest, expectMask, s.limit);
      var read := ReadFrame(source, expectMask, s.limit);
      if read.Err? {
        EndedIn(s, all, cancel, turn);
        return Ended(Failed(BadFrame(read.error))), sent, turn;
      }
      FrameTakesBytes(rest, expectMask, s.limit);
      NextFrame(all.frames, turn);
      NextRuns(s, all.frames, turn);
      StepBounded(s, state, read.value);
      Drop(source.data, old(source.pos), source.pos);
      assert source.Rest() == rest[Decode(rest, expectMask, s.limit).value.consumed..];
      var out, outcome := assembler.Accept(s, read.value);
      if out.Some? {
        ghost var attempted := Run(s, Idle, all.frames[..turn + 1]).out;
        assert attempted == sent + [out.value];
        EncodedNext(before, sent, out.value, keys, deflate);
        var r := WriteFrame(sink, out.value, keys(written), deflate);
        if !r.Written? {
          WriteFailedIn(s, all, cancel, turn);
          return WriteFailed, sent, turn;
        }
        sent, written := sent + [out.value], written + 1;
      }
      if !outcome.Running? {
        StoppedIn(s, all, cancel, turn);
        assert Run(s, Idle, all.frames[..turn + 1]).out == sent;
        return Ended(outcome), sent, turn;
      }
      StillUncancelled(cancel, turn);
      turns, turn := turns + 1, turn + 1;
    }
  }

  lemma RelayStarts(s: Session, all: Stream, cancel: nat -> bool)
    ensures Uncancelled(cancel, 0) && all == Stream(all.frames[0..], all.error) && all.frames[..0] == []
    ensures Run(s, Idle, []) == Progress(Idle, [], Running) && Bounded(s, Idle)
  {
  }

  lemma FramesStep(rest: bytes, expectMask: bool, limit: nat)
    ensures var decoded, stream := Decode(rest, expectMask, limit), Frames(rest, expectMask, limit);
            if decoded.Err? then stream == Stream([], decoded.error)
            else
              && decoded.value.consumed <= |rest| && stream.frames != [] && stream.frames[0] == decoded.value.frame
              && Frames(rest[decoded.value.consumed..], expectMask, limit) == Stream(stream.frames[1..], stream.error)
  {
    hide Decode;
    var decoded := Decode(rest, expectMask, limit);
    if decoded.Ok? {
      FrameTakesBytes(rest, expectMask, limit);
    }
  }

  lemma NextFrame(frames: seq<Frame>, turn: nat)
    requires turn < |frames|
    ensures frames[turn..][0] == frames[turn] && frames[turn..][1..] == frames[turn + 1..]
  {
  }

  lemma CancelledIn(s: Session, all: Stream, cancel: nat -> bool, turn: nat)
    requires turn <= |all.frames| && Run(s, Idle, all.frames[..turn]).outcome.Running?
    requires Uncancelled(cancel, turn) && cancel(turn)
    ensures StopsIn(s, all, cancel, turn, Cancelled, Run(s, Idle, all.frames[..turn]).out)
  {
  }

  /** The bytes end: no frame is left. */
  lemma EndedIn(s: Session, all: Stream, cancel: nat -> bool, turn: nat)
    requires turn <= |all.frames| && all.frames[turn..] == [] && Run(s, Idle, all.frames[..turn]).outcome.Running?
    requires Uncancelled(cancel, turn) && !cancel(turn)
    ensures StopsIn(s, all, cancel, turn, Ended(Failed(BadFrame(all.error))), Run(s, Idle, all.frames[..turn]).out)
  {
    hide Run, Step;
    assert turn == |all.frames|;
    TakeAll(all.frames);
  }

  lemma WriteFailedIn(s: Session, all: Stream, cancel: nat -> bool, turn: nat)
    requires turn < |all.frames| && Run(s, Idle, all.frames[..turn]).outcome.Running?
    requires Step(s, Run(s, Idle, all.frames[..turn]).state, all.frames[turn]).out != []
    requires Uncancelled(cancel, turn) && !cancel(turn)
    ensures StopsIn(s, all, cancel, turn, WriteFailed, Run(s, Idle, all.frames[..turn]).out)
  {
    hide Run, Step;
  }

  /** The frame of this turn ends the run. */
  lemma StoppedIn(s: Session, all: Stream, cancel: nat -> bool, turn: nat)
    requires turn < |all.frames| && Run(s, Idle, all.frames[..turn]).outcome.Running?
    requires !Step(s, Run(s, Idle, all.frames[..turn]).state, all.frames[turn]).outcome.Running?
    requires Uncancelled(cancel, turn) && !cancel(turn)
    ensures var run := Run(s, Idle, all.frames[..turn + 1]);
            StopsIn(s, all, cancel, turn, Ended(run.outcome), run.out)
  {
    hide Run, Step;
    NextRuns(s, all.frames, turn);
    RunsOn(s, all.frames, turn + 1);
  }

  lemma NothingEncoded(before: bytes, keys: nat -> Option<Key>, deflate: bytes -> bytes)
    ensures before == before + EncodeAll([], keys, deflate)
  {
  }

  /** The frames written so far are written at the beginning of all there are. */
  lemma SoFar(before: bytes, sent: seq<Frame>, all: seq<Frame>, keys: nat -> Option<Key>, deflate: bytes -> bytes)
    ensures sent <= all ==> before + EncodeAll(sent, keys, deflate) <= before + EncodeAll(all, keys, deflate)
  {
    if sent <= all {
      assert all == sent + all[|sent|..];
      EncodeAllGrows(sent, all[|sent|..], keys, deflate);
      hide EncodeAll;
      Appends(before, EncodeAll(sent, keys, deflate), EncodeAll(all, keys, deflate));
    }
  }

  lemma Appends(before: bytes, a: bytes, b: bytes)
    requires a <= b
    ensures before + a <= before + b
  {
  }

  lemma {:induction false} EncodeAllGrows(a: seq<Frame>, b: seq<Frame>, keys: nat -> Option<Key>,
                                          deflate: bytes -> bytes)
    ensures EncodeAll(a, keys, deflate) <= EncodeAll(a + b, keys, deflate)
  {
    hide Encode;
    if b == [] {
      assert a + b == a;
    } else {
      var n := |b| - 1;
      EncodeAllGrows(a, b[..n], keys, deflate);
      assert (a + b)[..|a + b| - 1] == a + b[..n];
    }
  }

  lemma Drop(data: bytes, start: nat, pos: nat)
    requires start <= pos <= |data|
    ensures data[start..][pos - start..] == data[pos..]
  {
  }

  lemma EncodedNext(before: bytes, sent: seq<Frame>, f: Frame, keys: nat -> Option<Key>, deflate: bytes -> bytes)
    ensures before + EncodeAll(sent + [f], keys, deflate) ==
            before + EncodeAll(sent, keys, deflate) + Encode(Wire(f, deflate), keys(|sent|))
  {
    hide Encode;
    assert (sent + [f])[..|sent|] == sent;
    Associates(before, EncodeAll(sent, keys, deflate), Encode(Wire(f, deflate), keys(|sent|)));
  }

  /** The buffer holds part of a data message, within the mediation limit. */
  predicate Bounded(s: Session, state: State) {
    state.Gathering? ==> |state.message| <= s.limit && (state.opcode == TEXT || state.opcode == BINARY)
  }

  /** Gathering keeps to the limit, and so does everything the relay writes. */
  lemma StepBounded(s: Session, state: State, f: Frame)
    requires Bounded(s, state) && Legal(f, s.limit)
    ensures Bounded(s, Step(s, state, f).state)
    ensures forall w :: w in Step(s, state, f).out ==> |w.payload| <= s.limit || |w.payload| <= 125
    ensures forall w :: w in Step(s, state, f).out ==> (w.compressed ==> MayCompress(w.opcode))
  {
    hide MediateControl, MediateMessage;
  }

  /**
   * Over a whole run: after every frame the buffer keeps to the limit, and so does
   * every frame that is written, or to the size of a control frame.
   */
  lemma {:induction false} RunBounded(s: Session, state: State, frames: seq<Frame>, n: nat)
    requires Bounded(s, state) && (forall f :: f in frames ==> Legal(f, s.limit)) && n <= |frames|
    ensures Bounded(s, Run(s, state, frames[..n]).state)
    ensures forall w :: w in Run(s, state, frames).out ==> |w.payload| <= s.limit || |w.payload| <= 125
    ensures forall w :: w in Run(s, state, frames).out ==> (w.compressed ==> MayCompress(w.opcode))
    decreases |frames|
  {
    hide Step, Bounded, Legal, MayCompress;
    if frames != [] {
      var first := Step(s, state, frames[0]);
      StepBounded(s, state, frames[0]);
      if first.outcome.Running? {
        RunBounded(s, first.state, frames[1..], if n == 0 then 0 else n - 1);
      }
      if n > 0 {
        assert frames[..n][0] == frames[0] && frames[..n][1..] == frames[1..][..n - 1];
      }
    }
  }
}

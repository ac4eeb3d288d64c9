/**
 * What passes the relay and as what: a table independent of the branches that decide it,
 * for single payloads, for conversations and for everything written over a run.
 */
module WsMediation {
  import opened Bytes
  import opened SecretPolicy
  import opened WsConversation
  import opened WsFrames
  import opened WsLegality
  import opened WsRelay
  import MatchReference
  import ScrubCoverage
  import Utf8

  /** A control payload or a whole message, as it was gathered. */
  datatype Arrival = Arrival(opcode: Opcode, compressed: bool, payload: bytes)

  /** What a payload says: a compressed one is inflated, if it can be and is not too long. */
  ghost predicate Says(s: Session, a: Arrival, plain: bytes) {
    if a.compressed then s.inflate(a.payload) == Some(plain) && |plain| <= s.limit else plain == a.payload
  }

  /** Toward the client values are taken out; a message they cannot be taken out of must have none. */
  ghost predicate PassesToClient(m: Mediator, opcode: Opcode, plain: bytes, written: bytes) {
    if opcode == BINARY then m.scrub(plain).1 == {} && written == plain else written == m.scrub(plain).0
  }

  /** Upstream only text may carry placeholders, and then the real values are put in. */
  ghost predicate PassesUpstream(m: Mediator, opcode: Opcode, plain: bytes, written: bytes) {
    if m.placeholderNames(plain) == {} then written == plain
    else opcode == TEXT && m.substitute(plain) == Some(written)
  }

  /** The frame is what this arrival may be forwarded as. */
  ghost predicate Passes(s: Session, a: Arrival, w: Frame) {
    && w.fin && w.opcode == a.opcode && w.compressed == (s.compression && !WsFrames.Control(a.opcode))
    && exists plain :: Says(s, a, plain) && PassesAs(s, a.opcode, plain, w.payload)
  }

  ghost predicate PassesAs(s: Session, opcode: Opcode, plain: bytes, written: bytes) {
    && (opcode == TEXT ==> Utf8.Valid(plain) && |written| <= s.limit)
    && match s.mediator
       case None => written == plain
       case Some(m) =>
         if s.direction.ClientToUpstream? then PassesUpstream(m, opcode, plain, written)
         else PassesToClient(m, opcode, plain, written) && (WsFrames.Control(opcode) ==> |written| <= 125)
  }

  // --- single payloads ---

  /** A control payload is forwarded exactly as what it may pass as, or refused if it may not pass. */
  lemma ControlPasses(s: Session, state: State, opcode: Opcode, payload: bytes)
    requires WsFrames.Control(opcode)
    ensures var p, a := Forward(s, state, opcode, payload), Arrival(opcode, false, payload);
            && p.state == state
            && (p.outcome.Failed? ==> p.out == [] && forall w :: !Passes(s, a, w))
            && (!p.outcome.Failed? ==>
                  && |p.out| == 1 && Passes(s, a, p.out[0]) && (forall w :: Passes(s, a, w) ==> w == p.out[0])
                  && (p.outcome.Closed? <==> opcode == CLOSE))
  {
    var a := Arrival(opcode, false, payload);
    var r := MediateControl(s, payload);
    assert Says(s, a, payload);
    if r.Ok? {
      assert PassesAs(s, opcode, payload, r.value);
    }
  }

  /** And so is a whole message. */
  lemma MessagePasses(s: Session, opcode: Opcode, compressed: bool, message: bytes)
    requires opcode == TEXT || opcode == BINARY
    ensures var p, a := Complete(s, opcode, compressed, message), Arrival(opcode, compressed, message);
            && p.state == Idle && !p.outcome.Closed?
            && (p.outcome.Failed? ==> p.out == [] && forall w :: !Passes(s, a, w))
            && (!p.outcome.Failed? ==>
                  |p.out| == 1 && Passes(s, a, p.out[0]) && forall w :: Passes(s, a, w) ==> w == p.out[0])
  {
    hide Utf8.Valid;
    var a := Arrival(opcode, compressed, message);
    var plain := Inflated(s, compressed, message);
    if plain.Ok? {
      assert Says(s, a, plain.value);
      var r := MediateMessage(s, opcode, compressed, message);
      if r.Ok? {
        assert PassesAs(s, opcode, plain.value, r.value);
      }
    }
  }

  // --- conversations ---

  /** The arrivals of a conversation: control messages as they come, each message when it is complete. */
  function ControlArrivals(controls: seq<ControlMessage>): seq<Arrival> {
    if controls == [] then []
    else
      var last := controls[|controls| - 1];
      ControlArrivals(controls[..|controls| - 1]) + [Arrival(last.opcode, false, last.payload)]
  }

  function ItemArrivals(item: Item): seq<Arrival> {
    match item
    case Control(c) => [Arrival(c.opcode, false, c.payload)]
    case Message(opcode, compressed, first, rest) =>
      ControlArrivals(Inner(rest)) + [Arrival(opcode, compressed, Text(first, rest))]
  }

  function Arrivals(items: seq<Item>): seq<Arrival> {
    if items == [] then [] else Arrivals(items[..|items| - 1]) + ItemArrivals(items[|items| - 1])
  }

  /**
   * One frame is written for each arrival, in order, as what it passes as: for all of
   * them, or up to the first close, or up to the first that may not pass.
   */
  ghost predicate Delivers(s: Session, arrivals: seq<Arrival>, out: seq<Frame>, outcome: Outcome) {
    && |out| <= |arrivals|
    && (forall k :: 0 <= k < |out| ==> Passes(s, arrivals[k], out[k]))
    && (forall k :: 0 <= k < |out| ==> (arrivals[k].opcode == CLOSE <==> outcome.Closed? && k == |out| - 1))
    && match outcome
       case Running => |out| == |arrivals|
       case Closed => out != []
       case Failed(_) => |out| < |arrivals| && forall w :: !Passes(s, arrivals[|out|], w)
  }

  lemma NothingDelivers(s: Session)
    ensures Delivers(s, [], [], Running)
  {
  }

  lemma ControlDelivers(s: Session, state: State, c: ControlMessage)
    requires GoodControl(c)
    ensures var p := Forward(s, state, c.opcode, c.payload);
            Delivers(s, [Arrival(c.opcode, false, c.payload)], p.out, p.outcome)
  {
    hide Passes, Forward;
    ControlPasses(s, state, c.opcode, c.payload);
  }

  lemma MessageDelivers(s: Session, opcode: Opcode, compressed: bool, message: bytes)
    requires opcode == TEXT || opcode == BINARY
    ensures var p := Complete(s, opcode, compressed, message);
            Delivers(s, [Arrival(opcode, compressed, message)], p.out, p.outcome)
  {
    hide Passes, Complete;
    MessagePasses(s, opcode, compressed, message);
  }

  lemma ThenDelivers(s: Session, a: seq<Arrival>, p: Progress, b: seq<Arrival>, q: Progress)
    requires Delivers(s, a, p.out, p.outcome) && (p.outcome.Running? ==> Delivers(s, b, q.out, q.outcome))
    ensures Delivers(s, a + b, Then(p, q).out, Then(p, q).outcome)
  {
    hide Passes;
    if p.outcome.Running? {
      var out := p.out + q.out;
      forall k | 0 <= k < |out|
        ensures Passes(s, (a + b)[k], out[k])
        ensures (a + b)[k].opcode == CLOSE <==> q.outcome.Closed? && k == |out| - 1
      {
        if k < |a| {
          assert (a + b)[k] == a[k] && out[k] == p.out[k];
        } else {
          assert (a + b)[k] == b[k - |a|] && out[k] == q.out[k - |a|];
        }
      }
    }
  }

  lemma {:induction false} ControlsDeliver(s: Session, state: State, controls: seq<ControlMessage>)
    requires forall c :: c in controls ==> GoodControl(c)
    ensures var p := ControlsForwarded(s, state, controls);
            Delivers(s, ControlArrivals(controls), p.out, p.outcome)
  {
    hide Forward, Delivers, Then;
    if controls == [] {
      NothingDelivers(s);
    } else {
      var init, last := controls[..|controls| - 1], controls[|controls| - 1];
      ControlsDeliver(s, state, init);
      ControlDelivers(s, state, last);
      ThenDelivers(s, ControlArrivals(init), ControlsForwarded(s, state, init),
                   [Arrival(last.opcode, false, last.payload)], Forward(s, state, last.opcode, last.payload));
    }
  }

  lemma {:induction false} InnerAreGood(parts: seq<Part>)
    requires forall p :: p in parts ==> GoodPart(p)
    ensures forall c :: c in Inner(parts) ==> GoodControl(c)
  {
    if parts != [] {
      InnerAreGood(parts[..|parts| - 1]);
      assert GoodPart(parts[|parts| - 1]);
    }
  }

  lemma ItemDelivers(s: Session, item: Item)
    requires GoodItem(s, item)
    ensures var p := ItemForwarded(s, item);
            Delivers(s, ItemArrivals(item), p.out, p.outcome)
  {
    hide Forward, Complete, ControlsForwarded, Delivers, Text, Inner, ControlArrivals, GoodPart, GoodControl;
    match item
    case Control(c) => ControlDelivers(s, Idle, c);
    case Message(opcode, compressed, first, rest) =>
      InnerAreGood(rest);
      ControlsDeliver(s, Idle, Inner(rest));
      MessageDelivers(s, opcode, compressed, Text(first, rest));
      ThenDelivers(s, ControlArrivals(Inner(rest)), ControlsForwarded(s, Idle, Inner(rest)),
                   [Arrival(opcode, compressed, Text(first, rest))],
                   Complete(s, opcode, compressed, Text(first, rest)));
  }

  lemma {:induction false} ConversationDelivers(s: Session, items: seq<Item>)
    requires GoodConversation(s, items)
    ensures var p := ConversationForwarded(s, items);
            Delivers(s, Arrivals(items), p.out, p.outcome)
  {
    hide ItemForwarded, ItemArrivals, Delivers, Then, GoodItem;
    if items == [] {
      NothingDelivers(s);
    } else {
      var init, last := items[..|items| - 1], items[|items| - 1];
      ConversationDelivers(s, init);
      ItemDelivers(s, last);
      ThenDelivers(s, Arrivals(init), ConversationForwarded(s, init), ItemArrivals(last), ItemForwarded(s, last));
    }
  }

  /**
   * The relay writes for every conversation what its arrivals pass as, one frame each
   * and in order, up to the first close or the first that may not pass.
   */
  lemma RelayDelivers(s: Session, items: seq<Item>)
    requires GoodConversation(s, items)
    ensures var run := Run(s, Idle, ConversationFrames(items));
            Delivers(s, Arrivals(items), run.out, run.outcome)
  {
    hide Run, ConversationForwarded, Delivers, GoodConversation;
    RelayForwardsConversation(s, items);
    ConversationDelivers(s, items);
  }

  // --- everything written ---

  /** Every frame written over a run is what something that arrived passes as. */
  lemma {:induction false} RunPasses(s: Session, state: State, frames: seq<Frame>, w: Frame) returns (a: Arrival)
    requires Bounded(s, state) && (forall f :: f in frames ==> Legal(f, s.limit)) && w in Run(s, state, frames).out
    ensures Passes(s, a, w)
    decreases |frames|
  {
    hide Step, Bounded, Legal, Passes;
    var first := Step(s, state, frames[0]);
    StepBounded(s, state, frames[0]);
    if w in first.out {
      a := StepPasses(s, state, frames[0], w);
    } else {
      a := RunPasses(s, first.state, frames[1..], w);
    }
  }

  lemma StepPasses(s: Session, state: State, f: Frame, w: Frame) returns (a: Arrival)
    requires Bounded(s, state) && w in Step(s, state, f).out
    ensures Passes(s, a, w)
  {
    hide Passes, Forward, Complete;
    if f.opcode >= CLOSE {
      a := Arrival(f.opcode, false, f.payload);
      ControlPasses(s, state, f.opcode, f.payload);
    } else if f.opcode == CONTINUATION {
      a := Arrival(state.opcode, state.compressed, state.message + f.payload);
      MessagePasses(s, a.opcode, a.compressed, a.payload);
    } else {
      a := Arrival(f.opcode, f.compressed, f.payload);
      MessagePasses(s, a.opcode, a.compressed, a.payload);
    }
  }

  /** No placeholder leaves in a control or binary frame. */
  lemma NoPlaceholderUpstream(s: Session, state: State, frames: seq<Frame>, w: Frame)
    requires s.mediator.Some? && s.direction.ClientToUpstream?
    requires Bounded(s, state) && (forall f :: f in frames ==> Legal(f, s.limit)) && w in Run(s, state, frames).out
    ensures w.opcode != TEXT ==> s.mediator.value.placeholderNames(w.payload) == {}
  {
    hide Run, Legal, Bounded, Utf8.Valid;
    var a := RunPasses(s, state, frames, w);
  }

  /** Nothing is found in a binary frame on its way to the client, and text and control frames are scrubbed. */
  lemma ScrubbedToClient(s: Session, state: State, frames: seq<Frame>, w: Frame)
    requires s.mediator.Some? && s.direction.UpstreamToClient?
    requires Bounded(s, state) && (forall f :: f in frames ==> Legal(f, s.limit)) && w in Run(s, state, frames).out
    ensures w.opcode == BINARY ==> s.mediator.value.scrub(w.payload).1 == {}
    ensures w.opcode != BINARY ==> exists plain :: w.payload == s.mediator.value.scrub(plain).0
  {
    hide Run, Legal, Bounded, Utf8.Valid;
    var a := RunPasses(s, state, frames, w);
  }

  /** With the static broker: no value in scope starts anywhere in a binary frame sent to the client. */
  lemma NoSecretInBinary(s: Session, state: State, frames: seq<Frame>, w: Frame, secrets: seq<Secret>, client: string,
                         host: string)
    requires ScrubsWith(s, secrets, client, host)
    requires Bounded(s, state) && (forall f :: f in frames ==> Legal(f, s.limit)) && w in Run(s, state, frames).out
    ensures w.opcode == BINARY ==> ScrubCoverage.Free(secrets, w.payload, client, host)
  {
    hide Run, Legal, Bounded, ScrubCoverage.Free, MatchReference.ReferenceScrub;
    ScrubbedToClient(s, state, frames, w);
    ScrubCoverage.NoNamesIsFree(secrets, w.payload, client, host);
  }
}

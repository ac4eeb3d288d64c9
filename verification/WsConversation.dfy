/**
 * Conversations: whole messages, however they are cut into fragments, with
 * control frames before, between and inside them. The relay forwards exactly the
 * conversation, and what it accepts is always a conversation.
 */
module WsConversation {
  import opened Bytes
  import opened Sinks
  import opened WsFrames
  import opened WsRelay
  import WsRoundTrip

  datatype ControlMessage = ControlMessage(opcode: Opcode, payload: bytes)

  /** A later fragment and the control messages that arrive just before it. */
  datatype Part = Part(controls: seq<ControlMessage>, piece: bytes)

  datatype Item =
    | Control(control: ControlMessage)
    | Message(opcode: Opcode, compressed: bool, first: bytes, rest: seq<Part>)

  function Text(first: bytes, rest: seq<Part>): bytes {
    if rest == [] then first else Text(first, rest[..|rest| - 1]) + rest[|rest| - 1].piece
  }

  // --- the frames of a conversation ---

  function ControlFrame(c: ControlMessage): Frame {
    Frame(true, false, c.opcode, c.payload)
  }

  function ControlFrames(controls: seq<ControlMessage>): seq<Frame> {
    if controls == [] then [] else ControlFrames(controls[..|controls| - 1]) + [ControlFrame(controls[|controls| - 1])]
  }

  /** The frames of the later fragments; the last one ends the message if closed. */
  function PartFrames(parts: seq<Part>, closed: bool): seq<Frame> {
    if parts == [] then []
    else
      var last := parts[|parts| - 1];
      PartFrames(parts[..|parts| - 1], false) + ControlFrames(last.controls)
      + [Frame(closed, false, CONTINUATION, last.piece)]
  }

  function ItemFrames(item: Item): seq<Frame> {
    match item
    case Control(c) => [ControlFrame(c)]
    case Message(opcode, compressed, first, rest) =>
      [Frame(rest == [], compressed, opcode, first)] + PartFrames(rest, true)
  }

  function ConversationFrames(items: seq<Item>): seq<Frame> {
    if items == [] then [] else ConversationFrames(items[..|items| - 1]) + ItemFrames(items[|items| - 1])
  }

  // --- what should be forwarded ---

  function ControlsForwarded(s: Session, state: State, controls: seq<ControlMessage>): Progress {
    if controls == [] then Progress(state, [], Running)
    else
      var last := controls[|controls| - 1];
      Then(ControlsForwarded(s, state, controls[..|controls| - 1]), Forward(s, state, last.opcode, last.payload))
  }

  /** The control messages inside a message, in the order they arrive. */
  function Inner(parts: seq<Part>): seq<ControlMessage> {
    if parts == [] then [] else Inner(parts[..|parts| - 1]) + parts[|parts| - 1].controls
  }

  /** A message yields the control messages inside it and then its own transform as one final frame. */
  function ItemForwarded(s: Session, item: Item): Progress {
    match item
    case Control(c) => Forward(s, Idle, c.opcode, c.payload)
    case Message(opcode, compressed, first, rest) =>
      var controls := ControlsForwarded(s, Idle, Inner(rest));
      if controls.outcome.Running? then Then(controls, Complete(s, opcode, compressed, Text(first, rest))) else controls
  }

  function ConversationForwarded(s: Session, items: seq<Item>): Progress {
    if items == [] then Progress(Idle, [], Running)
    else Then(ConversationForwarded(s, items[..|items| - 1]), ItemForwarded(s, items[|items| - 1]))
  }

  // --- conversations the protocol allows ---

  predicate GoodControl(c: ControlMessage) {
    c.opcode == CLOSE || c.opcode == PING || c.opcode == PONG
  }

  predicate GoodPart(part: Part) {
    forall c :: c in part.controls ==> GoodControl(c)
  }

  predicate GoodItem(s: Session, item: Item) {
    match item
    case Control(c) => GoodControl(c)
    case Message(opcode, compressed, first, rest) =>
      && (opcode == TEXT || opcode == BINARY)
      && (compressed ==> s.compression)
      && |Text(first, rest)| <= s.limit
      && forall p :: p in rest ==> GoodPart(p)
  }

  predicate GoodConversation(s: Session, items: seq<Item>) {
    forall i :: i in items ==> GoodItem(s, i)
  }

  /** Apart from the message being gathered, the two outcomes agree. */
  ghost predicate SameOutput(a: Progress, b: Progress) {
    a.out == b.out && a.outcome == b.outcome && (a.outcome.Running? ==> a.state == b.state)
  }

  // --- the relay forwards the conversation ---

  lemma {:induction false} ControlsRun(s: Session, state: State, controls: seq<ControlMessage>)
    requires forall c :: c in controls ==> GoodControl(c)
    ensures Run(s, state, ControlFrames(controls)) == ControlsForwarded(s, state, controls)
    ensures ControlsForwarded(s, state, controls).outcome.Running? ==>
              ControlsForwarded(s, state, controls).state == state
  {
    hide Run, MediateControl;
    if controls == [] {
      NothingRuns(s, state);
    } else {
      var init, last := controls[..|controls| - 1], controls[|controls| - 1];
      ControlsRun(s, state, init);
      assert last in controls;
      RunAppended(s, state, ControlFrames(init), ControlFrame(last));
    }
  }

  /** Where control messages are forwarded from does not matter for what is written. */
  lemma {:induction false} ControlsAnywhere(s: Session, a: State, b: State, controls: seq<ControlMessage>)
    ensures var x, y := ControlsForwarded(s, a, controls), ControlsForwarded(s, b, controls);
            x.out == y.out && x.outcome == y.outcome && (x.outcome.Running? ==> x.state == a && y.state == b)
  {
    hide MediateControl;
    if controls != [] {
      ControlsAnywhere(s, a, b, controls[..|controls| - 1]);
    }
  }

  lemma {:induction false} ControlsConcat(s: Session, state: State, a: seq<ControlMessage>, b: seq<ControlMessage>)
    ensures ControlsForwarded(s, state, a + b) == Then(ControlsForwarded(s, state, a), ControlsForwarded(s, state, b))
  {
    hide Forward;
    if b == [] {
      assert a + b == a;
      assert ControlsForwarded(s, state, a).out + [] == ControlsForwarded(s, state, a).out;
      ControlsState(s, state, a);
    } else {
      var init, last := b[..|b| - 1], b[|b| - 1];
      assert (a + b)[..|a + b| - 1] == a + init;
      ControlsConcat(s, state, a, init);
      Associates(ControlsForwarded(s, state, a).out, ControlsForwarded(s, state, init).out,
                 Forward(s, state, last.opcode, last.payload).out);
    }
  }

  lemma {:induction false} ControlsState(s: Session, state: State, controls: seq<ControlMessage>)
    ensures ControlsForwarded(s, state, controls).outcome.Running? ==>
              ControlsForwarded(s, state, controls).state == state
  {
    if controls != [] {
      ControlsState(s, state, controls[..|controls| - 1]);
    }
  }

  lemma {:induction false} TextGrows(first: bytes, rest: seq<Part>, n: nat)
    requires n <= |rest|
    ensures |Text(first, rest[..n])| <= |Text(first, rest)|
  {
    if n == |rest| {
      assert rest[..n] == rest;
    } else {
      assert rest[..|rest| - 1][..n] == rest[..n];
      TextGrows(first, rest[..|rest| - 1], n);
    }
  }

  /** The later fragments of an open message: control messages pass, pieces are gathered. */
  lemma {:induction false} PartsRun(s: Session, opcode: Opcode, compressed: bool, first: bytes, parts: seq<Part>)
    requires |Text(first, parts)| <= s.limit
    requires forall p :: p in parts ==> GoodPart(p)
    ensures SameOutput(Run(s, Gathering(opcode, compressed, first), PartFrames(parts, false)),
                       ControlsForwarded(s, Idle, Inner(parts))
                       .(state := Gathering(opcode, compressed, Text(first, parts))))
  {
    hide Run, Forward;
    var start := Gathering(opcode, compressed, first);
    if parts == [] {
      NothingRuns(s, start);
    } else {
      var init, last := parts[..|parts| - 1], parts[|parts| - 1];
      TextGrows(first, parts, |parts| - 1);
      PartsRun(s, opcode, compressed, first, init);
      PartRun(s, opcode, compressed, first, init, last, false);
    }
  }

  /** One more fragment after the earlier ones. */
  lemma PartRun(s: Session, opcode: Opcode, compressed: bool, first: bytes, init: seq<Part>, last: Part, closed: bool)
    requires |Text(first, init) + last.piece| <= s.limit && GoodPart(last)
    requires SameOutput(Run(s, Gathering(opcode, compressed, first), PartFrames(init, false)),
                        ControlsForwarded(s, Idle, Inner(init))
                        .(state := Gathering(opcode, compressed, Text(first, init))))
    ensures var text := Text(first, init) + last.piece;
            var controls := ControlsForwarded(s, Idle, Inner(init) + last.controls);
            var run := Run(s, Gathering(opcode, compressed, first),
                           PartFrames(init, false) + ControlFrames(last.controls)
                           + [Frame(closed, false, CONTINUATION, last.piece)]);
            if controls.outcome.Running? then
              SameOutput(run, Then(controls, if closed then Complete(s, opcode, compressed, text)
                                             else Progress(Gathering(opcode, compressed, text), [], Running)))
            else SameOutput(run, controls)
  {
    hide Run, MediateControl, MediateMessage;
    var start, held := Gathering(opcode, compressed, first), Gathering(opcode, compressed, Text(first, init));
    var frame := Frame(closed, false, CONTINUATION, last.piece);
    var before := PartFrames(init, false) + ControlFrames(last.controls);
    RunAppended(s, start, before, frame);
    RunConcat(s, start, PartFrames(init, false), ControlFrames(last.controls));
    ControlsRun(s, held, last.controls);
    ControlsAnywhere(s, Idle, held, last.controls);
    ControlsConcat(s, Idle, Inner(init), last.controls);
    ControlsState(s, Idle, Inner(init));
  }

  lemma UnfragmentedRun(s: Session, opcode: Opcode, compressed: bool, text: bytes)
    requires GoodItem(s, Message(opcode, compressed, text, []))
    ensures SameOutput(Run(s, Idle, ItemFrames(Message(opcode, compressed, text, []))),
                       ItemForwarded(s, Message(opcode, compressed, text, [])))
  {
    hide Run, MediateMessage;
    var head := Frame(true, compressed, opcode, text);
    RunOne(s, Idle, head);
    assert [head] + [] == [head];
    assert [] + Complete(s, opcode, compressed, text).out == Complete(s, opcode, compressed, text).out;
  }

  lemma FragmentedRun(s: Session, item: Item)
    requires GoodItem(s, item) && item.Message? && item.rest != []
    ensures SameOutput(Run(s, Idle, ItemFrames(item)), ItemForwarded(s, item))
  {
    hide Run, Complete, ControlsForwarded, ControlFrames, GoodPart;
    var Message(opcode, compressed, first, rest) := item;
    var head, start := Frame(false, compressed, opcode, first), Gathering(opcode, compressed, first);
    var init, last := rest[..|rest| - 1], rest[|rest| - 1];
    TextGrows(first, rest, |rest| - 1);
    PartsRun(s, opcode, compressed, first, init);
    PartRun(s, opcode, compressed, first, init, last, true);
    RunOne(s, Idle, head);
    RunConcat(s, Idle, [head], PartFrames(rest, true));
    var run := Run(s, start, PartFrames(rest, true));
    assert [] + run.out == run.out;
  }

  lemma ItemRun(s: Session, item: Item)
    requires GoodItem(s, item)
    ensures SameOutput(Run(s, Idle, ItemFrames(item)), ItemForwarded(s, item))
  {
    match item
    case Control(c) => RunOne(s, Idle, ControlFrame(c));
    case Message(opcode, compressed, first, rest) =>
      if rest == [] {
        UnfragmentedRun(s, opcode, compressed, first);
      } else {
        FragmentedRun(s, item);
      }
  }

  /**
   * However the messages of a conversation are cut, and whatever control messages
   * arrive in between, the relay writes each control message in arrival order and
   * each message's transform once, as one final frame when it is complete, up to
   * the first close or failure.
   */
  lemma {:induction false} RelayForwardsConversation(s: Session, items: seq<Item>)
    requires GoodConversation(s, items)
    ensures SameOutput(Run(s, Idle, ConversationFrames(items)), ConversationForwarded(s, items))
    ensures ConversationForwarded(s, items).outcome.Running? ==> ConversationForwarded(s, items).state == Idle
  {
    hide Run, Forward, Complete, ItemFrames, GoodItem;
    if items == [] {
      NothingRuns(s, Idle);
    } else {
      var init, last := items[..|items| - 1], items[|items| - 1];
      RelayForwardsConversation(s, init);
      RunConcat(s, Idle, ConversationFrames(init), ItemFrames(last));
      ItemRun(s, last);
      ItemEndsIdle(s, last);
    }
  }

  lemma ItemEndsIdle(s: Session, item: Item)
    ensures ItemForwarded(s, item).outcome.Running? ==> ItemForwarded(s, item).state == Idle
  {
    hide MediateControl, MediateMessage;
  }

  // --- what the relay accepts is a conversation ---

  /** A message whose last fragment has not arrived, and the control messages since the latest one. */
  datatype Pending = Pending(opcode: Opcode, compressed: bool, first: bytes, rest: seq<Part>,
                             trailing: seq<ControlMessage>)

  function PendingFrames(p: Pending): seq<Frame> {
    [Frame(false, p.compressed, p.opcode, p.first)] + PartFrames(p.rest, false) + ControlFrames(p.trailing)
  }

  function PendingState(p: Pending): State {
    Gathering(p.opcode, p.compressed, Text(p.first, p.rest))
  }

  ghost predicate GoodPending(s: Session, p: Pending) {
    && (p.opcode == TEXT || p.opcode == BINARY)
    && (p.compressed ==> s.compression)
    && (forall part :: part in p.rest ==> GoodPart(part))
    && (forall c :: c in p.trailing ==> GoodControl(c))
  }

  /** The frames are those of the items and then of the pending message, and the relay is gathering that. */
  ghost predicate Explained(s: Session, frames: seq<Frame>, state: State, items: seq<Item>, pending: Option<Pending>) {
    && GoodConversation(s, items)
    && (pending.None? ==> state == Idle && frames == ConversationFrames(items))
    && (pending.Some? ==>
          && GoodPending(s, pending.value)
          && state == PendingState(pending.value)
          && frames == ConversationFrames(items) + PendingFrames(pending.value))
  }

  lemma ItemAdded(items: seq<Item>, item: Item)
    ensures ConversationFrames(items + [item]) == ConversationFrames(items) + ItemFrames(item)
  {
    assert (items + [item])[..|items|] == items;
  }

  lemma PartAdded(first: bytes, parts: seq<Part>, part: Part, closed: bool)
    ensures PartFrames(parts + [part], closed) ==
            PartFrames(parts, false) + ControlFrames(part.controls) + [Frame(closed, false, CONTINUATION, part.piece)]
    ensures Text(first, parts + [part]) == Text(first, parts) + part.piece
  {
    assert (parts + [part])[..|parts|] == parts;
  }

  lemma ControlAdded(controls: seq<ControlMessage>, c: ControlMessage)
    ensures ControlFrames(controls + [c]) == ControlFrames(controls) + [ControlFrame(c)]
  {
    assert (controls + [c])[..|controls|] == controls;
  }

  /** One more frame accepted between messages. */
  lemma ExplainIdle(s: Session, frames: seq<Frame>, items: seq<Item>, f: Frame)
    returns (items': seq<Item>, pending: Option<Pending>)
    requires Explained(s, frames, Idle, items, None) && Legal(f, s.limit) && Step(s, Idle, f).outcome.Running?
    ensures Explained(s, frames + [f], Step(s, Idle, f).state, items', pending)
  {
    hide Explained, Step, Legal;
    if f.opcode >= CLOSE {
      ExplainOutside(s, frames, items, f);
      return items + [Control(ControlMessage(f.opcode, f.payload))], None;
    }
    if f.fin {
      ExplainWhole(s, frames, items, f);
      return items + [Message(f.opcode, f.compressed, f.payload, [])], None;
    }
    ExplainFirst(s, frames, items, f);
    return items, Some(Pending(f.opcode, f.compressed, f.payload, [], []));
  }

  /** One more control message between messages. */
  lemma ExplainOutside(s: Session, frames: seq<Frame>, items: seq<Item>, f: Frame)
    requires Explained(s, frames, Idle, items, None) && Legal(f, s.limit) && f.opcode >= CLOSE
    requires Step(s, Idle, f).outcome.Running?
    ensures Explained(s, frames + [f], Step(s, Idle, f).state,
                      items + [Control(ControlMessage(f.opcode, f.payload))], None)
  {
    hide MediateControl, ConversationFrames, GoodConversation;
    var item := Control(ControlMessage(f.opcode, f.payload));
    ItemAdded(items, item);
    GoodAdded(s, items, item);
  }

  /** A message in one frame. */
  lemma ExplainWhole(s: Session, frames: seq<Frame>, items: seq<Item>, f: Frame)
    requires Explained(s, frames, Idle, items, None) && Legal(f, s.limit) && f.opcode < CLOSE && f.fin
    requires Step(s, Idle, f).outcome.Running?
    ensures Explained(s, frames + [f], Step(s, Idle, f).state,
                      items + [Message(f.opcode, f.compressed, f.payload, [])], None)
  {
    hide MediateMessage, ConversationFrames, GoodConversation, PartFrames, Text;
    var item := Message(f.opcode, f.compressed, f.payload, []);
    ItemAdded(items, item);
    NoParts(f.payload);
    assert ItemFrames(item) == [f];
    GoodAdded(s, items, item);
  }

  /** The first fragment of a message. */
  lemma ExplainFirst(s: Session, frames: seq<Frame>, items: seq<Item>, f: Frame)
    requires Explained(s, frames, Idle, items, None) && Legal(f, s.limit) && f.opcode < CLOSE && !f.fin
    requires Step(s, Idle, f).outcome.Running?
    ensures Explained(s, frames + [f], Step(s, Idle, f).state, items,
                      Some(Pending(f.opcode, f.compressed, f.payload, [], [])))
  {
    hide MediateMessage, ConversationFrames, GoodConversation, PartFrames, ControlFrames, Text;
    NoParts(f.payload);
    NoControls();
    assert PendingFrames(Pending(f.opcode, f.compressed, f.payload, [], [])) == [f];
  }

  lemma GoodAdded(s: Session, items: seq<Item>, item: Item)
    requires GoodConversation(s, items) && GoodItem(s, item)
    ensures GoodConversation(s, items + [item])
  {
    hide GoodItem;
  }

  lemma NoParts(first: bytes)
    ensures PartFrames([], true) == [] && PartFrames([], false) == [] && Text(first, []) == first
  {
  }

  /** One more control message inside a message. */
  lemma ExplainControl(s: Session, frames: seq<Frame>, items: seq<Item>, p: Pending, f: Frame)
    requires Explained(s, frames, PendingState(p), items, Some(p)) && Legal(f, s.limit) && f.opcode >= CLOSE
    requires Step(s, PendingState(p), f).outcome.Running?
    ensures var c := ControlMessage(f.opcode, f.payload);
            Explained(s, frames + [f], Step(s, PendingState(p), f).state, items, Some(p.(trailing := p.trailing + [c])))
  {
    hide MediateControl, PartFrames, ControlFrames, Text, ConversationFrames, GoodConversation;
    var c := ControlMessage(f.opcode, f.payload);
    ControlAdded(p.trailing, c);
    assert PendingFrames(p.(trailing := p.trailing + [c])) == PendingFrames(p) + [f];
    Associates(ConversationFrames(items), PendingFrames(p), [f]);
  }

  /** One more fragment, which does not end the message. */
  lemma ExplainFragment(s: Session, frames: seq<Frame>, items: seq<Item>, p: Pending, f: Frame)
    requires Explained(s, frames, PendingState(p), items, Some(p)) && Legal(f, s.limit) && f.opcode < CLOSE && !f.fin
    requires Step(s, PendingState(p), f).outcome.Running?
    ensures var more := p.(rest := p.rest + [Part(p.trailing, f.payload)], trailing := []);
            Explained(s, frames + [f], Step(s, PendingState(p), f).state, items, Some(more))
  {
    hide PartFrames, ControlFrames, Text, ConversationFrames, GoodConversation;
    var more := p.(rest := p.rest + [Part(p.trailing, f.payload)], trailing := []);
    PartAdded(p.first, p.rest, Part(p.trailing, f.payload), false);
    NoControls();
    assert PendingFrames(more) == PendingFrames(p) + [f];
    Associates(ConversationFrames(items), PendingFrames(p), [f]);
  }

  /** The fragment that ends the message. */
  lemma ExplainLast(s: Session, frames: seq<Frame>, items: seq<Item>, p: Pending, f: Frame)
    requires Explained(s, frames, PendingState(p), items, Some(p)) && Legal(f, s.limit) && f.opcode < CLOSE && f.fin
    requires Step(s, PendingState(p), f).outcome.Running?
    ensures var item := Message(p.opcode, p.compressed, p.first, p.rest + [Part(p.trailing, f.payload)]);
            Explained(s, frames + [f], Step(s, PendingState(p), f).state, items + [item], None)
  {
    hide MediateMessage, PartFrames, ControlFrames, Text, ConversationFrames, GoodConversation;
    var item := Message(p.opcode, p.compressed, p.first, p.rest + [Part(p.trailing, f.payload)]);
    PartAdded(p.first, p.rest, Part(p.trailing, f.payload), true);
    ItemAdded(items, item);
    GoodAdded(s, items, item);
    assert ItemFrames(item) == PendingFrames(p) + [f];
    Associates(ConversationFrames(items), PendingFrames(p), [f]);
  }

  /** One more frame accepted inside a message. */
  lemma ExplainGathering(s: Session, frames: seq<Frame>, items: seq<Item>, p: Pending, f: Frame)
    returns (items': seq<Item>, pending: Option<Pending>)
    requires Explained(s, frames, PendingState(p), items, Some(p)) && Legal(f, s.limit)
    requires Step(s, PendingState(p), f).outcome.Running?
    ensures Explained(s, frames + [f], Step(s, PendingState(p), f).state, items', pending)
  {
    hide Explained, Step, Legal;
    if f.opcode >= CLOSE {
      ExplainControl(s, frames, items, p, f);
      return items, Some(p.(trailing := p.trailing + [ControlMessage(f.opcode, f.payload)]));
    }
    var part := Part(p.trailing, f.payload);
    if f.fin {
      ExplainLast(s, frames, items, p, f);
      return items + [Message(p.opcode, p.compressed, p.first, p.rest + [part])], None;
    }
    ExplainFragment(s, frames, items, p, f);
    return items, Some(p.(rest := p.rest + [part], trailing := []));
  }

  lemma NoControls()
    ensures ControlFrames([]) == []
  {
  }

  /**
   * As long as nothing ends the connection, the frames accepted so far are those
   * of a conversation the protocol allows, with at most one message unfinished;
   * between messages they are exactly a conversation.
   */
  lemma {:induction false} AcceptedRunsAreConversations(s: Session, frames: seq<Frame>)
    returns (items: seq<Item>, pending: Option<Pending>)
    requires forall f :: f in frames ==> Legal(f, s.limit)
    requires Run(s, Idle, frames).outcome.Running?
    ensures Explained(s, frames, Run(s, Idle, frames).state, items, pending)
  {
    hide Step, Legal, Explained, Run;
    if frames == [] {
      items, pending := [], None;
      NothingExplained(s);
    } else {
      var init, f := frames[..|frames| - 1], frames[|frames| - 1];
      assert frames == init + [f];
      RunAppended(s, Idle, init, f);
      items, pending := AcceptedRunsAreConversations(s, init);
      ExplainedState(s, init, Run(s, Idle, init).state, items, pending);
      if pending.None? {
        items, pending := ExplainIdle(s, init, items, f);
      } else {
        items, pending := ExplainGathering(s, init, items, pending.value, f);
      }
    }
  }

  lemma NothingExplained(s: Session)
    ensures Explained(s, [], Run(s, Idle, []).state, [], None)
  {
  }

  lemma ExplainedState(s: Session, frames: seq<Frame>, state: State, items: seq<Item>, pending: Option<Pending>)
    requires Explained(s, frames, state, items, pending)
    ensures state == if pending.None? then Idle else PendingState(pending.value)
  {
  }

  // --- conversations as bytes ---

  /** Payloads already travel as they are written: compressed ones are compressed. */
  function AsIs(payload: bytes): bytes {
    payload
  }

  lemma OneFrameBack(f: Frame, key: Option<Key>, rest: bytes, limit: nat)
    requires Legal(f, limit) && limit <= MAX_LENGTH
    ensures var stream, after := Frames(Encode(f, key) + rest, key.Some?, limit), Frames(rest, key.Some?, limit);
            stream.frames == [f] + after.frames && stream.error == after.error
  {
    hide Encode, Decode, Legal;
    LegalFits(f, limit);
    WsRoundTrip.WriteThenRead(f, key, rest, limit);
    var data := Encode(f, key) + rest;
    assert data[|Encode(f, key)|..] == rest;
  }

  lemma LegalFits(f: Frame, limit: nat)
    requires Legal(f, limit)
    ensures |f.payload| <= limit
  {
  }

  /** Legal frames written one after the other are read back one after the other. */
  lemma {:induction false} FramesBack(frames: seq<Frame>, keys: nat -> Option<Key>, rest: bytes, masked: bool,
                                      limit: nat)
    requires limit <= MAX_LENGTH && (forall f :: f in frames ==> Legal(f, limit)) && forall i :: keys(i).Some? == masked
    ensures var stream := Frames(EncodeAll(frames, keys, AsIs) + rest, masked, limit);
            var after := Frames(rest, masked, limit);
            stream.frames == frames + after.frames && stream.error == after.error
  {
    hide Frames, Encode, Legal;
    if frames == [] {
      assert [] + rest == rest;
    } else {
      var n := |frames| - 1;
      var init, last := frames[..n], frames[n];
      assert frames == init + [last] && last in frames;
      assert keys(n).Some? == masked;
      var bytes := Encode(last, keys(n));
      assert Wire(last, AsIs) == last;
      Associates(EncodeAll(init, keys, AsIs), bytes, rest);
      OneFrameBack(last, keys(n), rest, limit);
      FramesBack(init, keys, bytes + rest, masked, limit);
    }
  }

  /**
   * The bytes of a conversation, whatever keys its frames are masked with: relaying
   * them writes exactly what is to be forwarded, and it ends as the conversation
   * does, or else for want of more.
   */
  lemma BytesForwarded(s: Session, items: seq<Item>, keys: nat -> Option<Key>, masked: bool)
    requires GoodConversation(s, items) && s.limit <= MAX_LENGTH
    requires (forall f :: f in ConversationFrames(items) ==> Legal(f, s.limit)) && forall i :: keys(i).Some? == masked
    ensures var forwarded := ConversationForwarded(s, items);
            var relayed := Relayed(s, Frames(EncodeAll(ConversationFrames(items), keys, AsIs), masked, s.limit));
            && relayed.out == forwarded.out
            && relayed.outcome == if forwarded.outcome.Running? then Failed(BadFrame(Truncated)) else forwarded.outcome
  {
    hide Frames, EncodeAll, ConversationForwarded, ConversationFrames, Run, GoodConversation, Legal;
    ConversationBack(s, items, keys, masked);
    RelayForwardsConversation(s, items);
  }

  lemma ConversationBack(s: Session, items: seq<Item>, keys: nat -> Option<Key>, masked: bool)
    requires s.limit <= MAX_LENGTH
    requires (forall f :: f in ConversationFrames(items) ==> Legal(f, s.limit)) && forall i :: keys(i).Some? == masked
    ensures Frames(EncodeAll(ConversationFrames(items), keys, AsIs), masked, s.limit) ==
            Stream(ConversationFrames(items), Truncated)
  {
    hide Frames, EncodeAll, ConversationFrames, Legal;
    var frames := ConversationFrames(items);
    var data := EncodeAll(frames, keys, AsIs);
    FramesBack(frames, keys, [], masked, s.limit);
    assert data + [] == data;
    NoFrames(masked, s.limit);
    assert frames + [] == frames;
  }

  lemma NoFrames(masked: bool, limit: nat)
    ensures Frames([], masked, limit) == Stream([], Truncated)
  {
  }

  /**
   * The relay fed with a conversation sends the forwarded frames, encoded, and ends
   * as the conversation does, unless it is cancelled or a write fails; then it has
   * sent what the frames of the earlier turns emit, and at most the beginning of one
   * frame more.
   */
  method RelayConversation(s: Session, ghost items: seq<Item>, ghost received: nat -> Option<Key>, source: ByteSource,
                           expectMask: bool, sink: ByteSink, keys: nat -> Option<Key>, deflate: bytes -> bytes,
                           cancel: nat -> bool)
    returns (end: RelayEnd, ghost turn: nat)
    requires source.Valid() && s.limit <= MAX_LENGTH && forall p :: |deflate(p)| <= MAX_LENGTH
    requires GoodConversation(s, items) && (forall f :: f in ConversationFrames(items) ==> Legal(f, s.limit))
    requires (forall i :: received(i).Some? == expectMask)
    requires source.Rest() == EncodeAll(ConversationFrames(items), received, AsIs)
    modifies source`pos, sink
    ensures turn <= |ConversationFrames(items)| && Uncancelled(cancel, turn)
    ensures end.Cancelled? <==> cancel(turn)
    ensures sink.failures == old(sink.failures) + if end.WriteFailed? then 1 else 0
    ensures var forwarded := ConversationForwarded(s, items);
            && sink.sent <= old(sink.sent) + EncodeAll(forwarded.out, keys, deflate)
            && (end.Ended? ==>
                  && sink.sent == old(sink.sent) + EncodeAll(forwarded.out, keys, deflate)
                  && end.outcome ==
                     if forwarded.outcome.Running? then Failed(BadFrame(Truncated)) else forwarded.outcome)
    ensures var before := Run(s, Idle, ConversationFrames(items)[..turn]).out;
            && (end.Cancelled? ==> sink.sent == old(sink.sent) + EncodeAll(before, keys, deflate))
            && (end.WriteFailed? ==> old(sink.sent) + EncodeAll(before, keys, deflate) <= sink.sent)
  {
    hide Frames, EncodeAll, ConversationForwarded, ConversationFrames, GoodConversation, Legal, Relayed, Run, Step;
    BytesForwarded(s, items, received, expectMask);
    ConversationBack(s, items, received, expectMask);
    ghost var all, before := Frames(source.Rest(), expectMask, s.limit), sink.sent;
    ghost var sent;
    end, sent, turn := RelayWebSocket(s, source, expectMask, sink, keys, deflate, cancel);
    ghost var some := if end.WriteFailed? then turn + 1 else turn;
    RunsOn(s, all.frames, some);
    SoFar(before, Run(s, Idle, all.frames[..some]).out, Relayed(s, all).out, keys, deflate);
    RelayedOut(s, all);
  }

  lemma RelayedOut(s: Session, all: Stream)
    ensures Relayed(s, all).out == Run(s, Idle, all.frames).out
  {
  }
}

/**
 * What the relay may be held to by whoever receives its frames (sections 5.5, 5.6 and
 * 8.1 of RFC 6455), and exactly when mediation breaks it.
 */
module WsLegality {
  import opened Bytes
  import opened SecretPolicy
  import opened WsFrames
  import opened WsRelay
  import MatchReference
  import ScrubText
  import SecretBroker
  import Utf8

  /** The largest payload a receiver with the session's limit has to expect. */
  function Largest(s: Session): nat {
    Max(s.limit, 125)
  }

  /** The receiver accepts the frame, and a text message is text. */
  predicate Proper(s: Session, w: Frame) {
    Legal(w, Largest(s)) && (w.opcode == TEXT ==> Utf8.Valid(w.payload))
  }

  /** What mediation made of a payload is still a close payload, or text. */
  predicate PayloadKept(w: Frame) {
    (w.opcode == CLOSE ==> ClosePayload(w.payload)) && (w.opcode == TEXT ==> Utf8.Valid(w.payload))
  }

  /** Whether mediation leaves payloads of this kind as they are. */
  predicate Unmediated(s: Session, opcode: Opcode) {
    s.mediator.None? || (s.direction.ClientToUpstream? && opcode != TEXT)
  }

  /**
   * A frame written for a frame read is proper exactly if mediation kept its payload
   * one, and so always where mediation leaves payloads alone.
   */
  lemma StepProper(s: Session, state: State, f: Frame, w: Frame)
    requires Bounded(s, state) && Legal(f, s.limit) && w in Step(s, state, f).out
    ensures Proper(s, w) <==> PayloadKept(w)
    ensures Unmediated(s, w.opcode) ==> PayloadKept(w)
  {
    hide Utf8.Valid;
    StepBounded(s, state, f);
  }

  /** The same for everything written over a run. */
  lemma {:induction false} RunProper(s: Session, state: State, frames: seq<Frame>, w: Frame)
    requires Bounded(s, state) && (forall f :: f in frames ==> Legal(f, s.limit)) && w in Run(s, state, frames).out
    ensures Proper(s, w) <==> PayloadKept(w)
    ensures Unmediated(s, w.opcode) ==> PayloadKept(w)
    decreases |frames|
  {
    hide Step, Bounded, Legal, Proper, PayloadKept, Unmediated;
    var first := Step(s, state, frames[0]);
    StepBounded(s, state, frames[0]);
    if w in first.out {
      StepProper(s, state, frames[0], w);
    } else {
      RunProper(s, first.state, frames[1..], w);
    }
  }

  // --- with the static broker ---

  /** The session scrubs with a broker that has these secrets. */
  ghost predicate ScrubsWith(s: Session, secrets: seq<Secret>, client: string, host: string) {
    && s.direction.UpstreamToClient? && s.mediator.Some?
    && forall p :: var r := MatchReference.ReferenceScrub(secrets, p, client, host);
                   s.mediator.value.scrub(p) == (r.data, r.names)
  }

  predicate InScopeIsText(secrets: seq<Secret>, client: string, host: string) {
    forall x :: x in secrets && InScope(x, client, host) ==> ScrubText.TextSecret(x) && ScrubText.LongSecret(x)
  }

  lemma TextStaysText(s: Session, state: State, f: Frame, w: Frame, secrets: seq<Secret>, client: string, host: string)
    requires ScrubsWith(s, secrets, client, host) && InScopeIsText(secrets, client, host)
    requires Bounded(s, state) && w in Step(s, state, f).out && w.opcode == TEXT
    ensures Utf8.Valid(w.payload)
  {
    hide Utf8.Valid, InScope, MatchReference.ReferenceScrub, ScrubText.TextSecret, ScrubText.LongSecret;
    var text := if f.opcode == CONTINUATION then state.message + f.payload else f.payload;
    var compressed := if f.opcode == CONTINUATION then state.compressed else f.compressed;
    var plain := Inflated(s, compressed, text).value;
    ScrubText.ScrubKeepsText(secrets, plain, client, host);
  }

  lemma CloseStaysClose(s: Session, state: State, f: Frame, w: Frame, secrets: seq<Secret>, client: string,
                        host: string)
    requires ScrubsWith(s, secrets, client, host) && InScopeIsText(secrets, client, host)
    requires Bounded(s, state) && Legal(f, s.limit) && w in Step(s, state, f).out && w.opcode == CLOSE
    ensures ClosePayload(w.payload)
  {
    hide Utf8.Valid, InScope, ScrubText.TextSecret, ScrubText.LongSecret, MatchReference.StableSort, MediateMessage;
    if f.payload != [] {
      ReasonIsText(f.payload);
      ScrubText.ScrubBehindTwo(secrets, f.payload, client, host);
    }
  }

  lemma ReasonIsText(payload: bytes)
    requires ClosePayload(payload) && payload != []
    ensures 2 <= |payload| && Utf8.Valid(payload[2..])
  {
  }

  /** With secrets that are text the client is sent proper frames only, over any run. */
  lemma {:induction false} ScrubbedRunProper(s: Session, state: State, frames: seq<Frame>, w: Frame,
                                             secrets: seq<Secret>, client: string, host: string)
    requires ScrubsWith(s, secrets, client, host) && InScopeIsText(secrets, client, host)
    requires Bounded(s, state) && (forall f :: f in frames ==> Legal(f, s.limit)) && w in Run(s, state, frames).out
    ensures Proper(s, w)
    decreases |frames|
  {
    hide Step, Bounded, Legal, ScrubsWith, InScopeIsText, ClosePayload, Utf8.Valid, Proper;
    var first := Step(s, state, frames[0]);
    StepBounded(s, state, frames[0]);
    if w in first.out {
      StepProper(s, state, frames[0], w);
      if w.opcode == TEXT {
        TextStaysText(s, state, frames[0], w, secrets, client, host);
      } else if w.opcode == CLOSE {
        CloseStaysClose(s, state, frames[0], w, secrets, client, host);
      }
    } else {
      ScrubbedRunProper(s, first.state, frames[1..], w, secrets, client, host);
    }
  }

  /** So it is with every broker that was built, if the values in scope are text and encoders keep text. */
  lemma BuiltBrokerRelaysProperly(s: Session, frames: seq<Frame>, w: Frame, secrets: seq<Secret>, client: string,
                                  host: string, definitions: seq<SecretBroker.Definition>, world: SecretBroker.World)
    requires SecretBroker.EachFits(definitions, world) && SecretBroker.ResolvedFrom(secrets, definitions, world)
    requires SecretBroker.EncodersKeepText(world) && ScrubsWith(s, secrets, client, host)
    requires forall x :: x in secrets && InScope(x, client, host) ==> Utf8.Valid(x.value)
    requires (forall f :: f in frames ==> Legal(f, s.limit)) && w in Run(s, Idle, frames).out
    ensures Proper(s, w)
  {
    hide Run, Legal, Proper, ScrubsWith, InScope, Utf8.Valid, SecretBroker.FieldsOk, SecretBroker.EncodersKeepText;
    hide ScrubText.TextSecret, ScrubText.LongSecret, SecretBroker.SecretOf;
    forall x | x in secrets && InScope(x, client, host) ensures ScrubText.TextSecret(x) && ScrubText.LongSecret(x) {
      var k :| 0 <= k < |secrets| && secrets[k] == x;
      assert SecretBroker.Fits(definitions[..k], definitions[k], world);
      SecretBroker.ResolvedIsText(definitions[k], world);
    }
    ScrubbedRunProper(s, Idle, frames, w, secrets, client, host);
  }
}

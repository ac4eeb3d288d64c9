/**
 * Concurrent token rotations and the auth file. The maps are changed under one
 * lock; snapshots are taken and written under a second one, so that the slow
 * file work does not block readers.
 */
module OAuthPersistence {
  import opened Bytes
  import opened OAuthTokens
  import opened OAuthFile

  type Thread = nat

  /** Where one observer of a token response stands; own is the version its change produced. */
  datatype Phase =
    | Changed(own: nat)
    | Locked(own: nat)
    | Snapped(own: nat, file: AuthFile, version: nat)
    | Written(own: nat)
    | Returned(own: nat, ok: bool)

  /**
   * The broker and its file. history records the maps after each change; version
   * numbers are those of the changes, and fileVersion is that of the file's content.
   */
  datatype System = System(
    policy: Policy,
    history: seq<Tokens>,
    holder: Option<Thread>,
    threads: map<Thread, Phase>,
    file: Option<AuthFile>,
    fileVersion: nat)

  function Latest(s: System): nat
    requires s.history != []
  {
    |s.history| - 1
  }

  datatype Move =
    | Change(thread: Thread, event: Event)
    | Acquire(thread: Thread)
    | Snap(thread: Thread, file: AuthFile)
    | Replace(thread: Thread)
    | Fail(thread: Thread)
    | Release(thread: Thread)

  /** The change an observer makes: it matched a definition of the policy and drew fresh placeholders. */
  predicate Acceptable(policy: Policy, t: Tokens, e: Event) {
    && e.definition.name in policy && policy[e.definition.name] == e.definition && e.client in e.definition.clients
    && e.response.access.Some? && e.response.access.value != ""
    && Fresh(e.drawn, t.live.Keys)
  }

  function Changing(t: Tokens, e: Event): Tokens
    requires e.response.access.Some?
  {
    Replaced(t, KeyOf(e.definition.name, e.client), NextRecord(t, e.definition, e.client, e.response, e.drawn, e.now))
  }

  ghost predicate Enabled(s: System, m: Move) {
    && s.history != []
    && match m
       case Change(t, e) => t !in s.threads && Acceptable(s.policy, s.history[Latest(s)], e)
       case Acquire(t) => t in s.threads && s.threads[t].Changed? && s.holder.None?
       case Snap(t, file) =>
         && t in s.threads && s.threads[t].Locked?
         && file.version == AUTH_VERSION && Listing(file.tokens, s.history[Latest(s)].records)
       case Replace(t) => t in s.threads && s.threads[t].Snapped?
       case Fail(t) => t in s.threads && (s.threads[t].Locked? || s.threads[t].Snapped?)
       case Release(t) => t in s.threads && s.threads[t].Written?
  }

  ghost function Next(s: System, m: Move): System
    requires Enabled(s, m)
  {
    match m
    case Change(t, e) =>
      s.(history := s.history + [Changing(s.history[Latest(s)], e)], threads := s.threads[t := Changed(Latest(s) + 1)])
    case Acquire(t) => s.(holder := Some(t), threads := s.threads[t := Locked(s.threads[t].own)])
    case Snap(t, file) => s.(threads := s.threads[t := Snapped(s.threads[t].own, file, Latest(s))])
    case Replace(t) =>
      s.(file := Some(s.threads[t].file), fileVersion := s.threads[t].version,
         threads := s.threads[t := Written(s.threads[t].own)])
    case Fail(t) => s.(holder := None, threads := s.threads[t := Returned(s.threads[t].own, false)])
    case Release(t) => s.(holder := None, threads := s.threads[t := Returned(s.threads[t].own, true)])
  }

  /** A broker just started: no observer yet, and the file, if there is one, is what it loaded. */
  ghost predicate Initial(s: System) {
    && PolicyOk(s.policy)
    && |s.history| == 1 && Mirror(s.history[0]) && InPolicy(s.policy, s.history[0])
    && s.holder.None? && s.threads == map[] && s.fileVersion == 0
    && if s.file.None? then s.history[0] == EMPTY else Load(s.policy, s.file.value) == Ok(s.history[0])
  }

  // --- the invariant ---

  ghost predicate PhaseOk(s: System, t: Thread)
    requires t in s.threads && s.history != []
  {
    var phase := s.threads[t];
    && phase.own <= Latest(s)
    && (s.holder == Some(t) <==> phase.Locked? || phase.Snapped? || phase.Written?)
    && (phase.Snapped? ==>
          && phase.own <= phase.version <= Latest(s) && s.fileVersion <= phase.version
          && Load(s.policy, phase.file) == Ok(s.history[phase.version]))
    && (phase.Written? || (phase.Returned? && phase.ok) ==> s.file.Some? && phase.own <= s.fileVersion)
  }

  ghost predicate Invariant(s: System) {
    && PolicyOk(s.policy) && s.history != []
    && (forall v :: 0 <= v < |s.history| ==> Mirror(s.history[v]) && InPolicy(s.policy, s.history[v]))
    && s.fileVersion <= Latest(s)
    && (if s.file.None? then s.fileVersion == 0 && s.history[0] == EMPTY
        else Load(s.policy, s.file.value) == Ok(s.history[s.fileVersion]))
    && (s.holder.Some? ==> s.holder.value in s.threads)
    && (forall t :: t in s.threads ==> PhaseOk(s, t))
  }

  lemma ChangeKeeps(s: System, t: Thread, e: Event)
    requires Invariant(s) && Enabled(s, Change(t, e))
    ensures Invariant(Next(s, Change(t, e)))
  {
    hide Mirror, Load, PhaseOk;
    ChangePhases(s, t, e);
    var before := s.history[Latest(s)];
    ObserveMirrors(before, e.definition, e.client, e.response, e.drawn, e.now);
    ChangeInPolicy(s.policy, before, e);
    hide InPolicy, Changing;
  }

  lemma ChangePhases(s: System, t: Thread, e: Event)
    requires Invariant(s) && Enabled(s, Change(t, e))
    ensures forall u :: u in Next(s, Change(t, e)).threads ==> PhaseOk(Next(s, Change(t, e)), u)
  {
    hide Mirror, Load, Changing, InPolicy, PolicyOk;
    var after := Next(s, Change(t, e));
    forall u | u in after.threads ensures PhaseOk(after, u) {
      if u != t {
        assert PhaseOk(s, u);
      }
    }
  }

  lemma ChangeInPolicy(policy: Policy, t: Tokens, e: Event)
    requires InPolicy(policy, t) && Acceptable(policy, t, e)
    ensures InPolicy(policy, Changing(t, e))
  {
  }

  lemma MoveKeeps(s: System, m: Move)
    requires Invariant(s) && Enabled(s, m) && !m.Change?
    ensures Invariant(Next(s, m))
    ensures s.fileVersion <= Next(s, m).fileVersion
  {
    hide Load, Mirror, InPolicy, PolicyOk;
    assert PhaseOk(s, m.thread);
    if m.Snap? {
      SaveThenLoad(s.policy, s.history[Latest(s)], m.file);
    }
    hide Listing;
    var after := Next(s, m);
    forall u | u in after.threads ensures PhaseOk(after, u) {
      assert PhaseOk(s, u);
    }
  }

  /** Every move of every thread keeps the invariant, and the file never goes back to an older version. */
  lemma StepKeeps(s: System, m: Move)
    requires Invariant(s) && Enabled(s, m)
    ensures Invariant(Next(s, m))
    ensures s.fileVersion <= Next(s, m).fileVersion && s.policy == Next(s, m).policy && s.history <= Next(s, m).history
  {
    hide Invariant, Changing, Acceptable, Listing;
    if m.Change? {
      ChangeKeeps(s, m.thread, m.event);
    } else {
      MoveKeeps(s, m);
    }
  }

  // --- runs ---

  ghost predicate CanRun(s: System, moves: seq<Move>)
    decreases |moves|
  {
    moves == [] || (Enabled(s, moves[0]) && CanRun(Next(s, moves[0]), moves[1..]))
  }

  ghost function After(s: System, moves: seq<Move>): System
    requires CanRun(s, moves)
    decreases |moves|
  {
    if moves == [] then s else After(Next(s, moves[0]), moves[1..])
  }

  lemma {:induction false} RunKeeps(s: System, moves: seq<Move>)
    requires Invariant(s) && CanRun(s, moves)
    ensures Invariant(After(s, moves)) && s.fileVersion <= After(s, moves).fileVersion
    decreases |moves|
  {
    hide Invariant, Enabled, Next;
    if moves != [] {
      StepKeeps(s, moves[0]);
      RunKeeps(Next(s, moves[0]), moves[1..]);
    }
  }

  /**
   * Under any interleaving of rotations and failures, the file, if written, always
   * loads to the maps as they stood after one of the changes; an observer that
   * returned without error left a file at least as new as its own change; and from
   * any point on the file's version never decreases.
   */
  lemma FileNeverGoesBack(s: System, moves: seq<Move>, more: seq<Move>)
    requires Initial(s) && CanRun(s, moves) && CanRun(After(s, moves), more)
    ensures var now, later := After(s, moves), After(After(s, moves), more);
            && now.history != [] && now.fileVersion < |now.history|
            && (now.file.Some? ==> Load(now.policy, now.file.value) == Ok(now.history[now.fileVersion]))
            && (forall t :: t in now.threads && now.threads[t].Returned? && now.threads[t].ok ==>
                  now.file.Some? && now.threads[t].own <= now.fileVersion)
            && now.fileVersion <= later.fileVersion
  {
    hide Mirror, Load, Enabled, Next;
    InitialInvariant(s);
    RunKeeps(s, moves);
    RunKeeps(After(s, moves), more);
    var now := After(s, moves);
    forall t | t in now.threads && now.threads[t].Returned? && now.threads[t].ok
      ensures now.file.Some? && now.threads[t].own <= now.fileVersion
    {
      assert PhaseOk(now, t);
    }
  }

  /** Later moves leave an observer its own version, and every version what it was. */
  lemma {:induction false} OwnStays(s: System, moves: seq<Move>, t: Thread)
    requires CanRun(s, moves) && t in s.threads
    ensures var now := After(s, moves);
            t in now.threads && now.threads[t].own == s.threads[t].own && s.history <= now.history
    decreases |moves|
  {
    hide Listing, Acceptable, Changing;
    if moves != [] {
      OwnStays(Next(s, moves[0]), moves[1..], t);
    }
  }

  /**
   * Whatever happens around it: an observer's change is a version of its own, made from
   * the one before it, and once the observer has returned without error, the file has
   * that version or a later one.
   */
  lemma ObserverIsSaved(s: System, before: seq<Move>, t: Thread, e: Event, after: seq<Move>)
    requires Initial(s) && CanRun(s, before) && Enabled(After(s, before), Change(t, e))
    requires CanRun(Next(After(s, before), Change(t, e)), after)
    ensures var was := After(s, before);
            var now := After(Next(was, Change(t, e)), after);
            var own := |was.history|;
            && 0 < own < |now.history| && now.history[..own] == was.history
            && now.history[own] == Changing(was.history[own - 1], e)
            && t in now.threads
            && (now.threads[t].Returned? && now.threads[t].ok ==> now.file.Some? && own <= now.fileVersion)
  {
    hide Changing, Load, Mirror, InPolicy, PolicyOk, Fresh, CanRun;
    var was := After(s, before);
    var next := Next(was, Change(t, e));
    InitialInvariant(s);
    RunKeeps(s, before);
    StepKeeps(was, Change(t, e));
    RunKeeps(next, after);
    OwnStays(next, after, t);
    var now := After(next, after);
    assert next.history == was.history + [Changing(was.history[|was.history| - 1], e)];
    assert now.history[..|next.history|] == next.history;
    assert PhaseOk(now, t);
  }

  lemma InitialInvariant(s: System)
    requires Initial(s)
    ensures Invariant(s)
  {
  }
}

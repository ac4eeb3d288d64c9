/**
 * The bounded flow recorder: callers submit flows to a queue that workers drain,
 * and the handler shuts it down while callers may still be submitting. Every
 * interleaving of their steps is a run of this transition system.
 */
module FlowRecorder {
  import opened Bytes

  /** One call to record a flow; denied flows wait for room for a while, others do not. */
  datatype Job = Job(call: nat, denied: bool)

  datatype Fate = Enqueued | Dropped | Refused

  /** A call inside its submission, on its way out of it, or over. */
  datatype Producer = Submitting(job: Job) | Leaving(fate: Fate) | Over(fate: Fate)

  datatype Worker = Idle | Handling(job: Job) | Exited

  /** A shutdown: the first waits for submissions, all wait for the workers. */
  datatype Closer = WaitsForSubmissions | WaitsForWorkers | Returned(ok: bool)

  /**
   * The recorder's state. enqueued, taken and handled record what happened to the
   * flows so far; dropped and refused count the others.
   */
  datatype Recorder = Recorder(
    capacity: nat,
    workerCount: nat,
    closed: bool,
    created: bool,
    queueClosed: bool,
    queue: seq<Job>,
    workers: seq<Worker>,
    producers: map<nat, Producer>,
    closers: map<nat, Closer>,
    enqueued: seq<Job>,
    taken: seq<Job>,
    handled: seq<Job>,
    dropped: nat,
    refused: nat)

  function Start(capacity: nat, workerCount: nat): Recorder {
    Recorder(capacity, workerCount, false, false, false, [], [], map[], map[], [], [], [], 0, 0)
  }

  datatype Move =
    | Call(call: nat, denied: bool)
    | Send(call: nat)
    | GiveUp(call: nat)
    | Leave(call: nat)
    | Take(worker: nat)
    | Finish(worker: nat)
    | Exit(worker: nat)
    | BeginClose(closer: nat)
    | CloseQueue(closer: nat)
    | EndClose(closer: nat)
    | TimeOut(closer: nat)

  predicate InSubmission(p: Producer) {
    p.Submitting? || p.Leaving?
  }

  predicate NobodySubmits(r: Recorder) {
    forall c :: c in r.producers ==> !InSubmission(r.producers[c])
  }

  predicate AllExited(r: Recorder) {
    forall w :: 0 <= w < |r.workers| ==> r.workers[w].Exited?
  }

  /** When a step can happen. Sending does not look whether the queue is closed: that it never is, is proved. */
  predicate Enabled(r: Recorder, m: Move) {
    match m
    case Call(c, denied) => c !in r.producers
    case Send(c) => c in r.producers && r.producers[c].Submitting? && |r.queue| < r.capacity
    case GiveUp(c) =>
      c in r.producers && r.producers[c].Submitting? && (r.producers[c].job.denied || |r.queue| >= r.capacity)
    case Leave(c) => c in r.producers && r.producers[c].Leaving?
    case Take(w) => w < |r.workers| && r.workers[w].Idle? && r.queue != []
    case Finish(w) => w < |r.workers| && r.workers[w].Handling?
    case Exit(w) => w < |r.workers| && r.workers[w].Idle? && r.queueClosed && r.queue == []
    case BeginClose(c) => c !in r.closers
    case CloseQueue(c) => c in r.closers && r.closers[c].WaitsForSubmissions? && NobodySubmits(r)
    case EndClose(c) => c in r.closers && r.closers[c].WaitsForWorkers? && AllExited(r)
    case TimeOut(c) => c in r.closers && r.closers[c].WaitsForWorkers?
  }

  function Idles(n: nat): (w: seq<Worker>)
    ensures |w| == n && forall i :: 0 <= i < n ==> w[i] == Idle
  {
    if n == 0 then [] else Idles(n - 1) + [Idle]
  }

  function Next(r: Recorder, m: Move): Recorder
    requires Enabled(r, m)
  {
    match m
    case Call(c, denied) =>
      if r.closed then r.(producers := r.producers[c := Over(Refused)], refused := r.refused + 1)
      else
        var submitting := r.(producers := r.producers[c := Submitting(Job(c, denied))]);
        if r.created then submitting else submitting.(created := true, workers := Idles(r.workerCount))
    case Send(c) =>
      var job := r.producers[c].job;
      r.(queue := r.queue + [job], enqueued := r.enqueued + [job], producers := r.producers[c := Leaving(Enqueued)])
    case GiveUp(c) => r.(producers := r.producers[c := Leaving(Dropped)], dropped := r.dropped + 1)
    case Leave(c) => r.(producers := r.producers[c := Over(r.producers[c].fate)])
    case Take(w) =>
      r.(workers := r.workers[w := Handling(r.queue[0])], queue := r.queue[1..], taken := r.taken + [r.queue[0]])
    case Finish(w) => r.(workers := r.workers[w := Idle], handled := r.handled + [r.workers[w].job])
    case Exit(w) => r.(workers := r.workers[w := Exited])
    case BeginClose(c) =>
      r.(closed := true, closers := r.closers[c := if r.closed then WaitsForWorkers else WaitsForSubmissions])
    case CloseQueue(c) => r.(queueClosed := r.created, closers := r.closers[c := WaitsForWorkers])
    case EndClose(c) => r.(closers := r.closers[c := Returned(true)])
    case TimeOut(c) => r.(closers := r.closers[c := Returned(false)])
  }

  // --- shutdown is safe ---

  /** A call that holds the submission count found the recorder open, and the queue stays open for it. */
  predicate ProducersOk(r: Recorder) {
    forall c :: c in r.producers && InSubmission(r.producers[c]) ==> r.created && !r.queueClosed
  }

  predicate WorkersOk(r: Recorder) {
    && |r.workers| == (if r.created then r.workerCount else 0)
    && forall w :: 0 <= w < |r.workers| && r.workers[w].Exited? ==> r.queueClosed && r.queue == []
  }

  /** Only the first shutdown closes the queue, and only once. */
  predicate ClosersOk(r: Recorder) {
    && (forall c :: c in r.closers ==> r.closed)
    && (forall c :: c in r.closers && r.closers[c].WaitsForSubmissions? ==> !r.queueClosed)
    && (forall c, d ::
          && c in r.closers && d in r.closers
          && r.closers[c].WaitsForSubmissions? && r.closers[d].WaitsForSubmissions? ==>
            c == d)
    && (r.queueClosed ==> r.closed && r.created)
    && (r.closed && r.created && !r.queueClosed ==> exists c :: c in r.closers && r.closers[c].WaitsForSubmissions?)
    && (forall c :: c in r.closers && r.closers[c] == Returned(true) ==> AllExited(r))
  }

  predicate Safe(r: Recorder) {
    r.workerCount > 0 && ProducersOk(r) && WorkersOk(r) && ClosersOk(r)
  }

  lemma ProducersStep(r: Recorder, m: Move)
    requires Safe(r) && Enabled(r, m)
    ensures ProducersOk(Next(r, m))
  {
    if m.Send? || m.GiveUp? {
      assert InSubmission(r.producers[m.call]);
    }
  }

  lemma WorkersStep(r: Recorder, m: Move)
    requires Safe(r) && Enabled(r, m)
    ensures WorkersOk(Next(r, m))
  {
    if m.Send? {
      assert InSubmission(r.producers[m.call]);
    }
  }

  lemma ClosersStep(r: Recorder, m: Move)
    requires Safe(r) && Enabled(r, m)
    ensures ClosersOk(Next(r, m))
  {
    var after := Next(r, m);
    if m.BeginClose? && !r.closed {
      assert after.closers[m.closer].WaitsForSubmissions?;
    } else if after.closed && after.created && !after.queueClosed {
      var c :| c in r.closers && r.closers[c].WaitsForSubmissions?;
      assert after.closers[c].WaitsForSubmissions?;
    }
  }

  lemma SafeStep(r: Recorder, m: Move)
    requires Safe(r) && Enabled(r, m)
    ensures Safe(Next(r, m))
    ensures m.Send? ==> !r.queueClosed
    ensures m.CloseQueue? ==> !r.queueClosed
  {
    ProducersStep(r, m);
    WorkersStep(r, m);
    ClosersStep(r, m);
    hide Next;
    if m.Send? {
      assert InSubmission(r.producers[m.call]);
    }
    SameCount(r, m);
  }

  lemma SameCount(r: Recorder, m: Move)
    requires Enabled(r, m)
    ensures Next(r, m).workerCount == r.workerCount
  {
  }

  // --- no flow is lost or handled twice ---

  /** How many workers have this flow in hand. */
  function Holders(workers: seq<Worker>, job: Job): nat {
    if workers == [] then 0
    else Holders(workers[..|workers| - 1], job) + Holds(workers[|workers| - 1], job)
  }

  function Holds(w: Worker, job: Job): nat {
    if w == Handling(job) then 1 else 0
  }

  lemma {:induction false} HoldersUpdated(workers: seq<Worker>, w: nat, next: Worker, job: Job)
    requires w < |workers|
    ensures Holders(workers[w := next], job) + Holds(workers[w], job) == Holders(workers, job) + Holds(next, job)
  {
    var last, updated := |workers| - 1, workers[w := next];
    if w == last {
      assert updated[..last] == workers[..last];
    } else {
      assert updated[..last] == workers[..last][w := next];
      HoldersUpdated(workers[..last], w, next, job);
    }
  }

  lemma {:induction false} IdleHolders(n: nat, job: Job)
    ensures Holders(Idles(n), job) == 0
  {
    if n > 0 {
      assert Idles(n)[..n - 1] == Idles(n - 1);
      IdleHolders(n - 1, job);
    }
  }

  /** What was enqueued was taken in order or still waits; what was taken is in some worker's hands or handled. */
  ghost predicate Conserved(r: Recorder) {
    && (!r.created ==> r.enqueued == [])
    && r.enqueued == r.taken + r.queue
    && forall job :: multiset(r.taken)[job] == multiset(r.handled)[job] + Holders(r.workers, job)
  }

  lemma ConservedTake(r: Recorder, w: nat)
    requires Conserved(r) && Enabled(r, Take(w))
    ensures Conserved(Next(r, Take(w)))
  {
    hide Holders;
    var first := r.queue[0];
    assert r.queue == [first] + r.queue[1..];
    Associates(r.taken, [first], r.queue[1..]);
    forall job
      ensures multiset(r.taken + [first])[job] ==
              multiset(r.handled)[job] + Holders(r.workers[w := Handling(first)], job)
    {
      HoldersUpdated(r.workers, w, Handling(first), job);
    }
  }

  lemma ConservedFinish(r: Recorder, w: nat)
    requires Conserved(r) && Enabled(r, Finish(w))
    ensures Conserved(Next(r, Finish(w)))
  {
    hide Holders;
    forall job
      ensures multiset(r.taken)[job] ==
                multiset(r.handled + [r.workers[w].job])[job] + Holders(r.workers[w := Idle], job)
    {
      FinishedOne(r.workers, w, r.handled, job);
    }
  }

  lemma FinishedOne(workers: seq<Worker>, w: nat, handled: seq<Job>, job: Job)
    requires w < |workers| && workers[w].Handling?
    ensures multiset(handled + [workers[w].job])[job] + Holders(workers[w := Idle], job) ==
              multiset(handled)[job] + Holders(workers, job)
  {
    HoldersUpdated(workers, w, Idle, job);
    assert multiset(handled + [workers[w].job]) == multiset(handled) + multiset{workers[w].job};
  }

  lemma ConservedCall(r: Recorder, c: nat, denied: bool)
    requires Conserved(r) && WorkersOk(r) && Enabled(r, Call(c, denied))
    ensures Conserved(Next(r, Call(c, denied)))
  {
    forall job ensures Holders(Idles(r.workerCount), job) == 0 {
      IdleHolders(r.workerCount, job);
    }
  }

  lemma ConservedStep(r: Recorder, m: Move)
    requires Conserved(r) && ProducersOk(r) && WorkersOk(r) && Enabled(r, m)
    ensures Conserved(Next(r, m))
  {
    hide Holders;
    if m.Take? {
      ConservedTake(r, m.worker);
    } else if m.Finish? {
      ConservedFinish(r, m.worker);
    } else if m.Exit? {
      forall job {:trigger Holders(Next(r, m).workers, job)}
        ensures Holders(Next(r, m).workers, job) == Holders(r.workers, job)
      {
        HoldersUpdated(r.workers, m.worker, Exited, job);
      }
    } else if m.Call? {
      ConservedCall(r, m.call, m.denied);
    } else if m.Send? {
      assert InSubmission(r.producers[m.call]);
      Associates(r.taken, r.queue, [r.producers[m.call].job]);
    }
  }

  /** The enqueued flows are those of the calls whose fate that is, each once. */
  predicate Accounted(r: Recorder) {
    && (forall j :: j in r.enqueued ==>
          j.call in r.producers && r.producers[j.call] in {Leaving(Enqueued), Over(Enqueued)})
    && (forall i, k :: 0 <= i < k < |r.enqueued| ==> r.enqueued[i].call != r.enqueued[k].call)
    && (forall c :: c in r.producers && r.producers[c].Submitting? ==> r.producers[c].job.call == c)
  }

  lemma AccountedStep(r: Recorder, m: Move)
    requires Accounted(r) && Enabled(r, m)
    ensures Accounted(Next(r, m))
  {
    if m.Send? {
      var job := r.producers[m.call].job;
      assert forall j :: j in r.enqueued ==> j.call != job.call;
      assert forall i :: 0 <= i < |r.enqueued| ==> r.enqueued[i] in r.enqueued;
    }
  }

  /** The calls still in their attempt to enqueue. */
  function Submitters(producers: map<nat, Producer>): set<nat> {
    set c | c in producers && producers[c].Submitting?
  }

  /** Every call is enqueued, dropped, refused or still submitting. */
  predicate Counted(r: Recorder) {
    |r.producers| == |r.enqueued| + r.dropped + r.refused + |Submitters(r.producers)|
  }

  lemma CountedOut(producers: map<nat, Producer>, c: nat, next: Producer)
    requires c in producers && producers[c].Submitting? && !next.Submitting?
    ensures |producers[c := next]| == |producers|
    ensures |Submitters(producers)| == |Submitters(producers[c := next])| + 1
  {
    assert producers[c := next].Keys == producers.Keys;
    assert Submitters(producers) == Submitters(producers[c := next]) + {c};
  }

  lemma CountedIn(producers: map<nat, Producer>, c: nat, next: Producer)
    requires c !in producers
    ensures |producers[c := next]| == |producers| + 1
    ensures |Submitters(producers[c := next])| == |Submitters(producers)| + if next.Submitting? then 1 else 0
  {
    assert producers[c := next].Keys == producers.Keys + {c};
    if next.Submitting? {
      assert Submitters(producers[c := next]) == Submitters(producers) + {c};
    } else {
      assert Submitters(producers[c := next]) == Submitters(producers);
    }
  }

  lemma CountedStay(producers: map<nat, Producer>, c: nat, next: Producer)
    requires c in producers && !producers[c].Submitting? && !next.Submitting?
    ensures |producers[c := next]| == |producers|
    ensures Submitters(producers[c := next]) == Submitters(producers)
  {
    assert producers[c := next].Keys == producers.Keys;
  }

  lemma CountedStep(r: Recorder, m: Move)
    requires Counted(r) && Enabled(r, m)
    ensures Counted(Next(r, m))
  {
    hide Submitters;
    var after := Next(r, m);
    match m {
      case Call(c, denied) => CountedIn(r.producers, c, after.producers[c]);
      case Send(c) => CountedOut(r.producers, c, after.producers[c]);
      case GiveUp(c) => CountedOut(r.producers, c, after.producers[c]);
      case Leave(c) => CountedStay(r.producers, c, after.producers[c]);
      case _ => assert after.producers == r.producers;
    }
  }

  // --- runs ---

  ghost predicate Invariant(r: Recorder) {
    Safe(r) && Conserved(r) && Accounted(r) && Counted(r)
  }

  lemma StepKeeps(r: Recorder, m: Move)
    requires Invariant(r) && Enabled(r, m)
    ensures Invariant(Next(r, m))
  {
    hide Safe, Conserved, Accounted, Counted, Enabled, Next;
    SafeStep(r, m);
    SafeWorkers(r);
    ConservedStep(r, m);
    AccountedStep(r, m);
    CountedStep(r, m);
  }

  lemma SafeWorkers(r: Recorder)
    requires Safe(r)
    ensures WorkersOk(r) && ProducersOk(r)
  {
  }

  predicate CanRun(r: Recorder, moves: seq<Move>)
    decreases |moves|
  {
    moves == [] || (Enabled(r, moves[0]) && CanRun(Next(r, moves[0]), moves[1..]))
  }

  function After(r: Recorder, moves: seq<Move>): Recorder
    requires CanRun(r, moves)
    decreases |moves|
  {
    if moves == [] then r else After(Next(r, moves[0]), moves[1..])
  }

  lemma {:induction false} RunKeeps(r: Recorder, moves: seq<Move>)
    requires Invariant(r) && CanRun(r, moves)
    ensures Invariant(After(r, moves))
    decreases |moves|
  {
    hide Invariant, Enabled, Next;
    if moves != [] {
      StepKeeps(r, moves[0]);
      RunKeeps(Next(r, moves[0]), moves[1..]);
    }
  }

  lemma StartInvariant(capacity: nat, workerCount: nat)
    requires workerCount > 0
    ensures Invariant(Start(capacity, workerCount))
  {
  }

  /**
   * Over every interleaving: no flow is sent on a closed queue and the queue is
   * closed at most once; calls are enqueued, dropped, refused or still submitting;
   * and once a shutdown returned without error, every enqueued flow was handled,
   * exactly once.
   */
  lemma RecorderIsSafe(capacity: nat, workerCount: nat, moves: seq<Move>)
    requires workerCount > 0 && CanRun(Start(capacity, workerCount), moves)
    ensures var r := After(Start(capacity, workerCount), moves);
            && (forall m :: Enabled(r, m) && (m.Send? || m.CloseQueue?) ==> !r.queueClosed)
            && |r.producers| == |r.enqueued| + r.dropped + r.refused + |Submitters(r.producers)|
            && (forall i, k :: 0 <= i < k < |r.enqueued| ==> r.enqueued[i] != r.enqueued[k])
            && (forall c :: c in r.closers && r.closers[c] == Returned(true) ==>
                  r.queue == [] && multiset(r.handled) == multiset(r.enqueued) && NobodySubmits(r))
  {
    StartInvariant(capacity, workerCount);
    RunKeeps(Start(capacity, workerCount), moves);
    var r := After(Start(capacity, workerCount), moves);
    hide Enabled, Next, Conserved, Accounted, Counted;
    forall m | Enabled(r, m) && (m.Send? || m.CloseQueue?) ensures !r.queueClosed {
      SafeStep(r, m);
    }
    forall c | c in r.closers && r.closers[c] == Returned(true)
      ensures r.queue == [] && multiset(r.handled) == multiset(r.enqueued) && NobodySubmits(r)
    {
      ClosedMeansHandled(r, c);
    }
    EnqueuedOnce(r);
    CountsAddUp(r);
  }

  // --- the bound of the queue ---

  lemma {:induction false} RunPrefix(r: Recorder, moves: seq<Move>, n: nat)
    requires CanRun(r, moves) && n < |moves|
    ensures CanRun(r, moves[..n]) && CanRun(r, moves[..n + 1])
    ensures Enabled(After(r, moves[..n]), moves[n])
    ensures After(r, moves[..n + 1]) == Next(After(r, moves[..n]), moves[n])
    decreases n
  {
    hide Enabled, Next;
    if n == 0 {
      assert moves[..1][1..] == [] && moves[..0] == [];
    } else {
      RunPrefix(Next(r, moves[0]), moves[1..], n - 1);
      assert moves[..n][1..] == moves[1..][..n - 1];
      assert moves[..n + 1][1..] == moves[1..][..n];
    }
  }

  lemma BoundedStep(r: Recorder, m: Move)
    requires Enabled(r, m) && |r.queue| <= r.capacity
    ensures Next(r, m).capacity == r.capacity && |Next(r, m).queue| <= r.capacity
    ensures r.dropped <= Next(r, m).dropped <= r.dropped + 1
    ensures Next(r, m).dropped > r.dropped ==>
              exists c :: && c in r.producers && r.producers[c].Submitting?
                          && Next(r, m).producers == r.producers[c := Leaving(Dropped)]
                          && (r.producers[c].job.denied || |r.queue| == r.capacity)
  {
    if m.GiveUp? {
      assert m.call in r.producers && Next(r, m).producers == r.producers[m.call := Leaving(Dropped)];
    }
  }

  /** Over any run the queue keeps to its capacity. */
  lemma {:induction false} QueueIsBounded(r: Recorder, moves: seq<Move>)
    requires CanRun(r, moves) && |r.queue| <= r.capacity
    ensures After(r, moves).capacity == r.capacity && |After(r, moves).queue| <= r.capacity
    decreases |moves|
  {
    hide Enabled, Next;
    if moves != [] {
      BoundedStep(r, moves[0]);
      QueueIsBounded(Next(r, moves[0]), moves[1..]);
    }
  }

  /** Whenever a flow is dropped on a run from the start, it is a denied one or the queue is full. */
  lemma DroppedWhenFull(capacity: nat, workerCount: nat, moves: seq<Move>, n: nat)
    requires CanRun(Start(capacity, workerCount), moves) && n < |moves|
    ensures CanRun(Start(capacity, workerCount), moves[..n]) && CanRun(Start(capacity, workerCount), moves[..n + 1])
    ensures var before := After(Start(capacity, workerCount), moves[..n]);
            var after := After(Start(capacity, workerCount), moves[..n + 1]);
            && before.dropped <= after.dropped <= before.dropped + 1
            && (after.dropped > before.dropped ==>
                  exists c :: && c in before.producers && before.producers[c].Submitting?
                              && after.producers == before.producers[c := Leaving(Dropped)]
                              && (before.producers[c].job.denied || |before.queue| == capacity))
  {
    hide Enabled, Next;
    var start := Start(capacity, workerCount);
    RunPrefix(start, moves, n);
    QueueIsBounded(start, moves[..n]);
    BoundedStep(After(start, moves[..n]), moves[n]);
  }

  lemma EnqueuedOnce(r: Recorder)
    requires Accounted(r)
    ensures forall i, k :: 0 <= i < k < |r.enqueued| ==> r.enqueued[i] != r.enqueued[k]
  {
  }

  lemma CountsAddUp(r: Recorder)
    requires Counted(r)
    ensures |r.producers| == |r.enqueued| + r.dropped + r.refused + |Submitters(r.producers)|
  {
  }

  lemma ClosedMeansHandled(r: Recorder, c: nat)
    requires Safe(r) && Conserved(r) && c in r.closers && r.closers[c] == Returned(true)
    ensures r.queue == [] && multiset(r.handled) == multiset(r.enqueued) && NobodySubmits(r)
  {
    forall job ensures Holders(r.workers, job) == 0 {
      NothingInHand(r.workers, job);
    }
    assert r.created ==> r.workers[0].Exited?;
    assert r.created ==> r.taken + [] == r.taken;
  }

  lemma {:induction false} NothingInHand(workers: seq<Worker>, job: Job)
    requires forall w :: 0 <= w < |workers| ==> workers[w].Exited?
    ensures Holders(workers, job) == 0
  {
    if workers != [] {
      NothingInHand(workers[..|workers| - 1], job);
    }
  }

  /**
   * Shutdown cannot hang: as long as some shutdown has not returned, some step
   * of a caller already submitting, of a worker or of a shutdown can be taken.
   */
  lemma CloseMakesProgress(r: Recorder, c: nat)
    requires Safe(r) && c in r.closers && !r.closers[c].Returned?
    ensures exists m :: Enabled(r, m) && !m.Call? && !m.BeginClose? && !m.TimeOut?
  {
    if r.closers[c].WaitsForSubmissions? {
      SubmissionsProgress(r, c);
    } else if AllExited(r) {
      assert Enabled(r, EndClose(c));
    } else {
      var w :| 0 <= w < |r.workers| && !r.workers[w].Exited?;
      if r.workers[w].Handling? {
        assert Enabled(r, Finish(w));
      } else if r.queue != [] {
        assert Enabled(r, Take(w));
      } else if r.queueClosed {
        assert Enabled(r, Exit(w));
      } else {
        var d :| d in r.closers && r.closers[d].WaitsForSubmissions?;
        SubmissionsProgress(r, d);
      }
    }
  }

  lemma SubmissionsProgress(r: Recorder, c: nat)
    requires c in r.closers && r.closers[c].WaitsForSubmissions?
    ensures exists m :: Enabled(r, m) && !m.Call? && !m.BeginClose? && !m.TimeOut?
  {
    if NobodySubmits(r) {
      assert Enabled(r, CloseQueue(c));
    } else {
      var p :| p in r.producers && InSubmission(r.producers[p]);
      if r.producers[p].Leaving? {
        assert Enabled(r, Leave(p));
      } else if |r.queue| < r.capacity {
        assert Enabled(r, Send(p));
      } else {
        assert Enabled(r, GiveUp(p));
      }
    }
  }

  // --- shutdown ends ---

  function Load(workers: seq<Worker>): nat {
    if workers == [] then 0 else Load(workers[..|workers| - 1]) + Burden(workers[|workers| - 1])
  }

  function Burden(w: Worker): nat {
    match w
    case Handling(job) => 2
    case Idle => 1
    case Exited => 0
  }

  lemma {:induction false} LoadUpdated(workers: seq<Worker>, w: nat, next: Worker)
    requires w < |workers|
    ensures Load(workers[w := next]) + Burden(workers[w]) == Load(workers) + Burden(next)
  {
    var last, updated := |workers| - 1, workers[w := next];
    if w == last {
      assert updated[..last] == workers[..last];
    } else {
      assert updated[..last] == workers[..last][w := next];
      LoadUpdated(workers[..last], w, next);
    }
  }

  /** The calls somewhere inside their submission. */
  function Inside(producers: map<nat, Producer>): set<nat> {
    set c | c in producers && InSubmission(producers[c])
  }

  lemma InsideStays(producers: map<nat, Producer>, c: nat, next: Producer)
    requires c in producers && InSubmission(producers[c]) && InSubmission(next)
    ensures Inside(producers[c := next]) == Inside(producers)
  {
  }

  lemma InsideLeft(producers: map<nat, Producer>, c: nat, next: Producer)
    requires c in producers && InSubmission(producers[c]) && !InSubmission(next)
    ensures |Inside(producers)| == |Inside(producers[c := next])| + 1
  {
    assert Inside(producers) == Inside(producers[c := next]) + {c};
  }

  function Rank(closer: Closer): nat {
    match closer
    case WaitsForSubmissions => 2
    case WaitsForWorkers => 1
    case Returned(ok) => 0
  }

  /** The shutdowns that have at least that far to go. */
  function Closing(closers: map<nat, Closer>, rank: nat): set<nat> {
    set c | c in closers && Rank(closers[c]) >= rank
  }

  lemma ClosingStep(closers: map<nat, Closer>, c: nat, next: Closer, rank: nat)
    requires c in closers && Rank(next) < Rank(closers[c])
    ensures |Closing(closers, rank)| ==
            |Closing(closers[c := next], rank)| + if Rank(next) < rank <= Rank(closers[c]) then 1 else 0
  {
    if Rank(next) < rank <= Rank(closers[c]) {
      assert Closing(closers, rank) == Closing(closers[c := next], rank) + {c};
    } else {
      assert Closing(closers, rank) == Closing(closers[c := next], rank);
    }
  }

  /** What is still to be done if nobody calls or closes any more. */
  function Remaining(r: Recorder): nat {
    4 * |Submitters(r.producers)| + |Inside(r.producers)| + 3 * |r.queue| + Load(r.workers)
    + |Closing(r.closers, 1)| + |Closing(r.closers, 2)|
  }

  /** A new call or a new shutdown, rather than work towards the end of those there are. */
  predicate Starts(m: Move) {
    m.Call? || m.BeginClose?
  }

  lemma ProducersProgress(r: Recorder, m: Move)
    requires Enabled(r, m) && (m.Send? || m.GiveUp? || m.Leave?)
    ensures Remaining(Next(r, m)) < Remaining(r)
  {
    hide Submitters, Inside, Load, Closing;
    var after := Next(r, m);
    if m.Leave? {
      CountedStay(r.producers, m.call, after.producers[m.call]);
      InsideLeft(r.producers, m.call, after.producers[m.call]);
    } else {
      CountedOut(r.producers, m.call, after.producers[m.call]);
      InsideStays(r.producers, m.call, after.producers[m.call]);
    }
  }

  lemma WorkersProgress(r: Recorder, m: Move)
    requires Enabled(r, m) && (m.Take? || m.Finish? || m.Exit?)
    ensures Remaining(Next(r, m)) < Remaining(r)
  {
    hide Submitters, Inside, Load, Closing;
    var after := Next(r, m);
    LoadUpdated(r.workers, m.worker, after.workers[m.worker]);
  }

  lemma ClosersProgress(r: Recorder, m: Move)
    requires Enabled(r, m) && (m.CloseQueue? || m.EndClose? || m.TimeOut?)
    ensures Remaining(Next(r, m)) < Remaining(r)
  {
    hide Submitters, Inside, Load, Closing;
    var after := Next(r, m);
    ClosingStep(r.closers, m.closer, after.closers[m.closer], 1);
    ClosingStep(r.closers, m.closer, after.closers[m.closer], 2);
  }

  /** Every step but a new call or a new shutdown brings the end nearer. */
  lemma StepProgresses(r: Recorder, m: Move)
    requires Enabled(r, m) && !Starts(m)
    ensures Remaining(Next(r, m)) < Remaining(r)
  {
    hide Remaining, Enabled, Next;
    match m {
      case Send(c) => ProducersProgress(r, m);
      case GiveUp(c) => ProducersProgress(r, m);
      case Leave(c) => ProducersProgress(r, m);
      case Take(w) => WorkersProgress(r, m);
      case Finish(w) => WorkersProgress(r, m);
      case Exit(w) => WorkersProgress(r, m);
      case CloseQueue(c) => ClosersProgress(r, m);
      case EndClose(c) => ClosersProgress(r, m);
      case TimeOut(c) => ClosersProgress(r, m);
    }
  }

  /** So without new calls and shutdowns only so many steps are left. */
  lemma {:induction false} RunsEnd(r: Recorder, moves: seq<Move>)
    requires CanRun(r, moves) && forall m :: m in moves ==> !Starts(m)
    ensures |moves| + Remaining(After(r, moves)) <= Remaining(r)
    decreases |moves|
  {
    hide Remaining, Enabled, Next;
    if moves != [] {
      StepProgresses(r, moves[0]);
      RunsEnd(Next(r, moves[0]), moves[1..]);
    }
  }

  /** Nothing but a new call or shutdown, or giving up waiting, can happen. */
  ghost predicate Settled(r: Recorder) {
    forall m :: Enabled(r, m) ==> Starts(m) || m.TimeOut?
  }

  /**
   * Every shutdown ends: from any reachable state, if no call and no shutdown begins,
   * at most so many steps follow, whatever they are; and when no step is left but
   * giving up, every shutdown has returned, so none has to give up.
   */
  lemma CloseFinishes(r: Recorder, moves: seq<Move>)
    requires Invariant(r) && CanRun(r, moves) && forall m :: m in moves ==> !Starts(m)
    ensures |moves| <= Remaining(r)
    ensures Settled(After(r, moves)) ==>
              forall c :: c in After(r, moves).closers ==> After(r, moves).closers[c].Returned?
  {
    hide Remaining, Enabled, Next, CanRun, Conserved, Accounted, Counted, Safe;
    RunsEnd(r, moves);
    RunKeeps(r, moves);
    var after := After(r, moves);
    forall c | Settled(after) && c in after.closers ensures after.closers[c].Returned? {
      if !after.closers[c].Returned? {
        CloseMakesProgress(after, c);
      }
    }
  }
}

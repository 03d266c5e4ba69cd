/** Every interleaving of the executor: each accepted task is invoked exactly once and has
    finished when Stop returns, announcing never blocks, and Stop always returns. */
module ExecutorProofs {
  import opened Executor

  // ----- the invariant, in five parts -----

  predicate Carries(d: Dispatcher) {
    d.Received? || d.Waiting? || d.Handing?
  }

  function Carried(d: Dispatcher): multiset<Task> {
    if Carries(d) then multiset{d.task} else multiset{}
  }

  predicate Shutting(p: Stopper) {
    p.AwaitTasks? || p.Collecting? || p.Signalling? || p.AwaitWorkers? || p.Returned?
  }

  /** How many workers have been told to stop. */
  function Told(p: Stopper, n: nat): int {
    if p.Collecting? || p.Signalling? then p.n else if p.AwaitWorkers? || p.Returned? then n else 0
  }

  /** Which program counters go together. */
  predicate Phases(s: State) {
    && (s.life == New <==> s.dispatcher.NotRunning?)
    && (s.life == Terminated <==> !s.stopper.NotCalled?)
    && (Shutting(s.stopper) <==> s.dispatcher.Exited?)
    && (s.stopper.Terminating? || Shutting(s.stopper) ==> s.wg == 0)
    && (s.life == New ==> s.available == [] && s.accepted == {} && s.poolWg == 0 && s.taskWg == 0 && s.wg == 0)
    && 0 <= Told(s.stopper, |s.workers|) <= |s.workers|
    && (s.stopper.Signalling? ==> s.stopper.n < |s.workers|)
  }

  predicate Born(s: State) {
    forall i | 0 <= i < |s.workers| :: s.workers[i].Unborn? <==> s.life == New
  }

  /** The worker, if any, that the dispatcher or the stopper has taken from the channel. */
  function InHand(s: State): set<nat> {
    (if s.dispatcher.Handing? then {s.dispatcher.w} else {}) + (if s.stopper.Signalling? then {s.stopper.w} else {})
  }

  /** A worker in select is in exactly one place: the channel or somebody's hand. */
  predicate Placed(available: seq<nat>, hand: set<nat>, workers: seq<Worker>) {
    && (forall i | 0 <= i < |available| :: available[i] < |workers| && available[i] !in hand)
    && (forall i, j | 0 <= i < j < |available| :: available[i] != available[j])
    && (forall w | w in hand :: w < |workers|)
    && forall w | 0 <= w < |workers| :: workers[w].Idle? <==> (w in available || w in hand)
  }

  predicate Placement(s: State) {
    Placed(s.available, InHand(s), s.workers)
  }

  /** e.wg counts the tasks that have been accepted and not yet handed to a worker. */
  predicate Outstanding(wg: int, pending: set<Task>, queue: seq<Task>, dispatching: int) {
    wg == |pending| + |queue| + dispatching
  }

  function Dispatching(d: Dispatcher): int {
    One(Carries(d) || d.Handed?)
  }

  predicate QueueCounter(s: State) {
    Outstanding(s.wg, s.pending, s.queue, Dispatching(s.dispatcher))
  }

  predicate PoolCounters(s: State) {
    && s.taskWg == One(s.dispatcher.Waiting? || s.dispatcher.Handing?) + Sum(s.workers, Busy)
    && s.poolWg == Sum(s.workers, Alive)
    && Sum(s.workers, Dismissed) == Told(s.stopper, |s.workers|)
  }

  /** No task is lost or doubled. */
  predicate Conserved(accepted: set<Task>, pending: set<Task>, queue: seq<Task>, carried: multiset<Task>,
                      invoked: seq<Task>, finished: set<Task>, running: multiset<Task>)
  {
    && multiset(accepted) == multiset(pending) + multiset(queue) + carried + multiset(invoked)
    && multiset(invoked) == multiset(finished) + running
  }

  predicate Conservation(s: State) {
    Conserved(s.accepted, s.pending, s.queue, Carried(s.dispatcher), s.invoked, s.finished, RunningTasks(s.workers))
  }

  predicate Inv(s: State) {
    Phases(s) && Born(s) && Placement(s) && QueueCounter(s) && PoolCounters(s) && Conservation(s)
  }

  lemma InitInv(concurrency: nat, queueLength: nat, wait: bool)
    ensures Inv(Init(concurrency, queueLength, wait))
  {
    var s := Init(concurrency, queueLength, wait);
    SumConstant(s.workers, Busy, 0);
    SumConstant(s.workers, Alive, 0);
    SumConstant(s.workers, Dismissed, 0);
    NoneRunning(s.workers);
  }

  // ----- every step keeps each part -----

  lemma KeepsPhases(s: State, step: Step)
    requires Phases(s) && Born(s) && QueueCounter(s) && Enabled(s, step)
    ensures Phases(Do(s, step))
  {
  }

  lemma KeepsBorn(s: State, step: Step)
    requires Phases(s) && Born(s) && Enabled(s, step)
    ensures Born(Do(s, step))
  {
  }

  lemma KeepsPlacement(s: State, step: Step)
    requires Phases(s) && Born(s) && Placement(s) && Enabled(s, step)
    ensures Placement(Do(s, step))
  {
    hide Placed;
    hide Born;
    match step
    case Start => StartPlaced(s);
    case TakeWorker =>
      Take(s.available, InHand(s), s.workers);
      assert InHand(Do(s, step)) == InHand(s) + {s.available[0]};
    case Collect =>
      Take(s.available, InHand(s), s.workers);
      assert InHand(Do(s, step)) == InHand(s) + {s.available[0]};
    case Announce(w) => Offer(s.available, InHand(s), s.workers, w);
    case Hand =>
      Release(s.available, InHand(s), s.workers, s.dispatcher.w, Running(s.dispatcher.task));
      assert InHand(Do(s, step)) == InHand(s) - {s.dispatcher.w};
    case Signal =>
      Release(s.available, InHand(s), s.workers, s.stopper.w, Stopping);
      assert InHand(Do(s, step)) == InHand(s) - {s.stopper.w};
    case Finish(w) => Aside(s.available, InHand(s), s.workers, w, Completing(s.workers[w].task));
    case Complete(w) => Aside(s.available, InHand(s), s.workers, w, Announcing);
    case Leave(w) => Aside(s.available, InHand(s), s.workers, w, Gone);
    case _ =>
  }

  lemma StartPlaced(s: State)
    requires Placement(s) && Born(s) && s.life == New
    ensures Placed(s.available, InHand(s), seq(|s.workers|, _ => Announcing))
  {
  }

  lemma Take(available: seq<nat>, hand: set<nat>, workers: seq<Worker>)
    requires Placed(available, hand, workers) && available != []
    ensures Placed(available[1..], hand + {available[0]}, workers)
  {
    assert available == [available[0]] + available[1..];
  }

  lemma Offer(available: seq<nat>, hand: set<nat>, workers: seq<Worker>, w: nat)
    requires Placed(available, hand, workers) && w < |workers| && !workers[w].Idle?
    ensures Placed(available + [w], hand, workers[w := Idle])
  {
    assert w !in available && w !in hand;
  }

  lemma Release(available: seq<nat>, hand: set<nat>, workers: seq<Worker>, w: nat, x: Worker)
    requires Placed(available, hand, workers) && w in hand && w < |workers| && !x.Idle?
    ensures Placed(available, hand - {w}, workers[w := x])
  {
  }

  lemma Aside(available: seq<nat>, hand: set<nat>, workers: seq<Worker>, w: nat, x: Worker)
    requires Placed(available, hand, workers) && w < |workers| && !workers[w].Idle? && !x.Idle?
    ensures Placed(available, hand, workers[w := x])
  {
  }

  predicate MovesTasks(step: Step) {
    step.Admit? || step.Send? || step.SendDirect? || step.Receive? || step.EndSubmit?
  }

  lemma OthersKeepQueue(s: State, step: Step)
    requires Enabled(s, step) && !MovesTasks(step) && (s.life == New ==> s.dispatcher.NotRunning?)
    ensures var s' := Do(s, step);
      s'.wg == s.wg && s'.pending == s.pending && s'.queue == s.queue &&
        Dispatching(s'.dispatcher) == Dispatching(s.dispatcher)
  {
  }

  lemma KeepsQueueCounter(s: State, step: Step)
    requires QueueCounter(s) && Enabled(s, step)
    requires (step.Admit? ==> step.t !in s.pending) && (s.life == New ==> s.dispatcher.NotRunning?)
    ensures QueueCounter(Do(s, step))
  {
    hide Outstanding;
    var busy := Dispatching(s.dispatcher);
    if !MovesTasks(step) {
      hide Do;
      OthersKeepQueue(s, step);
    } else {
      match step
      case Admit(t) => CountAdmit(s.wg, s.pending, s.queue, busy, t);
      case Send(t) => CountSend(s.wg, s.pending, s.queue, busy, t);
      case SendDirect(t) => CountSend(s.wg, s.pending, s.queue, busy, t);
      case Receive => CountReceive(s.wg, s.pending, s.queue);
      case EndSubmit => CountReceive(s.wg, s.pending, s.queue);
    }
  }

  lemma CountAdmit(wg: int, pending: set<Task>, queue: seq<Task>, busy: int, t: Task)
    requires Outstanding(wg, pending, queue, busy) && t !in pending
    ensures Outstanding(wg + 1, pending + {t}, queue, busy)
  {
    assert |pending + {t}| == |pending| + 1;
  }

  lemma CountSend(wg: int, pending: set<Task>, queue: seq<Task>, busy: int, t: Task)
    requires Outstanding(wg, pending, queue, busy) && t in pending
    ensures Outstanding(wg, pending - {t}, queue + [t], busy)
    ensures Outstanding(wg, pending - {t}, queue, busy + 1)
  {
    assert |pending - {t}| == |pending| - 1;
  }

  lemma CountReceive(wg: int, pending: set<Task>, queue: seq<Task>)
    ensures queue != [] && Outstanding(wg, pending, queue, 0) ==> Outstanding(wg, pending, queue[1..], 1)
    ensures Outstanding(wg, pending, queue, 1) ==> Outstanding(wg - 1, pending, queue, 0)
  {
  }

  lemma KeepsPoolCounters(s: State, step: Step)
    requires Phases(s) && Born(s) && PoolCounters(s) && Enabled(s, step)
    ensures PoolCounters(Do(s, step))
  {
    hide Sum;
    hide Born;
    match step
    case Start => StartCounts(s);
    case Hand => ChangeWorker(s.workers, s.dispatcher.w, Running(s.dispatcher.task));
    case Finish(w) => ChangeWorker(s.workers, w, Completing(s.workers[w].task));
    case Complete(w) => ChangeWorker(s.workers, w, Announcing);
    case Announce(w) => ChangeWorker(s.workers, w, Idle);
    case Leave(w) => ChangeWorker(s.workers, w, Gone);
    case Signal => ChangeWorker(s.workers, s.stopper.w, Stopping);
    case _ =>
  }

  lemma StartCounts(s: State)
    requires Born(s) && s.life == New
    ensures Sum(s.workers, Busy) == Sum(s.workers, Dismissed) == 0
    ensures var ws := seq(|s.workers|, _ => Announcing);
      Sum(ws, Busy) == Sum(ws, Dismissed) == 0 && Sum(ws, Alive) == |ws|
  {
    var ws := seq(|s.workers|, _ => Announcing);
    SumConstant(s.workers, Busy, 0);
    SumConstant(s.workers, Dismissed, 0);
    SumConstant(ws, Busy, 0);
    SumConstant(ws, Alive, 1);
    SumConstant(ws, Dismissed, 0);
  }

  lemma ChangeWorker(ws: seq<Worker>, i: nat, x: Worker)
    requires i < |ws|
    ensures Sum(ws[i := x], Busy) == Sum(ws, Busy) - Busy(ws[i]) + Busy(x)
    ensures Sum(ws[i := x], Alive) == Sum(ws, Alive) - Alive(ws[i]) + Alive(x)
    ensures Sum(ws[i := x], Dismissed) == Sum(ws, Dismissed) - Dismissed(ws[i]) + Dismissed(x)
  {
    SumUpdate(ws, i, x, Busy);
    SumUpdate(ws, i, x, Alive);
    SumUpdate(ws, i, x, Dismissed);
  }

  lemma PendingAccepted(s: State)
    requires Conservation(s)
    ensures s.pending <= s.accepted
  {
    forall t | t in s.pending ensures t in s.accepted {
      assert t in multiset(s.pending);
      assert t in multiset(s.accepted);
    }
  }

  lemma KeepsConservation(s: State, step: Step)
    requires Phases(s) && Born(s) && Conservation(s) && Enabled(s, step)
    ensures Conservation(Do(s, step))
  {
    hide Conserved;
    hide RunningTasks;
    hide Born;
    match step
    case Start => BornIdle(s);
    case Admit(t) => AdmitConserves(s, t);
    case Send(t) => SendConserves(s, t);
    case SendDirect(t) => SendConserves(s, t);
    case Receive => ReceiveConserves(s);
    case Hand => HandConserves(s);
    case Finish(w) => FinishConserves(s, w);
    case Complete(w) => SameRunning(s.workers, w, Announcing);
    case Announce(w) => SameRunning(s.workers, w, Idle);
    case Leave(w) => SameRunning(s.workers, w, Gone);
    case Signal => SameRunning(s.workers, s.stopper.w, Stopping);
    case _ =>
  }

  lemma BornIdle(s: State)
    requires Born(s) && s.life == New
    ensures RunningTasks(s.workers) == RunningTasks(seq(|s.workers|, _ => Announcing)) == multiset{}
  {
    NoneRunning(s.workers);
    NoneRunning(seq(|s.workers|, _ => Announcing));
  }

  lemma SameRunning(ws: seq<Worker>, i: nat, x: Worker)
    requires i < |ws| && !ws[i].Running? && !x.Running?
    ensures RunningTasks(ws[i := x]) == RunningTasks(ws)
  {
    hide RunningTasks;
    RunningUpdate(ws, i, x);
    assert RunningTasks(ws[i := x]) == RunningTasks(ws[i := x]) + TaskOf(ws[i]);
    assert RunningTasks(ws) == RunningTasks(ws) + TaskOf(x);
  }

  lemma AdmitConserves(s: State, t: Task)
    requires Conservation(s) && t !in s.accepted
    ensures Conserved(s.accepted + {t}, s.pending + {t}, s.queue, Carried(s.dispatcher), s.invoked, s.finished,
      RunningTasks(s.workers))
  {
    hide RunningTasks;
    PendingAccepted(s);
    assert multiset(s.pending + {t}) == multiset(s.pending) + multiset{t};
    assert multiset(s.accepted + {t}) == multiset(s.accepted) + multiset{t};
  }

  lemma SendConserves(s: State, t: Task)
    requires Conservation(s) && t in s.pending
    ensures Conserved(s.accepted, s.pending - {t}, s.queue + [t], Carried(s.dispatcher), s.invoked, s.finished,
      RunningTasks(s.workers))
    ensures !Carries(s.dispatcher) ==>
      Conserved(s.accepted, s.pending - {t}, s.queue, multiset{t}, s.invoked, s.finished, RunningTasks(s.workers))
  {
    hide RunningTasks;
    assert multiset(s.pending) == multiset(s.pending - {t}) + multiset{t};
  }

  lemma ReceiveConserves(s: State)
    requires Conservation(s) && s.queue != [] && !Carries(s.dispatcher)
    ensures Conserved(s.accepted, s.pending, s.queue[1..], multiset{s.queue[0]}, s.invoked, s.finished,
      RunningTasks(s.workers))
  {
    hide RunningTasks;
    assert s.queue == [s.queue[0]] + s.queue[1..];
  }

  lemma HandConserves(s: State)
    requires Conservation(s) && Enabled(s, Hand)
    ensures Conservation(Do(s, Hand))
  {
    hide RunningTasks;
    var t := s.dispatcher.task;
    RunningUpdate(s.workers, s.dispatcher.w, Running(t));
    assert RunningTasks(Do(s, Hand).workers) == RunningTasks(s.workers) + multiset{t};
  }

  /** A running task has not finished before. */
  lemma FinishedOnce(s: State, w: nat)
    requires Conservation(s) && w < |s.workers| && s.workers[w].Running?
    ensures s.workers[w].task !in s.finished
  {
    hide RunningTasks;
    var t := s.workers[w].task;
    RunningUpdate(s.workers, w, Idle);
    assert RunningTasks(s.workers)[t] == (RunningTasks(s.workers) + TaskOf(Idle))[t] >= 1;
    assert multiset(s.accepted)[t] <= 1;
    assert multiset(s.invoked)[t] <= multiset(s.accepted)[t];
  }

  lemma FinishConserves(s: State, w: nat)
    requires Conservation(s) && w < |s.workers| && s.workers[w].Running?
    ensures Conservation(Do(s, Finish(w)))
  {
    hide RunningTasks;
    var t := s.workers[w].task;
    RunningUpdate(s.workers, w, Completing(t));
    FinishedOnce(s, w);
    var after := RunningTasks(s.workers[w := Completing(t)]);
    assert RunningTasks(s.workers) == after + multiset{t} by {
      assert RunningTasks(s.workers) == RunningTasks(s.workers) + TaskOf(Completing(t));
    }
    assert multiset(s.finished + {t}) == multiset(s.finished) + multiset{t};
    assert (multiset(s.finished) + multiset{t}) + after == multiset(s.finished) + (after + multiset{t});
  }

  lemma KeepsInv(s: State, step: Step)
    requires Inv(s) && Enabled(s, step)
    ensures Inv(Do(s, step))
  {
    KeepsPhases(s, step);
    KeepsBorn(s, step);
    KeepsPlacement(s, step);
    PendingAccepted(s);
    KeepsQueueCounter(s, step);
    KeepsPoolCounters(s, step);
    KeepsConservation(s, step);
  }

  lemma {:induction false} RunInv(run: seq<State>, concurrency: nat, queueLength: nat, wait: bool)
    requires IsRun(run, concurrency, queueLength, wait)
    ensures Inv(run[|run| - 1])
    ensures |run[|run| - 1].workers| == concurrency
  {
    hide Inv;
    if |run| == 1 {
      InitInv(concurrency, queueLength, wait);
    } else {
      var front := run[..|run| - 1];
      RunInv(front, concurrency, queueLength, wait);
      assert Follows(run[|run| - 2], run[|run| - 1]);
      var step :| Enabled(run[|run| - 2], step) && run[|run| - 1] == Do(run[|run| - 2], step);
      KeepsInv(run[|run| - 2], step);
    }
  }

  // ----- safety -----

  /** At every point of every run a task has been invoked at most once, and only if it was
      accepted; only invoked tasks have finished; the WaitGroups never go below zero; at most
      as many tasks run as there are workers. */
  lemma Safety(run: seq<State>, concurrency: nat, queueLength: nat, wait: bool)
    requires IsRun(run, concurrency, queueLength, wait)
    ensures var s := run[|run| - 1];
      && (forall t :: multiset(s.invoked)[t] <= 1)
      && (forall t | t in s.invoked :: t in s.accepted)
      && (forall t | t in s.finished :: t in s.invoked)
      && s.wg >= 0 && s.taskWg >= 0 && s.poolWg >= 0
      && |RunningTasks(s.workers)| <= concurrency
  {
    var s := run[|run| - 1];
    RunInv(run, concurrency, queueLength, wait);
    InvokedOnce(s);
    CountersNonNegative(s);
    RunningBound(s.workers);
  }

  lemma InvokedOnce(s: State)
    requires Conservation(s)
    ensures forall t :: multiset(s.invoked)[t] <= 1
    ensures forall t | t in s.invoked :: t in s.accepted
    ensures forall t | t in s.finished :: t in s.invoked
  {
    hide RunningTasks;
    forall t ensures multiset(s.invoked)[t] <= multiset(s.accepted)[t] <= 1 {
    }
    forall t | t in s.invoked ensures t in s.accepted {
      assert t in multiset(s.invoked);
      assert t in multiset(s.accepted);
    }
    forall t | t in s.finished ensures t in s.invoked {
      assert t in multiset(s.finished);
      assert t in multiset(s.invoked);
    }
  }

  lemma {:induction false} SumNonNegative(ws: seq<Worker>, f: Worker -> int)
    requires forall w: Worker :: f(w) >= 0
    ensures Sum(ws, f) >= 0
  {
    if ws != [] { SumNonNegative(ws[..|ws| - 1], f); }
  }

  lemma CountersNonNegative(s: State)
    requires QueueCounter(s) && PoolCounters(s)
    ensures s.wg >= 0 && s.taskWg >= 0 && s.poolWg >= 0
  {
    SumNonNegative(s.workers, Busy);
    SumNonNegative(s.workers, Alive);
  }

  lemma {:induction false} RunningBound(ws: seq<Worker>)
    ensures |RunningTasks(ws)| <= |ws|
  {
    if ws != [] { RunningBound(ws[..|ws| - 1]); }
  }

  /** When Stop returns, whatever its argument, every task that was ever accepted has been
      invoked exactly once and its invocation has returned. */
  lemma StopFinishesEverything(run: seq<State>, concurrency: nat, queueLength: nat, wait: bool)
    requires IsRun(run, concurrency, queueLength, wait)
    requires run[|run| - 1].stopper.Returned?
    ensures var s := run[|run| - 1];
      && multiset(s.invoked) == multiset(s.accepted)
      && s.finished == s.accepted
      && forall i | 0 <= i < |s.workers| :: s.workers[i].Stopping? || s.workers[i].Gone?
  {
    var s := run[|run| - 1];
    RunInv(run, concurrency, queueLength, wait);
    AllDismissed(s);
    NoneRunning(s.workers);
    NothingQueued(s);
    forall t ensures t in s.finished <==> t in s.accepted {
      assert t in multiset(s.finished) <==> t in multiset(s.accepted);
    }
  }

  lemma NothingQueued(s: State)
    requires Phases(s) && QueueCounter(s) && Conservation(s) && Shutting(s.stopper)
    ensures s.pending == {} && s.queue == []
    ensures multiset(s.invoked) == multiset(s.accepted)
  {
    hide RunningTasks;
    assert |s.pending| == 0 && |s.queue| == 0;
  }

  lemma AllDismissed(s: State)
    requires Inv(s) && (s.stopper.Returned? || s.stopper.AwaitWorkers?)
    ensures forall i | 0 <= i < |s.workers| :: s.workers[i].Stopping? || s.workers[i].Gone?
  {
    forall i | 0 <= i < |s.workers| ensures s.workers[i].Stopping? || s.workers[i].Gone? {
      SumBelow(s.workers, Dismissed, i);
    }
  }

  /** What Wait waits for: when e.wg is zero every accepted task has been invoked exactly
      once, and those that have not finished are the ones still running. */
  lemma WaitMeans(s: State)
    requires Inv(s) && s.wg == 0
    ensures multiset(s.invoked) == multiset(s.accepted)
    ensures multiset(s.accepted) == multiset(s.finished) + RunningTasks(s.workers)
  {
    hide RunningTasks;
    hide PoolCounters;
    assert |s.pending| == 0 && |s.queue| == 0;
  }

  /** The promise of Wait's comment for a pool of that size: whenever it may return, every
      task accepted so far has completed. */
  ghost predicate WaitKeepsPromise(concurrency: nat, queueLength: nat, wait: bool) {
    forall run: seq<State> | IsRun(run, concurrency, queueLength, wait) && run[|run| - 1].wg == 0 ::
      run[|run| - 1].finished == run[|run| - 1].accepted
  }

  /** Only a pool without workers keeps it, and that one never invokes a task. */
  lemma WaitExact(concurrency: nat, queueLength: nat, wait: bool)
    ensures WaitKeepsPromise(concurrency, queueLength, wait) <==> concurrency == 0
  {
    hide Follows;
    if concurrency == 0 {
      forall run: seq<State> | IsRun(run, concurrency, queueLength, wait) && run[|run| - 1].wg == 0
        ensures run[|run| - 1].finished == run[|run| - 1].accepted
      {
        NoWorkersWait(run, queueLength, wait);
      }
    } else {
      var run := WaitReturnsEarly(concurrency, queueLength, wait, 0);
      assert 0 in run[|run| - 1].accepted;
    }
  }

  lemma NoWorkersWait(run: seq<State>, queueLength: nat, wait: bool)
    requires IsRun(run, 0, queueLength, wait) && run[|run| - 1].wg == 0
    ensures run[|run| - 1].finished == run[|run| - 1].accepted
  {
    hide Follows;
    var s := run[|run| - 1];
    RunInv(run, 0, queueLength, wait);
    WaitMeans(s);
    assert RunningTasks(s.workers) == multiset{};
    forall t ensures t in s.finished <==> t in s.accepted {
      assert t in multiset(s.finished) <==> t in multiset(s.accepted);
    }
  }

  /** In a pool of any other size Wait can return while the task it should have waited for
      is still running. */
  lemma WaitReturnsEarly(concurrency: nat, queueLength: nat, wait: bool, t: Task) returns (run: seq<State>)
    requires concurrency > 0
    ensures IsRun(run, concurrency, queueLength, wait)
    ensures var e := run[|run| - 1];
      && e.accepted == {t} && e.wg == 0 && e.finished == {}
      && |e.workers| == concurrency && e.workers[0] == Running(t)
      && e.life == Started && e.wait == wait && e.dispatcher == Selecting && e.available == []
      && forall i | 0 < i < concurrency :: e.workers[i] == Announcing
  {
    var c := concurrency;
    run := [Init(c, queueLength, wait)];
    run := Extend(run, c, queueLength, wait, Start);
    run := Extend(run, c, queueLength, wait, Admit(t));
    run := Extend(run, c, queueLength, wait, SendDirect(t));
    run := Extend(run, c, queueLength, wait, BeginSubmit);
    run := Extend(run, c, queueLength, wait, Announce(0));
    run := Extend(run, c, queueLength, wait, TakeWorker);
    run := Extend(run, c, queueLength, wait, Hand);
    run := Extend(run, c, queueLength, wait, EndSubmit);
  }

  lemma Extend(run: seq<State>, concurrency: nat, queueLength: nat, wait: bool, step: Step) returns (longer: seq<State>)
    requires IsRun(run, concurrency, queueLength, wait) && Enabled(run[|run| - 1], step)
    ensures IsRun(longer, concurrency, queueLength, wait)
    ensures longer[|longer| - 1] == Do(run[|run| - 1], step)
  {
    longer := run + [Do(run[|run| - 1], step)];
  }

  // ----- progress -----

  function Below(n: nat): (r: set<nat>)
    ensures |r| == n && forall x: nat :: x in r <==> x < n
  {
    if n == 0 then {} else Below(n - 1) + {n - 1}
  }

  lemma {:induction false} DistinctSize(xs: seq<nat>, range: set<nat>)
    requires forall i | 0 <= i < |xs| :: xs[i] in range
    requires forall i, j | 0 <= i < j < |xs| :: xs[i] != xs[j]
    ensures |xs| <= |range|
  {
    if xs != [] {
      var last := xs[|xs| - 1];
      DistinctSize(xs[..|xs| - 1], range - {last});
    }
  }

  /** A worker that wants to announce itself always finds room in the channel. */
  lemma AnnounceNeverBlocks(s: State, w: nat)
    requires Placement(s) && w < |s.workers| && s.workers[w].Announcing?
    ensures Enabled(s, Announce(w))
  {
    DistinctSize(s.available, Below(|s.workers|) - {w});
  }

  /** Steps that are not a new call on the executor. */
  predicate Internal(step: Step) {
    !step.Start? && !step.Admit? && !step.Stop?
  }

  ghost predicate CanMove(s: State) {
    exists step :: Internal(step) && Enabled(s, step)
  }

  /** Some Submit, the dispatcher or Stop is still under way. */
  predicate Unfinished(s: State) {
    || s.pending != {} || s.queue != []
    || Carries(s.dispatcher) || s.dispatcher.Handed?
    || (s.life == Terminated && !s.stopper.Returned?)
  }

  /** The dispatcher waits for a worker of an empty pool, and no Submit can enqueue. */
  predicate WaitsForNobody(s: State) {
    && |s.workers| == 0 && s.dispatcher.Waiting?
    && (s.pending == {} || |s.queue| >= s.queueLength)
  }

  /** Worker w is in select or gone. */
  predicate AtRest(w: Worker) {
    w.Idle? || w.Gone?
  }

  lemma WorkerMoves(s: State, w: nat)
    requires Inv(s) && s.life != New && w < |s.workers| && !AtRest(s.workers[w])
    ensures CanMove(s)
  {
    hide Inv;
    var x := s.workers[w];
    match x
    case Running(_) => assert Enabled(s, Finish(w));
    case Completing(_) => assert Enabled(s, Complete(w));
    case Stopping => assert Enabled(s, Leave(w));
    case Announcing => AnnouncingMoves(s, w);
    case Unborn => BornWorkers(s, w);
  }

  lemma AnnouncingMoves(s: State, w: nat)
    requires Inv(s) && w < |s.workers| && s.workers[w].Announcing?
    ensures CanMove(s)
  {
    AnnounceNeverBlocks(s, w);
  }

  lemma BornWorkers(s: State, w: nat)
    requires Inv(s) && s.life != New && w < |s.workers|
    ensures !s.workers[w].Unborn?
  {
  }

  /** With every worker at rest, a waiting dispatcher or collecting stopper finds one in the
      channel as long as some worker has not gone. */
  lemma SomeAvailable(s: State, w: nat)
    requires Placement(s) && w < |s.workers| && s.workers[w].Idle?
    requires !s.dispatcher.Handing? && !s.stopper.Signalling?
    ensures s.available != []
  {
    assert w in s.available;
  }

  lemma DispatcherMoves(s: State)
    requires Carries(s.dispatcher) || s.dispatcher.Handed?
    requires Inv(s) && !WaitsForNobody(s)
    requires forall w | 0 <= w < |s.workers| :: AtRest(s.workers[w])
    ensures CanMove(s)
  {
    hide Conservation;
    hide Sum;
    match s.dispatcher
    case Received(_) => assert Enabled(s, BeginSubmit);
    case Handed => assert Enabled(s, EndSubmit);
    case Handing(_, w) => assert Enabled(s, Hand);
    case Waiting(_) =>
      if |s.workers| == 0 {
        var t :| t in s.pending;
        assert Enabled(s, Send(t));
      } else {
        NobodyGone(s, 0);
        SomeAvailable(s, 0);
        assert Enabled(s, TakeWorker);
      }
  }

  lemma NobodyGone(s: State, w: nat)
    requires PoolCounters(s) && Phases(s) && w < |s.workers| && !Shutting(s.stopper)
    ensures !s.workers[w].Gone?
  {
    SumBelow(s.workers, Dismissed, w);
  }

  lemma IdleDispatcherMoves(s: State)
    requires Inv(s) && s.dispatcher.Selecting? && Unfinished(s)
    ensures CanMove(s)
  {
    if s.queue != [] {
      assert Enabled(s, Receive);
    } else if s.pending != {} {
      var t :| t in s.pending;
      assert Enabled(s, SendDirect(t));
    } else {
      assert s.wg == 0;
      assert Enabled(s, QueueDrained) || Enabled(s, Terminate);
    }
  }

  /** Somebody is left while fewer than all workers have been told to stop. */
  lemma SomeoneLeft(ws: seq<Worker>)
    requires Sum(ws, Dismissed) < |ws| && forall w | 0 <= w < |ws| :: AtRest(ws[w])
    ensures exists w | 0 <= w < |ws| :: ws[w].Idle?
  {
    if forall w | 0 <= w < |ws| :: !ws[w].Idle? {
      SumConstant(ws, Dismissed, 1);
    }
  }

  lemma StopperMoves(s: State)
    requires Inv(s) && Shutting(s.stopper) && !s.stopper.Returned?
    requires forall w | 0 <= w < |s.workers| :: AtRest(s.workers[w])
    ensures CanMove(s)
  {
    hide Conservation;
    hide Sum;
    match s.stopper
    case AwaitTasks =>
      SumConstant(s.workers, Busy, 0);
      assert Enabled(s, TasksDone);
    case Collecting(n) =>
      if n < |s.workers| {
        SomeoneLeft(s.workers);
        var w :| 0 <= w < |s.workers| && s.workers[w].Idle?;
        SomeAvailable(s, w);
        assert Enabled(s, Collect);
      } else {
        assert Enabled(s, AllSignalled);
      }
    case Signalling(_, w) => assert Enabled(s, Signal);
    case AwaitWorkers =>
      AllDismissed(s);
      SumConstant(s.workers, Alive, 0);
      assert Enabled(s, WorkersGone);
  }

  lemma NothingToTake(s: State)
    requires Inv(s) && WaitsForNobody(s)
    ensures !CanMove(s)
  {
    hide Conservation;
    hide PoolCounters;
    DistinctSize(s.available, Below(0));
    assert s.wg > 0;
    forall step | Internal(step) ensures !Enabled(s, step) {
    }
  }

  /** While anything is unfinished some step can be taken, except exactly when the pool has
      no workers, the dispatcher is waiting for one and no Submit can enqueue. */
  lemma Progress(s: State)
    requires Inv(s) && Unfinished(s)
    ensures CanMove(s) <==> !WaitsForNobody(s)
  {
    hide CanMove;
    if WaitsForNobody(s) {
      NothingToTake(s);
    } else if w: nat :| w < |s.workers| && !AtRest(s.workers[w]) {
      NewIsFinished(s);
      WorkerMoves(s, w);
    } else if Carries(s.dispatcher) || s.dispatcher.Handed? {
      DispatcherMoves(s);
    } else if s.dispatcher.Selecting? {
      IdleDispatcherMoves(s);
    } else {
      NewIsFinished(s);
      StopperMoves(s);
    }
  }

  lemma NewIsFinished(s: State)
    requires Inv(s) && Unfinished(s)
    ensures s.life != New
    ensures s.dispatcher.Exited? ==> Shutting(s.stopper) && !s.stopper.Returned?
  {
    hide RunningTasks;
    hide Sum;
    PendingAccepted(s);
    assert |s.pending| >= 0;
    if s.dispatcher.Exited? { NothingQueued(s); }
  }

  // ----- Stop always returns -----

  function WorkerWeight(w: Worker): int {
    match w
    case Running(_) => 5
    case Completing(_) => 4
    case Announcing => 3
    case Idle => 2
    case Stopping => 1
    case _ => 0
  }

  function DispatcherWeight(d: Dispatcher): int {
    match d
    case Received(_) => 7
    case Waiting(_) => 6
    case Handing(_, _) => 5
    case Handed => 1
    case _ => 0
  }

  function StopperWeight(p: Stopper, n: int): int {
    match p
    case NotCalled => 2 * n + 7
    case AwaitQueue => 2 * n + 6
    case Terminating => 2 * n + 5
    case AwaitTasks => 2 * n + 4
    case Collecting(i) => 2 * (n - i) + 3
    case Signalling(i, _) => 2 * (n - i) + 2
    case AwaitWorkers => 2
    case Returned => 1
  }

  function QueueWeight(pending: set<Task>, queue: seq<Task>): int {
    9 * |pending| + 8 * |queue|
  }

  /** How many steps can still follow, at most, once Stop has been called. */
  function Rank(s: State): int {
    QueueWeight(s.pending, s.queue) + DispatcherWeight(s.dispatcher) + Sum(s.workers, WorkerWeight)
    + StopperWeight(s.stopper, |s.workers|)
  }

  lemma RankPositive(s: State)
    requires Phases(s)
    ensures Rank(s) > 0
  {
    SumNonNegative(s.workers, WorkerWeight);
  }

  lemma SendWeight(pending: set<Task>, queue: seq<Task>, t: Task)
    requires t in pending
    ensures QueueWeight(pending - {t}, queue + [t]) == QueueWeight(pending, queue) - 1
    ensures QueueWeight(pending - {t}, queue) == QueueWeight(pending, queue) - 9
  {
    assert |pending - {t}| == |pending| - 1;
  }

  lemma ReceiveWeight(pending: set<Task>, queue: seq<Task>)
    requires queue != []
    ensures QueueWeight(pending, queue[1..]) == QueueWeight(pending, queue) - 8
  {
  }

  lemma RankFalls(s: State, step: Step)
    requires Phases(s) && s.life == Terminated && Enabled(s, step)
    ensures Rank(Do(s, step)) < Rank(s)
  {
    hide Sum;
    hide QueueWeight;
    assert s.stopper.Collecting? ==> s.stopper.n <= |s.workers|;
    hide Phases;
    match step
    case Send(t) => SendWeight(s.pending, s.queue, t);
    case SendDirect(t) => SendWeight(s.pending, s.queue, t);
    case Receive => ReceiveWeight(s.pending, s.queue);
    case Hand => SumUpdate(s.workers, s.dispatcher.w, Running(s.dispatcher.task), WorkerWeight);
    case Finish(w) => SumUpdate(s.workers, w, Completing(s.workers[w].task), WorkerWeight);
    case Complete(w) => SumUpdate(s.workers, w, Announcing, WorkerWeight);
    case Announce(w) => SumUpdate(s.workers, w, Idle, WorkerWeight);
    case Leave(w) => SumUpdate(s.workers, w, Gone, WorkerWeight);
    case Signal => SumUpdate(s.workers, s.stopper.w, Stopping, WorkerWeight);
    case _ =>
  }

  lemma StaysTerminated(s: State, step: Step)
    requires s.life == Terminated && Enabled(s, step)
    ensures Do(s, step).life == Terminated && !step.Start? && !step.Admit? && !step.Stop?
    ensures |Do(s, step).workers| == |s.workers| && Do(s, step).accepted == s.accepted
  {
  }

  /** Steps taken from s, one after the other. */
  ghost predicate Continues(s: State, more: seq<State>)
    decreases |more|
  {
    more == [] || (Follows(s, more[0]) && Continues(more[0], more[1..]))
  }

  function Last(s: State, more: seq<State>): State {
    if more == [] then s else more[|more| - 1]
  }

  /** However the steps are scheduled, no more than Rank(s) of them can follow once Stop has
      been called; and if the steps go on for as long as any is possible, with at least one
      worker, they end with Stop returned. No task is accepted on the way. */
  lemma {:induction false} StopReturns(s: State, more: seq<State>)
    requires Inv(s) && s.life == Terminated && Continues(s, more)
    ensures |more| < Rank(s)
    ensures var e := Last(s, more);
      && e.accepted == s.accepted
      && (|s.workers| > 0 && (forall e' :: !Follows(e, e')) ==> e.stopper.Returned?)
    decreases |more|
  {
    hide Inv;
    hide Rank;
    if more == [] {
      RankBounded(s);
      if |s.workers| > 0 && !s.stopper.Returned? {
        StopMovesOn(s);
      }
    } else {
      var step :| Enabled(s, step) && more[0] == Do(s, step);
      KeepsInv(s, step);
      InvRankFalls(s, step);
      StaysTerminated(s, step);
      StopReturns(more[0], more[1..]);
    }
  }

  lemma RankBounded(s: State)
    requires Inv(s)
    ensures Rank(s) > 0
  {
    RankPositive(s);
  }

  lemma InvRankFalls(s: State, step: Step)
    requires Inv(s) && s.life == Terminated && Enabled(s, step)
    ensures Rank(Do(s, step)) < Rank(s)
  {
    RankFalls(s, step);
  }

  lemma StopMovesOn(s: State)
    requires Inv(s) && s.life == Terminated && |s.workers| > 0 && !s.stopper.Returned?
    ensures exists e :: Follows(s, e)
  {
    hide Inv;
    Progress(s);
    var step :| Internal(step) && Enabled(s, step);
    assert Follows(s, Do(s, step));
  }

  // ----- pools of no workers -----

  lemma {:induction false} EmptyPoolInvokesNothing(run: seq<State>, queueLength: nat, wait: bool)
    requires IsRun(run, 0, queueLength, wait)
    ensures run[|run| - 1].invoked == []
  {
    hide Inv;
    if |run| > 1 {
      var front := run[..|run| - 1];
      EmptyPoolInvokesNothing(front, queueLength, wait);
      RunInv(front, 0, queueLength, wait);
      var s := front[|front| - 1];
      assert Follows(run[|run| - 2], run[|run| - 1]);
      var step :| Enabled(s, step) && run[|run| - 1] == Do(s, step);
    }
  }

  /** In no run of a pool of no workers that has accepted a task has Stop returned. Every
      longer run is a run too, so it never returns. */
  lemma EmptyPoolNeverStops(run: seq<State>, queueLength: nat, wait: bool)
    requires IsRun(run, 0, queueLength, wait) && run[|run| - 1].accepted != {}
    ensures !run[|run| - 1].stopper.Returned?
  {
    hide Follows;
    var s := run[|run| - 1];
    EmptyPoolInvokesNothing(run, queueLength, wait);
    var t :| t in s.accepted;
    assert t in multiset(s.accepted) && t !in multiset(s.invoked);
    if s.stopper.Returned? {
      StopFinishesEverything(run, 0, queueLength, wait);
    }
  }

  lemma WaitingIsAccepted(s: State)
    requires Inv(s) && WaitsForNobody(s)
    ensures s.accepted != {}
  {
    hide PoolCounters;
    assert s.dispatcher.task in multiset(s.accepted);
  }

  /** Where no step can follow a call of Stop, Stop has returned exactly when the pool has a
      worker or nothing was ever accepted. StopReturns bounds how far off that point is. */
  lemma StopReturnsExact(run: seq<State>, concurrency: nat, queueLength: nat, wait: bool)
    requires IsRun(run, concurrency, queueLength, wait)
    requires var s := run[|run| - 1]; s.life == Terminated && forall e :: !Follows(s, e)
    ensures var s := run[|run| - 1]; s.stopper.Returned? <==> concurrency > 0 || s.accepted == {}
  {
    hide Inv;
    hide Follows;
    var s := run[|run| - 1];
    RunInv(run, concurrency, queueLength, wait);
    if concurrency > 0 {
      assert Last(s, []) == s;
      StopReturns(s, []);
    } else if s.accepted == {} {
      if !s.stopper.Returned? {
        IdleStopMovesOn(s);
      }
    } else {
      EmptyPoolNeverStops(run, queueLength, wait);
    }
  }

  lemma IdleStopMovesOn(s: State)
    requires Inv(s) && s.life == Terminated && s.accepted == {} && !s.stopper.Returned?
    ensures exists e :: Follows(s, e)
  {
    hide Inv;
    if WaitsForNobody(s) { WaitingIsAccepted(s); }
    Progress(s);
    var step :| Internal(step) && Enabled(s, step);
    assert Follows(s, Do(s, step));
  }

  /** A run of a pool of no workers that accepts one task and then is stuck in Stop. */
  lemma EmptyPoolStuck(queueLength: nat, wait: bool, t: Task) returns (run: seq<State>)
    ensures IsRun(run, 0, queueLength, wait)
    ensures var e := run[|run| - 1];
      e.accepted == {t} && e.stopper.AwaitQueue? && !CanMove(e)
  {
    run := [Init(0, queueLength, wait)];
    run := Extend(run, 0, queueLength, wait, Start);
    run := Extend(run, 0, queueLength, wait, Admit(t));
    run := Extend(run, 0, queueLength, wait, SendDirect(t));
    run := Extend(run, 0, queueLength, wait, BeginSubmit);
    run := Extend(run, 0, queueLength, wait, Stop);
    forall step | Internal(step) ensures !Enabled(run[|run| - 1], step) {
    }
  }
}

/** The order in which the executor works: tasks are invoked in the order in which they were
    sent, workers are taken in the order in which they became ready, and workers are stopped
    while tasks run exactly when nobody waits for them. */
module ExecutorOrder {
  import opened Executor
  import opened ExecutorProofs

  // ----- runs with their steps -----

  /** The steps of the run, one for each pair of states. */
  ghost predicate Path(run: seq<State>, steps: seq<Step>) {
    && |run| == |steps| + 1
    && forall i | 0 <= i < |steps| :: Enabled(run[i], steps[i]) && run[i + 1] == Do(run[i], steps[i])
  }

  lemma {:induction false} RunHasPath(run: seq<State>, concurrency: nat, queueLength: nat, wait: bool)
    returns (steps: seq<Step>)
    requires IsRun(run, concurrency, queueLength, wait)
    ensures Path(run, steps)
  {
    hide Enabled;
    hide Do;
    if |run| == 1 {
      steps := [];
    } else {
      var front := run[..|run| - 1];
      steps := RunHasPath(front, concurrency, queueLength, wait);
      assert Follows(run[|run| - 2], run[|run| - 1]);
      var step :| Enabled(run[|run| - 2], step) && run[|run| - 1] == Do(run[|run| - 2], step);
      steps := steps + [step];
      assert forall i | 0 <= i < |front| :: front[i] == run[i];
    }
  }

  // ----- tasks -----

  function SentBy(step: Step): seq<Task> {
    if step.Send? || step.SendDirect? then [step.t] else []
  }

  /** The tasks in the order in which their Submit put them into the channel. */
  function Sent(steps: seq<Step>): seq<Task> {
    if steps == [] then [] else Sent(steps[..|steps| - 1]) + SentBy(steps[|steps| - 1])
  }

  /** The task the dispatcher holds, if any. */
  function InTransit(d: Dispatcher): seq<Task> {
    if d.Received? || d.Waiting? || d.Handing? then [d.task] else []
  }

  function InLine(s: State): seq<Task> {
    s.invoked + InTransit(s.dispatcher) + s.queue
  }

  lemma LineMoves(s: State, step: Step)
    requires Phases(s) && Enabled(s, step)
    ensures InLine(Do(s, step)) == InLine(s) + SentBy(step)
    ensures |s.queue| <= s.queueLength ==> |Do(s, step).queue| <= Do(s, step).queueLength
  {
    var done, held, queue := s.invoked, InTransit(s.dispatcher), s.queue;
    match step
    case Send(t) => assert done + held + (queue + [t]) == done + held + queue + [t];
    case SendDirect(t) => assert done + [t] + [] == done + [] + [] + [t];
    case Receive => assert done + [queue[0]] + queue[1..] == done + [] + queue;
    case Hand => assert (done + [s.dispatcher.task]) + [] + queue == done + [s.dispatcher.task] + queue;
    case _ => assert InLine(s) + [] == InLine(s);
  }

  lemma {:induction false} LineIsSent(run: seq<State>, steps: seq<Step>, concurrency: nat, queueLength: nat, wait: bool)
    requires IsRun(run, concurrency, queueLength, wait) && Path(run, steps)
    ensures InLine(run[|run| - 1]) == Sent(steps)
    ensures |run[|run| - 1].queue| <= run[|run| - 1].queueLength
    decreases |run|
  {
    hide InLine;
    hide Do;
    hide Enabled;
    hide SentBy;
    if |run| == 1 {
      NothingInLine(concurrency, queueLength, wait);
    } else {
      var n := |steps| - 1;
      LineIsSent(run[..n + 1], steps[..n], concurrency, queueLength, wait);
      RunInv(run[..n + 1], concurrency, queueLength, wait);
      LineMoves(run[n], steps[n]);
    }
  }

  lemma NothingInLine(concurrency: nat, queueLength: nat, wait: bool)
    ensures InLine(Init(concurrency, queueLength, wait)) == []
  {
  }

  /** At every point of every run the tasks invoked so far, the one in transit and the queued
      ones are those that were sent, in that order; the queue never exceeds its length. When
      Stop has returned, all were invoked in that order. */
  lemma FirstInFirstOut(run: seq<State>, steps: seq<Step>, concurrency: nat, queueLength: nat, wait: bool)
    requires IsRun(run, concurrency, queueLength, wait) && Path(run, steps)
    ensures var s := run[|run| - 1];
      && s.invoked + InTransit(s.dispatcher) + s.queue == Sent(steps) && s.invoked <= Sent(steps)
      && |s.queue| <= s.queueLength
      && (s.stopper.Returned? ==> s.invoked == Sent(steps))
  {
    hide Follows;
    hide Path;
    var s := run[|run| - 1];
    LineIsSent(run, steps, concurrency, queueLength, wait);
    RunInv(run, concurrency, queueLength, wait);
    if s.stopper.Returned? {
      NothingQueued(s);
      assert s.invoked + [] + [] == s.invoked;
    }
  }

  // ----- workers -----

  function AnnouncedBy(step: Step): seq<nat> {
    if step.Announce? then [step.w] else []
  }

  /** The workers in the order in which they announced themselves. */
  function Announced(steps: seq<Step>): seq<nat> {
    if steps == [] then [] else Announced(steps[..|steps| - 1]) + AnnouncedBy(steps[|steps| - 1])
  }

  /** The worker that the dispatcher or Stop holds after the step that took it. */
  function TakenBy(step: Step, after: State): seq<nat> {
    if step.TakeWorker? && after.dispatcher.Handing? then [after.dispatcher.w]
    else if step.Collect? && after.stopper.Signalling? then [after.stopper.w]
    else []
  }

  function Taken(run: seq<State>, steps: seq<Step>): seq<nat>
    requires |run| == |steps| + 1
  {
    if steps == [] then []
    else Taken(run[..|run| - 1], steps[..|steps| - 1]) + TakenBy(steps[|steps| - 1], run[|run| - 1])
  }

  lemma WorkersMove(s: State, step: Step)
    requires Enabled(s, step)
    ensures TakenBy(step, Do(s, step)) + Do(s, step).available == s.available + AnnouncedBy(step)
  {
    if step.TakeWorker? || step.Collect? {
      assert s.available == [s.available[0]] + s.available[1..];
    }
  }

  /** Workers are taken, for a task or to be stopped, in the order in which they announced
      themselves. */
  lemma {:induction false} WorkersInOrder(run: seq<State>, steps: seq<Step>, concurrency: nat, queueLength: nat,
      wait: bool)
    requires IsRun(run, concurrency, queueLength, wait) && Path(run, steps)
    ensures Taken(run, steps) + run[|run| - 1].available == Announced(steps)
    decreases |run|
  {
    hide Do;
    hide Enabled;
    hide TakenBy;
    hide AnnouncedBy;
    if |run| > 1 {
      var n := |steps| - 1;
      WorkersInOrder(run[..n + 1], steps[..n], concurrency, queueLength, wait);
      WorkersMove(run[n], steps[n]);
      var a, t := Taken(run[..n + 1], steps[..n]), TakenBy(steps[n], run[n + 1]);
      assert (a + t) + run[n + 1].available == a + (t + run[n + 1].available);
      assert a + (run[n].available + AnnouncedBy(steps[n])) == (a + run[n].available) + AnnouncedBy(steps[n]);
    }
  }

  // ----- stopping while tasks run -----

  predicate IsBusy(w: Worker) {
    w.Running? || w.Completing?
  }

  predicate IsDismissed(w: Worker) {
    w.Stopping? || w.Gone?
  }

  /** No worker has been told to stop while a task is not complete. */
  predicate StopsIdle(s: State) {
    forall i, j | 0 <= i < |s.workers| && 0 <= j < |s.workers| && IsDismissed(s.workers[i]) :: !IsBusy(s.workers[j])
  }

  predicate Dismissing(p: Stopper) {
    p.Collecting? || p.Signalling? || p.AwaitWorkers? || p.Returned?
  }

  lemma NoneBusy(s: State)
    requires Inv(s) && s.taskWg == 0
    ensures forall j | 0 <= j < |s.workers| :: !IsBusy(s.workers[j])
  {
    hide Conservation;
    hide Placement;
    SumNonNegative(s.workers, Busy);
    forall j | 0 <= j < |s.workers|
      ensures !IsBusy(s.workers[j])
    {
      SumBelow(s.workers, Busy, j);
    }
  }

  lemma NoneDismissed(s: State)
    requires Inv(s) && !Dismissing(s.stopper)
    ensures forall j | 0 <= j < |s.workers| :: !IsDismissed(s.workers[j])
  {
    hide Conservation;
    hide Placement;
    forall j | 0 <= j < |s.workers|
      ensures !IsDismissed(s.workers[j])
    {
      SumBelow(s.workers, Dismissed, j);
    }
  }

  /** With wait, Stop dismisses workers only when all tasks are complete. */
  predicate WaitsFirst(s: State) {
    s.wait && Dismissing(s.stopper) ==> s.taskWg == 0
  }

  lemma KeepsWaitsFirst(s: State, step: Step)
    requires Inv(s) && Enabled(s, step) && WaitsFirst(s)
    ensures WaitsFirst(Do(s, step)) && Do(s, step).wait == s.wait
  {
    hide Conservation;
    hide Placement;
    hide PoolCounters;
    if step.Complete? && s.taskWg == 0 {
      NoneBusy(s);
    }
  }

  lemma {:induction false} RunWaitsFirst(run: seq<State>, concurrency: nat, queueLength: nat, wait: bool)
    requires IsRun(run, concurrency, queueLength, wait)
    ensures WaitsFirst(run[|run| - 1]) && run[|run| - 1].wait == wait
  {
    hide Inv;
    hide WaitsFirst;
    if |run| == 1 {
      AtFirst(concurrency, queueLength, wait);
    } else {
      var front := run[..|run| - 1];
      RunWaitsFirst(front, concurrency, queueLength, wait);
      RunInv(front, concurrency, queueLength, wait);
      assert Follows(run[|run| - 2], run[|run| - 1]);
      var step :| Enabled(run[|run| - 2], step) && run[|run| - 1] == Do(run[|run| - 2], step);
      KeepsWaitsFirst(run[|run| - 2], step);
    }
  }

  lemma AtFirst(concurrency: nat, queueLength: nat, wait: bool)
    ensures WaitsFirst(Init(concurrency, queueLength, wait))
  {
  }

  /** Stop tells workers to stop while a task is running exactly when it was asked not to
      wait and there is a second worker. */
  lemma StopsIdleExact(concurrency: nat, queueLength: nat, wait: bool)
    ensures (forall run: seq<State> | IsRun(run, concurrency, queueLength, wait) :: StopsIdle(run[|run| - 1])) <==>
      wait || concurrency <= 1
  {
    hide Follows;
    hide StopsIdle;
    if wait || concurrency <= 1 {
      forall run: seq<State> | IsRun(run, concurrency, queueLength, wait)
        ensures StopsIdle(run[|run| - 1])
      {
        RunStopsIdle(run, concurrency, queueLength, wait);
      }
    } else {
      var run := StopsBusy(concurrency, queueLength);
      assert !StopsIdle(run[|run| - 1]);
    }
  }

  lemma RunStopsIdle(run: seq<State>, concurrency: nat, queueLength: nat, wait: bool)
    requires IsRun(run, concurrency, queueLength, wait) && (wait || concurrency <= 1)
    ensures StopsIdle(run[|run| - 1])
  {
    hide Follows;
    hide Inv;
    var s := run[|run| - 1];
    RunInv(run, concurrency, queueLength, wait);
    RunWaitsFirst(run, concurrency, queueLength, wait);
    if !Dismissing(s.stopper) {
      NoneDismissed(s);
    } else if wait {
      NoneBusy(s);
    }
  }

  /** A run of a pool of two or more workers that does not wait: the second worker is told to
      stop while the first is running. */
  lemma StopsBusy(concurrency: nat, queueLength: nat) returns (run: seq<State>)
    requires concurrency > 1
    ensures IsRun(run, concurrency, queueLength, false) && !StopsIdle(run[|run| - 1])
  {
    var c := concurrency;
    run := WaitReturnsEarly(c, queueLength, false, 0);
    run := BusyStop(run, c, queueLength);
  }

  lemma BusyStop(run: seq<State>, c: nat, queueLength: nat) returns (longer: seq<State>)
    requires IsRun(run, c, queueLength, false) && c > 1
    requires var s := run[|run| - 1];
      && s.life == Started && s.dispatcher == Selecting && s.wg == 0 && s.available == [] && !s.wait
      && |s.workers| == c && s.workers[0] == Running(0) && s.workers[1] == Announcing
    ensures IsRun(longer, c, queueLength, false) && !StopsIdle(longer[|longer| - 1])
  {
    hide IsRun;
    longer := Extend(run, c, queueLength, false, Stop);
    longer := Extend(longer, c, queueLength, false, QueueDrained);
    longer := Extend(longer, c, queueLength, false, Terminate);
    longer := BusySignal(longer, c, queueLength);
  }

  lemma BusySignal(run: seq<State>, c: nat, queueLength: nat) returns (longer: seq<State>)
    requires IsRun(run, c, queueLength, false) && c > 1
    requires var s := run[|run| - 1];
      && s.stopper == Collecting(0) && s.available == []
      && |s.workers| == c && s.workers[0] == Running(0) && s.workers[1] == Announcing
    ensures IsRun(longer, c, queueLength, false) && !StopsIdle(longer[|longer| - 1])
  {
    hide IsRun;
    longer := Extend(run, c, queueLength, false, Announce(1));
    longer := Extend(longer, c, queueLength, false, Collect);
    longer := Extend(longer, c, queueLength, false, Signal);
    var s := longer[|longer| - 1];
    assert IsDismissed(s.workers[1]) && IsBusy(s.workers[0]);
  }
}

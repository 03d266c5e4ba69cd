/** The benchmark executor (eval/benchmark/executor) as a state machine: clients in Submit,
    the dispatcher, the workers and a caller of Stop take turns in any order. Channels,
    WaitGroups and program counters are the state; each step is one channel operation,
    WaitGroup operation or invocation of a task. */
module Executor {

  /** One call of Submit. */
  type Task = nat

  datatype Lifecycle = New | Started | Terminated

  /** In select; after the receive; inside pool.Submit waiting for a worker; sending to it;
      back from pool.Submit. */
  datatype Dispatcher =
    | NotRunning
    | Selecting
    | Received(task: Task)
    | Waiting(task: Task)
    | Handing(task: Task, w: nat)
    | Handed
    | Exited

  /** Before Start; about to announce itself; in select; invoking; returned from Invoke;
      told to stop; gone. */
  datatype Worker = Unborn | Announcing | Idle | Running(task: Task) | Completing(task: Task) | Stopping | Gone

  datatype Stopper =
    | NotCalled | AwaitQueue | Terminating | AwaitTasks
    | Collecting(n: nat) | Signalling(n: nat, w: nat) | AwaitWorkers | Returned

  /** accepted, invoked and finished are the history of Submit calls that passed the state
      check, of invocations begun, and of invocations that returned. */
  datatype State = State(
    life: Lifecycle, queueLength: nat, wait: bool,
    pending: set<Task>, queue: seq<Task>, dispatcher: Dispatcher,
    available: seq<nat>, workers: seq<Worker>, stopper: Stopper,
    wg: int, taskWg: int, poolWg: int,
    accepted: set<Task>, invoked: seq<Task>, finished: set<Task>)

  datatype Step =
    | Start | Admit(t: Task) | Send(t: Task) | SendDirect(t: Task)
    | Receive | BeginSubmit | TakeWorker | Hand | EndSubmit
    | Finish(w: nat) | Complete(w: nat) | Announce(w: nat) | Leave(w: nat)
    | Stop | QueueDrained | Terminate | TasksDone | Collect | Signal | AllSignalled | WorkersGone

  function Init(concurrency: nat, queueLength: nat, wait: bool): State {
    State(New, queueLength, wait, {}, [], NotRunning, [], seq(concurrency, _ => Unborn), NotCalled, 0, 0, 0, {}, [], {})
  }

  /** A step whose channel operation can go ahead, or whose WaitGroup has reached zero. The
      check of the state and the Add of Submit are one step; the send is another. */
  predicate Enabled(s: State, step: Step) {
    match step
    case Start => s.life == New
    case Admit(t) => s.life == Started && t !in s.accepted
    case Send(t) => t in s.pending && |s.queue| < s.queueLength
    case SendDirect(t) => t in s.pending && s.queue == [] && s.dispatcher.Selecting?
    case Receive => s.dispatcher.Selecting? && s.queue != []
    case BeginSubmit => s.dispatcher.Received?
    case TakeWorker => s.dispatcher.Waiting? && s.available != []
    case Hand => s.dispatcher.Handing? && s.dispatcher.w < |s.workers| && s.workers[s.dispatcher.w].Idle?
    case EndSubmit => s.dispatcher.Handed?
    case Finish(w) => w < |s.workers| && s.workers[w].Running?
    case Complete(w) => w < |s.workers| && s.workers[w].Completing?
    case Announce(w) => w < |s.workers| && s.workers[w].Announcing? && |s.available| < |s.workers|
    case Leave(w) => w < |s.workers| && s.workers[w].Stopping?
    case Stop => s.life == Started
    case QueueDrained => s.stopper.AwaitQueue? && s.wg == 0
    case Terminate => s.stopper.Terminating? && s.dispatcher.Selecting?
    case TasksDone => s.stopper.AwaitTasks? && s.taskWg == 0
    case Collect => s.stopper.Collecting? && s.stopper.n < |s.workers| && s.available != []
    case Signal => s.stopper.Signalling? && s.stopper.w < |s.workers| && s.workers[s.stopper.w].Idle?
    case AllSignalled => s.stopper.Collecting? && s.stopper.n >= |s.workers|
    case WorkersGone => s.stopper.AwaitWorkers? && s.poolWg == 0
  }

  function Do(s: State, step: Step): State
    requires Enabled(s, step)
  {
    match step
    case Start =>
      s.(life := Started, poolWg := |s.workers|, dispatcher := Selecting,
         workers := seq(|s.workers|, _ => Announcing))
    case Admit(t) => s.(wg := s.wg + 1, pending := s.pending + {t}, accepted := s.accepted + {t})
    case Send(t) => s.(pending := s.pending - {t}, queue := s.queue + [t])
    case SendDirect(t) => s.(pending := s.pending - {t}, dispatcher := Received(t))
    case Receive => s.(dispatcher := Received(s.queue[0]), queue := s.queue[1..])
    case BeginSubmit => s.(taskWg := s.taskWg + 1, dispatcher := Waiting(s.dispatcher.task))
    case TakeWorker => s.(dispatcher := Handing(s.dispatcher.task, s.available[0]), available := s.available[1..])
    case Hand =>
      s.(workers := s.workers[s.dispatcher.w := Running(s.dispatcher.task)],
         invoked := s.invoked + [s.dispatcher.task], dispatcher := Handed)
    case EndSubmit => s.(wg := s.wg - 1, dispatcher := Selecting)
    case Finish(w) =>
      s.(workers := s.workers[w := Completing(s.workers[w].task)], finished := s.finished + {s.workers[w].task})
    case Complete(w) => s.(taskWg := s.taskWg - 1, workers := s.workers[w := Announcing])
    case Announce(w) => s.(available := s.available + [w], workers := s.workers[w := Idle])
    case Leave(w) => s.(poolWg := s.poolWg - 1, workers := s.workers[w := Gone])
    case Stop => s.(life := Terminated, stopper := AwaitQueue)
    case QueueDrained => s.(stopper := Terminating)
    case Terminate => s.(dispatcher := Exited, stopper := if s.wait then AwaitTasks else Collecting(0))
    case TasksDone => s.(stopper := Collecting(0))
    case Collect => s.(stopper := Signalling(s.stopper.n, s.available[0]), available := s.available[1..])
    case Signal => s.(workers := s.workers[s.stopper.w := Stopping], stopper := Collecting(s.stopper.n + 1))
    case AllSignalled => s.(stopper := AwaitWorkers)
    case WorkersGone => s.(stopper := Returned)
  }

  /** The states of a run, beginning with the new executor. */
  ghost predicate IsRun(run: seq<State>, concurrency: nat, queueLength: nat, wait: bool) {
    && run != []
    && run[0] == Init(concurrency, queueLength, wait)
    && forall i | 0 <= i < |run| - 1 :: Follows(run[i], run[i + 1])
  }

  ghost predicate Follows(s: State, s': State) {
    exists step :: Enabled(s, step) && s' == Do(s, step)
  }

  // ----- sums over the workers -----

  function Sum(ws: seq<Worker>, f: Worker -> int): int {
    if ws == [] then 0 else Sum(ws[..|ws| - 1], f) + f(ws[|ws| - 1])
  }

  lemma {:induction false} SumUpdate(ws: seq<Worker>, i: nat, x: Worker, f: Worker -> int)
    requires i < |ws|
    ensures Sum(ws[i := x], f) == Sum(ws, f) - f(ws[i]) + f(x)
  {
    var us := ws[i := x];
    if i < |ws| - 1 {
      assert us[..|us| - 1] == ws[..|ws| - 1][i := x];
      SumUpdate(ws[..|ws| - 1], i, x, f);
    } else {
      assert us[..|us| - 1] == ws[..|ws| - 1];
    }
  }

  lemma {:induction false} SumConstant(ws: seq<Worker>, f: Worker -> int, c: int)
    requires forall i | 0 <= i < |ws| :: f(ws[i]) == c
    ensures Sum(ws, f) == c * |ws|
  {
    if ws != [] { SumConstant(ws[..|ws| - 1], f, c); }
  }

  lemma {:induction false} SumBelow(ws: seq<Worker>, f: Worker -> int, i: nat)
    requires (forall w: Worker :: 0 <= f(w) <= 1) && i < |ws|
    ensures f(ws[i]) <= Sum(ws, f) <= |ws| - 1 + f(ws[i])
    ensures 0 <= Sum(ws, f)
  {
    if i < |ws| - 1 {
      SumBelow(ws[..|ws| - 1], f, i);
    } else if |ws| > 1 {
      SumBelow(ws[..|ws| - 1], f, 0);
    }
  }

  function One(b: bool): int {
    if b then 1 else 0
  }

  function Busy(w: Worker): int {
    One(w.Running? || w.Completing?)
  }

  function Dismissed(w: Worker): int {
    One(w.Stopping? || w.Gone?)
  }

  function Alive(w: Worker): int {
    One(!w.Gone? && !w.Unborn?)
  }

  function TaskOf(w: Worker): multiset<Task> {
    if w.Running? then multiset{w.task} else multiset{}
  }

  /** The tasks being invoked. */
  function RunningTasks(ws: seq<Worker>): multiset<Task> {
    if ws == [] then multiset{} else RunningTasks(ws[..|ws| - 1]) + TaskOf(ws[|ws| - 1])
  }

  lemma Rearrange(a: multiset<Task>, b: multiset<Task>, t: multiset<Task>, u: multiset<Task>, last: multiset<Task>)
    requires a + t == b + u
    ensures (a + last) + t == (b + last) + u
  {
    assert (a + last) + t == (a + t) + last;
    assert (b + last) + u == (b + u) + last;
  }

  lemma {:induction false} RunningUpdate(ws: seq<Worker>, i: nat, x: Worker)
    requires i < |ws|
    ensures RunningTasks(ws[i := x]) + TaskOf(ws[i]) == RunningTasks(ws) + TaskOf(x)
  {
    hide TaskOf;
    var us := ws[i := x];
    var front := ws[..|ws| - 1];
    if i < |ws| - 1 {
      assert us[..|us| - 1] == front[i := x];
      RunningUpdate(front, i, x);
      Rearrange(RunningTasks(front[i := x]), RunningTasks(front), TaskOf(ws[i]), TaskOf(x), TaskOf(ws[|ws| - 1]));
    } else {
      assert us[..|us| - 1] == front;
      assert (RunningTasks(front) + TaskOf(x)) + TaskOf(ws[i]) == (RunningTasks(front) + TaskOf(ws[i])) + TaskOf(x);
    }
  }

  lemma {:induction false} NoneRunning(ws: seq<Worker>)
    requires forall i | 0 <= i < |ws| :: !ws[i].Running?
    ensures RunningTasks(ws) == multiset{}
  {
    if ws != [] { NoneRunning(ws[..|ws| - 1]); }
  }
}

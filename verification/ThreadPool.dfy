/** The bounded worker pool: submitters, workers and a shutdown interleave at the mutex and at the
    condition variable. */
module ThreadPool {

  function EffectiveWorkerCount(workerCount: nat): nat {
    if workerCount < 1 then 1 else workerCount
  }

  function EffectiveQueueCapacity(workerCount: nat, queueCapacity: nat): nat {
    if queueCapacity != 0 then queueCapacity
    else
      var scaled := EffectiveWorkerCount(workerCount) * 1024;
      if scaled < 64 then 64 else scaled
  }

  /** A submitted closure; only its identity matters. */
  type Task = nat

  // ------------------------------------------------------------------ the critical sections

  /** What the mutex guards, and the two counters. */
  datatype Core = Core(queue: seq<Task>, capacity: nat, stopping: bool, submitted: nat, completed: nat)

  datatype Verdict = Accepted | Stopped | QueueFull

  function Judge(c: Core): Verdict {
    if c.stopping then Stopped else if |c.queue| >= c.capacity then QueueFull else Accepted
  }

  function Push(c: Core, task: Task): Core {
    if Judge(c) == Accepted then c.(queue := c.queue + [task], submitted := c.submitted + 1) else c
  }

  /** What a worker that holds the mutex does next. */
  datatype Wake = Sleep | Leave | Run(task: Task)

  function Look(c: Core): Wake {
    if c.queue != [] then Run(c.queue[0]) else if c.stopping then Leave else Sleep
  }

  function Pop(c: Core): Core {
    if c.queue != [] then c.(queue := c.queue[1..]) else c
  }

  class FallbackThreadPoolBackend {
    const queueCapacity: nat
    const workerCount: nat
    var tasks: seq<Task>
    var stopping: bool
    var submittedTasks: nat
    var completedTasks: nat

    ghost function AsCore(): Core
      reads this
    {
      Core(tasks, queueCapacity, stopping, submittedTasks, completedTasks)
    }

    constructor (workerCount: nat, queueCapacity: nat)
      ensures this.workerCount == if workerCount == 0 then 1 else workerCount
      ensures this.queueCapacity == if queueCapacity == 0 then 1024 * this.workerCount else queueCapacity
      ensures AsCore() == Core([], this.queueCapacity, false, 0, 0)
    {
      this.workerCount := EffectiveWorkerCount(workerCount);
      this.queueCapacity := EffectiveQueueCapacity(workerCount, queueCapacity);
      this.tasks := [];
      this.stopping := false;
      this.submittedTasks := 0;
      this.completedTasks := 0;
    }

    /** The section of SubmitTask under the mutex. */
    method SubmitTask(task: Task) returns (verdict: Verdict)
      modifies this`tasks, this`submittedTasks
      ensures verdict == Judge(old(AsCore())) && AsCore() == Push(old(AsCore()), task)
    {
      if stopping {
        return Stopped;
      }
      if |tasks| >= queueCapacity {
        return QueueFull;
      }
      tasks := tasks + [task];
      submittedTasks := submittedTasks + 1;
      verdict := Accepted;
    }

    /** The section of Shutdown under the mutex; only the first caller goes on to notify and join. */
    method BeginShutdown() returns (first: bool)
      modifies this`stopping
      ensures first == !old(stopping) && AsCore() == old(AsCore()).(stopping := true)
    {
      if stopping {
        return false;
      }
      stopping := true;
      first := true;
    }

    /** The section of WorkerLoop under the mutex, up to the wait or the popped task. */
    method TakeTask() returns (wake: Wake)
      modifies this`tasks
      ensures wake == Look(old(AsCore())) && AsCore() == Pop(old(AsCore()))
    {
      if !(stopping || tasks != []) {
        return Sleep;
      }
      if stopping && tasks == [] {
        return Leave;
      }
      wake := Run(tasks[0]);
      tasks := tasks[1..];
    }

    method CountCompleted()
      modifies this`completedTasks
      ensures AsCore() == old(AsCore()).(completed := old(completedTasks) + 1)
    {
      completedTasks := completedTasks + 1;
    }
  }

  // ------------------------------------------------------------------ the state machine

  /** A worker is about to take the mutex, asleep at the condition variable, inside a task (the task
      taken as number position), about to count it, or gone. */
  datatype Worker = Ready | Waiting | Running(position: nat) | Ran | Finished

  /** The pool with its histories: the tasks accepted and taken so far, in order, and the numbers of
      the tasks that have run; and the calls to notify_one and notify_all still to come. */
  datatype Pool = Pool(
    core: Core,
    accepted: seq<Task>,
    taken: seq<Task>,
    done: seq<nat>,
    workers: seq<Worker>,
    notifications: nat,
    wakeAll: bool)

  datatype Action =
    | Submit(task: Task)
    | NotifyOne(sleeper: nat)
    | NotifyNobody
    | Shutdown
    | NotifyAll
    | LookAtQueue(worker: nat)
    | RunTask(worker: nat)
    | CountTask(worker: nat)
    | WakeSpuriously(worker: nat)

  function Initial(workerCount: nat, queueCapacity: nat): Pool {
    var capacity := EffectiveQueueCapacity(workerCount, queueCapacity);
    Pool(Core([], capacity, false, 0, 0), [], [], [],
         seq(EffectiveWorkerCount(workerCount), _ => Ready), 0, false)
  }

  predicate Possible(p: Pool, a: Action) {
    match a
    case Submit(_) => true
    case NotifyOne(i) => p.notifications > 0 && i < |p.workers| && p.workers[i].Waiting?
    case NotifyNobody => p.notifications > 0 && Waiting !in p.workers
    case Shutdown => !p.core.stopping
    case NotifyAll => p.wakeAll
    case LookAtQueue(i) => i < |p.workers| && p.workers[i].Ready?
    case RunTask(i) => i < |p.workers| && p.workers[i].Running?
    case CountTask(i) => i < |p.workers| && p.workers[i].Ran?
    case WakeSpuriously(i) => i < |p.workers| && p.workers[i].Waiting?
  }

  function Awake(ws: seq<Worker>): seq<Worker> {
    seq(|ws|, i requires 0 <= i < |ws| => if ws[i].Waiting? then Ready else ws[i])
  }

  function Next(p: Pool, a: Action): Pool
    requires Possible(p, a)
  {
    match a
    case Submit(task) =>
      if Judge(p.core) == Accepted then
        p.(core := Push(p.core, task), accepted := p.accepted + [task], notifications := p.notifications + 1)
      else p
    case NotifyOne(i) => p.(workers := p.workers[i := Ready], notifications := p.notifications - 1)
    case NotifyNobody => p.(notifications := p.notifications - 1)
    case Shutdown => p.(core := p.core.(stopping := true), wakeAll := true)
    case NotifyAll => p.(workers := Awake(p.workers), wakeAll := false)
    case LookAtQueue(i) =>
      (match Look(p.core)
       case Sleep => p.(workers := p.workers[i := Waiting])
       case Leave => p.(workers := p.workers[i := Finished])
       case Run(task) =>
         p.(core := Pop(p.core), taken := p.taken + [task], workers := p.workers[i := Running(|p.taken|)]))
    case RunTask(i) => p.(done := p.done + [p.workers[i].position], workers := p.workers[i := Ran])
    case CountTask(i) => p.(core := p.core.(completed := p.core.completed + 1), workers := p.workers[i := Ready])
    case WakeSpuriously(i) => p.(workers := p.workers[i := Ready])
  }

  /** A pool has at least one worker and, unless told otherwise, room for 1024 tasks for each of them. */
  lemma SizesExactly(workerCount: nat, queueCapacity: nat)
    ensures var p := Initial(workerCount, queueCapacity);
            && |p.workers| == (if workerCount == 0 then 1 else workerCount)
            && p.core.capacity == (if queueCapacity == 0 then 1024 * |p.workers| else queueCapacity)
            && !p.core.stopping && p.core.queue == [] && p.core.submitted == p.core.completed == 0
  {
  }

  /** A submission is accepted exactly while the pool is not stopping and its queue is below its capacity;
      it then stands behind all queued tasks, and a refused one changes nothing. */
  lemma SubmitExactly(p: Pool, task: Task)
    ensures var q := Next(p, Submit(task));
            && (Judge(p.core) == Accepted <==> !p.core.stopping && |p.core.queue| < p.core.capacity)
            && (Judge(p.core) == Stopped <==> p.core.stopping)
            && (Judge(p.core) != Accepted ==> q == p)
            && (Judge(p.core) == Accepted ==>
                  && q.core.queue == p.core.queue + [task] && q.accepted == p.accepted + [task]
                  && q.core.submitted == p.core.submitted + 1 && q.notifications == p.notifications + 1)
  {
  }

  // ------------------------------------------------------------------ counting workers

  datatype Kind = IsReady | IsWaiting | IsRunning | IsRan | At(position: nat)

  predicate Has(kind: Kind, w: Worker) {
    match kind
    case IsReady => w.Ready?
    case IsWaiting => w.Waiting?
    case IsRunning => w.Running?
    case IsRan => w.Ran?
    case At(position) => w == Running(position)
  }

  function One(b: bool): nat {
    if b then 1 else 0
  }

  function Count(ws: seq<Worker>, kind: Kind): nat {
    if ws == [] then 0 else One(Has(kind, ws[0])) + Count(ws[1..], kind)
  }

  lemma {:induction false} CountUpdate(ws: seq<Worker>, i: nat, w: Worker, kind: Kind)
    requires i < |ws|
    ensures Count(ws[i := w], kind) == Count(ws, kind) - One(Has(kind, ws[i])) + One(Has(kind, w))
  {
    if i > 0 {
      assert ws[i := w][1..] == ws[1..][i - 1 := w];
      CountUpdate(ws[1..], i - 1, w, kind);
    }
  }

  lemma {:induction false} CountAwake(ws: seq<Worker>, kind: Kind)
    ensures Count(Awake(ws), kind) ==
            if kind == IsWaiting then 0
            else if kind == IsReady then Count(ws, IsReady) + Count(ws, IsWaiting)
            else Count(ws, kind)
  {
    if ws != [] {
      assert Awake(ws)[1..] == Awake(ws[1..]);
      CountAwake(ws[1..], kind);
    }
  }

  lemma {:induction false} CountPositive(ws: seq<Worker>, kind: Kind)
    ensures Count(ws, kind) > 0 <==> exists i :: 0 <= i < |ws| && Has(kind, ws[i])
  {
    if ws != [] {
      CountPositive(ws[1..], kind);
      if Count(ws[1..], kind) > 0 {
        var i :| 0 <= i < |ws[1..]| && Has(kind, ws[1..][i]);
        assert Has(kind, ws[i + 1]);
      }
      if i :| 0 <= i < |ws| && Has(kind, ws[i]) {
        assert i > 0 ==> Has(kind, ws[1..][i - 1]);
      }
    }
  }

  // ------------------------------------------------------------------ the invariant

  /** How often the task taken as number n has run or is running. */
  function Runs(p: Pool, n: nat): nat {
    multiset(p.done)[n] + Count(p.workers, At(n))
  }

  ghost predicate ExactlyOnce(p: Pool) {
    forall n: nat :: Runs(p, n) == One(n < |p.taken|)
  }

  ghost predicate Balanced(p: Pool) {
    && p.core.submitted == |p.accepted|
    && p.taken + p.core.queue == p.accepted
    && |p.core.queue| <= p.core.capacity
    && |p.done| == p.core.completed + Count(p.workers, IsRan)
    && |p.taken| == |p.done| + Count(p.workers, IsRunning)
  }

  /** While some worker sleeps, every queued task has a notification on its way or a worker awake for
      it; when the pool is stopping, the sleepers have the broadcast on its way. */
  ghost predicate NoLostWakeup(p: Pool) {
    && (Count(p.workers, IsWaiting) > 0 ==> |p.core.queue| <= p.notifications + Count(p.workers, IsReady))
    && (Count(p.workers, IsWaiting) > 0 && p.core.stopping ==> p.wakeAll)
    && (p.wakeAll ==> p.core.stopping)
    && (Finished in p.workers ==> p.core.stopping && p.core.queue == [])
  }

  ghost predicate Inv(p: Pool) {
    |p.workers| >= 1 && Balanced(p) && NoLostWakeup(p) && ExactlyOnce(p)
  }

  lemma {:induction false} CountAllReady(ws: seq<Worker>, kind: Kind)
    requires forall i :: 0 <= i < |ws| ==> ws[i] == Ready
    ensures Count(ws, kind) == if kind == IsReady then |ws| else 0
  {
    if ws != [] {
      CountAllReady(ws[1..], kind);
    }
  }

  lemma InitialIsInv(workerCount: nat, queueCapacity: nat)
    ensures Inv(Initial(workerCount, queueCapacity))
  {
    var p := Initial(workerCount, queueCapacity);
    forall kind ensures Count(p.workers, kind) == if kind == IsReady then |p.workers| else 0 {
      CountAllReady(p.workers, kind);
    }
  }

  lemma CountsAfter(p: Pool, i: nat, w: Worker)
    requires i < |p.workers|
    ensures forall kind :: Count(p.workers[i := w], kind) ==
                           Count(p.workers, kind) - One(Has(kind, p.workers[i])) + One(Has(kind, w))
  {
    forall kind
      ensures Count(p.workers[i := w], kind) ==
              Count(p.workers, kind) - One(Has(kind, p.workers[i])) + One(Has(kind, w))
    {
      CountUpdate(p.workers, i, w, kind);
    }
  }

  lemma StepKeepsBalance(p: Pool, a: Action)
    requires Inv(p) && Possible(p, a)
    ensures Balanced(Next(p, a))
  {
    hide Count;
    match a
    case Submit(_) =>
    case NotifyOne(i) => CountsAfter(p, i, Ready);
    case NotifyNobody =>
    case Shutdown =>
    case NotifyAll =>
      CountAwake(p.workers, IsRan);
      CountAwake(p.workers, IsRunning);
    case LookAtQueue(i) =>
      CountsAfter(p, i, Next(p, a).workers[i]);
    case RunTask(i) => CountsAfter(p, i, Ran);
    case CountTask(i) => CountsAfter(p, i, Ready);
    case WakeSpuriously(i) => CountsAfter(p, i, Ready);
  }

  lemma StepKeepsWakeups(p: Pool, a: Action)
    requires Inv(p) && Possible(p, a)
    ensures NoLostWakeup(Next(p, a))
  {
    hide Count;
    match a
    case Submit(_) =>
    case NotifyOne(i) => CountsAfter(p, i, Ready);
    case NotifyNobody => CountPositive(p.workers, IsWaiting);
    case Shutdown =>
    case NotifyAll =>
      CountAwake(p.workers, IsWaiting);
    case LookAtQueue(i) =>
      CountsAfter(p, i, Next(p, a).workers[i]);
    case RunTask(i) => CountsAfter(p, i, Ran);
    case CountTask(i) => CountsAfter(p, i, Ready);
    case WakeSpuriously(i) => CountsAfter(p, i, Ready);
  }

  lemma StepKeepsOnce(p: Pool, a: Action)
    requires Inv(p) && Possible(p, a)
    ensures ExactlyOnce(Next(p, a))
  {
    hide Count;
    var q := Next(p, a);
    forall n: nat ensures Runs(q, n) == One(n < |q.taken|) {
      assert Runs(p, n) == One(n < |p.taken|);
      match a {
        case Submit(_) =>
        case NotifyOne(i) => CountUpdate(p.workers, i, Ready, At(n));
        case NotifyNobody =>
        case Shutdown =>
        case NotifyAll => CountAwake(p.workers, At(n));
        case LookAtQueue(i) => CountUpdate(p.workers, i, q.workers[i], At(n));
        case RunTask(i) =>
          CountUpdate(p.workers, i, Ran, At(n));
          assert multiset(q.done) == multiset(p.done) + multiset{p.workers[i].position};
        case CountTask(i) => CountUpdate(p.workers, i, Ready, At(n));
        case WakeSpuriously(i) => CountUpdate(p.workers, i, Ready, At(n));
      }
    }
  }

  lemma StepKeeps(p: Pool, a: Action)
    requires Inv(p) && Possible(p, a)
    ensures Inv(Next(p, a))
  {
    hide Balanced, NoLostWakeup, ExactlyOnce;
    StepKeepsBalance(p, a);
    StepKeepsWakeups(p, a);
    StepKeepsOnce(p, a);
  }

  // ------------------------------------------------------------------ runs

  predicate IsRun(p: Pool, actions: seq<Action>)
    decreases |actions|
  {
    actions == [] || (Possible(p, actions[0]) && IsRun(Next(p, actions[0]), actions[1..]))
  }

  function After(p: Pool, actions: seq<Action>): Pool
    requires IsRun(p, actions)
    decreases |actions|
  {
    if actions == [] then p else After(Next(p, actions[0]), actions[1..])
  }

  lemma {:induction false} RunKeeps(p: Pool, actions: seq<Action>)
    requires Inv(p) && IsRun(p, actions)
    ensures Inv(After(p, actions))
    decreases |actions|
  {
    if actions != [] {
      StepKeeps(p, actions[0]);
      RunKeeps(Next(p, actions[0]), actions[1..]);
    }
  }

  /** In every interleaving: tasks are taken in the order they were accepted, no task taken runs
      twice, every accepted task is queued, held by a worker or counted as completed, and the queue
      stays within its capacity. */
  lemma EveryRunIsFair(workerCount: nat, queueCapacity: nat, actions: seq<Action>)
    requires IsRun(Initial(workerCount, queueCapacity), actions)
    ensures var p := After(Initial(workerCount, queueCapacity), actions);
            && p.accepted == p.taken + p.core.queue
            && p.core.submitted ==
               |p.core.queue| + Count(p.workers, IsRunning) + Count(p.workers, IsRan) + p.core.completed
            && |p.core.queue| <= EffectiveQueueCapacity(workerCount, queueCapacity)
            && (forall i, j :: 0 <= i < j < |p.done| ==> p.done[i] != p.done[j])
            && (forall i, j :: 0 <= i < j < |p.workers| && p.workers[i].Running? ==> p.workers[i] != p.workers[j])
            && (forall i, j :: 0 <= i < |p.workers| && p.workers[i].Running? && 0 <= j < |p.done| ==>
                  p.workers[i].position != p.done[j])
            && (forall n :: 0 <= n < |p.taken| ==> n in p.done || Running(n) in p.workers)
  {
    var start := Initial(workerCount, queueCapacity);
    InitialIsInv(workerCount, queueCapacity);
    RunKeeps(start, actions);
    var p := After(start, actions);
    CapacityStays(start, actions);
    forall i, j | 0 <= i < j < |p.done| ensures p.done[i] != p.done[j] {
      if p.done[i] == p.done[j] {
        assert Runs(p, p.done[i]) <= 1;
        TwiceCounted(p.done, i, j);
        assert false;
      }
    }
    forall i, j | 0 <= i < j < |p.workers| && p.workers[i].Running? ensures p.workers[i] != p.workers[j] {
      assert Runs(p, p.workers[i].position) <= 1;
      TwoWorkers(p.workers, i, j, p.workers[i].position);
    }
    forall i, j | 0 <= i < |p.workers| && p.workers[i].Running? && 0 <= j < |p.done|
      ensures p.workers[i].position != p.done[j]
    {
      var n := p.workers[i].position;
      assert Has(At(n), p.workers[i]);
      CountPositive(p.workers, At(n));
      assert Runs(p, n) <= 1;
      assert p.done[j] in multiset(p.done);
    }
    forall n | 0 <= n < |p.taken| ensures n in p.done || Running(n) in p.workers {
      assert Runs(p, n) == 1;
      CountPositive(p.workers, At(n));
    }
  }

  lemma {:induction false} CapacityStays(p: Pool, actions: seq<Action>)
    requires IsRun(p, actions)
    ensures After(p, actions).core.capacity == p.core.capacity
    decreases |actions|
  {
    if actions != [] {
      CapacityStays(Next(p, actions[0]), actions[1..]);
    }
  }

  lemma TwiceCounted(s: seq<nat>, i: nat, j: nat)
    requires i < j < |s| && s[i] == s[j]
    ensures multiset(s)[s[i]] >= 2
  {
    assert s == s[..i] + [s[i]] + s[i + 1..j] + [s[j]] + s[j + 1..];
  }

  lemma {:induction false} TwoWorkers(ws: seq<Worker>, i: nat, j: nat, n: nat)
    requires i < j < |ws| && ws[i] == Running(n)
    ensures Count(ws, At(n)) >= 1
    ensures ws[j] == ws[i] ==> Count(ws, At(n)) >= 2
  {
    if i > 0 {
      TwoWorkers(ws[1..], i - 1, j - 1, n);
    } else {
      CountPositive(ws[1..], At(n));
      assert ws[1..][j - 1] == ws[j];
    }
  }

  // ------------------------------------------------------------------ progress

  /** The steps the pool makes by itself. A spurious wake-up counts as one when the pool is stopping,
      because the worker then does not go back to sleep. */
  predicate Internal(p: Pool, a: Action) {
    !a.Submit? && !a.Shutdown? && (a.WakeSpuriously? ==> p.core.stopping)
  }

  /** An upper bound on the steps still to come without new submissions. */
  function Work(p: Pool): nat {
    3 * |p.core.queue| + 2 * p.notifications + One(p.wakeAll)
    + (if p.core.stopping then 2 * Count(p.workers, IsWaiting) else 0)
    + Count(p.workers, IsReady) + 3 * Count(p.workers, IsRunning) + 2 * Count(p.workers, IsRan)
  }

  /** What the work changes by when one worker changes. */
  function Rank(w: Worker, stopping: bool): nat {
    match w
    case Ready => 1
    case Waiting => if stopping then 2 else 0
    case Running(_) => 3
    case Ran => 2
    case Finished => 0
  }

  lemma OneWorkerMoves(p: Pool, q: Pool, i: nat)
    requires i < |p.workers| == |q.workers| && q.workers == p.workers[i := q.workers[i]]
    requires q.core.stopping == p.core.stopping && q.wakeAll == p.wakeAll
    ensures Work(q) - Work(p) == 3 * (|q.core.queue| - |p.core.queue|) + 2 * (q.notifications - p.notifications)
                                 + Rank(q.workers[i], p.core.stopping) - Rank(p.workers[i], p.core.stopping)
  {
    hide Count;
    CountUpdate(p.workers, i, q.workers[i], IsReady);
    CountUpdate(p.workers, i, q.workers[i], IsWaiting);
    CountUpdate(p.workers, i, q.workers[i], IsRunning);
    CountUpdate(p.workers, i, q.workers[i], IsRan);
  }

  lemma BroadcastUsesWork(p: Pool)
    requires Inv(p) && Possible(p, NotifyAll)
    ensures Work(Next(p, NotifyAll)) < Work(p)
  {
    assert p.core.stopping;
    hide Count, Inv;
    CountAwake(p.workers, IsWaiting);
    CountAwake(p.workers, IsReady);
    CountAwake(p.workers, IsRan);
    CountAwake(p.workers, IsRunning);
  }

  lemma StepUsesWork(p: Pool, a: Action)
    requires Inv(p) && Possible(p, a) && Internal(p, a)
    ensures Work(Next(p, a)) < Work(p)
  {
    hide Count, Inv;
    match a
    case NotifyNobody =>
    case NotifyAll => BroadcastUsesWork(p);
    case NotifyOne(i) => OneWorkerMoves(p, Next(p, a), i);
    case LookAtQueue(i) => OneWorkerMoves(p, Next(p, a), i);
    case RunTask(i) => OneWorkerMoves(p, Next(p, a), i);
    case CountTask(i) => OneWorkerMoves(p, Next(p, a), i);
    case WakeSpuriously(i) => OneWorkerMoves(p, Next(p, a), i);
  }

  /** Nothing is left to do: no step of the pool's own is possible. */
  ghost predicate Quiet(p: Pool) {
    forall a :: Possible(p, a) ==> !Internal(p, a)
  }

  ghost predicate AllDone(p: Pool) {
    && p.core.queue == [] && p.core.completed == p.core.submitted == |p.accepted| && p.taken == p.accepted
    && |p.done| == |p.accepted| && forall n :: 0 <= n < |p.accepted| ==> n in p.done
  }

  /** The pool never gets stuck: it is quiet only with every accepted task run and counted, and then
      all workers sleep, or all have left if it is stopping. */
  lemma QuietMeansDone(p: Pool)
    requires Inv(p) && Quiet(p)
    ensures AllDone(p)
    ensures forall i :: 0 <= i < |p.workers| ==> p.workers[i] == if p.core.stopping then Finished else Waiting
  {
    hide Count;
    assert !Possible(p, NotifyAll) && !Possible(p, NotifyNobody);
    forall i | 0 <= i < |p.workers| ensures p.workers[i] == if p.core.stopping then Finished else Waiting {
      assert !Possible(p, LookAtQueue(i)) && !Possible(p, RunTask(i)) && !Possible(p, CountTask(i));
      assert p.core.stopping ==> !Possible(p, WakeSpuriously(i));
      assert p.workers[i] == Finished ==> Finished in p.workers;
    }
    CountPositive(p.workers, IsReady);
    CountPositive(p.workers, IsRunning);
    CountPositive(p.workers, IsRan);
    CountPositive(p.workers, IsWaiting);
    if p.core.stopping {
      assert p.workers[0] == Finished;
    } else {
      assert Has(IsWaiting, p.workers[0]);
      assert !Possible(p, NotifyOne(0));
    }
    assert p.core.queue == [];
    forall n | 0 <= n < |p.accepted| ensures n in p.done {
      assert Runs(p, n) == 1;
      CountPositive(p.workers, At(n));
    }
  }

  predicate AllInternal(p: Pool, actions: seq<Action>)
    requires IsRun(p, actions)
    decreases |actions|
  {
    actions == [] || (Internal(p, actions[0]) && AllInternal(Next(p, actions[0]), actions[1..]))
  }

  /** Left to itself the pool stops moving after a bounded number of steps, and stops moving only when
      everything accepted has run. */
  lemma {:induction false} DrainsWithinBound(p: Pool, actions: seq<Action>)
    requires Inv(p) && IsRun(p, actions) && AllInternal(p, actions)
    ensures |actions| <= Work(p)
    ensures Quiet(After(p, actions)) ==> AllDone(After(p, actions))
    decreases |actions|
  {
    if actions == [] {
      if Quiet(p) {
        QuietMeansDone(p);
      }
    } else {
      StepUsesWork(p, actions[0]);
      StepKeeps(p, actions[0]);
      DrainsWithinBound(Next(p, actions[0]), actions[1..]);
    }
  }

  /** What the steps after a shutdown can be: refused submissions, which change nothing, and the
      pool's own steps. */
  lemma AfterShutdownOnlyInternal(p: Pool, a: Action)
    requires p.core.stopping && Possible(p, a)
    ensures Next(p, a).core.stopping && (a.Submit? || Internal(p, a))
    ensures Next(p, a).accepted == p.accepted
    ensures a.Submit? ==> Next(p, a) == p
  {
  }

  /** The steps of a run that are not submissions. */
  function Moves(actions: seq<Action>): nat {
    if actions == [] then 0 else (if actions[0].Submit? then 0 else 1) + Moves(actions[1..])
  }

  /** Every run from a stopping state, with refused submissions anywhere in it, makes a bounded number
      of other steps, and is stuck only when every worker has left and everything accepted has run. */
  lemma {:induction false} EveryShutdownFinishes(p: Pool, actions: seq<Action>)
    requires Inv(p) && p.core.stopping && IsRun(p, actions)
    ensures Moves(actions) <= Work(p)
    ensures var q := After(p, actions);
            Quiet(q) ==>
              && AllDone(q) && q.accepted == p.accepted
              && forall i :: 0 <= i < |q.workers| ==> q.workers[i] == Finished
    decreases |actions|
  {
    hide Work, Possible, AllDone, Inv, Next, Quiet;
    if actions == [] {
      if Quiet(p) {
        QuietMeansDone(p);
      }
    } else {
      var a := actions[0];
      AfterShutdownOnlyInternal(p, a);
      StepKeeps(p, a);
      if !a.Submit? {
        StepUsesWork(p, a);
      }
      EveryShutdownFinishes(Next(p, a), actions[1..]);
    }
  }

  /** And from every stopping state the pool can indeed go on to that end. */
  lemma {:induction false} ShutdownFinishes(p: Pool) returns (actions: seq<Action>)
    requires Inv(p) && p.core.stopping
    ensures IsRun(p, actions) && |actions| <= Work(p)
    ensures AllDone(After(p, actions))
    ensures forall i :: 0 <= i < |After(p, actions).workers| ==> After(p, actions).workers[i] == Finished
    decreases Work(p)
  {
    hide Work, Possible, AllDone, Inv;
    if Quiet(p) {
      QuietMeansDone(p);
      actions := [];
    } else {
      var a :| Possible(p, a) && Internal(p, a);
      StepUsesWork(p, a);
      StepKeeps(p, a);
      StaysStopping(p, a);
      var rest := ShutdownFinishes(Next(p, a));
      actions := [a] + rest;
      assert actions[1..] == rest;
    }
  }

  lemma StaysStopping(p: Pool, a: Action)
    requires Possible(p, a)
    ensures p.core.stopping ==> Next(p, a).core.stopping
  {
  }
}

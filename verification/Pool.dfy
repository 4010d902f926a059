/** The thread pool as a state machine: every critical section, signal and spurious wakeup is a step. */
module PoolSteps {
  datatype Task = Task(fn: nat, arg: nat)

  /** What the lock protects. */
  datatype Shared = Shared(
    queue: seq<Task>,
    capacity: nat,
    threads: nat,
    active: nat,
    limit: nat,
    shutdown: bool,
    completed: nat,
    rejected: nat)

  // --- The critical sections, on the shared state alone ---

  /** What a worker that holds the lock does next. */
  datatype Decision = Block | Exit | Sleep | Take

  function Decide(s: Shared): Decision
  {
    if !s.shutdown && (s.queue == [] || s.active >= s.limit) then Block
    else if s.queue == [] && s.shutdown then Exit
    else if s.active >= s.limit then Sleep
    else Take
  }

  function Taken(s: Shared): Shared
    requires s.queue != []
  {
    s.(queue := s.queue[1..], active := s.active + 1)
  }

  function Finished(s: Shared): Shared
    requires s.active > 0
  {
    s.(active := s.active - 1, completed := s.completed + 1)
  }

  predicate Accepts(s: Shared) { !s.shutdown && |s.queue| != s.capacity }

  function Submitted(s: Shared, t: Task): Shared
  {
    if Accepts(s) then s.(queue := s.queue + [t]) else s.(rejected := s.rejected + 1)
  }

  function Throttled(s: Shared, maxActive: int): Shared
  {
    s.(limit := if maxActive <= 0 || maxActive > s.threads then s.threads else maxActive)
  }

  function Closing(s: Shared): Shared { s.(shutdown := true, limit := s.threads) }

  // --- Workers, waiters and the steps ---

  /** Awake: about to take the lock, whether new, woken, done with a task or back from the throttled sleep. */
  datatype Worker = Awake | Blocked | Running(task: Task) | Exited

  /** A caller of the wait operation: about to test, blocked on the idle condition, or returned. */
  datatype Waiter = Testing | Waiting | Returned

  datatype State = State(
    s: Shared,
    workers: seq<Worker>,
    waiters: seq<Waiter>,
    accepted: seq<Task>,
    started: seq<Task>,
    done: seq<Task>)

  /** `woken` is the worker that a signal picks among the blocked ones. */
  datatype Event =
    | Look(i: nat)
    | Finish(i: nat, woken: nat)
    | SpuriousWakeup(i: nat)
    | Submit(task: Task, woken: nat)
    | SetConcurrency(maxActive: int)
    | Shutdown
    | CallWait
    | TestIdle(j: nat)
    | SpuriousIdle(j: nat)

  function Init(threads: nat, capacity: nat): State
  {
    State(Shared([], capacity, threads, 0, threads, false, 0, 0), seq(threads, _ => Awake), [], [], [], [])
  }

  function FirstBlocked(ws: seq<Worker>): (i: nat)
    ensures i <= |ws| && (i < |ws| ==> ws[i].Blocked?)
    ensures forall k :: 0 <= k < i ==> !ws[k].Blocked?
  {
    if ws == [] || ws[0].Blocked? then 0 else 1 + FirstBlocked(ws[1..])
  }

  /** A signal wakes the picked worker, or, when that one is not blocked, the first that is. */
  function Signal(ws: seq<Worker>, woken: nat): seq<Worker>
  {
    var i := if woken < |ws| && ws[woken].Blocked? then woken else FirstBlocked(ws);
    if i < |ws| then ws[i := Awake] else ws
  }

  function Broadcast(ws: seq<Worker>): (r: seq<Worker>)
    ensures |r| == |ws|
    ensures forall i :: 0 <= i < |ws| ==> r[i] == if ws[i].Blocked? then Awake else ws[i]
  {
    seq(|ws|, i requires 0 <= i < |ws| => if ws[i].Blocked? then Awake else ws[i])
  }

  /** What a critical section does on the condition that workers block on. */
  datatype Wakeup = WakeNone | WakeOne | WakeAll

  function Wake(ws: seq<Worker>, w: Wakeup, woken: nat): seq<Worker>
  {
    match w
    case WakeNone => ws
    case WakeOne => Signal(ws, woken)
    case WakeAll => Broadcast(ws)
  }

  function WakeWaiters(ws: seq<Waiter>): (r: seq<Waiter>)
    ensures |r| == |ws|
    ensures forall i :: 0 <= i < |ws| ==> r[i] == if ws[i].Waiting? then Testing else ws[i]
  {
    seq(|ws|, i requires 0 <= i < |ws| => if ws[i].Waiting? then Testing else ws[i])
  }

  /** One step; an event that is not enabled changes nothing. */
  function Next(x: State, e: Event): State
  {
    match e
    case Look(i) => if i < |x.workers| && x.workers[i].Awake? then WorkerLooks(x, i) else x
    case Finish(i, woken) =>
      if i < |x.workers| && x.workers[i].Running? && x.s.active > 0 then WorkerFinishes(x, i, woken) else x
    case SpuriousWakeup(i) =>
      if i < |x.workers| && x.workers[i].Blocked? then x.(workers := x.workers[i := Awake]) else x
    case Submit(t, woken) =>
      if Accepts(x.s)
      then x.(s := Submitted(x.s, t), workers := Signal(x.workers, woken), accepted := x.accepted + [t])
      else x.(s := Submitted(x.s, t))
    case SetConcurrency(m) => x.(s := Throttled(x.s, m), workers := Broadcast(x.workers))
    case Shutdown => x.(s := Closing(x.s), workers := Broadcast(x.workers))
    case CallWait => x.(waiters := x.waiters + [Testing])
    case TestIdle(j) =>
      if j < |x.waiters| && x.waiters[j].Testing?
      then x.(waiters := x.waiters[j := if x.s.queue != [] || x.s.active > 0 then Waiting else Returned])
      else x
    case SpuriousIdle(j) =>
      if j < |x.waiters| && x.waiters[j].Waiting? then x.(waiters := x.waiters[j := Testing]) else x
  }

  function WorkerLooks(x: State, i: nat): State
    requires i < |x.workers|
  {
    match Decide(x.s)
    case Block => x.(workers := x.workers[i := Blocked])
    case Exit => x.(workers := x.workers[i := Exited])
    case Sleep => x
    case Take =>
      x.(s := Taken(x.s), workers := x.workers[i := Running(x.s.queue[0])], started := x.started + [x.s.queue[0]])
  }

  function WorkerFinishes(x: State, i: nat, woken: nat): State
    requires i < |x.workers| && x.workers[i].Running? && x.s.active > 0
  {
    var s := Finished(x.s);
    var ws := x.workers[i := Awake];
    x.(s := s, done := x.done + [x.workers[i].task],
       workers := if s.queue != [] then Signal(ws, woken) else ws,
       waiters := if s.queue == [] && s.active == 0 then WakeWaiters(x.waiters) else x.waiters)
  }

  // --- Counting workers ---

  function AwakeCount(ws: seq<Worker>): nat
  {
    if ws == [] then 0 else (if ws[0].Awake? then 1 else 0) + AwakeCount(ws[1..])
  }

  function TaskOf(w: Worker): multiset<Task> { if w.Running? then multiset{w.task} else multiset{} }

  function RunningTasks(ws: seq<Worker>): multiset<Task>
  {
    if ws == [] then multiset{} else TaskOf(ws[0]) + RunningTasks(ws[1..])
  }

  lemma {:induction false} Replaced(ws: seq<Worker>, i: nat, w: Worker)
    requires i < |ws|
    ensures AwakeCount(ws[i := w]) + (if ws[i].Awake? then 1 else 0) == AwakeCount(ws) + (if w.Awake? then 1 else 0)
    ensures RunningTasks(ws[i := w]) + TaskOf(ws[i]) == RunningTasks(ws) + TaskOf(w)
  {
    hide TaskOf;
    var first, rest := TaskOf(ws[0]), RunningTasks(ws[1..]);
    if i > 0 {
      Replaced(ws[1..], i - 1, w);
      assert ws[i := w][1..] == ws[1..][i - 1 := w];
      var changed := RunningTasks(ws[1..][i - 1 := w]);
      assert (first + changed) + TaskOf(ws[i]) == first + (changed + TaskOf(ws[i]));
      assert (first + rest) + TaskOf(w) == first + (rest + TaskOf(w));
    } else {
      assert ws[i := w][1..] == ws[1..];
      assert (TaskOf(w) + rest) + first == (first + rest) + TaskOf(w);
    }
  }

  /** A worker that moves without taking or leaving a task. */
  lemma MovedIdle(ws: seq<Worker>, i: nat, w: Worker)
    requires i < |ws| && !ws[i].Running? && !w.Running?
    ensures AwakeCount(ws[i := w]) + (if ws[i].Awake? then 1 else 0) == AwakeCount(ws) + (if w.Awake? then 1 else 0)
    ensures RunningTasks(ws[i := w]) == RunningTasks(ws)
  {
    Replaced(ws, i, w);
    assert RunningTasks(ws[i := w]) + multiset{} == RunningTasks(ws[i := w]);
    assert RunningTasks(ws) + multiset{} == RunningTasks(ws);
  }

  lemma TakesTask(ws: seq<Worker>, i: nat, t: Task)
    requires i < |ws| && ws[i].Awake?
    ensures AwakeCount(ws[i := Running(t)]) + 1 == AwakeCount(ws)
    ensures RunningTasks(ws[i := Running(t)]) == RunningTasks(ws) + multiset{t}
  {
    Replaced(ws, i, Running(t));
    assert RunningTasks(ws[i := Running(t)]) + multiset{} == RunningTasks(ws[i := Running(t)]);
  }

  lemma {:induction false} AwakeOrRunning(ws: seq<Worker>)
    requires forall i :: 0 <= i < |ws| ==> ws[i].Awake? || ws[i].Running?
    ensures AwakeCount(ws) + |RunningTasks(ws)| == |ws|
  {
    if ws != [] { AwakeOrRunning(ws[1..]); }
  }

  lemma {:induction false} Broadcasts(ws: seq<Worker>)
    ensures RunningTasks(Broadcast(ws)) == RunningTasks(ws) && AwakeCount(Broadcast(ws)) >= AwakeCount(ws)
  {
    if ws != [] {
      Broadcasts(ws[1..]);
      assert Broadcast(ws)[1..] == Broadcast(ws[1..]);
    }
  }

  lemma Signals(ws: seq<Worker>, woken: nat)
    ensures var r := Signal(ws, woken);
            && |r| == |ws|
            && RunningTasks(r) == RunningTasks(ws)
            && (AwakeCount(r) == AwakeCount(ws) + 1 || (r == ws && forall i :: 0 <= i < |ws| ==> !ws[i].Blocked?))
            && (forall i :: 0 <= i < |ws| ==> r[i] == ws[i] || (ws[i].Blocked? && r[i].Awake?))
  {
    hide AwakeCount, RunningTasks, FirstBlocked;
    var i := if woken < |ws| && ws[woken].Blocked? then woken else FirstBlocked(ws);
    if i < |ws| {
      MovedIdle(ws, i, Awake);
    }
  }

  // --- The invariant ---

  ghost predicate Sane(x: State)
  {
    && |x.workers| == x.s.threads
    && 1 <= x.s.limit <= x.s.threads
    && |x.s.queue| <= x.s.capacity
  }

  /** Accepted tasks are started in order, and those started and not done are the running ones. */
  ghost predicate Accounted(x: State)
  {
    && x.accepted == x.started + x.s.queue
    && multiset(x.started) == multiset(x.done) + RunningTasks(x.workers)
    && x.s.active == |RunningTasks(x.workers)|
    && x.s.completed == |x.done|
  }

  /** Runnable work has an awake worker for every unit of it. */
  ghost predicate NoLostWakeup(x: State)
  {
    !x.s.shutdown ==>
      |x.s.queue| <= AwakeCount(x.workers) || x.s.limit - x.s.active <= AwakeCount(x.workers)
  }

  ghost predicate Phases(x: State)
  {
    && (!x.s.shutdown ==> forall i :: 0 <= i < |x.workers| ==> !x.workers[i].Exited?)
    && (x.s.shutdown ==> forall i :: 0 <= i < |x.workers| ==> !x.workers[i].Blocked?)
    && (forall i :: 0 <= i < |x.workers| && x.workers[i].Exited? ==> x.s.queue == [])
  }

  /** Nobody waits for a pool that is idle. */
  ghost predicate IdleSeen(x: State)
  {
    x.s.queue == [] && x.s.active == 0 ==> forall j :: 0 <= j < |x.waiters| ==> !x.waiters[j].Waiting?
  }

  ghost predicate Inv(x: State)
  {
    Sane(x) && Accounted(x) && NoLostWakeup(x) && Phases(x) && IdleSeen(x)
  }

  // --- Every step keeps the invariant ---

  lemma InitHolds(threads: nat, capacity: nat)
    requires threads >= 1
    ensures Inv(Init(threads, capacity))
  {
    var x := Init(threads, capacity);
    NoneRunning(x.workers);
  }

  lemma {:induction false} NoneRunning(ws: seq<Worker>)
    requires forall i :: 0 <= i < |ws| ==> !ws[i].Running?
    ensures RunningTasks(ws) == multiset{}
  {
    if ws != [] { NoneRunning(ws[1..]); }
  }

  lemma LookKeeps(x: State, i: nat)
    requires Inv(x) && i < |x.workers| && x.workers[i].Awake?
    ensures Inv(WorkerLooks(x, i))
  {
    hide AwakeCount, RunningTasks;
    match Decide(x.s)
    case Block => MovedIdle(x.workers, i, Blocked);
    case Exit => MovedIdle(x.workers, i, Exited);
    case Sleep =>
    case Take =>
      var t := x.s.queue[0];
      TakesTask(x.workers, i, t);
      assert x.started + x.s.queue == x.started + [t] + x.s.queue[1..];
      assert multiset(x.started + [t]) == multiset(x.started) + multiset{t};
  }

  lemma FinishKeeps(x: State, i: nat, woken: nat)
    requires Inv(x) && i < |x.workers| && x.workers[i].Running? && x.s.active > 0
    ensures Inv(WorkerFinishes(x, i, woken))
  {
    hide AwakeCount, RunningTasks, Signal;
    var t := x.workers[i].task;
    var ws := x.workers[i := Awake];
    Replaced(x.workers, i, Awake);
    Signals(ws, woken);
    assert RunningTasks(x.workers) == RunningTasks(ws) + multiset{t};
    assert multiset(x.done + [t]) == multiset(x.done) + multiset{t};
  }

  lemma SubmitKeeps(x: State, t: Task, woken: nat)
    requires Inv(x)
    ensures Inv(Next(x, Submit(t, woken)))
  {
    hide AwakeCount, RunningTasks, Signal;
    if Accepts(x.s) {
      Signals(x.workers, woken);
      assert x.accepted + [t] == x.started + (x.s.queue + [t]);
      if forall i :: 0 <= i < |x.workers| ==> !x.workers[i].Blocked? {
        AwakeOrRunning(x.workers);
      }
    }
  }

  lemma BroadcastKeeps(x: State, m: int)
    requires Inv(x)
    ensures Inv(Next(x, SetConcurrency(m))) && Inv(Next(x, Shutdown))
  {
    hide AwakeCount, RunningTasks;
    Broadcasts(x.workers);
    if !x.s.shutdown { AwakeOrRunning(Broadcast(x.workers)); }
  }

  lemma NextKeeps(x: State, e: Event)
    requires Inv(x)
    ensures Inv(Next(x, e))
  {
    hide AwakeCount, RunningTasks, WorkerLooks, WorkerFinishes, Signal;
    match e
    case Look(i) => if i < |x.workers| && x.workers[i].Awake? { LookKeeps(x, i); }
    case Finish(i, woken) =>
      if i < |x.workers| && x.workers[i].Running? && x.s.active > 0 { FinishKeeps(x, i, woken); }
    case SpuriousWakeup(i) =>
      if i < |x.workers| && x.workers[i].Blocked? { MovedIdle(x.workers, i, Awake); }
    case Submit(t, woken) => SubmitKeeps(x, t, woken);
    case SetConcurrency(m) => BroadcastKeeps(x, m);
    case Shutdown => BroadcastKeeps(x, 0);
    case CallWait =>
    case TestIdle(j) =>
    case SpuriousIdle(j) =>
  }

  // --- Runs ---

  function Run(x: State, es: seq<Event>): State
    decreases |es|
  {
    if es == [] then x else Run(Next(x, es[0]), es[1..])
  }

  lemma {:induction false} RunKeeps(x: State, es: seq<Event>)
    requires Inv(x)
    ensures Inv(Run(x, es))
    decreases |es|
  {
    hide Inv, Next;
    if es != [] {
      NextKeeps(x, es[0]);
      RunKeeps(Next(x, es[0]), es[1..]);
    }
  }

  function Min(a: int, b: int): int { if a < b then a else b }

  /** Before shutdown, in every run, runnable work never outnumbers the awake workers. */
  lemma RunnableWorkHasWorkers(threads: nat, capacity: nat, es: seq<Event>)
    requires threads >= 1
    ensures var x := Run(Init(threads, capacity), es);
            !x.s.shutdown ==> Min(|x.s.queue|, x.s.limit - x.s.active) <= AwakeCount(x.workers)
  {
    InitHolds(threads, capacity);
    RunKeeps(Init(threads, capacity), es);
  }

  /** In every run, whatever is queued has a worker that is awake or running: the pool is never stuck. */
  lemma NeverStuck(threads: nat, capacity: nat, es: seq<Event>)
    requires threads >= 1
    ensures var x := Run(Init(threads, capacity), es);
            x.s.queue != [] ==> exists i :: 0 <= i < |x.workers| && (x.workers[i].Awake? || x.workers[i].Running?)
  {
    InitHolds(threads, capacity);
    RunKeeps(Init(threads, capacity), es);
    var x := Run(Init(threads, capacity), es);
    hide Run;
    if x.s.queue != [] {
      if x.s.shutdown {
        assert x.workers[0].Awake? || x.workers[0].Running?;
      } else if forall i :: 0 <= i < |x.workers| ==> !x.workers[i].Awake? && !x.workers[i].Running? {
        NoneRunning(x.workers);
        NoneAwake(x.workers);
      }
    }
  }

  lemma {:induction false} NoneAwake(ws: seq<Worker>)
    requires forall i :: 0 <= i < |ws| ==> !ws[i].Awake?
    ensures AwakeCount(ws) == 0
  {
    if ws != [] { NoneAwake(ws[1..]); }
  }

  /** Tasks leave the queue in the order in which they were accepted, and none is dropped or run twice. */
  lemma Conservation(threads: nat, capacity: nat, es: seq<Event>)
    requires threads >= 1
    ensures var x := Run(Init(threads, capacity), es);
            && x.accepted == x.started + x.s.queue
            && multiset(x.accepted) == multiset(x.s.queue) + RunningTasks(x.workers) + multiset(x.done)
            && |x.accepted| == |x.s.queue| + x.s.active + x.s.completed
  {
    InitHolds(threads, capacity);
    RunKeeps(Init(threads, capacity), es);
    var x := Run(Init(threads, capacity), es);
    hide Run, RunningTasks;
    assert |multiset(x.started)| == |x.started| && |multiset(x.done)| == |x.done|;
  }

  /** When every worker has left, every accepted task has run exactly once. */
  lemma DrainedAtExit(threads: nat, capacity: nat, es: seq<Event>)
    requires threads >= 1
    ensures var x := Run(Init(threads, capacity), es);
            (forall i :: 0 <= i < |x.workers| ==> x.workers[i].Exited?) ==>
              && x.started == x.accepted
              && multiset(x.done) == multiset(x.accepted)
              && x.s.completed == |x.accepted|
  {
    InitHolds(threads, capacity);
    RunKeeps(Init(threads, capacity), es);
    Conservation(threads, capacity, es);
    var x := Run(Init(threads, capacity), es);
    hide Run;
    if forall i :: 0 <= i < |x.workers| ==> x.workers[i].Exited? {
      NoneRunning(x.workers);
      assert x.workers[0].Exited?;
    }
  }

  // --- Draining ---

  /** A worker takes a task, ends one, or leaves. */
  predicate Progresses(x: State, e: Event)
  {
    match e
    case Look(i) => i < |x.workers| && x.workers[i].Awake? && (Decide(x.s).Take? || Decide(x.s).Exit?)
    case Finish(i, _) => i < |x.workers| && x.workers[i].Running? && x.s.active > 0
    case _ => false
  }

  /** How many such steps a run has. */
  function Progress(x: State, es: seq<Event>): nat
    decreases |es|
  {
    if es == [] then 0 else (if Progresses(x, es[0]) then 1 else 0) + Progress(Next(x, es[0]), es[1..])
  }

  /** The steps a worker has before it: to leave, and to end its task first. */
  function Left(w: Worker): nat { if w.Exited? then 0 else if w.Running? then 2 else 1 }

  function StepsLeft(ws: seq<Worker>): nat { if ws == [] then 0 else Left(ws[0]) + StepsLeft(ws[1..]) }

  function Measure(x: State): nat { 2 * |x.s.queue| + StepsLeft(x.workers) }

  lemma {:induction false} StepsReplaced(ws: seq<Worker>, i: nat, w: Worker)
    requires i < |ws|
    ensures StepsLeft(ws[i := w]) + Left(ws[i]) == StepsLeft(ws) + Left(w)
  {
    if i > 0 {
      StepsReplaced(ws[1..], i - 1, w);
      assert ws[i := w][1..] == ws[1..][i - 1 := w];
    } else {
      assert ws[i := w][1..] == ws[1..];
    }
  }

  lemma {:induction false} StepsBounded(ws: seq<Worker>)
    ensures StepsLeft(ws) <= 2 * |ws|
    ensures StepsLeft(ws) == 0 <==> forall i :: 0 <= i < |ws| ==> ws[i].Exited?
  {
    if ws != [] {
      StepsBounded(ws[1..]);
      assert forall i :: 1 <= i < |ws| ==> ws[i] == ws[1..][i - 1];
    }
  }

  /** After shutdown a step of progress uses up one unit, and no other step does. */
  lemma StepMeasured(x: State, e: Event)
    requires Inv(x) && x.s.shutdown
    ensures Next(x, e).s.shutdown
    ensures Measure(Next(x, e)) + (if Progresses(x, e) then 1 else 0) == Measure(x)
  {
    hide AwakeCount, RunningTasks, StepsLeft, WakeWaiters, Accounted, NoLostWakeup;
    NoneBlocked(x.workers);
    match e
    case Look(i) =>
      if i < |x.workers| && x.workers[i].Awake? {
        StepsReplaced(x.workers, i, WorkerLooks(x, i).workers[i]);
      }
    case Finish(i, woken) =>
      if i < |x.workers| && x.workers[i].Running? {
        StepsReplaced(x.workers, i, Awake);
        NoneBlocked(x.workers[i := Awake]);
      }
    case _ =>
  }

  lemma NoneBlocked(ws: seq<Worker>)
    requires forall i :: 0 <= i < |ws| ==> !ws[i].Blocked?
    ensures Broadcast(ws) == ws && forall woken: nat :: Signal(ws, woken) == ws
  {
  }

  /**
   * From shutdown on, however the steps interleave, the workers make as many steps of progress as the measure says and
   * not one more; once they have made them all, and only then, the queue is empty and every worker has left.
   */
  lemma {:induction false} DrainIsBounded(x: State, es: seq<Event>)
    requires Inv(x) && x.s.shutdown
    ensures Progress(x, es) + Measure(Run(x, es)) == Measure(x) <= 2 * |x.s.queue| + 2 * x.s.threads
    ensures Progress(x, es) == Measure(x)
            <==> Run(x, es).s.queue == [] && forall i :: 0 <= i < |Run(x, es).workers| ==> Run(x, es).workers[i].Exited?
    decreases |es|
  {
    hide Next, Progresses, StepsLeft, Accounted, NoLostWakeup;
    StepsBounded(x.workers);
    if es != [] {
      NextKeeps(x, es[0]);
      StepMeasured(x, es[0]);
      DrainIsBounded(Next(x, es[0]), es[1..]);
    }
  }

  /** Until every worker has left, one of them can make a step of progress, even if the pool was throttled again. */
  lemma SomebodyProgresses(x: State) returns (e: Event)
    requires Inv(x) && x.s.shutdown
    requires exists i :: 0 <= i < |x.workers| && !x.workers[i].Exited?
    ensures Progresses(x, e)
  {
    hide AwakeCount, RunningTasks;
    if i :| 0 <= i < |x.workers| && x.workers[i].Running? {
      e := Finish(i, 0);
      IsRunning(x.workers, i);
    } else {
      var j :| 0 <= j < |x.workers| && !x.workers[j].Exited?;
      NoneRunning(x.workers);
      e := Look(j);
    }
  }

  lemma {:induction false} IsRunning(ws: seq<Worker>, i: nat)
    requires i < |ws| && ws[i].Running?
    ensures |RunningTasks(ws)| > 0
  {
    if i > 0 { IsRunning(ws[1..], i - 1); }
  }

  /** In every run, nobody is left waiting for a pool that has become idle. */
  lemma IdleIsNoticed(threads: nat, capacity: nat, es: seq<Event>)
    requires threads >= 1
    ensures var x := Run(Init(threads, capacity), es);
            x.s.queue == [] && x.s.active == 0 ==> forall j :: 0 <= j < |x.waiters| ==> !x.waiters[j].Waiting?
  {
    InitHolds(threads, capacity);
    RunKeeps(Init(threads, capacity), es);
  }
}

/** What the pool promises of every single step: the throttle, the room in the queue, and who waits for what. */
module PoolLaws {
  import opened PoolSteps

  /** A step that starts a task finds the pool below its limit, and takes the oldest task; no other step starts one. */
  lemma StartsBelowLimit(x: State, e: Event)
    ensures var y := Next(x, e);
            || y.started == x.started
            || (&& x.s.active < x.s.limit && x.s.queue != []
                && y.started == x.started + [x.s.queue[0]] && y.s.queue == x.s.queue[1..]
                && y.s.active == x.s.active + 1 && y.s.limit == x.s.limit)
    ensures Next(x, e).started == x.started ==> Next(x, e).s.active <= x.s.active
  {
    hide Signal;
  }

  /** No step of the run lowers the limit. */
  predicate NeverLowered(x: State, es: seq<Event>)
    decreases |es|
  {
    es != [] ==> x.s.limit <= Next(x, es[0]).s.limit && NeverLowered(Next(x, es[0]), es[1..])
  }

  /** As long as nobody lowers the limit, no more tasks run at a time than it allows. */
  lemma {:induction false} NeverOverLimit(x: State, es: seq<Event>)
    requires x.s.active <= x.s.limit && NeverLowered(x, es)
    ensures Run(x, es).s.active <= Run(x, es).s.limit
    decreases |es|
  {
    hide Next;
    if es != [] {
      StartsBelowLimit(x, es[0]);
      NeverOverLimit(Next(x, es[0]), es[1..]);
    }
  }

  /** Once lowered, the limit lets no task start until enough have ended. */
  lemma {:induction false} OverLimitOnlyShrinks(x: State, es: seq<Event>, k: nat)
    requires k <= |es| && forall n :: 0 <= n < k ==> Run(x, es[..n]).s.active >= Run(x, es[..n]).s.limit
    ensures Run(x, es[..k]).started == x.started && Run(x, es[..k]).s.active <= x.s.active
    decreases k
  {
    hide Next;
    if k > 0 {
      OverLimitOnlyShrinks(x, es, k - 1);
      assert es[..k] == es[..k - 1] + [es[k - 1]];
      RunOneMore(x, es[..k - 1], es[k - 1]);
      StartsBelowLimit(Run(x, es[..k - 1]), es[k - 1]);
    } else {
      assert es[..0] == [];
    }
  }

  lemma {:induction false} RunOneMore(x: State, es: seq<Event>, e: Event)
    ensures Run(x, es + [e]) == Next(Run(x, es), e)
    decreases |es|
  {
    hide Next;
    if es != [] {
      assert (es + [e])[1..] == es[1..] + [e];
      RunOneMore(Next(x, es[0]), es[1..], e);
    } else {
      assert [] + [e] == [e] && [e][1..] == [];
    }
  }

  /** What an awake worker does once it has the lock, in each of the four cases. */
  lemma LookDoes(x: State, i: nat)
    requires i < |x.workers| && x.workers[i].Awake?
    ensures var y, queued, room := Next(x, Look(i)), x.s.queue != [], x.s.active < x.s.limit;
            && (queued && room ==>
                  y.workers == x.workers[i := Running(x.s.queue[0])] && y.started == x.started + [x.s.queue[0]]
                  && y.s == x.s.(queue := x.s.queue[1..], active := x.s.active + 1))
            && (!(queued && room) && !x.s.shutdown ==> y == x.(workers := x.workers[i := Blocked]))
            && (!queued && x.s.shutdown ==> y == x.(workers := x.workers[i := Exited]))
            && (queued && !room && x.s.shutdown ==> y == x)
  {
  }

  /** A finished task is counted, and frees its place below the limit. */
  lemma FinishDoes(x: State, i: nat, woken: nat)
    requires i < |x.workers| && x.workers[i].Running? && x.s.active > 0
    ensures var y := Next(x, Finish(i, woken));
            && y.s == x.s.(active := x.s.active - 1, completed := x.s.completed + 1)
            && y.done == x.done + [x.workers[i].task]
            && |y.workers| == |x.workers| && y.workers[i].Awake?
  {
  }

  /** A task is accepted exactly if the pool is open and its queue has room. */
  lemma SubmitDoes(x: State, t: Task, woken: nat)
    ensures var y := Next(x, Submit(t, woken));
            if !x.s.shutdown && |x.s.queue| != x.s.capacity
            then y.accepted == x.accepted + [t] && y.s == x.s.(queue := x.s.queue + [t])
            else y == x.(s := x.s.(rejected := x.s.rejected + 1))
  {
  }

  /** A limit between one and the number of threads is taken, any other means all threads; blocked workers wake. */
  lemma SetConcurrencyDoes(x: State, n: int)
    ensures var y := Next(x, SetConcurrency(n));
            && y.s == x.s.(limit := y.s.limit)
            && (1 <= n <= x.s.threads ==> y.s.limit == n)
            && (!(1 <= n <= x.s.threads) ==> y.s.limit == x.s.threads)
            && (forall i :: 0 <= i < |x.workers| ==>
                  |y.workers| == |x.workers| && y.workers[i] == if x.workers[i].Blocked? then Awake else x.workers[i])
  {
  }

  lemma ShutdownDoes(x: State)
    ensures var y := Next(x, Shutdown);
            && y.s == x.s.(shutdown := true, limit := x.s.threads)
            && (forall i :: 0 <= i < |x.workers| ==>
                  |y.workers| == |x.workers| && y.workers[i] == if x.workers[i].Blocked? then Awake else x.workers[i])
  {
  }

  /** A caller that waits returns exactly when it finds the pool idle. */
  lemma WaitDoes(x: State, j: nat)
    requires j < |x.waiters| && x.waiters[j].Testing?
    ensures var y := Next(x, TestIdle(j));
            y == x.(waiters := x.waiters[j := if x.s.queue == [] && x.s.active == 0 then Returned else Waiting])
  {
  }

  // --- The first scheduler slots of a throttled pool ---

  /** Two workers, a limit of one, two tasks: the second worker must block. */
  lemma ThrottledToOne(a: Task, b: Task)
    ensures var x := Run(Init(2, 8), [SetConcurrency(1), Submit(a, 0), Submit(b, 0), Look(0), Look(1)]);
            x.s.active == 1 && x.s.queue == [b] && x.workers == [Running(a), Blocked]
  {
    var es := [SetConcurrency(1), Submit(a, 0), Submit(b, 0), Look(0), Look(1)];
    var x0 := Init(2, 8);
    assert x0.workers == [Awake, Awake];
    var x1 := Next(x0, es[0]);
    assert x1.workers == [Awake, Awake];
    var x2 := Next(x1, es[1]);
    var x3 := Next(x2, es[2]);
    assert x3.s.queue == [a, b] && x3.workers == [Awake, Awake];
    var x4 := Next(x3, es[3]);
    assert x4.workers == [Running(a), Awake] && x4.s.queue == [b];
    var x5 := Next(x4, es[4]);
    assert es[1..][1..][1..][1..][1..] == [];
    assert Run(x0, es) == Run(x1, es[1..]);
    assert Run(x1, es[1..]) == Run(x2, es[1..][1..]);
    assert Run(x2, es[1..][1..]) == Run(x3, es[1..][1..][1..]);
    assert Run(x3, es[1..][1..][1..]) == Run(x4, es[1..][1..][1..][1..]);
    assert Run(x4, es[1..][1..][1..][1..]) == Run(x5, []);
  }
}

/** The pool's queue in its own form: a circular array and counters, one method per critical section. */
module Pool {
  import opened Modular
  import opened PoolSteps

  class TaskPool {
    const queue: array<Task>
    const threads: nat
    var head: nat
    var count: nat
    var active: nat
    var limit: nat
    var shutdown: bool
    var completed: nat
    var rejected: nat
    ghost var waiting: seq<Task>

    ghost predicate Valid()
      reads this, queue
    {
      && 0 < queue.Length
      && head < queue.Length
      && count == |waiting| <= queue.Length
      && forall k :: 0 <= k < count ==> queue[Slot(head, k, queue.Length)] == waiting[k]
    }

    /** Where the k-th waiting task lies. */
    static function Slot(head: nat, k: nat, capacity: nat): (i: nat)
      requires 0 < capacity
      ensures i < capacity
    {
      (head + k) % capacity
    }

    ghost function View(): Shared
      reads this
    {
      Shared(waiting, queue.Length, threads, active, limit, shutdown, completed, rejected)
    }

    /** Non-positive arguments give the number of processors and a queue of 1024. */
    constructor (threads: int, capacity: int, processors: nat)
      ensures Valid() && fresh(queue)
      ensures View() == Init(if threads <= 0 then processors else threads, if capacity <= 0 then 1024 else capacity).s
    {
      var n := if capacity <= 0 then 1024 else capacity;
      var w := if threads <= 0 then processors else threads;
      queue := new Task[n](_ => Task(0, 0));
      this.threads := w;
      head, count, active, limit, shutdown, completed, rejected := 0, 0, 0, w, false, 0, 0;
      waiting := [];
    }

    /** The step this makes, given what is in the queue and which blocked worker a signal picks. */
    method Submit(t: Task) returns (ok: bool, wake: Wakeup)
      requires Valid()
      modifies this`count, this`rejected, this`waiting, queue
      ensures Valid() && ok == Accepts(old(View())) && View() == Submitted(old(View()), t)
      ensures forall x: State, woken :: x.s == old(View()) ==>
                Next(x, PoolSteps.Submit(t, woken))
                == x.(s := View(), workers := Wake(x.workers, wake, woken),
                      accepted := if ok then x.accepted + [t] else x.accepted)
    {
      if shutdown || count == queue.Length {
        rejected := rejected + 1;
        return false, WakeNone;
      }
      var slot := Slot(head, count, queue.Length);
      forall k | 0 <= k < count ensures Slot(head, k, queue.Length) != slot {
        DifferentSlots(queue.Length, head + k, head + count);
      }
      queue[slot] := t;
      count := count + 1;
      waiting := waiting + [t];
      return true, WakeOne;
    }

    /** A worker's first critical section; a taken task is the oldest one. */
    method Look() returns (d: Decision, t: Task)
      requires Valid()
      modifies this`head, this`count, this`active, this`waiting
      ensures Valid() && d == Decide(old(View()))
      ensures d.Take? ==> old(View()).queue != [] && t == old(View()).queue[0] && View() == Taken(old(View()))
      ensures !d.Take? ==> View() == old(View())
    {
      t := Task(0, 0);
      if !shutdown && (count == 0 || active >= limit) { return Block, t; }
      if count == 0 && shutdown { return Exit, t; }
      if active >= limit { return Sleep, t; }
      t := queue[head];
      FirstSlot(head, queue.Length);
      ghost var before := head;
      head := (head + 1) % queue.Length;
      forall k | 0 <= k < count - 1 ensures Slot(head, k, queue.Length) == Slot(before, k + 1, queue.Length) {
        Wraps(before + 1, k, queue.Length);
      }
      hide Slot;
      count := count - 1;
      active := active + 1;
      waiting := waiting[1..];
      return Take, t;
    }

    static lemma FirstSlot(head: nat, capacity: nat)
      requires head < capacity
      ensures Slot(head, 0, capacity) == head
    {
      ModUnique(head, 0, head, capacity);
    }

    static lemma Wraps(a: nat, k: nat, n: nat)
      requires 0 < n
      ensures (a % n + k) % n == (a + k) % n
    {
      var q, r := (a % n + k) / n, (a % n + k) % n;
      assert a + k == n * (a / n) + n * q + r;
      assert n * (a / n) + n * q == n * (a / n + q);
      ModUnique(a + k, a / n + q, r, n);
    }

    /** A worker's second critical section; says whether to signal a worker and whether the pool fell idle. */
    method Finish() returns (wake: Wakeup, idle: bool)
      requires Valid() && active > 0
      modifies this`active, this`completed
      ensures Valid() && View() == Finished(old(View()))
      ensures idle == (View().queue == [] && View().active == 0)
      ensures forall x: State, i: nat, woken :: x.s == old(View()) && i < |x.workers| && x.workers[i].Running? ==>
                Next(x, PoolSteps.Finish(i, woken))
                == x.(s := View(), workers := Wake(x.workers[i := Awake], wake, woken),
                      waiters := if idle then WakeWaiters(x.waiters) else x.waiters,
                      done := x.done + [x.workers[i].task])
    {
      hide Signal, WakeWaiters;
      active := active - 1;
      completed := completed + 1;
      wake := if count > 0 then WakeOne else WakeNone;
      idle := count == 0 && active == 0;
    }

    method SetConcurrency(maxActive: int) returns (wake: Wakeup)
      requires Valid()
      modifies this`limit
      ensures Valid() && View() == Throttled(old(View()), maxActive)
      ensures forall x: State :: x.s == old(View()) ==>
                Next(x, PoolSteps.SetConcurrency(maxActive)) == x.(s := View(), workers := Wake(x.workers, wake, 0))
    {
      limit := if maxActive <= 0 || maxActive > threads then threads else maxActive;
      wake := WakeAll;
    }

    method Shutdown() returns (wake: Wakeup)
      requires Valid()
      modifies this`shutdown, this`limit
      ensures Valid() && View() == Closing(old(View()))
      ensures forall x: State :: x.s == old(View()) ==>
                Next(x, PoolSteps.Shutdown) == x.(s := View(), workers := Wake(x.workers, wake, 0))
    {
      shutdown := true;
      limit := threads;
      wake := WakeAll;
    }
  }
}

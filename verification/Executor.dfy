/** The worker pool: what its event handlers keep true in every reachable state. */
module Executor {

  const QUEUE_SIZE_WORKER_THRESHOLD: nat := 5

  datatype Task<P> = Task(id: nat, params: P)

  datatype Reply<R> = Ok(value: R) | Err(error: string)

  /** A worker with the tasks whose `once` listeners wait on its port. */
  datatype WorkerChannel<P> = WorkerChannel(listeners: seq<Task<P>>)

  /** A snapshot of the pool. `settled` are the promises resolved or rejected so far, `submitted` all tasks ever run. */
  datatype State<P, R> = State(
    maxWorkers: nat,
    free: seq<nat>,
    queue: seq<Task<P>>,
    initializing: bool,
    workers: seq<WorkerChannel<P>>,
    settled: seq<(Task<P>, Reply<R>)>,
    submitted: seq<Task<P>>)

  datatype Event<P, R> = Submit(params: P) | Ready | Message(worker: nat, reply: Reply<R>)

  // ----- steps -----

  function Init<P, R>(minWorkers: nat, maxWorkers: nat): State<P, R> {
    State(maxWorkers, seq(minWorkers, i => i), [], false, seq(minWorkers, i => WorkerChannel([])), [], [])
  }

  predicate FreeRight<P, R>(s: State<P, R>) {
    forall i | 0 <= i < |s.free| :: s.free[i] < |s.workers|
  }

  /** `processEntryFromTaskQueue`: last in, first out on both lists. */
  function Process<P, R>(s: State<P, R>): State<P, R>
    requires FreeRight(s)
  {
    if s.free == [] then
      if |s.queue| > QUEUE_SIZE_WORKER_THRESHOLD && |s.workers| < s.maxWorkers then s.(initializing := true) else s
    else if s.queue == [] then s
    else
      var w, task := s.free[|s.free| - 1], s.queue[|s.queue| - 1];
      s.(free := s.free[..|s.free| - 1], queue := s.queue[..|s.queue| - 1],
         workers := s.workers[w := WorkerChannel(s.workers[w].listeners + [task])])
  }

  predicate Enabled<P, R>(s: State<P, R>, e: Event<P, R>) {
    match e
    case Submit(_) => true
    case Ready => s.initializing
    case Message(w, _) => w < |s.workers| && |s.workers[w].listeners| > 0
  }

  function Queued<P, R>(s: State<P, R>, params: P): State<P, R> {
    var task := Task(|s.submitted|, params);
    s.(queue := s.queue + [task], submitted := s.submitted + [task])
  }

  function Joined<P, R>(s: State<P, R>): State<P, R> {
    s.(workers := s.workers + [WorkerChannel([])], free := s.free + [|s.workers|], initializing := false)
  }

  /** The listeners of a worker fire once and are gone; each marks the worker as free. */
  function Answered<P, R>(s: State<P, R>, w: nat, reply: Reply<R>): State<P, R>
    requires w < |s.workers| && |s.workers[w].listeners| == 1
  {
    s.(settled := s.settled + [(s.workers[w].listeners[0], reply)], workers :=
        s.workers[w := WorkerChannel([])], free := s.free + [w])
  }

  ghost function Step<P, R>(s: State<P, R>, e: Event<P, R>): State<P, R>
    requires Inv(s) && Enabled(s, e)
  {
    match e
    case Submit(params) => Process(Queued(s, params))
    case Ready => Process(Joined(s))
    case Message(w, reply) => Process(Answered(s, w, reply))
  }

  // ----- invariants -----

  predicate WorkersRight<P, R>(s: State<P, R>) {
    && FreeRight(s)
    && (forall i, j | 0 <= i < j < |s.free| :: s.free[i] != s.free[j])
    && (forall w | 0 <= w < |s.workers| :: |s.workers[w].listeners| == if w in s.free then 0 else 1)
  }

  ghost function Running<P>(workers: seq<WorkerChannel<P>>): multiset<Task<P>> {
    if workers == [] then multiset{}
    else Running(workers[..|workers| - 1]) + multiset(workers[|workers| - 1].listeners)
  }

  ghost function SettledTasks<P, R>(settled: seq<(Task<P>, Reply<R>)>): multiset<Task<P>> {
    if settled == [] then multiset{} else SettledTasks(settled[..|settled| - 1]) + multiset{settled[|settled| - 1].0}
  }

  /** All tasks, wherever they are. */
  ghost function AllTasks<P, R>(s: State<P, R>): multiset<Task<P>> {
    multiset(s.queue) + Running(s.workers) + SettledTasks(s.settled)
  }

  ghost predicate TasksRight<P, R>(s: State<P, R>) {
    && (forall i | 0 <= i < |s.submitted| :: s.submitted[i].id == i)
    && AllTasks(s) == multiset(s.submitted)
  }

  /** Holds in every reachable state. */
  ghost predicate Inv<P, R>(s: State<P, R>) {
    && WorkersRight(s) && TasksRight(s)
    && s.maxWorkers > 0 && |s.workers| + (if s.initializing then 1 else 0) <= s.maxWorkers
    && (s.queue != [] ==> s.free == [])
    && (s.workers == [] && !s.initializing ==> |s.queue| <= QUEUE_SIZE_WORKER_THRESHOLD)
  }

  /** What `Process` needs: at most one thing can be dispatched. */
  ghost predicate Before<P, R>(s: State<P, R>) {
    && WorkersRight(s) && TasksRight(s)
    && s.maxWorkers > 0 && |s.workers| + (if s.initializing then 1 else 0) <= s.maxWorkers
    && (|s.queue| <= 1 || |s.free| <= 1)
  }

  lemma InitInv<P, R>(minWorkers: nat, maxWorkers: nat)
    requires maxWorkers > 0 && minWorkers <= maxWorkers
    ensures Inv(Init<P, R>(minWorkers, maxWorkers))
  {
    var s := Init<P, R>(minWorkers, maxWorkers);
    NothingRuns(s.workers);
    forall w | 0 <= w < minWorkers
      ensures w in s.free
    {
      assert s.free[w] == w;
    }
  }

  lemma {:induction false} NothingRuns<P>(workers: seq<WorkerChannel<P>>)
    requires forall w | 0 <= w < |workers| :: workers[w].listeners == []
    ensures Running(workers) == multiset{}
  {
    if workers != [] {
      NothingRuns(workers[..|workers| - 1]);
    }
  }

  lemma {:induction false} RunningAfter<P>(workers: seq<WorkerChannel<P>>, w: nat, worker: WorkerChannel<P>)
    requires w < |workers|
    ensures Running(workers[w := worker]) + multiset(workers[w].listeners) ==
        Running(workers) + multiset(worker.listeners)
  {
    var n := |workers| - 1;
    var after := workers[w := worker];
    var gone, added := multiset(workers[w].listeners), multiset(worker.listeners);
    if w < n {
      RunningAfter(workers[..n], w, worker);
      assert after[..n] == workers[..n][w := worker] && workers[..n][w] == workers[w] && after[n] == workers[n];
      var last := multiset(workers[n].listeners);
      assert Running(after) + gone == (Running(after[..n]) + gone) + last;
      assert Running(workers) + added == (Running(workers[..n]) + added) + last;
    } else {
      assert after[..n] == workers[..n];
      assert Running(after) + gone == Running(workers[..n]) + gone + added;
    }
  }

  lemma DispatchTasks<P, R>(s: State<P, R>)
    requires WorkersRight(s) && s.free != [] && s.queue != []
    ensures AllTasks(Process(s)) == AllTasks(s)
  {
    hide SettledTasks, Running;
    var w, task := s.free[|s.free| - 1], s.queue[|s.queue| - 1];
    assert s.workers[w].listeners == [];
    assert s.workers[w].listeners + [task] == [task];
    RunningAfter(s.workers, w, WorkerChannel([task]));
    var front := s.queue[..|s.queue| - 1];
    assert s.queue == front + [task];
    var after := Process(s);
    assert Running(after.workers) + multiset([]) == Running(s.workers) + multiset{task};
    assert Running(after.workers) == Running(s.workers) + multiset{task};
    assert multiset(s.queue) == multiset(front) + multiset{task};
    assert multiset(front) + (Running(s.workers) + multiset{task}) ==
        (multiset(front) + multiset{task}) + Running(s.workers);
  }

  lemma DispatchWorkers<P, R>(s: State<P, R>)
    requires WorkersRight(s) && s.free != [] && s.queue != []
    ensures WorkersRight(Process(s))
  {
    var w, front := s.free[|s.free| - 1], s.free[..|s.free| - 1];
    assert s.free == front + [w];
    assert w in s.free && w !in front;
  }

  /** Dispatching leaves nothing that could be dispatched. */
  lemma ProcessInv<P, R>(s: State<P, R>)
    requires Before(s)
    ensures Inv(Process(s))
  {
    hide AllTasks, WorkersRight;
    FreeFollows(s);
    if s.free != [] && s.queue != [] {
      DispatchTasks(s);
      DispatchWorkers(s);
    } else {
      SameTasks(s, Process(s));
    }
  }

  lemma FreeFollows<P, R>(s: State<P, R>)
    requires WorkersRight(s)
    ensures FreeRight(s)
  {
  }

  lemma SameTasks<P, R>(s: State<P, R>, after: State<P, R>)
    requires after == s || after == s.(initializing := true)
    ensures AllTasks(after) == AllTasks(s) && WorkersRight(after) == WorkersRight(s)
  {
  }

  lemma QueuedBefore<P, R>(s: State<P, R>, params: P)
    requires Inv(s)
    ensures Before(Queued(s, params))
  {
    hide Running, SettledTasks;
  }

  lemma JoinedBefore<P, R>(s: State<P, R>)
    requires Inv(s) && s.initializing
    ensures Before(Joined(s))
  {
    hide SettledTasks;
    var after := Joined(s);
    assert after.workers[..|s.workers|] == s.workers;
    assert |s.workers| !in s.free;
  }

  lemma AnsweredBefore<P, R>(s: State<P, R>, w: nat, reply: Reply<R>)
    requires Inv(s) && w < |s.workers| && |s.workers[w].listeners| == 1
    ensures Before(Answered(s, w, reply))
  {
    hide Running;
    var after := Answered(s, w, reply);
    var task := s.workers[w].listeners[0];
    RunningAfter(s.workers, w, WorkerChannel([]));
    assert s.workers[w].listeners == [task];
    assert after.settled[..|s.settled|] == s.settled;
    assert Running(after.workers) + multiset{task} == Running(s.workers) + multiset([]);
    assert Running(after.workers) + multiset{task} == Running(s.workers);
    assert AllTasks(after) == multiset(s.queue) + (Running(after.workers) + multiset{task}) + SettledTasks(s.settled);
    assert w !in s.free;
    assert forall x :: x in after.free <==> x in s.free || x == w;
  }

  /** Every step keeps the invariant. */
  lemma StepInv<P, R>(s: State<P, R>, e: Event<P, R>)
    requires Inv(s) && Enabled(s, e)
    ensures Inv(Step(s, e))
  {
    hide Inv, Before, Process;
    EnabledWorker(s, e);
    match e
    case Submit(params) =>
      QueuedBefore(s, params);
      ProcessInv(Queued(s, params));
    case Ready =>
      JoinedBefore(s);
      ProcessInv(Joined(s));
    case Message(w, reply) =>
      AnsweredBefore(s, w, reply);
      ProcessInv(Answered(s, w, reply));
  }

  lemma EnabledWorker<P, R>(s: State<P, R>, e: Event<P, R>)
    requires Inv(s) && Enabled(s, e)
    ensures e.Message? ==> e.worker < |s.workers| && |s.workers[e.worker].listeners| == 1
  {
  }

  // ----- runs -----

  /** A run; events that cannot happen in a state are left out. */
  ghost function Exec<P, R>(s: State<P, R>, events: seq<Event<P, R>>): State<P, R>
    requires Inv(s)
    decreases |events|
  {
    if events == [] then s
    else if Enabled(s, events[0]) then StepInv(s, events[0]); Exec(Step(s, events[0]), events[1..])
    else Exec(s, events[1..])
  }

  lemma {:induction false} ReachableInv<P, R>(s: State<P, R>, events: seq<Event<P, R>>)
    requires Inv(s)
    ensures Inv(Exec(s, events)) && |Exec(s, events).workers| >= |s.workers| && s.settled <= Exec(s, events).settled
    decreases |events|
  {
    hide Inv;
    if events != [] {
      if Enabled(s, events[0]) {
        StepInv(s, events[0]);
        StepGrows(s, events[0]);
        ReachableInv(Step(s, events[0]), events[1..]);
      } else {
        ReachableInv(s, events[1..]);
      }
    }
  }

  lemma ProcessKeeps<P, R>(s: State<P, R>)
    requires FreeRight(s)
    ensures |Process(s).workers| == |s.workers| && Process(s).settled == s.settled &&
        Process(s).submitted == s.submitted
  {
  }

  lemma StepGrows<P, R>(s: State<P, R>, e: Event<P, R>)
    requires Inv(s) && Enabled(s, e)
    ensures |Step(s, e).workers| >= |s.workers| && s.settled <= Step(s, e).settled
    ensures e.Message? ==> |Step(s, e).settled| == |s.settled| + 1 && Step(s, e).submitted == s.submitted
  {
    hide Inv, Process, FreeRight, Enabled;
    EnabledWorker(s, e);
    StepReady(s, e);
    match e
    case Submit(params) => ProcessKeeps(Queued(s, params));
    case Ready => ProcessKeeps(Joined(s));
    case Message(w, reply) => ProcessKeeps(Answered(s, w, reply));
  }

  lemma StepReady<P, R>(s: State<P, R>, e: Event<P, R>)
    requires Inv(s) && Enabled(s, e)
    ensures e.Submit? ==> FreeRight(Queued(s, e.params))
    ensures e.Ready? ==> FreeRight(Joined(s))
    ensures e.Message? ==>
        e.worker < |s.workers| && |s.workers[e.worker].listeners| == 1 &&
        FreeRight(Answered(s, e.worker, e.reply))
  {
    hide TasksRight;
  }

  lemma {:induction false} OnceInSequence<T>(ts: seq<T>, t: T)
    requires forall i, j | 0 <= i < j < |ts| :: ts[i] != ts[j]
    ensures multiset(ts)[t] <= 1 && (t in ts ==> multiset(ts)[t] == 1)
  {
    if ts != [] {
      var front := ts[..|ts| - 1];
      assert ts == front + [ts[|ts| - 1]];
      OnceInSequence(front, t);
      assert t == ts[|ts| - 1] ==> t !in front;
    }
  }

  /**
   In every reachable state each submitted task is in one of queue, workers and settled tasks, once; so it settles at
   most once.
   */
  lemma EachTaskOnce<P, R>(minWorkers: nat, maxWorkers: nat, events: seq<Event<P, R>>, t: Task<P>)
    requires maxWorkers > 0 && minWorkers <= maxWorkers
    ensures Inv(Init<P, R>(minWorkers, maxWorkers))
    ensures var s := Exec(Init<P, R>(minWorkers, maxWorkers), events);
            && multiset(s.queue)[t] + Running(s.workers)[t] + SettledTasks(s.settled)[t] ==
                (if t in s.submitted then 1 else 0)
  {
    hide Running, SettledTasks;
    InitInv<P, R>(minWorkers, maxWorkers);
    ReachableInv(Init<P, R>(minWorkers, maxWorkers), events);
    var s := Exec(Init<P, R>(minWorkers, maxWorkers), events);
    assert AllTasks(s)[t] == multiset(s.submitted)[t];
    OnceInSequence(s.submitted, t);
  }

  // ----- progress -----

  /** Nothing can happen until another task is submitted. */
  ghost predicate Idle<P, R>(s: State<P, R>) {
    !s.initializing && forall w | 0 <= w < |s.workers| :: s.workers[w].listeners == []
  }

  /** A pool with workers is not idle while tasks are queued. */
  lemma QueueKeepsBusy<P, R>(s: State<P, R>)
    requires Inv(s) && s.queue != [] && s.workers != []
    ensures !Idle(s)
  {
    hide TasksRight;
    assert 0 !in s.free;
    assert s.workers[0].listeners != [];
  }

  predicate Started<P, R>(s: State<P, R>) {
    s.workers != [] || s.initializing
  }

  /** A pool that began without workers starts its first one with the first task more than the threshold. */
  predicate FirstStart<P, R>(s: State<P, R>) {
    if Started(s) then |s.submitted| > QUEUE_SIZE_WORKER_THRESHOLD
    else |s.queue| == |s.submitted| <= QUEUE_SIZE_WORKER_THRESHOLD
  }

  lemma FirstStartStep<P, R>(s: State<P, R>, e: Event<P, R>)
    requires Inv(s) && Enabled(s, e) && FirstStart(s)
    ensures FirstStart(Step(s, e))
  {
    hide TasksRight;
    StepReady(s, e);
    match e
    case Submit(params) => ProcessKeeps(Queued(s, params));
    case Ready => ProcessKeeps(Joined(s));
    case Message(w, reply) => ProcessKeeps(Answered(s, w, reply));
  }

  /** The number of tasks ever submitted in a run. */
  function Submits<P, R>(events: seq<Event<P, R>>): nat {
    if events == [] then 0 else (if events[0].Submit? then 1 else 0) + Submits(events[1..])
  }

  lemma {:induction false} RunCounts<P, R>(s: State<P, R>, events: seq<Event<P, R>>)
    requires Inv(s)
    ensures |Exec(s, events).submitted| == |s.submitted| + Submits(events)
    ensures FirstStart(s) ==> FirstStart(Exec(s, events))
    decreases |events|
  {
    hide Inv, FirstStart;
    if events != [] {
      var e := events[0];
      if Enabled(s, e) {
        StepInv(s, e);
        StepSubmits(s, e);
        if FirstStart(s) {
          FirstStartStep(s, e);
        }
        RunCounts(Step(s, e), events[1..]);
      } else {
        RunCounts(s, events[1..]);
      }
    }
  }

  lemma StepSubmits<P, R>(s: State<P, R>, e: Event<P, R>)
    requires Inv(s) && Enabled(s, e)
    ensures |Step(s, e).submitted| == |s.submitted| + if e.Submit? then 1 else 0
  {
    hide Inv, Process, FreeRight, Enabled;
    EnabledWorker(s, e);
    StepReady(s, e);
    match e
    case Submit(params) => ProcessKeeps(Queued(s, params));
    case Ready => ProcessKeeps(Joined(s));
    case Message(w, reply) => ProcessKeeps(Answered(s, w, reply));
  }

  /**
   After any run tasks wait with nothing left to happen exactly if the pool began without workers and got one to five
   tasks.
   */
  lemma StrandedExactly<P, R>(minWorkers: nat, maxWorkers: nat, events: seq<Event<P, R>>)
    requires maxWorkers > 0 && minWorkers <= maxWorkers
    ensures Inv(Init<P, R>(minWorkers, maxWorkers))
    ensures var s := Exec(Init<P, R>(minWorkers, maxWorkers), events);
            s.queue != [] && Idle(s) <==> minWorkers == 0 && 0 < Submits(events) <= QUEUE_SIZE_WORKER_THRESHOLD
  {
    hide Inv, Exec;
    InitInv<P, R>(minWorkers, maxWorkers);
    var init := Init<P, R>(minWorkers, maxWorkers);
    var s := Exec(init, events);
    ReachableInv(init, events);
    RunCounts(init, events);
    if s.queue != [] && s.workers != [] {
      QueueKeepsBusy(s);
    }
    if minWorkers == 0 && s.initializing {
      assert Submits(events) > QUEUE_SIZE_WORKER_THRESHOLD;
    }
  }

  /** A pool started with a worker is never idle while tasks are queued. */
  lemma NeverStranded<P, R>(minWorkers: nat, maxWorkers: nat, events: seq<Event<P, R>>)
    requires 0 < minWorkers <= maxWorkers
    ensures Inv(Init<P, R>(minWorkers, maxWorkers))
    ensures var s := Exec(Init<P, R>(minWorkers, maxWorkers), events);
            Idle(s) ==> s.queue == [] && AllTasks(s) == SettledTasks(s.settled)
  {
    hide Inv, SettledTasks;
    InitInv<P, R>(minWorkers, maxWorkers);
    ReachableInv(Init<P, R>(minWorkers, maxWorkers), events);
    var s := Exec(Init<P, R>(minWorkers, maxWorkers), events);
    if s.queue != [] {
      QueueKeepsBusy(s);
    }
    if Idle(s) {
      NothingRuns(s.workers);
    }
  }

  // ----- the pool -----

  class Executor<P, R> {
    const maxWorkers: nat
    var freeWorkerIndices: seq<nat>
    var taskQueue: seq<Task<P>>
    var isWorkerInitializing: bool
    var workers: seq<WorkerChannel<P>>
    /** Promises resolved or rejected, in order, and all tasks ever submitted. */
    ghost var settled: seq<(Task<P>, Reply<R>)>
    ghost var submitted: seq<Task<P>>
    /** Gives every task object its identity. */
    var nextId: nat

    ghost function View(): State<P, R>
      reads this
    {
      State(maxWorkers, freeWorkerIndices, taskQueue, isWorkerInitializing, workers, settled, submitted)
    }

    ghost predicate Valid()
      reads this
    {
      Inv(View()) && nextId == |submitted|
    }

    constructor (minWorkers: nat, maxWorkers: nat)
      requires maxWorkers > 0 && minWorkers <= maxWorkers
      ensures Valid() && View() == Init(minWorkers, maxWorkers)
    {
      this.maxWorkers := maxWorkers;
      workers := seq(minWorkers, i => WorkerChannel([]));
      freeWorkerIndices := seq(minWorkers, i => i);
      taskQueue, isWorkerInitializing, settled, submitted, nextId := [], false, [], [], 0;
      new;
      InitInv<P, R>(minWorkers, maxWorkers);
      assert View() == Init(minWorkers, maxWorkers);
    }

    /** `run`: the promise settles when the task does. */
    method Run(params: P)
      requires Valid()
      modifies this
      ensures Valid() && View() == Step(old(View()), Submit(params))
    {
      hide Inv, Before, Process;
      StepInv(View(), Submit(params));
      QueuedBefore(View(), params);
      ghost var queued := Queued(View(), params);
      var task := Task(nextId, params);
      taskQueue := taskQueue + [task];
      submitted := submitted + [task];
      nextId := nextId + 1;
      assert View() == queued;
      ProcessEntryFromTaskQueue();
    }

    /** `processEntryFromTaskQueue`. */
    method ProcessEntryFromTaskQueue()
      requires Before(View())
      modifies this
      ensures View() == Process(old(View())) && nextId == old(nextId) && submitted == old(submitted)
    {
      hide TasksRight;
      if |freeWorkerIndices| == 0 {
        if |taskQueue| > QUEUE_SIZE_WORKER_THRESHOLD {
          InitNewWorker();
        }
        return;
      }
      var freeWorker := freeWorkerIndices[|freeWorkerIndices| - 1];
      freeWorkerIndices := freeWorkerIndices[..|freeWorkerIndices| - 1];
      if |taskQueue| == 0 {
        assert freeWorkerIndices + [freeWorker] == old(freeWorkerIndices);
        freeWorkerIndices := freeWorkerIndices + [freeWorker];
        return;
      }
      var task := taskQueue[|taskQueue| - 1];
      taskQueue := taskQueue[..|taskQueue| - 1];
      workers := workers[freeWorker := WorkerChannel(workers[freeWorker].listeners + [task])];
    }

    /** `initNewWorker`, up to where it waits for the worker to start. */
    method InitNewWorker()
      modifies this`isWorkerInitializing
      ensures isWorkerInitializing == (old(isWorkerInitializing) || |workers| < maxWorkers)
    {
      if |workers| >= maxWorkers {
        return;
      }
      if isWorkerInitializing {
        return;
      }
      isWorkerInitializing := true;
    }

    /** The rest of `initNewWorker`, once the worker has started. */
    method OnWorkerReady()
      requires Valid() && isWorkerInitializing
      modifies this
      ensures Valid() && View() == Step(old(View()), Ready)
    {
      hide Inv, Before, Process;
      StepInv(View(), Ready);
      JoinedBefore(View());
      ghost var joined := Joined(View());
      workers := workers + [WorkerChannel([])];
      freeWorkerIndices := freeWorkerIndices + [|workers| - 1];
      isWorkerInitializing := false;
      assert View() == joined;
      ProcessEntryFromTaskQueue();
    }

    /**
     A message from a worker: the listener of `runTask` settles the task, frees the worker and goes on with the queue.
     */
    method OnMessage(worker: nat, reply: Reply<R>)
      requires Valid() && worker < |workers| && |workers[worker].listeners| > 0
      modifies this
      ensures Valid() && View() == Step(old(View()), Message(worker, reply))
    {
      hide Inv, Before, Process;
      StepInv(View(), Message(worker, reply));
      EnabledWorker(View(), Message(worker, reply));
      AnsweredBefore(View(), worker, reply);
      ghost var answered := Answered(View(), worker, reply);
      settled := settled + [(workers[worker].listeners[0], reply)];
      workers := workers[worker := WorkerChannel([])];
      freeWorkerIndices := freeWorkerIndices + [worker];
      assert View() == answered;
      ProcessEntryFromTaskQueue();
    }
  }

  /** `initialize`: `null` where its checks fail. */
  method Initialize<P, R>(minWorkers: nat, maxWorkers: nat) returns (executor: Executor?<P, R>)
    ensures executor == null <==> maxWorkers == 0 || minWorkers > maxWorkers
    ensures executor != null ==> fresh(executor) && executor.Valid() && executor.View() == Init(minWorkers, maxWorkers)
  {
    if maxWorkers == 0 || minWorkers > maxWorkers {
      return null;
    }
    executor := new Executor(minWorkers, maxWorkers);
  }

  /** Events in any order, as the threads and callers happen to cause them; the pool ends in the state of the run. */
  method Drive<P, R>(executor: Executor<P, R>, events: seq<Event<P, R>>)
    requires executor.Valid()
    modifies executor
    ensures executor.Valid() && executor.View() == Exec(old(executor.View()), events)
  {
    hide Inv, Step;
    for i := 0 to |events|
      invariant executor.Valid() && Exec(executor.View(), events[i..]) == Exec(old(executor.View()), events)
    {
      assert events[i..][0] == events[i] && events[i..][1..] == events[i + 1..];
      match events[i]
      case Submit(params) =>
        executor.Run(params);
      case Ready =>
        if executor.isWorkerInitializing {
          executor.OnWorkerReady();
        }
      case Message(worker, reply) =>
        if worker < |executor.workers| && |executor.workers[worker].listeners| > 0 {
          executor.OnMessage(worker, reply);
        }
    }
    assert events[|events|..] == [];
  }
}

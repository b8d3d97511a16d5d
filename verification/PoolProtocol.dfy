/**
 The worker pool as a transition system. A state holds the shared memory of the
 pool, the program counter of every worker and of every enqueue call ever made,
 and the position of the thread that shuts the pool down. A step is one critical
 section or one semaphore operation of one thread, so a run of steps is an
 arbitrary interleaving of the threads.
 */
module PoolProtocol {
  import opened Basics
  import opened TaskLists

  /** A worker between two atomic steps of its loop. */
  datatype Worker =
    | Top                                // about to test its running flag
    | Enter                              // about to lock and look at the queue
    | Wait                               // at the timed wait on the pool semaphore
    | Woken(token: bool)                 // the wait ended, with or without a token
    | Reenter(token: bool)               // about to lock and look at the queue again
    | Run(task: nat)                     // about to call the task's callback
    | Store(task: nat, value: int)       // about to store the callback's value
    | Finish(task: nat)                  // about to lock and settle the task
    | Exited

  /** The timeout argument of an enqueue call: -1, 0, or a number of nanoseconds. */
  datatype Timeout = Forever | NoWait | Nanoseconds

  datatype Outcome = Success | QueueFull | TimedOut

  /** An enqueue call between two of its atomic steps. */
  datatype CallPc =
    | Accepted(task: nat)                // task linked, pool semaphore not yet posted
    | Posted(task: nat)                  // about to wait for the task
    | Settling(task: nat, expired: bool) // timed wait ended, about to lock and decide
    | Returned(outcome: Outcome)

  /**
   One enqueue call. slot is the caller's int that callback_result points to
   (None: not written), and returned records what the callback returned.
   */
  datatype Call = Call(timeout: Timeout, wantsResult: bool, pc: CallPc, slot: Option<int>, returned: Option<int>)

  /** A task object. result is the call whose slot the result pointer addresses. */
  datatype Task = Task(owner: nat, result: Option<nat>, timedOut: bool, completed: bool, semaphore: nat)

  /** The thread in worker_thread_pool_dealloc. */
  datatype Dealloc = Idle | Clearing(next: nat) | Posting(left: nat) | Joining

  datatype State = State(
    maxQueue: nat,
    workers: seq<Worker>,
    running: seq<bool>,
    tokens: nat,
    lists: Lists<nat>,
    tasks: seq<Task>,
    calls: seq<Call>,
    dealloc: Dealloc,
    accepted: seq<nat>,   // history: calls in the order their tasks were linked
    started: seq<nat>)    // history: calls in the order their tasks were dequeued

  datatype Step =
    | TestRunning(w: nat)
    | LockQueue(w: nat)
    | TakeToken(w: nat)
    | WaitExpires(w: nat)
    | TestRunningAgain(w: nat)
    | LockQueueAgain(w: nat)
    | CallBack(w: nat, value: int)
    | StoreResult(w: nat)
    | FinishTask(w: nat)
    | Enqueue(timeout: Timeout, wantsResult: bool)
    | Post(c: nat)
    | SkipWait(c: nat)
    | TakeTask(c: nat)
    | TaskWaitExpires(c: nat)
    | Settle(c: nat)
    | BeginDealloc
    | ClearFlag
    | PostShutdown

  predicate Init(s: State) {
    && 1 <= s.maxQueue
    && 1 <= |s.workers| == |s.running|
    && (forall w :: 0 <= w < |s.workers| ==> s.workers[w] == Top && s.running[w])
    && s.tokens == 0
    && s.lists == Lists([], [])
    && s.tasks == [] && s.calls == [] && s.dealloc == Idle
    && s.accepted == [] && s.started == []
  }

  predicate Enabled(s: State, step: Step) {
    && |s.running| == |s.workers|
    && match step
       case TestRunning(w) => w < |s.workers| && s.workers[w].Top?
       case LockQueue(w) => w < |s.workers| && s.workers[w].Enter? && QueueOk(s)
       case TakeToken(w) => w < |s.workers| && s.workers[w].Wait? && s.tokens > 0
       case WaitExpires(w) => w < |s.workers| && s.workers[w].Wait?
       case TestRunningAgain(w) => w < |s.workers| && s.workers[w].Woken?
       case LockQueueAgain(w) => w < |s.workers| && s.workers[w].Reenter? && QueueOk(s)
       case CallBack(w, _) => w < |s.workers| && s.workers[w].Run? && TaskOk(s, s.workers[w].task)
       case StoreResult(w) => w < |s.workers| && s.workers[w].Store? && TaskOk(s, s.workers[w].task)
       case FinishTask(w) => w < |s.workers| && s.workers[w].Finish? && TaskOk(s, s.workers[w].task)
       case Enqueue(_, _) => s.lists.free != [] ==> s.lists.free[0] < |s.tasks|
       case Post(c) => c < |s.calls| && s.calls[c].pc.Accepted?
       case SkipWait(c) => c < |s.calls| && s.calls[c].pc.Posted? && s.calls[c].timeout.NoWait?
       case TakeTask(c) =>
         && c < |s.calls| && s.calls[c].pc.Posted? && !s.calls[c].timeout.NoWait?
         && TaskOk(s, s.calls[c].pc.task) && s.tasks[s.calls[c].pc.task].semaphore > 0
       case TaskWaitExpires(c) => c < |s.calls| && s.calls[c].pc.Posted? && s.calls[c].timeout.Nanoseconds?
       case Settle(c) => c < |s.calls| && s.calls[c].pc.Settling? && TaskOk(s, s.calls[c].pc.task)
       case BeginDealloc => s.dealloc.Idle?
       case ClearFlag => s.dealloc.Clearing?
       case PostShutdown => s.dealloc.Posting?
  }

  /** The pointers a step follows are valid: part of Enabled, and of the invariant. */
  predicate TaskOk(s: State, t: nat) {
    && t < |s.tasks|
    && s.tasks[t].owner < |s.calls|
    && (s.tasks[t].result.Some? ==> s.tasks[t].result.value < |s.calls|)
  }

  predicate QueueOk(s: State) {
    s.lists.pending != [] ==> s.lists.pending[0] < |s.tasks|
  }

  function At(s: State, w: nat, pc: Worker): State
    requires w < |s.workers|
  {
    s.(workers := s.workers[w := pc])
  }

  function CallAt(s: State, c: nat, pc: CallPc): State
    requires c < |s.calls|
  {
    s.(calls := s.calls[c := s.calls[c].(pc := pc)])
  }

  /** The locked part of the loop from the emptiness test on: dequeue the first task, or go to ifEmpty. */
  function Dequeue(s: State, w: nat, ifEmpty: Worker): State
    requires w < |s.workers| && QueueOk(s)
  {
    if s.lists.pending == [] then At(s, w, ifEmpty)
    else
      var t := s.lists.pending[0];
      At(s, w, Run(t)).(lists := Dequeued(s.lists), started := s.started + [s.tasks[t].owner])
  }

  /** The locked part of an enqueue call: reject, or link a task at the end of the queue. */
  function Link(s: State, timeout: Timeout, wantsResult: bool): State
    requires s.lists.free != [] ==> s.lists.free[0] < |s.tasks|
  {
    var c := |s.calls|;
    if IsFull(s.lists, s.maxQueue) then
      s.(calls := s.calls + [Call(timeout, wantsResult, Returned(QueueFull), None, None)])
    else
      var t := TaskFor(s.lists, |s.tasks|);
      var result := if wantsResult then Some(c) else None;
      // a new task's semaphore starts at 0, a recycled one's is left as it is
      var tasks := if s.lists.free == [] then s.tasks + [Task(c, None, false, false, 0)] else s.tasks;
      s.(calls := s.calls + [Call(timeout, wantsResult, Accepted(t), None, None)],
         tasks := tasks[t := Task(c, result, false, false, tasks[t].semaphore)],
         lists := Linked(s.lists, |s.tasks|),
         accepted := s.accepted + [c])
  }

  /** The locked part after the callback: recycle a task that timed out, otherwise complete and signal it. */
  function FinishHeld(s: State, w: nat): State
    requires w < |s.workers| && s.workers[w].Finish? && TaskOk(s, s.workers[w].task)
  {
    var t := s.workers[w].task;
    var s1 := At(s, w, Top);
    if s.tasks[t].timedOut then
      s1.(lists := Recycled(s.lists, t))
    else
      s1.(tasks := s.tasks[t := s.tasks[t].(completed := true, semaphore := s.tasks[t].semaphore + 1)])
  }

  /** The locked part after a call's timed wait. */
  function SettleCall(s: State, c: nat): State
    requires c < |s.calls| && s.calls[c].pc.Settling? && TaskOk(s, s.calls[c].pc.task)
  {
    var t := s.calls[c].pc.task;
    if s.tasks[t].completed then
      CallAt(s, c, Returned(Success))
    else if !s.calls[c].pc.expired then
      CallAt(s, c, Returned(Success)).(lists := Recycled(s.lists, t))
    else
      CallAt(s, c, Returned(TimedOut)).(tasks := s.tasks[t := s.tasks[t].(result := None, timedOut := true)])
  }

  function Apply(s: State, step: Step): State
    requires Enabled(s, step)
  {
    match step
    case TestRunning(w) => At(s, w, if s.running[w] then Enter else Exited)
    case LockQueue(w) => Dequeue(s, w, Wait)
    case TakeToken(w) => At(s, w, Woken(true)).(tokens := s.tokens - 1)
    case WaitExpires(w) => At(s, w, Woken(false))
    case TestRunningAgain(w) => At(s, w, if s.running[w] then Reenter(s.workers[w].token) else Exited)
    case LockQueueAgain(w) => Dequeue(s, w, Top)
    case CallBack(w, value) =>
      var t := s.workers[w].task;
      var c := s.tasks[t].owner;
      At(s, w, Store(t, value)).(calls := s.calls[c := s.calls[c].(returned := Some(value))])
    case StoreResult(w) =>
      var t := s.workers[w].task;
      var s1 := At(s, w, Finish(t));
      (match s.tasks[t].result
       case None => s1
       case Some(c) => s1.(calls := s.calls[c := s.calls[c].(slot := Some(s.workers[w].value))]))
    case FinishTask(w) => FinishHeld(s, w)
    case Enqueue(timeout, wantsResult) => Link(s, timeout, wantsResult)
    case Post(c) => CallAt(s, c, Posted(s.calls[c].pc.task)).(tokens := s.tokens + 1)
    case SkipWait(c) => CallAt(s, c, Returned(Success))
    case TakeTask(c) =>
      var t := s.calls[c].pc.task;
      CallAt(s, c, if s.calls[c].timeout.Forever? then Returned(Success) else Settling(t, false))
        .(tasks := s.tasks[t := s.tasks[t].(semaphore := s.tasks[t].semaphore - 1)])
    case TaskWaitExpires(c) => CallAt(s, c, Settling(s.calls[c].pc.task, true))
    case Settle(c) => SettleCall(s, c)
    case BeginDealloc => s.(dealloc := Clearing(0))
    case ClearFlag =>
      var i := s.dealloc.next;
      if i < |s.running| then s.(running := s.running[i := false], dealloc := Clearing(i + 1))
      else s.(dealloc := Posting(|s.workers|))
    case PostShutdown =>
      if s.dealloc.left > 0 then s.(tokens := s.tokens + 1, dealloc := Posting(s.dealloc.left - 1))
      else s.(dealloc := Joining)
  }

  /** trace is a run: each state follows from the one before by an enabled step. */
  ghost predicate IsRun(trace: seq<State>) {
    && 0 < |trace|
    && forall i :: 0 <= i < |trace| - 1 ==> Moves(trace[i], trace[i + 1])
  }

  ghost predicate Moves(s: State, s': State) {
    exists step :: Enabled(s, step) && Apply(s, step) == s'
  }

  ghost predicate IsRunFromInit(trace: seq<State>) {
    IsRun(trace) && Init(trace[0])
  }
}

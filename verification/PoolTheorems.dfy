/** The promises of the worker pool, over every run from an initial state. */
module PoolTheorems {
  import opened TaskLists
  import opened PoolProtocol
  import opened PoolSafety
  import opened Counting

  // Wake-ups

  predicate IsAccepted(k: Call) {
    k.pc.Accepted?
  }

  predicate HasToken(pc: Worker) {
    (pc.Woken? || pc.Reenter?) && pc.token
  }

  /** Before shutdown, every queued task has a wake-up that is stored, about to be posted, or just taken. */
  ghost predicate WakeUps(s: State) {
    && 1 <= |s.workers|
    && (s.dealloc.Idle? ==>
      && (forall w {:trigger s.running[w]} :: 0 <= w < |s.running| ==> s.running[w])
      && (forall w {:trigger s.workers[w]} :: 0 <= w < |s.workers| ==> !s.workers[w].Exited?)
      && s.tokens + Count(IsAccepted, s.calls) + Count(HasToken, s.workers) >= |s.lists.pending|)
  }

  lemma WorkerWakeUps(s: State, step: Step)
    requires WakeUps(s) && Enabled(s, step)
    requires step.TestRunning? || step.LockQueue? || step.TakeToken? || step.WaitExpires? || step.TestRunningAgain?
          || step.LockQueueAgain? || step.FinishTask?
    ensures WakeUps(Apply(s, step))
  {
    hide Count, SettleCall, Link;
    CountUpdate(HasToken, s.workers, step.w, Apply(s, step).workers[step.w]);
  }

  lemma CallbackWakeUps(s: State, step: Step)
    requires WakeUps(s) && Enabled(s, step) && (step.CallBack? || step.StoreResult?)
    ensures WakeUps(Apply(s, step))
  {
    var s' := Apply(s, step);
    CountUpdate(HasToken, s.workers, step.w, s'.workers[step.w]);
    var t := s.workers[step.w].task;
    if step.CallBack? {
      CountUpdate(IsAccepted, s.calls, s.tasks[t].owner, s'.calls[s.tasks[t].owner]);
    } else if s.tasks[t].result.Some? {
      CountUpdate(IsAccepted, s.calls, s.tasks[t].result.value, s'.calls[s.tasks[t].result.value]);
    }
  }

  lemma CallWakeUps(s: State, step: Step)
    requires WakeUps(s) && Enabled(s, step)
    requires step.Post? || step.SkipWait? || step.TakeTask? || step.TaskWaitExpires? || step.Settle?
    ensures WakeUps(Apply(s, step))
  {
    CountUpdate(IsAccepted, s.calls, step.c, Apply(s, step).calls[step.c]);
  }

  lemma StepWakeUps(s: State, step: Step)
    requires WakeUps(s) && Enabled(s, step)
    ensures WakeUps(Apply(s, step))
  {
    match step
    case CallBack(_, _) => CallbackWakeUps(s, step);
    case StoreResult(_) => CallbackWakeUps(s, step);
    case Post(_) => CallWakeUps(s, step);
    case SkipWait(_) => CallWakeUps(s, step);
    case TakeTask(_) => CallWakeUps(s, step);
    case TaskWaitExpires(_) => CallWakeUps(s, step);
    case Settle(_) => CallWakeUps(s, step);
    case Enqueue(_, _) => CountAppend(IsAccepted, s.calls, Apply(s, step).calls[|s.calls|]);
    case BeginDealloc =>
    case ClearFlag =>
    case PostShutdown =>
    case TestRunning(_) => WorkerWakeUps(s, step);
    case LockQueue(_) => WorkerWakeUps(s, step);
    case TakeToken(_) => WorkerWakeUps(s, step);
    case WaitExpires(_) => WorkerWakeUps(s, step);
    case TestRunningAgain(_) => WorkerWakeUps(s, step);
    case LockQueueAgain(_) => WorkerWakeUps(s, step);
    case FinishTask(_) => WorkerWakeUps(s, step);
  }

  // Runs

  /** Calls were accepted in the order of their numbers, that is of their critical sections. */
  ghost predicate Ordered(s: State) {
    && (forall i, j :: 0 <= i < j < |s.accepted| ==> s.accepted[i] < s.accepted[j])
    && (forall i :: 0 <= i < |s.accepted| ==> s.accepted[i] < |s.calls|)
  }

  ghost predicate Good(s: State) {
    Inv(s) && WakeUps(s) && Ordered(s)
  }

  lemma StepOrdered(s: State, step: Step)
    requires Ordered(s) && Enabled(s, step)
    ensures Ordered(Apply(s, step))
  {
  }

  lemma StepGood(s: State, step: Step)
    requires Good(s) && Enabled(s, step)
    ensures Good(Apply(s, step))
  {
    hide Inv, WakeUps, Ordered, Apply, Enabled;
    StepInv(s, step);
    StepWakeUps(s, step);
    StepOrdered(s, step);
  }

  /** Every state of every run keeps the invariants. */
  lemma {:induction false} RunGood(trace: seq<State>, i: nat)
    requires IsRunFromInit(trace) && i < |trace|
    ensures Good(trace[i])
  {
    if i == 0 {
      InitInv(trace[0]);
    } else {
      RunGood(trace, i - 1);
      assert Moves(trace[i - 1], trace[i]);
      var step :| Enabled(trace[i - 1], step) && Apply(trace[i - 1], step) == trace[i];
      StepGood(trace[i - 1], step);
    }
  }

  /** No lost wake-up. */
  lemma NoLostWakeUp(trace: seq<State>, i: nat)
    requires IsRunFromInit(trace) && i < |trace|
    ensures var s := trace[i];
      s.dealloc.Idle? ==>
        && s.tokens + Count(IsAccepted, s.calls) + Count(HasToken, s.workers) >= |s.lists.pending|
        && (s.lists.pending != []
            && (forall w :: 0 <= w < |s.workers| ==> s.workers[w].Wait?)
            && (forall c :: 0 <= c < |s.calls| ==> !s.calls[c].pc.Accepted?)
            ==> s.tokens >= |s.lists.pending|)
  {
    RunGood(trace, i);
    CountBounds(IsAccepted, trace[i].calls);
    CountBounds(HasToken, trace[i].workers);
  }

  /** The steps of threads already at work, without timeouts, new calls or a shutdown. */
  predicate IsWork(step: Step) {
    !step.WaitExpires? && !step.TaskWaitExpires? && !step.Enqueue? && !step.BeginDealloc?
  }

  /** The step the code of a worker takes next, unless it waits for a token. */
  lemma WorkerCanStep(s: State, w: nat) returns (step: Step)
    requires Inv(s) && w < |s.workers| && !s.workers[w].Exited? && (s.workers[w].Wait? ==> s.tokens > 0)
    ensures Enabled(s, step) && IsWork(step)
  {
    var pc := s.workers[w];
    if s.lists.pending != [] { assert s.lists.pending[0] in s.lists.pending; }
    if pc.Run? || pc.Store? || pc.Finish? {
      assert Holds(pc, pc.task) && TaskInv(s, pc.task);
    }
    step := match pc
      case Top => TestRunning(w)
      case Enter => LockQueue(w)
      case Wait => TakeToken(w)
      case Woken(_) => TestRunningAgain(w)
      case Reenter(_) => LockQueueAgain(w)
      case Run(_) => CallBack(w, 0)
      case Store(_, _) => StoreResult(w)
      case Finish(_) => FinishTask(w)
      case Exited => TestRunning(w);
  }

  /** As long as the pool is not shut down, a call that has not returned never leaves every thread stuck. */
  lemma NoDeadlock(trace: seq<State>, i: nat, c: nat)
    requires IsRunFromInit(trace) && i < |trace|
    requires trace[i].dealloc.Idle? && c < |trace[i].calls| && !trace[i].calls[c].pc.Returned?
    ensures exists step :: Enabled(trace[i], step) && IsWork(step)
  {
    var s := trace[i];
    RunGood(trace, i);
    assert CallInv(s, c);
    var k := s.calls[c];
    var t := k.pc.task;
    assert TaskInv(s, t);
    if k.pc.Accepted? {
      assert Enabled(s, Post(c));
    } else if k.pc.Settling? {
      assert Enabled(s, Settle(c));
    } else if k.timeout.NoWait? {
      assert Enabled(s, SkipWait(c));
    } else if s.tasks[t].completed {
      assert Enabled(s, TakeTask(c));
    } else if w :| 0 <= w < |s.workers| && !s.workers[w].Wait? {
      var step := WorkerCanStep(s, w);
    } else if d :| 0 <= d < |s.calls| && s.calls[d].pc.Accepted? {
      assert Enabled(s, Post(d));
    } else {
      NoLostWakeUp(trace, i);
      assert t in s.lists.pending;
      var step := WorkerCanStep(s, 0);
    }
  }

  // Conservation

  /** In how many of its four places a task is. */
  ghost function Places(s: State, t: nat): nat
    requires t < |s.tasks|
  {
    (if t in s.lists.pending then 1 else 0) + (if t in s.lists.free then 1 else 0)
    + (if Held(s, t) then 1 else 0) + (if s.tasks[t].completed then 1 else 0)
  }

  /** Every task is queued once, in one worker's hands, free once, or completed, and only timed-out tasks are free. */
  lemma TaskConservation(trace: seq<State>, i: nat, t: nat)
    requires IsRunFromInit(trace) && i < |trace| && t < |trace[i].tasks|
    ensures var s := trace[i];
      && Places(s, t) == 1
      && NoDuplicates(s.lists.pending) && NoDuplicates(s.lists.free)
      && (forall w, v :: 0 <= w < v < |s.workers| && Holds(s.workers[w], t) ==> !Holds(s.workers[v], t))
      && (t in s.lists.free ==> s.tasks[t].timedOut && s.tasks[t].semaphore == 0)
  {
    RunGood(trace, i);
    assert TaskInv(trace[i], t);
    if w :| 0 <= w < |trace[i].workers| && Holds(trace[i].workers[w], t) { }
  }

  lemma StepKeepsCompleted(s: State, step: Step, t: nat)
    requires Placed(s) && TasksInv(s) && CallsInv(s) && Enabled(s, step) && t < |s.tasks| && s.tasks[t].completed
    ensures var s' := Apply(s, step);
      t < |s'.tasks| && s'.tasks[t].completed && s'.tasks[t].owner == s.tasks[t].owner
  {
    assert TaskInv(s, t);
    if step.Enqueue? && s.lists.free != [] { assert s.lists.free[0] in s.lists.free; }
  }

  /** A completed task is never used again: only timed-out tasks are recycled. */
  lemma {:induction false} CompletedForEver(trace: seq<State>, i: nat, j: nat, t: nat)
    requires IsRunFromInit(trace) && i <= j < |trace| && t < |trace[i].tasks| && trace[i].tasks[t].completed
    ensures t < |trace[j].tasks| && trace[j].tasks[t].completed && trace[j].tasks[t].owner == trace[i].tasks[t].owner
    decreases j
  {
    hide Apply, Enabled, Init, WakeUps, Ordered, Placed, TasksInv, CallsInv, Progress, History;
    if i < j {
      CompletedForEver(trace, i, j - 1, t);
      RunGood(trace, j - 1);
      assert Moves(trace[j - 1], trace[j]);
      var step :| Enabled(trace[j - 1], step) && Apply(trace[j - 1], step) == trace[j];
      StepKeepsCompleted(trace[j - 1], step, t);
    }
  }

  /**
   One winner per task life: a call that settles finds its task completed exactly when a worker
   posted it, an unexpired wait is always a completion, so settling never recycles a task itself.
   */
  lemma SettlingHasOneWinner(trace: seq<State>, i: nat, c: nat)
    requires IsRunFromInit(trace) && i < |trace| && Enabled(trace[i], Settle(c))
    ensures var s := trace[i];
      var t := s.calls[c].pc.task;
      var s' := Apply(s, Settle(c));
      && !s.tasks[t].timedOut
      && (!s.calls[c].pc.expired ==> s.tasks[t].completed)
      && s'.lists == s.lists
      && (s'.tasks[t].completed <==> s'.calls[c].pc == Returned(Success))
      && (s'.tasks[t].timedOut <==> s'.calls[c].pc == Returned(TimedOut))
  {
    RunGood(trace, i);
    assert CallInv(trace[i], c);
  }

  /** A worker that finishes a task either recycles it or completes it, never both; a recycled task's semaphore is 0. */
  lemma FinishingHasOneWinner(trace: seq<State>, i: nat, w: nat)
    requires IsRunFromInit(trace) && i < |trace| && Enabled(trace[i], FinishTask(w))
    ensures var s := trace[i];
      var t := s.workers[w].task;
      var s' := Apply(s, FinishTask(w));
      if s.calls[s.tasks[t].owner].pc == Returned(TimedOut)
      then s'.lists.free == [t] + s.lists.free && !s'.tasks[t].completed && s'.tasks[t].semaphore == 0
      else s'.lists == s.lists && s'.tasks[t].completed && !s'.tasks[t].timedOut && s'.tasks[t].semaphore == 1
  {
    RunGood(trace, i);
    var s := trace[i];
    var t := s.workers[w].task;
    assert Holds(s.workers[w], t) && TaskInv(s, t);
    assert CallInv(s, s.tasks[t].owner);
  }

  // Results

  /** A blocking call that reports success has delivered what its callback returned. */
  lemma SuccessMeansDelivered(trace: seq<State>, i: nat, c: nat)
    requires IsRunFromInit(trace) && i < |trace| && c < |trace[i].calls|
    requires var k := trace[i].calls[c]; k.pc == Returned(Success) && !k.timeout.NoWait?
    ensures var k := trace[i].calls[c]; k.returned.Some? && (k.wantsResult ==> k.slot == k.returned)
  {
    RunGood(trace, i);
    assert CallInv(trace[i], c);
  }

  /** The call has returned and its caller may have moved on: it waited for the task, or never had one. */
  predicate IsOver(k: Call) {
    k.pc.Returned? && (k.pc.outcome.Success? ==> !k.timeout.NoWait?)
  }

  lemma StepAfterReturn(s: State, step: Step, c: nat)
    requires Inv(s) && Enabled(s, step) && c < |s.calls| && IsOver(s.calls[c])
    ensures var s' := Apply(s, step);
      c < |s'.calls| && s'.calls[c].pc == s.calls[c].pc && s'.calls[c].timeout == s.calls[c].timeout
      && s'.calls[c].slot == s.calls[c].slot
  {
    if step.StoreResult? {
      var t := s.workers[step.w].task;
      assert Holds(s.workers[step.w], t) && TaskInv(s, t);
    }
  }

  /** Nothing is written through the result pointer of a blocking call once it has returned, whatever it returned. */
  lemma {:induction false} NoWriteAfterReturn(trace: seq<State>, i: nat, j: nat, c: nat)
    requires IsRunFromInit(trace) && i <= j < |trace| && c < |trace[i].calls| && IsOver(trace[i].calls[c])
    ensures c < |trace[j].calls| && IsOver(trace[j].calls[c])
    ensures trace[j].calls[c].pc == trace[i].calls[c].pc && trace[j].calls[c].slot == trace[i].calls[c].slot
    decreases j
  {
    hide Apply, Enabled, Init, WakeUps, Ordered, Inv;
    if i < j {
      NoWriteAfterReturn(trace, i, j - 1, c);
      RunGood(trace, j - 1);
      assert Moves(trace[j - 1], trace[j]);
      var step :| Enabled(trace[j - 1], step) && Apply(trace[j - 1], step) == trace[j];
      StepAfterReturn(trace[j - 1], step, c);
    }
  }

  lemma StepRunsOnce(s: State, step: Step, c: nat)
    requires Inv(s) && Enabled(s, step) && c < |s.calls| && s.calls[c].returned.Some?
    ensures var s' := Apply(s, step); c < |s'.calls| && s'.calls[c].returned == s.calls[c].returned
  {
  }

  /** The callback of a call runs at most once: the value it returned never changes. */
  lemma {:induction false} CallbackRunsOnce(trace: seq<State>, i: nat, j: nat, c: nat)
    requires IsRunFromInit(trace) && i <= j < |trace| && c < |trace[i].calls| && trace[i].calls[c].returned.Some?
    ensures c < |trace[j].calls| && trace[j].calls[c].returned == trace[i].calls[c].returned
    decreases j
  {
    hide Apply, Enabled, Init, WakeUps, Ordered, Inv;
    if i < j {
      CallbackRunsOnce(trace, i, j - 1, c);
      RunGood(trace, j - 1);
      assert Moves(trace[j - 1], trace[j]);
      var step :| Enabled(trace[j - 1], step) && Apply(trace[j - 1], step) == trace[j];
      StepRunsOnce(trace[j - 1], step, c);
    }
  }

  // Order

  /** Calls are started first in, first out, and the queue stays within its bound. */
  lemma FirstInFirstOut(trace: seq<State>, i: nat)
    requires IsRunFromInit(trace) && i < |trace|
    ensures var s := trace[i];
      && s.started <= s.accepted
      && (forall a, b :: 0 <= a < b < |s.accepted| ==> s.accepted[a] < s.accepted[b])
      && |s.accepted| - |s.started| == |s.lists.pending| <= trace[0].maxQueue
      && s.accepted[|s.started|..] == seq(|s.lists.pending|, k requires 0 <= k < |s.lists.pending| =>
           if s.lists.pending[k] < |s.tasks| then s.tasks[s.lists.pending[k]].owner else 0)
  {
    RunGood(trace, i);
    BoundIsFixed(trace, i);
  }

  /**
   What becomes of a new call: it is rejected exactly when as many accepted calls wait to be
   started as the pool was made for. Otherwise it is accepted, with the task recycled last, or
   a new one if there is none, behind all that wait.
   */
  lemma EnqueueDecides(trace: seq<State>, i: nat, timeout: Timeout, wantsResult: bool)
    requires IsRunFromInit(trace) && i < |trace|
    ensures var (s, c, step) := (trace[i], |trace[i].calls|, Enqueue(timeout, wantsResult));
      && Enabled(s, step)
      && var s' := Apply(s, step);
      && |s'.calls| == c + 1 && s'.calls[..c] == s.calls
      && s'.calls[c].timeout == timeout && s'.calls[c].wantsResult == wantsResult
      && (s'.calls[c].pc == Returned(QueueFull) <==> |s.accepted| - |s.started| == trace[0].maxQueue)
      && if s'.calls[c].pc == Returned(QueueFull)
         then s'.accepted == s.accepted && s'.lists == s.lists && s'.tasks == s.tasks
         else var t := if s.lists.free == [] then |s.tasks| else s.lists.free[0];
           && s'.calls[c].pc == Accepted(t) && s'.accepted == s.accepted + [c]
           && s'.lists.pending == s.lists.pending + [t] && s'.tasks[t].owner == c
  {
    hide TasksInv, CallsInv, Progress, WakeUps, Ordered;
    var s := trace[i];
    RunGood(trace, i);
    BoundIsFixed(trace, i);
    if s.lists.free != [] { assert s.lists.free[0] in s.lists.free; }
  }

  lemma {:induction false} BoundIsFixed(trace: seq<State>, i: nat)
    requires IsRun(trace) && i < |trace|
    ensures trace[i].maxQueue == trace[0].maxQueue
  {
    if i > 0 {
      BoundIsFixed(trace, i - 1);
      assert Moves(trace[i - 1], trace[i]);
    }
  }

  lemma StepExtends(s: State, step: Step)
    requires Enabled(s, step)
    ensures s.accepted <= Apply(s, step).accepted && s.started <= Apply(s, step).started
  {
  }

  /** History is only ever extended, so the order seen early in a run is the order of the whole run. */
  lemma {:induction false} HistoryGrows(trace: seq<State>, i: nat, j: nat)
    requires IsRunFromInit(trace) && i <= j < |trace|
    ensures trace[i].accepted <= trace[j].accepted && trace[i].started <= trace[j].started
    decreases j
  {
    hide Apply, Enabled, Init, WakeUps, Ordered, Inv;
    if i < j {
      HistoryGrows(trace, i, j - 1);
      assert Moves(trace[j - 1], trace[j]);
      var step :| Enabled(trace[j - 1], step) && Apply(trace[j - 1], step) == trace[j];
      StepExtends(trace[j - 1], step);
    }
  }
}

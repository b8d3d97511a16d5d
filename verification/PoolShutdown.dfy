/**
 Shutting the pool down: the flags are cleared, one token per worker is posted, and the
 workers are joined. With no new calls, every thread finishes after a bounded number of
 steps, and no worker is left waiting even if its timed wait never times out.
 */
module PoolShutdown {
  import opened PoolProtocol
  import opened PoolTheorems
  import opened Counting
  import opened Runs

  /** With its flag cleared, the worker may still come to wait for a token. */
  predicate MayWait(pc: Worker) {
    pc.Enter? || pc.Wait?
  }

  /** With its flag cleared, the worker may still dequeue a task. */
  predicate MayDequeue(pc: Worker) {
    pc.Enter? || pc.Reenter?
  }

  ghost predicate FlagsCleared(s: State) {
    (s.dealloc.Posting? || s.dealloc.Joining?)
    && forall w {:trigger s.running[w]} :: 0 <= w < |s.running| ==> !s.running[w]
  }

  function PostsToCome(s: State): nat {
    if s.dealloc.Posting? then s.dealloc.left else 0
  }

  /** The tokens there are and will be suffice for the workers that can still wait. */
  ghost predicate EnoughTokens(s: State) {
    s.tokens + PostsToCome(s) >= Count(MayWait, s.workers)
  }

  ghost predicate ShutdownInv(s: State) {
    && |s.running| == |s.workers|
    && (s.dealloc.Clearing? ==>
          forall w {:trigger s.running[w]} :: 0 <= w < |s.running| && w < s.dealloc.next ==> !s.running[w])
    && (s.dealloc.Posting? || s.dealloc.Joining? ==> FlagsCleared(s) && EnoughTokens(s))
  }

  predicate IsWorkerStep(step: Step) {
    step.TestRunning? || step.LockQueue? || step.TakeToken? || step.WaitExpires? || step.TestRunningAgain?
    || step.LockQueueAgain? || step.CallBack? || step.StoreResult? || step.FinishTask?
  }

  lemma WorkerKeepsShutdownInv(s: State, step: Step)
    requires ShutdownInv(s) && Enabled(s, step) && IsWorkerStep(step)
    ensures ShutdownInv(Apply(s, step))
  {
    hide Count, Link, SettleCall;
    CountUpdate(MayWait, s.workers, step.w, Apply(s, step).workers[step.w]);
  }

  lemma StepShutdownInv(s: State, step: Step)
    requires ShutdownInv(s) && Enabled(s, step)
    ensures ShutdownInv(Apply(s, step))
  {
    hide Count, Dequeue, FinishHeld;
    if IsWorkerStep(step) {
      WorkerKeepsShutdownInv(s, step);
    } else {
      CountBounds(MayWait, s.workers);
    }
  }

  lemma {:induction false} RunShutdownInv(trace: seq<State>, i: nat)
    requires IsRunFromInit(trace) && i < |trace|
    ensures ShutdownInv(trace[i])
  {
    if i > 0 {
      RunShutdownInv(trace, i - 1);
      assert Moves(trace[i - 1], trace[i]);
      var step :| Enabled(trace[i - 1], step) && Apply(trace[i - 1], step) == trace[i];
      StepShutdownInv(trace[i - 1], step);
    }
  }

  // Termination

  function WorkerRank(pc: Worker): nat {
    match pc
    case Exited => 0
    case Top => 1
    case Woken(_) => 1
    case Wait => 2
    case Finish(_) => 2
    case Store(_, _) => 3
    case Run(_) => 4
    case Reenter(_) => 5
    case Enter => 5
  }

  function CallRank(k: Call): nat {
    match k.pc
    case Accepted(_) => 3
    case Posted(_) => 2
    case Settling(_, _) => 1
    case Returned(_) => 0
  }

  ghost function Rank(s: State): nat {
    Sum(WorkerRank, s.workers) + Sum(CallRank, s.calls) + (if s.dealloc.Posting? then s.dealloc.left + 1 else 0)
  }

  lemma WorkerStepLowersRank(s: State, step: Step)
    requires FlagsCleared(s) && Enabled(s, step) && IsWorkerStep(step)
    ensures Rank(Apply(s, step)) < Rank(s)
  {
    hide Sum, Link, SettleCall;
    var s' := Apply(s, step);
    SumUpdate(WorkerRank, s.workers, step.w, s'.workers[step.w]);
    if step.CallBack? {
      var c := s.tasks[s.workers[step.w].task].owner;
      SumUpdate(CallRank, s.calls, c, s'.calls[c]);
    } else if step.StoreResult? && s.tasks[s.workers[step.w].task].result.Some? {
      var c := s.tasks[s.workers[step.w].task].result.value;
      SumUpdate(CallRank, s.calls, c, s'.calls[c]);
    }
  }

  lemma OtherStepLowersRank(s: State, step: Step)
    requires FlagsCleared(s) && Enabled(s, step) && !IsWorkerStep(step) && !step.Enqueue?
    ensures Rank(Apply(s, step)) < Rank(s)
  {
    hide Sum, Link, Dequeue, FinishHeld;
    if !step.PostShutdown? {
      SumUpdate(CallRank, s.calls, step.c, Apply(s, step).calls[step.c]);
    }
  }

  lemma FlagsStayCleared(s: State, step: Step)
    requires FlagsCleared(s) && Enabled(s, step)
    ensures FlagsCleared(Apply(s, step))
  {
  }

  /** One step that is not a new call. */
  ghost predicate Continues(s: State, s': State) {
    exists step :: Enabled(s, step) && Apply(s, step) == s' && !step.Enqueue?
  }

  lemma ContinuingLowersRank(s: State, s': State)
    requires FlagsCleared(s) && Continues(s, s')
    ensures FlagsCleared(s') && Rank(s') < Rank(s)
  {
    var step :| Enabled(s, step) && Apply(s, step) == s' && !step.Enqueue?;
    FlagsStayCleared(s, step);
    if IsWorkerStep(step) { WorkerStepLowersRank(s, step); } else { OtherStepLowersRank(s, step); }
  }

  /** From state i on, the run goes on without new calls. */
  ghost predicate NoNewCalls(trace: seq<State>, i: nat) {
    IsPath(trace, i, Continues)
  }

  /** Once all flags are cleared, they stay cleared, and only boundedly many steps remain. */
  lemma ShutdownIsBounded(trace: seq<State>, i: nat, j: nat)
    requires i <= j < |trace| && FlagsCleared(trace[i]) && NoNewCalls(trace, i)
    ensures FlagsCleared(trace[j]) && j - i + Rank(trace[j]) <= Rank(trace[i])
  {
    forall s, s' | FlagsCleared(s) && Continues(s, s') ensures FlagsCleared(s') && Rank(s') < Rank(s) {
      ContinuingLowersRank(s, s');
    }
    PathKeeps(trace, Continues, FlagsCleared, i, j);
    EveryStepIsAnEvent(trace, i, j);
    BudgetBoundsEvents(trace, Continues, FlagsCleared, (s, s') => true, Rank, i, j);
  }

  /** When nothing but timeouts or new calls could still happen, every worker has exited, so every join returns. */
  lemma ShutdownJoinsAll(trace: seq<State>, i: nat)
    requires IsRunFromInit(trace) && i < |trace| && FlagsCleared(trace[i])
    requires !exists step :: Enabled(trace[i], step) && IsWork(step)
    ensures trace[i].dealloc.Joining?
    ensures forall w :: 0 <= w < |trace[i].workers| ==> trace[i].workers[w].Exited?
  {
    var s := trace[i];
    RunGood(trace, i);
    RunShutdownInv(trace, i);
    if s.dealloc.Posting? { assert Enabled(s, PostShutdown) && IsWork(PostShutdown); }
    if w :| 0 <= w < |s.workers| && !s.workers[w].Exited? {
      CountBounds(MayWait, s.workers);
      var step := WorkerCanStep(s, w);
    }
  }

  // One more token and one more task per worker

  ghost predicate Takes(w: nat, s: State, s': State) {
    w < |s.workers| == |s'.workers| && s.workers[w].Wait? && s'.workers[w] == Woken(true)
  }

  ghost predicate Starts(w: nat, s: State, s': State) {
    w < |s.workers| == |s'.workers| && !s.workers[w].Run? && s'.workers[w].Run?
  }

  function TakeBudget(w: nat, s: State): nat {
    if w < |s.workers| && MayWait(s.workers[w]) then 1 else 0
  }

  function StartBudget(w: nat, s: State): nat {
    if w < |s.workers| && MayDequeue(s.workers[w]) then 1 else 0
  }

  lemma StepSpendsBudget(s: State, step: Step, w: nat)
    requires FlagsCleared(s) && Enabled(s, step) && IsWorkerStep(step)
    ensures TakeBudget(w, Apply(s, step)) + (if Takes(w, s, Apply(s, step)) then 1 else 0) <= TakeBudget(w, s)
    ensures StartBudget(w, Apply(s, step)) + (if Starts(w, s, Apply(s, step)) then 1 else 0) <= StartBudget(w, s)
  {
    assert Apply(s, step).workers == s.workers[step.w := Apply(s, step).workers[step.w]];
  }

  lemma ContinuingSpendsBudget(s: State, s': State, w: nat)
    requires FlagsCleared(s) && Continues(s, s')
    ensures TakeBudget(w, s') + (if Takes(w, s, s') then 1 else 0) <= TakeBudget(w, s)
    ensures StartBudget(w, s') + (if Starts(w, s, s') then 1 else 0) <= StartBudget(w, s)
  {
    var step :| Enabled(s, step) && Apply(s, step) == s' && !step.Enqueue?;
    if IsWorkerStep(step) { StepSpendsBudget(s, step, w); } else { assert s'.workers == s.workers; }
  }

  /** Once all flags are cleared, each worker takes at most one more token and dequeues at most one more task. */
  lemma AtMostOneMore(trace: seq<State>, i: nat, j: nat, w: nat)
    requires i <= j < |trace| && FlagsCleared(trace[i]) && NoNewCalls(trace, i)
    ensures Events(trace, (s, s') => Takes(w, s, s'), i, j) <= 1
    ensures Events(trace, (s, s') => Starts(w, s, s'), i, j) <= 1
  {
    forall s, s' | FlagsCleared(s) && Continues(s, s')
      ensures FlagsCleared(s')
      ensures TakeBudget(w, s') + (if Takes(w, s, s') then 1 else 0) <= TakeBudget(w, s)
      ensures StartBudget(w, s') + (if Starts(w, s, s') then 1 else 0) <= StartBudget(w, s)
    {
      ContinuingLowersRank(s, s');
      ContinuingSpendsBudget(s, s', w);
    }
    BudgetBoundsEvents(trace, Continues, FlagsCleared, (s, s') => Takes(w, s, s'), s => TakeBudget(w, s), i, j);
    BudgetBoundsEvents(trace, Continues, FlagsCleared, (s, s') => Starts(w, s, s'), s => StartBudget(w, s), i, j);
  }
}

/**
 Before a shutdown, the pool finishes its work: without timeouts and new calls only a bounded
 number of steps can follow, and when none can, every call has returned.
 */
module PoolLiveness {
  import opened PoolProtocol
  import opened PoolTheorems
  import opened PoolShutdown
  import opened Counting
  import opened Runs

  /** Steps a worker can take before it waits, if it finds no task. */
  function WorkerWork(pc: Worker): nat {
    match pc
    case Exited => 0
    case Wait => 0
    case Enter => 1
    case Top => 2
    case Finish(_) => 3
    case Reenter(_) => 3
    case Store(_, _) => 4
    case Woken(_) => 4
    case Run(_) => 5
  }

  const TOKEN_WORK: nat := 5
  const TASK_WORK: nat := 5

  /** Steps of a call, and for one that has not posted yet also those of a worker that its token wakes. */
  function CallWork(k: Call): nat {
    match k.pc
    case Accepted(_) => 3 + TOKEN_WORK
    case Posted(_) => 2
    case Settling(_, _) => 1
    case Returned(_) => 0
  }

  ghost function Work(s: State): nat {
    Sum(WorkerWork, s.workers) + Sum(CallWork, s.calls) + TOKEN_WORK * s.tokens + TASK_WORK * |s.lists.pending|
  }

  /** No shutdown has begun. */
  ghost predicate Open(s: State) {
    s.dealloc.Idle? && forall w {:trigger s.running[w]} :: 0 <= w < |s.running| ==> s.running[w]
  }

  lemma WorkerWorks(s: State, step: Step)
    requires Open(s) && Enabled(s, step) && IsWork(step) && IsWorkerStep(step)
    ensures Open(Apply(s, step)) && Work(Apply(s, step)) < Work(s)
  {
    hide Sum, Link, SettleCall;
    var s' := Apply(s, step);
    SumUpdate(WorkerWork, s.workers, step.w, s'.workers[step.w]);
    if step.CallBack? {
      var c := s.tasks[s.workers[step.w].task].owner;
      SumUpdate(CallWork, s.calls, c, s'.calls[c]);
    } else if step.StoreResult? && s.tasks[s.workers[step.w].task].result.Some? {
      var c := s.tasks[s.workers[step.w].task].result.value;
      SumUpdate(CallWork, s.calls, c, s'.calls[c]);
    }
  }

  lemma CallWorks(s: State, step: Step)
    requires Open(s) && Enabled(s, step) && IsWork(step) && !IsWorkerStep(step)
    ensures Open(Apply(s, step)) && Work(Apply(s, step)) < Work(s)
  {
    hide Sum, Link, Dequeue, FinishHeld;
    SumUpdate(CallWork, s.calls, step.c, Apply(s, step).calls[step.c]);
  }

  /** One step that is neither a timeout nor a new call nor the begin of a shutdown. */
  ghost predicate Works(s: State, s': State) {
    exists step :: Enabled(s, step) && IsWork(step) && Apply(s, step) == s'
  }

  lemma WorkingLowersWork(s: State, s': State)
    requires Open(s) && Works(s, s')
    ensures Open(s') && Work(s') < Work(s)
  {
    var step :| Enabled(s, step) && IsWork(step) && Apply(s, step) == s';
    if IsWorkerStep(step) { WorkerWorks(s, step); } else { CallWorks(s, step); }
  }

  /** As long as only such steps follow, there are no more of them than the state has work. */
  lemma WorkIsBounded(trace: seq<State>, i: nat, j: nat)
    requires i <= j < |trace| && Open(trace[i]) && IsPath(trace, i, Works)
    ensures Open(trace[j]) && j - i + Work(trace[j]) <= Work(trace[i])
  {
    hide Open, Works, Work;
    forall s, s' | Open(s) && Works(s, s') ensures Open(s') && Work(s') < Work(s) {
      WorkingLowersWork(s, s');
    }
    PathKeeps(trace, Works, Open, i, j);
    EveryStepIsAnEvent(trace, i, j);
    BudgetBoundsEvents(trace, Works, Open, (s, s') => true, Work, i, j);
  }

  /** When no such step is left before a shutdown, every call has returned. */
  lemma DoneMeansReturned(trace: seq<State>, i: nat)
    requires IsRunFromInit(trace) && i < |trace| && trace[i].dealloc.Idle?
    requires !exists s' :: Works(trace[i], s')
    ensures forall c :: 0 <= c < |trace[i].calls| ==> trace[i].calls[c].pc.Returned?
  {
    if c :| 0 <= c < |trace[i].calls| && !trace[i].calls[c].pc.Returned? {
      NoDeadlock(trace, i, c);
      var step :| Enabled(trace[i], step) && IsWork(step);
      assert Works(trace[i], Apply(trace[i], step));
    }
  }

  lemma OpenWhileIdle(trace: seq<State>, i: nat)
    requires IsRunFromInit(trace) && i < |trace| && trace[i].dealloc.Idle?
    ensures Open(trace[i])
  {
    RunGood(trace, i);
  }

  /**
   Every call returns. Any run that has not come to a shutdown can go on by work steps alone,
   at most as many as its last state has work, to a state where all its calls have returned.
   With WorkIsBounded, it does so whichever work steps are taken, as long as one is.
   */
  lemma {:induction false} EveryCallReturns(trace: seq<State>) returns (more: seq<State>)
    requires IsRunFromInit(trace) && trace[|trace| - 1].dealloc.Idle?
    ensures IsRunFromInit(trace + more) && IsPath(trace + more, |trace| - 1, Works)
    ensures |more| <= Work(trace[|trace| - 1])
    ensures var s := (trace + more)[|trace + more| - 1];
      forall c :: 0 <= c < |s.calls| ==> s.calls[c].pc.Returned?
    decreases Work(trace[|trace| - 1])
  {
    hide Work, Apply, Enabled, Init;
    var s := trace[|trace| - 1];
    OpenWhileIdle(trace, |trace| - 1);
    if s' :| Works(s, s') {
      WorkingLowersWork(s, s');
      var longer := trace + [s'];
      WorkIsAMove(s, s');
      assert forall i :: 0 <= i < |trace| - 1 ==> Moves(trace[i], trace[i + 1]);
      assert forall i :: 0 <= i < |longer| - 1 ==> Moves(longer[i], longer[i + 1]);
      var rest := EveryCallReturns(longer);
      more := [s'] + rest;
      assert trace + more == longer + rest;
      assert (trace + more)[|trace + more| - 1] == (longer + rest)[|longer + rest| - 1];
      assert forall i :: |trace| <= i < |longer + rest| - 1 ==> Works((longer + rest)[i], (longer + rest)[i + 1]);
      assert (longer + rest)[|trace| - 1] == s && (longer + rest)[|trace|] == s';
    } else {
      more := [];
      assert trace + more == trace && (trace + more)[|trace + more| - 1] == s;
      DoneMeansReturned(trace, |trace| - 1);
    }
  }

  lemma WorkIsAMove(s: State, s': State)
    requires Works(s, s')
    ensures Moves(s, s')
  {
  }
}

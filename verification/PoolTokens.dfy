/** Where the tokens of the pool semaphore come from and go to, over every run. */
module PoolTokens {
  import opened PoolProtocol
  import opened PoolTheorems
  import opened PoolShutdown
  import opened Counting
  import opened Runs

  /** How many tokens the shutdown has posted. */
  function PostedAtShutdown(s: State): int {
    match s.dealloc
    case Idle => 0
    case Clearing(_) => 0
    case Posting(left) => |s.workers| - left
    case Joining => |s.workers|
  }

  /** Tokens posted so far, one by each accepted call past its post and those of the shutdown, less those stored. */
  ghost function Gone(s: State): int {
    |s.accepted| - Count(IsAccepted, s.calls) + PostedAtShutdown(s) - s.tokens
  }

  /** A worker takes a token. */
  ghost predicate TakesToken(s: State, s': State) {
    |s.workers| == |s'.workers| &&
    exists w {:trigger s.workers[w]} :: 0 <= w < |s.workers| && s.workers[w].Wait? && s'.workers[w] == Woken(true)
  }

  lemma WorkerGone(s: State, step: Step)
    requires Enabled(s, step) && IsWorkerStep(step)
    ensures |Apply(s, step).workers| == |s.workers|
    ensures TakesToken(s, Apply(s, step)) <==> step.TakeToken?
    ensures Gone(Apply(s, step)) == Gone(s) + if step.TakeToken? then 1 else 0
  {
    hide Count, Link, SettleCall;
    var s' := Apply(s, step);
    assert s'.workers == s.workers[step.w := s'.workers[step.w]];
    if step.TakeToken? { assert s.workers[step.w].Wait?; }
    if step.CallBack? {
      var c := s.tasks[s.workers[step.w].task].owner;
      CountUpdate(IsAccepted, s.calls, c, s'.calls[c]);
    } else if step.StoreResult? && s.tasks[s.workers[step.w].task].result.Some? {
      var c := s.tasks[s.workers[step.w].task].result.value;
      CountUpdate(IsAccepted, s.calls, c, s'.calls[c]);
    }
  }

  lemma OtherGone(s: State, step: Step)
    requires Enabled(s, step) && !IsWorkerStep(step)
    ensures Apply(s, step).workers == s.workers && Gone(Apply(s, step)) == Gone(s)
  {
    hide Count, Dequeue, FinishHeld;
    var s' := Apply(s, step);
    if step.Enqueue? {
      CountAppend(IsAccepted, s.calls, s'.calls[|s.calls|]);
    } else if !step.BeginDealloc? && !step.ClearFlag? && !step.PostShutdown? {
      CountUpdate(IsAccepted, s.calls, step.c, s'.calls[step.c]);
    }
  }

  /**
   Tokens are conserved: what is stored and what workers have taken is one token for each
   accepted call that has posted, and one for each worker once the shutdown has posted all.
   */
  lemma {:induction false} TokenConservation(trace: seq<State>, i: nat)
    requires IsRunFromInit(trace) && i < |trace|
    ensures var s := trace[i];
      s.tokens + Events(trace, TakesToken, 0, i) ==
        |s.accepted| - Count(IsAccepted, s.calls) + PostedAtShutdown(s)
  {
    if i > 0 {
      hide Apply, Enabled, TakesToken, Count;
      TokenConservation(trace, i - 1);
      assert Moves(trace[i - 1], trace[i - 1 + 1]);
      var step :| Enabled(trace[i - 1], step) && Apply(trace[i - 1], step) == trace[i];
      if IsWorkerStep(step) {
        WorkerGone(trace[i - 1], step);
      } else {
        OtherGone(trace[i - 1], step);
        NobodyTakes(trace[i - 1], trace[i]);
      }
    }
  }

  lemma NobodyTakes(s: State, s': State)
    requires s'.workers == s.workers
    ensures !TakesToken(s, s')
  {
  }

  /**
   A wait that expires wakes a worker as a token does: the worker exits in both cases or in
   neither, and else looks at the queue once more with the same effect, up to the token.
   */
  lemma ExpiryWakesAlike(s: State, w: nat)
    requires Enabled(s, TakeToken(w)) && QueueOk(s)
    ensures Enabled(s, WaitExpires(w))
    ensures var e, t := Apply(s, WaitExpires(w)), Apply(s, TakeToken(w));
      && Enabled(e, TestRunningAgain(w)) && Enabled(t, TestRunningAgain(w))
      && var e', t' := Apply(e, TestRunningAgain(w)), Apply(t, TestRunningAgain(w));
      && t.tokens == e.tokens - 1
      && if !s.running[w] then e'.workers[w].Exited? && t' == e'.(tokens := t.tokens)
         else
           && Enabled(e', LockQueueAgain(w)) && Enabled(t', LockQueueAgain(w))
           && Apply(t', LockQueueAgain(w)) == Apply(e', LockQueueAgain(w)).(tokens := t.tokens)
           && (s.lists.pending == [] ==> Apply(e', LockQueueAgain(w)).workers[w].Top?)
           && (s.lists.pending != [] ==> Apply(e', LockQueueAgain(w)).workers[w] == Run(s.lists.pending[0]))
  {
  }
}

/** What every reachable state of the worker pool keeps, and what follows for whole runs. */
module PoolSafety {
  import opened Basics
  import opened TaskLists
  import opened PoolProtocol

  ghost predicate Holds(pc: Worker, t: nat) {
    (pc.Run? || pc.Store? || pc.Finish?) && pc.task == t
  }

  /** The call still refers to the task. */
  ghost predicate RefersTo(pc: CallPc, t: nat) {
    !pc.Returned? && pc.task == t
  }

  ghost predicate Held(s: State, t: nat) {
    exists w :: 0 <= w < |s.workers| && Holds(s.workers[w], t)
  }

  /** Lists and worker hands share no task, and know only allocated ones. */
  ghost predicate Placed(s: State) {
    && |s.running| == |s.workers|
    && Disjoint(s.lists)
    && (forall t: nat :: t in s.lists.pending ==> t < |s.tasks|)
    && (forall t: nat :: t in s.lists.free ==> t < |s.tasks|)
    && (forall w, t: nat {:trigger Holds(s.workers[w], t)} :: 0 <= w < |s.workers| && Holds(s.workers[w], t) ==>
          t < |s.tasks| && t !in s.lists.pending && t !in s.lists.free)
    && (forall w, v, t: nat {:trigger Holds(s.workers[w], t), s.workers[v]} ::
          0 <= w < v < |s.workers| && Holds(s.workers[w], t) ==> !Holds(s.workers[v], t))
  }

  ghost predicate TaskInv(s: State, t: nat)
    requires t < |s.tasks|
  {
    var k := s.tasks[t];
    && (k.completed ==> t !in s.lists.pending && t !in s.lists.free && !Held(s, t))
    && (k.completed || t in s.lists.pending || t in s.lists.free || Held(s, t))
    && (t in s.lists.free ==> k.timedOut)
    && !(k.timedOut && k.completed)
    && k.semaphore <= (if k.completed then 1 else 0)
    && k.owner < |s.calls|
    && (k.timedOut ==> k.result == None && s.calls[k.owner].pc == Returned(TimedOut))
    && (!k.timedOut ==>
          && k.result == (if s.calls[k.owner].wantsResult then Some(k.owner) else None)
          && (RefersTo(s.calls[k.owner].pc, t)
              || (s.calls[k.owner].pc == Returned(Success) && (k.completed || s.calls[k.owner].timeout.NoWait?))))
  }

  ghost predicate TasksInv(s: State) {
    && (forall t: nat :: t < |s.tasks| ==> TaskInv(s, t))
    && (forall t: nat, u: nat :: 0 <= t < u < |s.tasks| ==> s.tasks[t].owner != s.tasks[u].owner)
  }

  ghost predicate CallInv(s: State, c: nat)
    requires c < |s.calls|
  {
    var k := s.calls[c];
    && (!k.pc.Returned? ==>
          && k.pc.task < |s.tasks|
          && s.tasks[k.pc.task].owner == c
          && !s.tasks[k.pc.task].timedOut)
    && ((k.pc.Accepted? || k.pc.Posted?) && s.tasks[k.pc.task].completed ==> s.tasks[k.pc.task].semaphore == 1)
    && (k.pc.Settling? ==> k.timeout.Nanoseconds? && (!k.pc.expired ==> s.tasks[k.pc.task].completed))
    && (k.pc == Returned(TimedOut) ==> k.timeout.Nanoseconds?)
    && (k.slot.Some? ==> k.wantsResult && k.slot == k.returned)
    && (k.pc == Returned(Success) && !k.timeout.NoWait? ==> Delivered(k))
  }

  /** The callback has run and its value is where the caller asked for it. */
  ghost predicate Delivered(k: Call) {
    k.returned.Some? && (k.wantsResult ==> k.slot == k.returned)
  }

  ghost predicate CallsInv(s: State) {
    forall c: nat :: c < |s.calls| ==> CallInv(s, c)
  }

  /** How far the callback of each task's owner has come. */
  ghost predicate Progress(s: State) {
    && (forall t: nat :: 0 <= t < |s.tasks| ==> s.tasks[t].owner < |s.calls|)
    && (forall t: nat :: t in s.lists.pending ==> t < |s.tasks| && s.calls[s.tasks[t].owner].returned == None)
    && (forall w {:trigger s.workers[w]} :: 0 <= w < |s.workers| ==>
          match s.workers[w]
          case Run(t) => t < |s.tasks| && s.calls[s.tasks[t].owner].returned == None
          case Store(t, v) => t < |s.tasks| && s.calls[s.tasks[t].owner].returned == Some(v)
          case Finish(t) => t < |s.tasks| && (s.tasks[t].timedOut || Delivered(s.calls[s.tasks[t].owner]))
          case _ => true)
    && (forall t: nat :: 0 <= t < |s.tasks| && s.tasks[t].completed ==> Delivered(s.calls[s.tasks[t].owner]))
  }

  /** Calls are started in the order they were accepted, and the queue is what lies between. */
  ghost predicate History(s: State) {
    && |s.lists.pending| <= s.maxQueue
    && |s.accepted| == |s.started| + |s.lists.pending|
    && s.started <= s.accepted
    && (forall i :: 0 <= i < |s.lists.pending| ==>
          s.lists.pending[i] < |s.tasks| && s.accepted[|s.started| + i] == s.tasks[s.lists.pending[i]].owner)
  }

  ghost predicate Inv(s: State) {
    Placed(s) && TasksInv(s) && CallsInv(s) && Progress(s) && History(s)
  }

  lemma InitInv(s: State)
    requires Init(s)
    ensures Inv(s)
  {
  }


  lemma HeldAfter(s: State, w: nat, pc: Worker)
    requires Placed(s) && w < |s.workers|
    ensures forall t: nat :: Held(At(s, w, pc), t) <==> Holds(pc, t) || (Held(s, t) && !Holds(s.workers[w], t))
  {
    var s' := At(s, w, pc);
    forall t: nat
      ensures Held(s', t) <==> Holds(pc, t) || (Held(s, t) && !Holds(s.workers[w], t))
    {
      if Holds(pc, t) { assert Holds(s'.workers[w], t); }
      if v :| 0 <= v < |s.workers| && v != w && Holds(s.workers[v], t) {
        assert Holds(s'.workers[v], t);
      }
    }
  }

  lemma WorkerMoves(s: State, step: Step)
    requires Placed(s) && TasksInv(s) && CallsInv(s) && Enabled(s, step)
    requires step.TestRunning? || step.TakeToken? || step.WaitExpires? || step.TestRunningAgain?
    ensures Placed(Apply(s, step)) && TasksInv(Apply(s, step)) && CallsInv(Apply(s, step))
  {
    var s' := Apply(s, step);
    HeldAfter(s, step.w, s'.workers[step.w]);
    assert forall t: nat :: Held(s', t) <==> Held(s, t);
    forall t: nat | t < |s'.tasks| ensures TaskInv(s', t) { assert TaskInv(s, t); }
    forall c: nat | c < |s'.calls| ensures CallInv(s', c) { assert CallInv(s, c); }
  }

  lemma DequeueEmpty(s: State, w: nat, pc: Worker)
    requires Inv(s) && w < |s.workers| && (s.workers[w].Enter? || s.workers[w].Reenter?)
    requires s.lists.pending == [] && (pc.Wait? || pc.Top?)
    ensures Inv(Dequeue(s, w, pc))
  {
    var s' := Dequeue(s, w, pc);
    HeldAfter(s, w, pc);
    assert forall t: nat :: Held(s', t) <==> Held(s, t);
    forall t: nat | t < |s'.tasks| ensures TaskInv(s', t) { assert TaskInv(s, t); }
    forall c: nat | c < |s'.calls| ensures CallInv(s', c) { assert CallInv(s, c); }
  }

  lemma DequeuePlaced(s: State, w: nat, pc: Worker)
    requires Placed(s) && w < |s.workers| && (s.workers[w].Enter? || s.workers[w].Reenter?)
    requires s.lists.pending != []
    ensures QueueOk(s) && Placed(Dequeue(s, w, pc))
  {
    HeadTail(s.lists.pending);
    var t := s.lists.pending[0];
    assert t in s.lists.pending;
    var s' := Dequeue(s, w, pc);
    forall v, u: nat | 0 <= v < |s.workers| && v != w && Holds(s'.workers[v], u)
      ensures u < |s.tasks| && u != t && u !in s.lists.pending && u !in s.lists.free
    {
      assert Holds(s.workers[v], u);
    }
    assert forall v: nat :: v < |s.workers| && v != w ==> s'.workers[v] == s.workers[v];
  }

  lemma DequeueTasks(s: State, w: nat, pc: Worker)
    requires Placed(s) && TasksInv(s) && w < |s.workers| && (s.workers[w].Enter? || s.workers[w].Reenter?)
    requires s.lists.pending != []
    ensures QueueOk(s) && TasksInv(Dequeue(s, w, pc))
  {
    HeadTail(s.lists.pending);
    var t := s.lists.pending[0];
    assert t in s.lists.pending;
    var s' := Dequeue(s, w, pc);
    HeldAfter(s, w, Run(t));
    assert forall u: nat :: Held(s', u) <==> Held(At(s, w, Run(t)), u);
    forall u: nat | u < |s'.tasks| ensures TaskInv(s', u) { assert TaskInv(s, u); }
  }

  lemma DequeueRest(s: State, w: nat, pc: Worker)
    requires CallsInv(s) && Progress(s) && History(s)
    requires w < |s.workers| && (s.workers[w].Enter? || s.workers[w].Reenter?)
    requires s.lists.pending != []
    ensures QueueOk(s) && CallsInv(Dequeue(s, w, pc)) && Progress(Dequeue(s, w, pc)) && History(Dequeue(s, w, pc))
  {
    var s' := Dequeue(s, w, pc);
    assert s.lists.pending == [s.lists.pending[0]] + s'.lists.pending;
    forall c: nat | c < |s'.calls| ensures CallInv(s', c) { assert CallInv(s, c); }
  }

  lemma Dequeues(s: State, w: nat, pc: Worker)
    requires Inv(s) && w < |s.workers| && (s.workers[w].Enter? || s.workers[w].Reenter?)
    requires s.lists.pending != []
    ensures QueueOk(s) && Inv(Dequeue(s, w, pc))
  {
    DequeuePlaced(s, w, pc);
    DequeueTasks(s, w, pc);
    DequeueRest(s, w, pc);
  }

  /** Steps that touch neither the queue nor its history. */
  lemma KeepsHistory(s: State, s': State)
    requires History(s) && s'.lists.pending == s.lists.pending && s'.maxQueue == s.maxQueue
    requires s'.accepted == s.accepted && s'.started == s.started && |s'.tasks| == |s.tasks|
    requires forall t: nat :: t < |s.tasks| ==> s'.tasks[t].owner == s.tasks[t].owner
    ensures History(s')
  {
  }

  lemma CallsBack(s: State, w: nat, value: int)
    requires Inv(s) && Enabled(s, CallBack(w, value))
    ensures Placed(Apply(s, CallBack(w, value))) && TasksInv(Apply(s, CallBack(w, value)))
    ensures CallsInv(Apply(s, CallBack(w, value)))
  {
    var s' := Apply(s, CallBack(w, value));
    var t := s.workers[w].task;
    assert Holds(s.workers[w], t);
    assert TaskInv(s, t) && CallInv(s, s.tasks[t].owner);
    HeldAfter(s, w, s'.workers[w]);
    assert forall u: nat :: Held(s', u) <==> Held(s, u);
    forall u: nat | u < |s'.tasks| ensures TaskInv(s', u) { assert TaskInv(s, u); }
    forall c: nat | c < |s'.calls| ensures CallInv(s', c) { assert CallInv(s, c); }
  }

  lemma CallsBackProgress(s: State, w: nat, value: int)
    requires Placed(s) && TasksInv(s) && Progress(s) && History(s) && Enabled(s, CallBack(w, value))
    ensures Progress(Apply(s, CallBack(w, value))) && History(Apply(s, CallBack(w, value)))
  {
    hide Disjoint, History;
    var s' := Apply(s, CallBack(w, value));
    KeepsHistory(s, s');
    var t := s.workers[w].task;
    assert Holds(s.workers[w], t) && TaskInv(s, t);
    assert forall u: nat :: u in s.lists.pending ==> u != t;
    forall v: nat {:trigger s'.workers[v]} | v < |s'.workers| && v != w
      ensures (s'.workers[v].Run? || s'.workers[v].Store? || s'.workers[v].Finish?) ==> s'.workers[v].task != t
    {
      assert s'.workers[v] == s.workers[v] && !Holds(s.workers[v], t);
    }
  }

  lemma Stores(s: State, w: nat)
    requires Inv(s) && Enabled(s, StoreResult(w))
    ensures Placed(Apply(s, StoreResult(w))) && TasksInv(Apply(s, StoreResult(w))) && CallsInv(Apply(s, StoreResult(w)))
  {
    var s' := Apply(s, StoreResult(w));
    var t := s.workers[w].task;
    assert Holds(s.workers[w], t) && TaskInv(s, t);
    HeldAfter(s, w, s'.workers[w]);
    assert forall u: nat :: Held(s', u) <==> Held(s, u);
    forall u: nat | u < |s'.tasks| ensures TaskInv(s', u) { assert TaskInv(s, u); }
    forall c: nat | c < |s'.calls| ensures CallInv(s', c) { assert CallInv(s, c); }
  }

  lemma StoresProgress(s: State, w: nat)
    requires Inv(s) && Enabled(s, StoreResult(w))
    ensures Progress(Apply(s, StoreResult(w))) && History(Apply(s, StoreResult(w)))
  {
    hide History, Disjoint;
    KeepsHistory(s, Apply(s, StoreResult(w)));
    var t := s.workers[w].task;
    assert Holds(s.workers[w], t) && TaskInv(s, t) && CallInv(s, s.tasks[t].owner);
  }

  lemma FinishPlaced(s: State, w: nat)
    requires Placed(s) && TasksInv(s) && Enabled(s, FinishTask(w))
    ensures Placed(FinishHeld(s, w))
  {
    var s' := FinishHeld(s, w);
    var t := s.workers[w].task;
    assert Holds(s.workers[w], t) && TaskInv(s, t);
    if s.tasks[t].timedOut {
      HeadTail(s'.lists.free);
      assert forall u: nat :: u in s'.lists.free <==> u == t || u in s.lists.free;
    }
  }

  lemma FinishTasks(s: State, w: nat)
    requires Placed(s) && TasksInv(s) && Enabled(s, FinishTask(w))
    ensures TasksInv(FinishHeld(s, w))
  {
    var s' := FinishHeld(s, w);
    var t := s.workers[w].task;
    assert Holds(s.workers[w], t) && TaskInv(s, t);
    HeldAfter(s, w, Top);
    assert forall u: nat :: Held(s', u) <==> Held(At(s, w, Top), u);
    HeadTail([t] + s.lists.free);
    forall u: nat | u < |s'.tasks| ensures TaskInv(s', u) { assert TaskInv(s, u); }
  }

  lemma FinishRest(s: State, w: nat)
    requires Inv(s) && Enabled(s, FinishTask(w))
    ensures CallsInv(FinishHeld(s, w)) && Progress(FinishHeld(s, w)) && History(FinishHeld(s, w))
  {
    hide History;
    var s' := FinishHeld(s, w);
    KeepsHistory(s, s');
    var t := s.workers[w].task;
    assert Holds(s.workers[w], t) && TaskInv(s, t);
    forall c: nat | c < |s'.calls| ensures CallInv(s', c) { assert CallInv(s, c); }
  }

  lemma Rejects(s: State, timeout: Timeout, wantsResult: bool)
    requires Inv(s) && |s.lists.pending| >= s.maxQueue && Enabled(s, Enqueue(timeout, wantsResult))
    ensures Inv(Link(s, timeout, wantsResult))
  {
    var s' := Link(s, timeout, wantsResult);
    assert forall u: nat :: Held(s', u) <==> Held(s, u);
    forall u: nat | u < |s'.tasks| ensures TaskInv(s', u) { assert TaskInv(s, u); }
    forall c: nat | c < |s'.calls| ensures CallInv(s', c) { if c < |s.calls| { assert CallInv(s, c); } }
  }

  lemma LinkPlaced(s: State, timeout: Timeout, wantsResult: bool)
    requires Placed(s) && |s.lists.pending| < s.maxQueue
    ensures Enabled(s, Enqueue(timeout, wantsResult)) && Placed(Link(s, timeout, wantsResult))
  {
    LinkedDisjoint(s.lists, |s.tasks|);
    if s.lists.free != [] { assert s.lists.free[0] in s.lists.free; }
    var s' := Link(s, timeout, wantsResult);
  }

  lemma LinkTasks(s: State, timeout: Timeout, wantsResult: bool)
    requires Placed(s) && TasksInv(s) && |s.lists.pending| < s.maxQueue && Enabled(s, Enqueue(timeout, wantsResult))
    ensures TasksInv(Link(s, timeout, wantsResult))
  {
    LinkedDisjoint(s.lists, |s.tasks|);
    if s.lists.free != [] { assert s.lists.free[0] in s.lists.free; }
    var s' := Link(s, timeout, wantsResult);
    var t := TaskFor(s.lists, |s.tasks|);
    assert forall u: nat :: Held(s', u) <==> Held(s, u);
    forall u: nat | u < |s'.tasks| ensures TaskInv(s', u) { if u < |s.tasks| { assert TaskInv(s, u); } }
    forall u: nat | u < |s.tasks| ensures s.tasks[u].owner < |s.calls| { assert TaskInv(s, u); }
  }

  lemma LinkCalls(s: State, timeout: Timeout, wantsResult: bool)
    requires Placed(s) && TasksInv(s) && CallsInv(s)
    requires |s.lists.pending| < s.maxQueue && Enabled(s, Enqueue(timeout, wantsResult))
    ensures CallsInv(Link(s, timeout, wantsResult))
  {
    if s.lists.free != [] { assert s.lists.free[0] in s.lists.free; }
    var s' := Link(s, timeout, wantsResult);
    var t := TaskFor(s.lists, |s.tasks|);
    assert t < |s.tasks| ==> TaskInv(s, t);
    forall c: nat | c < |s'.calls| ensures CallInv(s', c) { if c < |s.calls| { assert CallInv(s, c); } }
  }

  lemma LinkProgress(s: State, timeout: Timeout, wantsResult: bool)
    requires Placed(s) && Progress(s)
    requires |s.lists.pending| < s.maxQueue && Enabled(s, Enqueue(timeout, wantsResult))
    ensures Progress(Link(s, timeout, wantsResult))
  {
    LinkedDisjoint(s.lists, |s.tasks|);
    if s.lists.free != [] { assert s.lists.free[0] in s.lists.free; }
    var s' := Link(s, timeout, wantsResult);
    var t := TaskFor(s.lists, |s.tasks|);
    forall w: nat {:trigger s.workers[w]} |
      w < |s.workers| && (s.workers[w].Run? || s.workers[w].Store? || s.workers[w].Finish?)
      ensures s.workers[w].task < |s.tasks| && s.workers[w].task != t
    {
      assert Holds(s.workers[w], s.workers[w].task);
    }
    assert forall u: nat :: u in s.lists.pending ==> u != t;
  }

  lemma LinkHistory(s: State, timeout: Timeout, wantsResult: bool)
    requires Placed(s) && History(s)
    requires |s.lists.pending| < s.maxQueue && Enabled(s, Enqueue(timeout, wantsResult))
    ensures History(Link(s, timeout, wantsResult))
  {
    if s.lists.free != [] { assert s.lists.free[0] in s.lists.free; }
    var t := TaskFor(s.lists, |s.tasks|);
    assert forall u: nat :: u in s.lists.pending ==> u != t;
  }

  lemma CallMoves(s: State, step: Step)
    requires Placed(s) && TasksInv(s) && CallsInv(s) && Enabled(s, step)
    requires step.Post? || step.SkipWait? || step.TaskWaitExpires?
    ensures Placed(Apply(s, step)) && TasksInv(Apply(s, step)) && CallsInv(Apply(s, step))
  {
    var s' := Apply(s, step);
    assert CallInv(s, step.c) && TaskInv(s, s.calls[step.c].pc.task);
    assert forall t: nat :: Held(s', t) <==> Held(s, t);
    forall u: nat | u < |s'.tasks| ensures TaskInv(s', u) { assert TaskInv(s, u); }
    forall c: nat | c < |s'.calls| ensures CallInv(s', c) { assert CallInv(s, c); }
  }

  lemma TakesTask(s: State, c: nat)
    requires Placed(s) && TasksInv(s) && CallsInv(s) && Progress(s) && Enabled(s, TakeTask(c))
    ensures Placed(Apply(s, TakeTask(c))) && TasksInv(Apply(s, TakeTask(c))) && CallsInv(Apply(s, TakeTask(c)))
  {
    var s' := Apply(s, TakeTask(c));
    assert CallInv(s, c) && TaskInv(s, s.calls[c].pc.task);
    assert forall t: nat :: Held(s', t) <==> Held(s, t);
    forall u: nat | u < |s'.tasks| ensures TaskInv(s', u) { assert TaskInv(s, u); }
    forall d: nat | d < |s'.calls| ensures CallInv(s', d) { assert CallInv(s, d); }
  }

  lemma Settles(s: State, c: nat)
    requires Placed(s) && TasksInv(s) && CallsInv(s) && Progress(s) && Enabled(s, Settle(c))
    ensures Placed(Apply(s, Settle(c))) && TasksInv(Apply(s, Settle(c))) && CallsInv(Apply(s, Settle(c)))
  {
    var s' := Apply(s, Settle(c));
    assert CallInv(s, c);
    assert TaskInv(s, s.calls[c].pc.task);
    assert forall t: nat :: Held(s', t) <==> Held(s, t);
    forall u: nat | u < |s'.tasks| ensures TaskInv(s', u) { assert TaskInv(s, u); }
    forall d: nat | d < |s'.calls| ensures CallInv(s', d) { assert CallInv(s, d); }
  }

  lemma Deallocs(s: State, step: Step)
    requires Placed(s) && TasksInv(s) && CallsInv(s) && Enabled(s, step)
    requires step.BeginDealloc? || step.ClearFlag? || step.PostShutdown?
    ensures Placed(Apply(s, step)) && TasksInv(Apply(s, step)) && CallsInv(Apply(s, step))
  {
    var s' := Apply(s, step);
    assert forall t: nat :: Held(s', t) <==> Held(s, t);
    forall u: nat | u < |s'.tasks| ensures TaskInv(s', u) { assert TaskInv(s, u); }
    forall d: nat | d < |s'.calls| ensures CallInv(s', d) { assert CallInv(s, d); }
  }

  /** Workers that take up no task, and calls whose results stay, leave progress as it was. */
  lemma KeepsProgress(s: State, s': State)
    requires Progress(s) && s'.lists == s.lists && s'.tasks == s.tasks
    requires |s'.calls| == |s.calls| && |s'.workers| == |s.workers|
    requires forall c: nat :: c < |s.calls| ==> s'.calls[c] == s.calls[c].(pc := s'.calls[c].pc)
    requires forall w: nat :: w < |s.workers| ==>
      s'.workers[w] == s.workers[w] || !(s'.workers[w].Run? || s'.workers[w].Store? || s'.workers[w].Finish?)
    ensures Progress(s')
  {
  }

  /** The steps that neither dequeue, run nor store leave progress and history as they were. */
  lemma QuietSteps(s: State, step: Step)
    requires Progress(s) && History(s) && Enabled(s, step)
    requires !step.LockQueue? && !step.LockQueueAgain? && !step.CallBack? && !step.StoreResult? && !step.FinishTask?
    requires !step.Enqueue? && !step.Settle? && !step.TakeTask?
    ensures Progress(Apply(s, step)) && History(Apply(s, step))
  {
    hide Progress, History;
    KeepsProgress(s, Apply(s, step));
    KeepsHistory(s, Apply(s, step));
  }

  lemma TakeAndSettle(s: State, step: Step)
    requires CallsInv(s) && Progress(s) && History(s) && Enabled(s, step) && (step.Settle? || step.TakeTask?)
    ensures Progress(Apply(s, step)) && History(Apply(s, step))
  {
    hide History;
    assert CallInv(s, step.c);
    KeepsHistory(s, Apply(s, step));
  }

  lemma StepInv(s: State, step: Step)
    requires Inv(s) && Enabled(s, step)
    ensures Inv(Apply(s, step))
  {
    hide Placed, TasksInv, CallsInv, Progress, History, Link, Dequeue, FinishHeld, SettleCall;
    match step
    case LockQueue(w) => if s.lists.pending == [] { DequeueEmpty(s, w, Wait); } else { Dequeues(s, w, Wait); }
    case LockQueueAgain(w) => if s.lists.pending == [] { DequeueEmpty(s, w, Top); } else { Dequeues(s, w, Top); }
    case CallBack(w, value) => CallsBack(s, w, value); CallsBackProgress(s, w, value);
    case StoreResult(w) => Stores(s, w); StoresProgress(s, w);
    case FinishTask(w) => FinishPlaced(s, w); FinishTasks(s, w); FinishRest(s, w);
    case Enqueue(timeout, wants) =>
      if |s.lists.pending| >= s.maxQueue {
        Rejects(s, timeout, wants);
      } else {
        LinkPlaced(s, timeout, wants); LinkTasks(s, timeout, wants); LinkCalls(s, timeout, wants);
        LinkProgress(s, timeout, wants); LinkHistory(s, timeout, wants);
      }
    case TestRunning(_) => WorkerMoves(s, step); QuietSteps(s, step);
    case TakeToken(_) => WorkerMoves(s, step); QuietSteps(s, step);
    case WaitExpires(_) => WorkerMoves(s, step); QuietSteps(s, step);
    case TestRunningAgain(_) => WorkerMoves(s, step); QuietSteps(s, step);
    case Post(_) => CallMoves(s, step); QuietSteps(s, step);
    case SkipWait(_) => CallMoves(s, step); QuietSteps(s, step);
    case TaskWaitExpires(_) => CallMoves(s, step); QuietSteps(s, step);
    case TakeTask(c) => TakesTask(s, c); TakeAndSettle(s, step);
    case Settle(c) => Settles(s, c); TakeAndSettle(s, step);
    case BeginDealloc => Deallocs(s, step); QuietSteps(s, step);
    case ClearFlag => Deallocs(s, step); QuietSteps(s, step);
    case PostShutdown => Deallocs(s, step); QuietSteps(s, step);
  }
}

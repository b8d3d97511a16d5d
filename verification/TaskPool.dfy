/**
 The pointer code of the pool's critical sections. The queue is a chain of next
 pointers with a first and a last pointer, the free list a chain with a first
 pointer; each section is proved to act on them as TaskLists says.
 */
module TaskPool {
  import opened TaskLists

  /** The caller's int behind a result pointer. */
  class Cell {
    var value: int
  }

  class Task {
    var next: Task?
    var job: int          // stands for the callback and its data
    var result: Cell?
    var timedOut: bool
    var completed: bool
    var semaphore: nat

    /** A task as malloc and sem_init leave it; the remaining fields are set by every enqueue. */
    constructor ()
      ensures next == null && result == null && semaphore == 0
    {
      next, result, semaphore := null, null, 0;
    }

    /** The data of one enqueue call: src/shared/worker_thread_pool.c:226-231. */
    method Fill(job: int, result: Cell?)
      modifies `job, `result, `timedOut, `completed
      ensures this.job == job && this.result == result && !timedOut && !completed
    {
      this.job, this.result, timedOut, completed := job, result, false, false;
    }
  }

  /** Following next from first visits exactly the tasks of ts, in order. */
  ghost predicate Chain(first: Task?, ts: seq<Task>)
    reads ts
  {
    if ts == [] then first == null
    else
      && first == ts[0]
      && ts[|ts| - 1].next == null
      && forall i :: 0 <= i < |ts| - 1 ==> ts[i].next == ts[i + 1]
  }

  datatype Settled = Success | TimedOut

  class Pool {
    const maxQueueSize: nat
    var pendingFirst: Task?
    var pendingLast: Task?
    var pendingLen: nat
    var poolFirst: Task?
    var poolLen: nat

    ghost var lists: Lists<Task>

    ghost predicate Valid()
      reads this, lists.pending, lists.free
    {
      && Disjoint(lists)
      && Chain(pendingFirst, lists.pending)
      && Chain(poolFirst, lists.free)
      && pendingLen == |lists.pending| <= maxQueueSize
      && poolLen == |lists.free|
      && pendingLast == (if lists.pending == [] then null else lists.pending[|lists.pending| - 1])
    }

    constructor (maxQueueSize: nat)
      requires maxQueueSize >= 1
      ensures Valid() && lists == Lists([], []) && this.maxQueueSize == maxQueueSize
    {
      this.maxQueueSize := maxQueueSize;
      pendingFirst, pendingLast, pendingLen := null, null, 0;
      poolFirst, poolLen := null, 0;
      lists := Lists([], []);
    }

    /** The locked part of an enqueue call; null when the queue is full. */
    method Link(job: int, result: Cell?) returns (task: Task?)
      requires Valid()
      modifies this, lists.pending, lists.free
      ensures Valid()
      ensures task == null <==> IsFull(old(lists), maxQueueSize)
      ensures task == null ==> lists == old(lists)
      ensures task != null ==>
        && (old(lists).free == [] ==> fresh(task))
        && task == TaskFor(old(lists), task) && lists == Linked(old(lists), task)
        && task.job == job && task.result == result && !task.timedOut && !task.completed
        && (if old(lists).free == [] then task.semaphore == 0 else task.semaphore == old(lists.free[0].semaphore))
      ensures forall t :: (t in old(lists).pending || t in old(lists).free) && t != task ==>
        t.result == old(t.result) && t.timedOut == old(t.timedOut) && t.completed == old(t.completed)
        && t.semaphore == old(t.semaphore) && t.job == old(t.job)
    {
      if pendingLen >= maxQueueSize {
        return null;
      }
      hide Chain;
      task := Obtain();
      task.Fill(job, result);
      Append(task);
    }

    /** The first free task, or a new one: src/shared/worker_thread_pool.c:205-224. */
    method Obtain() returns (task: Task)
      requires Valid()
      modifies this`poolFirst, this`poolLen, this`lists, lists.free
      ensures Valid()
      ensures task !in lists.pending && task !in lists.free && task.next == null
      ensures task == TaskFor(old(lists), task) && (old(lists).free == [] ==> fresh(task))
      ensures lists == Lists(old(lists).pending, if old(lists).free == [] then [] else old(lists).free[1..])
      ensures task.semaphore == if old(lists).free == [] then 0 else old(lists.free[0].semaphore)
      ensures forall t :: t in old(lists).free ==>
        && t.result == old(t.result) && t.timedOut == old(t.timedOut) && t.completed == old(t.completed)
        && t.semaphore == old(t.semaphore) && t.job == old(t.job) && (t != task ==> t.next == old(t.next))
    {
      if poolLen == 0 {
        task := new Task();
      } else {
        task := poolFirst;
        HeadTail(lists.free);
        assert task in lists.free;
        poolFirst := poolFirst.next;
        task.next := null;
        poolLen := poolLen - 1;
        lists := Lists(lists.pending, lists.free[1..]);
      }
    }

    /** Putting a task at the end of the queue: src/shared/worker_thread_pool.c:233-241. */
    method Append(task: Task)
      requires Valid() && pendingLen < maxQueueSize
      requires task !in lists.pending && task !in lists.free && task.next == null
      modifies this`pendingFirst, this`pendingLast, this`pendingLen, this`lists, (set t | t in lists.pending)`next
      ensures Valid() && lists == Lists(old(lists).pending + [task], old(lists).free)
    {
      ghost var before := lists.pending;
      if pendingLen > 0 {
        pendingLast.next := task;
        pendingLast := task;
      } else {
        pendingFirst := task;
        pendingLast := task;
      }
      pendingLen := pendingLen + 1;
      lists := Lists(before + [task], lists.free);
      forall i | 0 <= i < |before| ensures lists.pending[i].next == lists.pending[i + 1] {
        if i < |before| - 1 { assert before[i] != before[|before| - 1]; }
      }
    }

    /** The locked part of a worker's loop; null when the queue is empty. */
    method Dequeue() returns (task: Task?)
      requires Valid()
      modifies this
      ensures Valid()
      ensures old(lists).pending == [] ==> task == null && lists == old(lists)
      ensures old(lists).pending != [] ==> task == old(lists).pending[0] && lists == Dequeued(old(lists))
    {
      if pendingLen == 0 {
        return null;
      }
      task := pendingFirst;
      pendingFirst := pendingFirst.next;
      if pendingFirst == null {
        pendingLast := null;
      }
      pendingLen := pendingLen - 1;
      HeadTail(lists.pending);
      lists := Dequeued(lists);
    }

    /** Storing the callback's value, if the caller still wants it. */
    method Store(task: Task, value: int)
      modifies task.result
      ensures task.result != null ==> task.result.value == value
    {
      if task.result != null {
        task.result.value := value;
      }
    }

    /** The locked part after the callback. */
    method Finish(task: Task)
      requires Valid() && task !in lists.pending && task !in lists.free
      modifies this, task
      ensures Valid()
      ensures task.timedOut == old(task.timedOut) && task.result == old(task.result) && task.job == old(task.job)
      ensures old(task.timedOut) ==>
        && lists == Recycled(old(lists), task)
        && task.completed == old(task.completed) && task.semaphore == old(task.semaphore)
      ensures !old(task.timedOut) ==>
        lists == old(lists) && task.completed && task.semaphore == old(task.semaphore) + 1
    {
      if task.timedOut {
        Recycle(task);
      } else {
        task.completed := true;
        task.semaphore := task.semaphore + 1;
      }
    }

    method Recycle(task: Task)
      requires Valid() && task !in lists.pending && task !in lists.free
      modifies this`poolFirst, this`poolLen, this`lists, task`next
      ensures Valid() && lists == Recycled(old(lists), task)
    {
      task.next := poolFirst;
      poolFirst := task;
      poolLen := poolLen + 1;
      HeadTail([task] + lists.free);
      lists := Recycled(lists, task);
    }

    /** The locked part after a call's timed wait; expired says that the wait timed out. */
    method Settle(task: Task, expired: bool) returns (outcome: Settled)
      requires Valid()
      requires !task.completed && !expired ==> task !in lists.pending && task !in lists.free
      modifies this`poolFirst, this`poolLen, this`lists, task
      ensures Valid()
      ensures outcome == (if !old(task.completed) && expired then TimedOut else Success)
      ensures task.timedOut == (outcome.TimedOut? || old(task.timedOut))
      ensures task.result == if outcome.TimedOut? then null else old(task.result)
      ensures task.completed == old(task.completed) && task.semaphore == old(task.semaphore)
      ensures task.job == old(task.job)
      ensures lists == if !old(task.completed) && !expired then Recycled(old(lists), task) else old(lists)
    {
      if task.completed {
        outcome := Success;
      } else if !expired {
        Recycle(task);
        outcome := Success;
      } else {
        task.result := null;
        task.timedOut := true;
        outcome := TimedOut;
      }
    }
  }
}

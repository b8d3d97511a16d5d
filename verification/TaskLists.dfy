/**
 The two task lists a worker pool keeps under its mutex, as values: the FIFO queue
 of pending tasks and the LIFO free list of tasks that can be used again. Each
 function below is the effect of one critical section on the lists. They are
 generic in how a task is named: TaskPool proves that the pointer code computes
 them, and PoolProtocol runs them concurrently.
 */
module TaskLists {

  datatype Lists<T> = Lists(pending: seq<T>, free: seq<T>)

  /** An enqueue is rejected. */
  predicate IsFull<T>(l: Lists<T>, maxQueue: nat) {
    |l.pending| >= maxQueue
  }

  /** The task an enqueue uses: the first free one, or a newly allocated one. */
  function TaskFor<T>(l: Lists<T>, spare: T): T {
    if l.free == [] then spare else l.free[0]
  }

  function Linked<T>(l: Lists<T>, spare: T): Lists<T> {
    Lists(l.pending + [TaskFor(l, spare)], if l.free == [] then [] else l.free[1..])
  }

  function Dequeued<T>(l: Lists<T>): Lists<T>
    requires l.pending != []
  {
    l.(pending := l.pending[1..])
  }

  function Recycled<T>(l: Lists<T>, task: T): Lists<T> {
    l.(free := [task] + l.free)
  }

  predicate NoDuplicates<T(==)>(xs: seq<T>) {
    forall i, j :: 0 <= i < j < |xs| ==> xs[i] != xs[j]
  }

  /** Neither list has a cycle, and no task is on both. */
  predicate Disjoint<T(==)>(l: Lists<T>) {
    && NoDuplicates(l.pending)
    && NoDuplicates(l.free)
    && forall t :: t in l.pending ==> t !in l.free
  }

  lemma HeadTail<T>(xs: seq<T>)
    requires xs != []
    ensures forall x :: x in xs <==> x == xs[0] || x in xs[1..]
  {
    assert xs == [xs[0]] + xs[1..];
  }

  lemma LinkedDisjoint<T>(l: Lists<T>, spare: T)
    requires Disjoint(l) && (l.free == [] ==> spare !in l.pending)
    ensures Disjoint(Linked(l, spare))
    ensures forall t :: t in Linked(l, spare).pending <==> t == TaskFor(l, spare) || t in l.pending
    ensures forall t :: t in Linked(l, spare).free <==> t in l.free && t != TaskFor(l, spare)
  {
    if l.free != [] {
      HeadTail(l.free);
      assert l.free[0] in l.free;
    }
  }
}

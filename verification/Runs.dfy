/** Arguments about runs of any transition system, by induction on the run. */
module Runs {

  ghost predicate IsPath<S>(trace: seq<S>, i: nat, step: (S, S) -> bool) {
    forall j :: i <= j < |trace| - 1 ==> step(trace[j], trace[j + 1])
  }

  /** A state predicate that every step keeps holds from its first occurrence on. */
  lemma {:induction false} PathKeeps<S(!new)>(trace: seq<S>, step: (S, S) -> bool, keeps: S -> bool, i: nat, j: nat)
    requires i <= j < |trace| && IsPath(trace, i, step) && keeps(trace[i])
    requires forall s, s' :: keeps(s) && step(s, s') ==> keeps(s')
    ensures keeps(trace[j])
    decreases j
  {
    if i < j {
      PathKeeps(trace, step, keeps, i, j - 1);
      assert step(trace[j - 1], trace[j - 1 + 1]);
    }
  }

  /** How often an event happens between positions i and j. */
  ghost function Events<S>(trace: seq<S>, event: (S, S) -> bool, i: nat, j: nat): nat
    requires i <= j < |trace|
    decreases j
  {
    if i == j then 0 else Events(trace, event, i, j - 1) + (if event(trace[j - 1], trace[j]) then 1 else 0)
  }

  /** If every event uses up budget that no step adds to, the budget bounds the events. */
  lemma {:induction false} BudgetBoundsEvents<S(!new)>(trace: seq<S>, step: (S, S) -> bool, keeps: S -> bool,
                                                      event: (S, S) -> bool, budget: S -> nat, i: nat, j: nat)
    requires i <= j < |trace| && IsPath(trace, i, step) && keeps(trace[i])
    requires forall s, s' :: keeps(s) && step(s, s') ==> keeps(s')
    requires forall s, s' :: keeps(s) && step(s, s') ==> budget(s') + (if event(s, s') then 1 else 0) <= budget(s)
    ensures Events(trace, event, i, j) + budget(trace[j]) <= budget(trace[i])
    decreases j
  {
    if i < j {
      BudgetBoundsEvents(trace, step, keeps, event, budget, i, j - 1);
      PathKeeps(trace, step, keeps, i, j - 1);
      assert step(trace[j - 1], trace[j - 1 + 1]);
    }
  }

  /** Counting every step as an event counts the steps. */
  lemma {:induction false} EveryStepIsAnEvent<S>(trace: seq<S>, i: nat, j: nat)
    requires i <= j < |trace|
    ensures Events(trace, (s, s') => true, i, j) == j - i
    decreases j
  {
    if i < j { EveryStepIsAnEvent(trace, i, j - 1); }
  }
}

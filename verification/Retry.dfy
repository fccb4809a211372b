/** Bounded retry loops: the first attempt that does not ask for another decides. */
module Retry {
  import opened Bytes

  datatype Attempt<+T> = Again | Done(outcome: Result<T>)

  /** The outcome of attempts i, i + 1, ..., limit - 1. */
  function FirstDone<T>(f: nat -> Attempt<T>, i: nat, limit: nat): (r: Result<T>)
    decreases limit - i, limit
  {
    if i >= limit then Err
    else if f(i).Done? then f(i).outcome
    else FirstDone(f, i + 1, limit)
  }

  /** An accepted result comes from some attempt, and every earlier one asked again. */
  lemma {:induction false} FirstDoneAt<T>(f: nat -> Attempt<T>, i: nat, limit: nat) returns (k: nat)
    requires FirstDone(f, i, limit).Ok?
    ensures i <= k < limit && f(k) == Done(FirstDone(f, i, limit))
    ensures forall j: nat :: i <= j < k ==> f(j).Again?
    decreases limit - i
  {
    if f(i).Done? {
      k := i;
    } else {
      k := FirstDoneAt(f, i + 1, limit);
    }
  }

  /** A failure means that some attempt failed or that every one asked again. */
  lemma {:induction false} FailedAt<T>(f: nat -> Attempt<T>, i: nat, limit: nat)
    requires FirstDone(f, i, limit).Err?
    requires forall j: nat :: i <= j < limit ==> f(j) != Done(Err)
    ensures forall j: nat :: i <= j < limit ==> f(j).Again?
    decreases limit - i
  {
    if i < limit && f(i).Again? { FailedAt(f, i + 1, limit); }
  }

  /** Attempts that agree lead to the same outcome. */
  lemma {:induction false} SameOutcome<T>(f: nat -> Attempt<T>, f': nat -> Attempt<T>, i: nat, limit: nat)
    requires forall j: nat :: i <= j < limit ==> f(j) == f'(j)
    ensures FirstDone(f, i, limit) == FirstDone(f', i, limit)
    decreases limit - i
  {
    if i < limit { SameOutcome(f, f', i + 1, limit); }
  }
}

/** Replaying a whole transaction while the database is busy. */
module Retry {
  import opened Wrappers

  /** `retry_on_busy` from attempt `attempt` on: `op(s, k)` is what attempt `k` makes of state `s`, and
      `between(s, k)` what other connections commit after it, before the next attempt. */
  function Retried<S, E(==)>(op: (S, nat) -> (S, Result<(), E>), busy: E, between: (S, nat) -> S, s: S,
                             attempt: nat, attempts: nat): (S, Result<(), E>)
    decreases attempts - attempt
  {
    if attempt >= attempts then (s, Err(busy))
    else
      var (after, r) := op(s, attempt);
      if r == Err(busy) && attempt + 1 < attempts
      then Retried(op, busy, between, between(after, attempt), attempt + 1, attempts)
      else (after, r)
  }

  /** A failed attempt leaves the state as it was. */
  ghost predicate Transactional<S(!new), E>(op: (S, nat) -> (S, Result<(), E>)) {
    forall s, k :: op(s, k).1.Err? ==> op(s, k).0 == s
  }

  /** The state that attempt `k` sees when nothing but the others' commits happens from attempt `from` on. */
  function Seen<S>(between: (S, nat) -> S, s: S, from: nat, k: nat): S
    requires from <= k
    decreases k - from
  {
    if from == k then s else between(Seen(between, s, from, k - 1), k - 1)
  }

  lemma {:induction false} SeenFromNext<S>(between: (S, nat) -> S, s: S, from: nat, k: nat)
    requires from < k
    ensures Seen(between, s, from, k) == Seen(between, between(s, from), from + 1, k)
    decreases k
  {
    if from + 1 < k {
      SeenFromNext(between, s, from, k - 1);
    }
  }

  /** One attempt decides: the result is that attempt's, made of a state that holds the others' commits and
      nothing else; every attempt before it was busy, and it is the first that is not, or the last allowed. */
  lemma {:induction false} OneAttemptDecides<S(!new), E>(op: (S, nat) -> (S, Result<(), E>), busy: E,
                                                         between: (S, nat) -> S, s: S, attempt: nat, attempts: nat)
    returns (k: nat)
    requires Transactional(op) && attempt < attempts
    ensures attempt <= k < attempts
    ensures Retried(op, busy, between, s, attempt, attempts) == op(Seen(between, s, attempt, k), k)
    ensures forall j :: attempt <= j < k ==> op(Seen(between, s, attempt, j), j).1 == Err(busy)
    ensures op(Seen(between, s, attempt, k), k).1 != Err(busy) || k + 1 == attempts
    decreases attempts - attempt
  {
    if op(s, attempt).1 == Err(busy) && attempt + 1 < attempts {
      k := OneAttemptDecides(op, busy, between, between(s, attempt), attempt + 1, attempts);
      SeenFromNext(between, s, attempt, k);
      forall j | attempt < j < k
        ensures op(Seen(between, s, attempt, j), j).1 == Err(busy)
      {
        SeenFromNext(between, s, attempt, j);
      }
    } else {
      k := attempt;
    }
  }
}

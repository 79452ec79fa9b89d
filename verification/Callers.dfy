/** Any number of calls, each one transaction retried while busy, with their attempts interleaved.

  A schedule says whose next attempt runs and which fault it meets. A run is the fold of
  a schedule, so a lemma about every schedule is a lemma about every interleaving.
*/
module Callers {
  import opened Wrappers

  /** `once` is one attempt; what it does when it commits is `effect`, and it commits only where `permitted`. */
  datatype Protocol<!S, !C, !E, !F> = Protocol(
    once: (S, C, F) -> (S, Result<(), E>),
    busy: E,
    attempts: C -> nat,
    permitted: (S, C) -> bool,
    effect: (S, C) -> S)

  datatype Phase<E> = Trying(attempt: nat) | Returned(result: Result<(), E>)

  datatype Caller<C, E> = Caller(call: C, phase: Phase<E>)

  /** `commits` names the callers in the order in which they committed. */
  datatype World<S, C, E> = World(state: S, callers: seq<Caller<C, E>>, commits: seq<nat>)

  datatype Choice<F> = Choice(caller: nat, fault: F)

  /** An attempt that answers Ok was permitted and did what the call does; any other changed nothing. */
  ghost predicate Sound<S(!new), C(!new), E, F(!new)>(p: Protocol<S, C, E, F>) {
    forall s, c, f ::
      var (after, r) := p.once(s, c, f);
      if r.Ok? then p.permitted(s, c) && after == p.effect(s, c) else after == s
  }

  function Begin<S, C, E>(s: S, calls: seq<C>): World<S, C, E> {
    World(s, seq(|calls|, i requires 0 <= i < |calls| => Caller(calls[i], Trying(0))), [])
  }

  /** The next attempt of caller `i`: a busy answer is retried while attempts are left. */
  function NextAttempt<S, C, E(==), F>(p: Protocol<S, C, E, F>, w: World<S, C, E>, i: nat, fault: F): World<S, C, E>
    requires i < |w.callers|
  {
    var me := w.callers[i];
    match me.phase
    case Returned(_) => w
    case Trying(k) =>
      var (after, r) := p.once(w.state, me.call, fault);
      var phase := if r == Err(p.busy) && k + 1 < p.attempts(me.call) then Trying(k + 1) else Returned(r);
      World(after, w.callers[i := me.(phase := phase)], if r.Ok? then w.commits + [i] else w.commits)
  }

  function Run<S, C, E(==), F>(p: Protocol<S, C, E, F>, w: World<S, C, E>, schedule: seq<Choice<F>>): (v: World<S, C, E>)
    ensures |v.callers| == |w.callers|
  {
    if schedule == [] then w
    else
      var n := |schedule| - 1;
      var v := Run(p, w, schedule[..n]);
      if schedule[n].caller < |v.callers| then NextAttempt(p, v, schedule[n].caller, schedule[n].fault) else v
  }

  // ---- the serial order ----

  /** The calls one after another, each in full. */
  function Applied<S, C, E, F>(p: Protocol<S, C, E, F>, s: S, order: seq<C>): S {
    if order == [] then s
    else p.effect(Applied(p, s, order[..|order| - 1]), order[|order| - 1])
  }

  /** Each call is permitted in the state the calls before it leave. */
  ghost predicate Serial<S, C, E, F>(p: Protocol<S, C, E, F>, s: S, order: seq<C>) {
    forall j :: 0 <= j < |order| ==> p.permitted(Applied(p, s, order[..j]), order[j])
  }

  lemma SerialPrefix<S, C, E, F>(p: Protocol<S, C, E, F>, s: S, order: seq<C>, n: nat)
    requires Serial(p, s, order) && n < |order|
    ensures Serial(p, s, order[..n]) && p.permitted(Applied(p, s, order[..n]), order[n])
  {
    assert forall j :: 0 <= j < n ==> order[..n][..j] == order[..j];
  }

  /** The committed calls in the order of their commits. */
  function Order<C>(calls: seq<C>, commits: seq<nat>): seq<C>
    requires forall j :: 0 <= j < |commits| ==> commits[j] < |calls|
  {
    seq(|commits|, j requires 0 <= j < |commits| => calls[commits[j]])
  }

  ghost predicate Succeeded<S, C, E>(w: World<S, C, E>, i: nat)
    requires i < |w.callers|
  {
    w.callers[i].phase.Returned? && w.callers[i].phase.result.Ok?
  }

  ghost predicate CallersInv<S, C, E, F>(p: Protocol<S, C, E, F>, calls: seq<C>, w: World<S, C, E>) {
    && |w.callers| == |calls|
    && (forall i :: 0 <= i < |calls| ==> w.callers[i].call == calls[i])
    && (forall j :: 0 <= j < |w.commits| ==> w.commits[j] < |calls|)
    && (forall i :: 0 <= i < |calls| ==> multiset(w.commits)[i] == if Succeeded(w, i) then 1 else 0)
    && (forall i :: 0 <= i < |calls| && w.callers[i].phase.Trying? ==>
          var k := w.callers[i].phase.attempt; k == 0 || k < p.attempts(calls[i]))
  }

  ghost predicate StateInv<S, C, E, F>(p: Protocol<S, C, E, F>, s: S, calls: seq<C>, w: World<S, C, E>)
    requires forall j :: 0 <= j < |w.commits| ==> w.commits[j] < |calls|
  {
    var order := Order(calls, w.commits);
    w.state == Applied(p, s, order) && Serial(p, s, order)
  }

  lemma StepKeepsCallers<S(!new), C(!new), E, F(!new)>(p: Protocol<S, C, E, F>, calls: seq<C>, w: World<S, C, E>,
                                                       i: nat, fault: F)
    requires CallersInv(p, calls, w) && i < |w.callers|
    ensures CallersInv(p, calls, NextAttempt(p, w, i, fault))
  {
    var v := NextAttempt(p, w, i, fault);
    assert forall k :: 0 <= k < |calls| && k != i ==> v.callers[k] == w.callers[k];
    assert v.callers[i].call == calls[i];
    if v.commits != w.commits {
      assert multiset(v.commits) == multiset(w.commits) + multiset{i};
    }
    hide NextAttempt;
  }

  lemma StepKeepsState<S(!new), C(!new), E, F(!new)>(p: Protocol<S, C, E, F>, s: S, calls: seq<C>, w: World<S, C, E>,
                                                     i: nat, fault: F)
    requires Sound(p) && CallersInv(p, calls, w) && StateInv(p, s, calls, w) && i < |w.callers|
    requires CallersInv(p, calls, NextAttempt(p, w, i, fault))
    ensures StateInv(p, s, calls, NextAttempt(p, w, i, fault))
  {
    var v := NextAttempt(p, w, i, fault);
    var order, longer := Order(calls, w.commits), Order(calls, v.commits);
    if v.commits != w.commits {
      assert longer == order + [calls[i]];
      assert longer[..|order|] == order;
      forall j | 0 <= j < |longer|
        ensures p.permitted(Applied(p, s, longer[..j]), longer[j])
      {
        if j < |order| {
          assert longer[..j] == order[..j];
        }
      }
    }
  }

  /** However the attempts of any number of calls interleave, and whatever faults they meet, the state is that of
      the committed calls run one after another in commit order, each permitted where it took effect; a caller
      that returned Ok committed exactly once, every other caller not at all. */
  lemma {:induction false} EveryInterleavingIsSerial<S(!new), C(!new), E, F(!new)>(
    p: Protocol<S, C, E, F>, s: S, calls: seq<C>, schedule: seq<Choice<F>>)
    requires Sound(p)
    ensures var w := Run(p, Begin(s, calls), schedule);
            CallersInv(p, calls, w) && StateInv(p, s, calls, w)
  {
    if schedule != [] {
      var n := |schedule| - 1;
      EveryInterleavingIsSerial(p, s, calls, schedule[..n]);
      var w := Run(p, Begin(s, calls), schedule[..n]);
      hide Sound, CallersInv, StateInv;
      if schedule[n].caller < |w.callers| {
        StepKeepsCallers(p, calls, w, schedule[n].caller, schedule[n].fault);
        StepKeepsState(p, s, calls, w, schedule[n].caller, schedule[n].fault);
      }
    }
  }

  /** How often the schedule picks a caller. */
  function Turns<F>(schedule: seq<Choice<F>>, i: nat): nat {
    if schedule == [] then 0
    else
      var n := |schedule| - 1;
      Turns(schedule[..n], i) + if schedule[n].caller == i then 1 else 0
  }

  /** A caller still trying has used one attempt per turn: after its allowed attempts it has returned. */
  lemma {:induction false} AttemptsAreTurns<S(!new), C(!new), E, F(!new)>(
    p: Protocol<S, C, E, F>, s: S, calls: seq<C>, schedule: seq<Choice<F>>, i: nat)
    requires i < |calls|
    ensures var phase := Run(p, Begin(s, calls), schedule).callers[i].phase;
            phase.Trying? ==> phase.attempt == Turns(schedule, i)
  {
    if schedule != [] {
      AttemptsAreTurns(p, s, calls, schedule[..|schedule| - 1], i);
    }
  }

  /** A caller that gave up as busy has used all its attempts. */
  lemma {:induction false} GivingUpTakesAllAttempts<S(!new), C(!new), E, F(!new)>(
    p: Protocol<S, C, E, F>, s: S, calls: seq<C>, schedule: seq<Choice<F>>, i: nat)
    requires i < |calls|
    ensures var caller := Run(p, Begin(s, calls), schedule).callers[i];
            && caller.call == calls[i]
            && (caller.phase == Returned(Err(p.busy)) ==> p.attempts(calls[i]) <= Turns(schedule, i))
  {
    if schedule != [] {
      AttemptsAreTurns(p, s, calls, schedule[..|schedule| - 1], i);
      GivingUpTakesAllAttempts(p, s, calls, schedule[..|schedule| - 1], i);
    }
  }
}

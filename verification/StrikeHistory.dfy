/** What every history of outcomes, batches, bumps and clears leaves in the strike table. */
module StrikeHistory {
  import opened Wrappers
  import opened Callers
  import opened Scopes
  import opened Strikes
  import Retry

  const EMPTY := Db({}, [], map[])

  type Schedule = seq<Choice<Option<Fault>>>

  /** The state after actions run one after another. */
  function After(order: seq<Action>): Db {
    Applied(StrikeProtocol(), EMPTY, order)
  }

  /** Any number of calls after some schedule of their attempts, from the empty database. */
  function Reached(calls: seq<Action>, schedule: Schedule): World<Db, Action, DbError> {
    Run(StrikeProtocol(), Begin(EMPTY, calls), schedule)
  }

  // ---- the specification: what has been said about one pair ----

  datatype Mark = Passed | FailedWith(message: Option<string>)

  function MarkOf(o: Outcome): Mark {
    if o.ok then Passed else FailedWith(o.message)
  }

  /** What a list of outcomes says about a pair, in order. */
  function Said(os: seq<Outcome>, pair: Pair): seq<Mark> {
    if os == [] then []
    else (if ResolvedScope(os[0].beat).Ok? && PairOf(os[0]) == pair then [MarkOf(os[0])] else []) + Said(os[1..], pair)
  }

  /** What one call says about a pair when it commits; clearing counts as a pass. */
  function SaidBy(a: Action, pair: Pair): seq<Mark> {
    match a
    case AddTask(_) => []
    case Single(o) => Said([o], pair)
    case Batch(os) => Said(os, pair)
    case BumpPair(p, message) => if p == pair then [FailedWith(message)] else []
    case ResetPair(p) => if p == pair then [Passed] else []
    case Clear(scope, signature) => if Selected(pair, scope, signature) then [Passed] else []
  }

  /** Everything said about a pair by committed calls, in the order of their commits. */
  function Marks(order: seq<Action>, pair: Pair): seq<Mark> {
    if order == [] then [] else Marks(order[..|order| - 1], pair) + SaidBy(order[|order| - 1], pair)
  }

  /** The number of consecutive failures at the end. */
  function Streak(marks: seq<Mark>): (n: nat)
    ensures n <= |marks| && forall i :: |marks| - n <= i < |marks| ==> marks[i].FailedWith?
    ensures n < |marks| ==> marks[|marks| - n - 1].Passed?
  {
    if marks == [] || marks[|marks| - 1].Passed? then 0 else 1 + Streak(marks[..|marks| - 1])
  }

  /** The latest message given during that streak. */
  function StreakMessage(marks: seq<Mark>): Option<string> {
    if marks == [] || marks[|marks| - 1].Passed? then None
    else if marks[|marks| - 1].message.Some? then marks[|marks| - 1].message
    else StreakMessage(marks[..|marks| - 1])
  }

  /** The table says what the marks say: a row exactly when the streak is positive, counting it. */
  ghost predicate Agrees(db: Db, marks: seq<Mark>, pair: Pair) {
    && (pair in db.strikes <==> Streak(marks) > 0)
    && (pair in db.strikes ==>
          && Parse(pair.1).Ok?
          && db.strikes[pair] == Strike(TaskIdOf(Parse(pair.1).value), Streak(marks), StreakMessage(marks)))
  }

  // ---- all or nothing ----

  /** Whatever faults a batch meets and whatever others commit between its attempts, one attempt decides: a batch
      that succeeds applied all its outcomes exactly once, to the tables that attempt saw; one that fails left
      only the others' commits. */
  lemma BatchesAreAllOrNothing(db: Db, os: seq<Outcome>, faults: nat -> Option<Fault>, rivals: nat -> seq<Action>)
    returns (k: nat)
    ensures k < MAX_BUSY_ATTEMPTS
    ensures var (after, r) := Recorded(db, os, faults, rivals);
            var seen := Retry.Seen(Between(rivals), db, 0, k);
            if r.Ok? then StepAll(seen, os) == Ok(after) else after == seen
  {
    hide StepAll;
    forall other: Db, j: nat
      ensures Attempt(os, faults)(other, j).1.Err? ==> Attempt(os, faults)(other, j).0 == other
    {
      assert Attempt(os, faults)(other, j) == Transact(other, os, faults(j));
    }
    k := Retry.OneAttemptDecides(Attempt(os, faults), Busy, Between(rivals), db, 0, MAX_BUSY_ATTEMPTS);
    var seen := Retry.Seen(Between(rivals), db, 0, k);
    assert Recorded(db, os, faults, rivals) == Transact(seen, os, faults(k));
  }

  /** The outcomes recorded one call at a time. */
  function OneByOne(db: Db, os: seq<Outcome>): (Db, bool)
    decreases |os|
  {
    if os == [] then (db, true)
    else
      var (next, r) := Once(db, Single(os[0]), None);
      var (last, ok) := OneByOne(next, os[1..]);
      (last, r.Ok? && ok)
  }

  /** An undisturbed batch succeeds exactly when its outcomes recorded one by one all would, and then ends in
      the same tables. */
  lemma {:induction false} BatchIsItsOutcomes(db: Db, os: seq<Outcome>)
    ensures StepAll(db, os).Ok? <==> OneByOne(db, os).1
    ensures StepAll(db, os).Ok? ==> StepAll(db, os).value == OneByOne(db, os).0
    decreases |os|
  {
    if os != [] {
      SingleIsStep(db, os[0]);
      BatchIsItsOutcomes(Once(db, Single(os[0]), None).0, os[1..]);
    }
  }

  lemma ProtocolIsSound()
    ensures Sound(StrikeProtocol())
  {
    hide StepAll, Step, Bump;
    forall db: Db, a: Action, fault: Option<Fault>
      ensures var (after, r) := StrikeProtocol().once(db, a, fault);
              if r.Ok? then StrikeProtocol().permitted(db, a) && after == StrikeProtocol().effect(db, a) else after == db
    {
      assert StrikeProtocol().once(db, a, fault) == Once(db, a, fault);
      AttemptsAreSound(db, a, fault);
    }
  }

  /** No attempt that fails changes a row or a beat, and one that succeeds does what the action does. */
  lemma AttemptsAreSound(db: Db, a: Action, fault: Option<Fault>)
    ensures var (after, r) := Once(db, a, fault);
            if r.Ok? then Answer(db, a) == Ok(after) else after == db
  {
    hide Step, Bump;
    if a.Single? && fault.None? {
      SingleIsStep(db, a.o);
    }
  }

  /** The committed actions of a run, in the order in which they took effect. */
  lemma RunIsSerial(calls: seq<Action>, schedule: Schedule) returns (order: seq<Action>)
    ensures var w := Reached(calls, schedule);
            && CallersInv(StrikeProtocol(), calls, w)
            && order == Order(calls, w.commits) && w.state == After(order) && Serial(StrikeProtocol(), EMPTY, order)
  {
    ProtocolIsSound();
    EveryInterleavingIsSerial(StrikeProtocol(), EMPTY, calls, schedule);
    order := Order(calls, Reached(calls, schedule).commits);
  }

  // ---- counting ----

  lemma StreakOfOneMore(marks: seq<Mark>, m: Mark)
    ensures Streak(marks + [m]) == (if m.Passed? then 0 else Streak(marks) + 1)
    ensures StreakMessage(marks + [m]) ==
            if m.Passed? then None else if m.message.Some? then m.message else StreakMessage(marks)
  {
    assert (marks + [m])[..|marks|] == marks;
  }

  lemma {:induction false} NoStreakNoMessage(marks: seq<Mark>)
    requires Streak(marks) == 0
    ensures StreakMessage(marks) == None
  {
  }

  lemma BumpAgrees(db: Db, bumped: Pair, message: Option<string>, pair: Pair, marks: seq<Mark>)
    requires Bump(db, bumped, message).Ok? && Agrees(db, marks, pair)
    ensures Agrees(Bump(db, bumped, message).value, if bumped == pair then marks + [FailedWith(message)] else marks, pair)
  {
    if bumped == pair {
      StreakOfOneMore(marks, FailedWith(message));
      if pair !in db.strikes {
        NoStreakNoMessage(marks);
      }
    }
    hide Parse, Streak, StreakMessage;
  }

  lemma ResetAgrees(db: Db, reset: Pair, pair: Pair, marks: seq<Mark>)
    requires Agrees(db, marks, pair)
    ensures Agrees(Reset(db, reset), if reset == pair then marks + [Passed] else marks, pair)
  {
    StreakOfOneMore(marks, Passed);
    hide Parse, Streak, StreakMessage;
  }

  lemma StepAgrees(db: Db, o: Outcome, pair: Pair, marks: seq<Mark>)
    requires Step(db, o).Ok? && Agrees(db, marks, pair)
    ensures Agrees(Step(db, o).value, marks + Said([o], pair), pair)
  {
    assert [o][1..] == [];
    assert Said([o], pair) == if PairOf(o) == pair then [MarkOf(o)] else [];
    assert marks + [] == marks;
    hide Parse, Streak, StreakMessage, Said;
    var with := InsertBeat(db, o.beat).value;
    assert Agrees(with, marks, pair);
    if o.ok {
      ResetAgrees(with, PairOf(o), pair, marks);
    } else {
      BumpAgrees(with, PairOf(o), o.message, pair, marks);
    }
  }

  lemma SaidInTurn(os: seq<Outcome>, pair: Pair)
    requires os != []
    ensures Said(os, pair) == Said([os[0]], pair) + Said(os[1..], pair)
  {
    assert [os[0]][1..] == [];
  }

  lemma {:induction false} StepAllAgrees(db: Db, os: seq<Outcome>, pair: Pair, marks: seq<Mark>)
    requires StepAll(db, os).Ok? && Agrees(db, marks, pair)
    ensures Agrees(StepAll(db, os).value, marks + Said(os, pair), pair)
    decreases |os|
  {
    hide Agrees, Step;
    if os == [] {
      assert marks + Said(os, pair) == marks;
    } else {
      SaidInTurn(os, pair);
      hide Said;
      StepAgrees(db, os[0], pair, marks);
      StepAllAgrees(Step(db, os[0]).value, os[1..], pair, marks + Said([os[0]], pair));
      assert marks + Said([os[0]], pair) + Said(os[1..], pair) == marks + Said(os, pair);
    }
  }

  lemma CallAgrees(db: Db, a: Action, pair: Pair, marks: seq<Mark>)
    requires Answer(db, a).Ok? && Agrees(db, marks, pair)
    ensures Agrees(Answer(db, a).value, marks + SaidBy(a, pair), pair)
  {
    hide Parse, Streak, StreakMessage, Step;
    assert marks + [] == marks;
    match a
    case AddTask(_) =>
    case Single(o) => StepAgrees(db, o, pair, marks);
    case Batch(os) => StepAllAgrees(db, os, pair, marks);
    case BumpPair(p, message) => BumpAgrees(db, p, message, pair, marks);
    case ResetPair(p) => ResetAgrees(db, p, pair, marks);
    case Clear(scope, signature) => StreakOfOneMore(marks, Passed);
  }

  lemma {:induction false} OrderAgrees(order: seq<Action>, pair: Pair)
    requires Serial(StrikeProtocol(), EMPTY, order)
    ensures Agrees(After(order), Marks(order, pair), pair)
  {
    if order == [] {
      NothingSaid(pair);
    } else {
      hide Agrees, Serial, Answer;
      var n := |order| - 1;
      SerialPrefix(StrikeProtocol(), EMPTY, order, n);
      OrderAgrees(order[..n], pair);
      var db := After(order[..n]);
      assert Answer(db, order[n]).Ok? && After(order) == Answer(db, order[n]).value;
      CallAgrees(db, order[n], pair, Marks(order[..n], pair));
    }
  }

  lemma NothingSaid(pair: Pair)
    ensures Agrees(EMPTY, [], pair)
  {
  }

  /** However the attempts of outcomes, batches, bumps, resets and clears interleave, and for every pair: the
      strike row counts the consecutive failures since the last committed pass or clear, carries the latest
      message among them and the task of its scope, and is there exactly when that count is positive. */
  lemma StrikesCountTheStreak(calls: seq<Action>, schedule: Schedule, pair: Pair)
    ensures var w := Reached(calls, schedule);
            && (forall j :: 0 <= j < |w.commits| ==> w.commits[j] < |calls|)
            && Agrees(w.state, Marks(Order(calls, w.commits), pair), pair)
  {
    var order := RunIsSerial(calls, schedule);
    OrderAgrees(order, pair);
  }

  // ---- workstreams ----

  /** Outcomes of one workstream say nothing about another, whatever the sensor. */
  lemma {:induction false} ScopesNeverInterfere(os: seq<Outcome>, scope: Scope, signature: string)
    requires forall o :: o in os && ResolvedScope(o.beat).Ok? ==> ResolvedScope(o.beat).value != scope
    ensures Said(os, (signature, Key(scope))) == []
  {
    if os != [] {
      ScopesNeverInterfere(os[1..], scope, signature);
      assert os[0] in os;
      var r := ResolvedScope(os[0].beat);
      if r.Ok? && Key(r.value) == Key(scope) {
        KeyIsInjective(r.value, scope);
      }
    }
  }

  /** An outcome on any reachable table is refused exactly when its scope disagrees with its task, its task is
      unknown, a sensor beat is unnamed, or it fails on the branch with the empty name. */
  lemma OutcomeIsRefusedIff(calls: seq<Action>, schedule: Schedule, o: Outcome)
    ensures var db := Reached(calls, schedule).state;
            Step(db, o).Err? <==>
              || ResolvedScope(o.beat).Err?
              || (o.beat.taskId.Some? && o.beat.taskId.value !in db.tasks)
              || (o.beat.sensorBeat && o.beat.sensor.None?)
              || (!o.ok && o.beat.scope == Some(Branch("")))
  {
    var db := Reached(calls, schedule).state;
    if InsertBeat(db, o.beat).Ok? && !o.ok {
      var scope := ResolvedScope(o.beat).value;
      StrikesCountTheStreak(calls, schedule, PairOf(o));
      KeyRoundTrip(scope);
    }
    hide Key, Parse, Signature;
  }

  lemma {:induction false} StepAllReaches(db: Db, os: seq<Outcome>, i: nat)
    requires i < |os| && StepAll(db, os).Ok?
    ensures StepAll(db, os[..i]).Ok? && Step(StepAll(db, os[..i]).value, os[i]).Ok?
    decreases i
  {
    if i > 0 {
      StepAllReaches(Step(db, os[0]).value, os[1..], i - 1);
      assert os[..i][0] == os[0] && os[..i][1..] == os[1..][..i - 1];
    }
  }

  /** One failure on the branch with the empty name refuses its batch on any reachable table. */
  lemma EmptyBranchRefusesTheBatch(order: seq<Action>, os: seq<Outcome>, i: nat)
    requires Serial(StrikeProtocol(), EMPTY, order)
    requires i < |os| && !os[i].ok && os[i].beat.scope == Some(Branch(""))
    ensures StepAll(After(order), os).Err?
  {
    var db := After(order);
    if StepAll(db, os).Ok? {
      StepAllReaches(db, os, i);
      var pair := PairOf(os[i]);
      OrderAgrees(order, pair);
      StepAllAgrees(db, os[..i], pair, Marks(order, pair));
      KeyRoundTrip(Branch(""));
      assert false;
    }
  }

  /** Such a batch never commits, however its attempts interleave with others; every call of it fails. */
  lemma EmptyBranchLosesTheBatch(calls: seq<Action>, schedule: Schedule, b: nat, i: nat)
    requires b < |calls| && calls[b].Batch? && i < |calls[b].os|
    requires !calls[b].os[i].ok && calls[b].os[i].beat.scope == Some(Branch(""))
    ensures !Succeeded(Reached(calls, schedule), b) && b !in Reached(calls, schedule).commits
  {
    var order := RunIsSerial(calls, schedule);
    var commits := Reached(calls, schedule).commits;
    forall j | 0 <= j < |commits|
      ensures commits[j] != b
    {
      SerialPrefix(StrikeProtocol(), EMPTY, order, j);
      if commits[j] == b {
        EmptyBranchRefusesTheBatch(order[..j], calls[b].os, i);
      }
    }
    assert b !in multiset(commits);
  }

  /** Which error refuses an outcome, on any reachable table. */
  lemma OutcomeErrors(calls: seq<Action>, schedule: Schedule, o: Outcome)
    ensures var db := Reached(calls, schedule).state;
            var misfit := o.beat.scope.Some? && TaskIdOf(o.beat.scope.value) != o.beat.taskId;
            var unknown := o.beat.taskId.Some? && o.beat.taskId.value !in db.tasks;
            var unnamed := o.beat.sensorBeat && o.beat.sensor.None?;
            && (misfit ==> Step(db, o) == Err(BeatScopeMismatch(Key(o.beat.scope.value), o.beat.taskId)))
            && (!misfit && unknown ==> Step(db, o) == Err(ForeignKey))
            && (!misfit && !unknown && unnamed ==> Step(db, o) == Err(CheckFailed))
            && (!misfit && !unknown && !unnamed && Step(db, o).Err? ==>
                  Step(db, o) == Err(InvalidBeatScope(Key(Branch("")))))
  {
    var db := Reached(calls, schedule).state;
    if InsertBeat(db, o.beat).Ok? && !o.ok {
      StrikesCountTheStreak(calls, schedule, PairOf(o));
      KeyRoundTrip(ResolvedScope(o.beat).value);
    }
    hide Key, Parse, Signature;
  }

  /** A transaction commits exactly when no fault strikes it and no outcome is refused; otherwise it answers the
      first of the two and changes nothing. */
  lemma TransactIff(db: Db, os: seq<Outcome>, fault: Option<Fault>)
    ensures var (after, r) := Transact(db, os, fault);
            && (r.Ok? <==> fault.None? && StepAll(db, os).Ok?)
            && (r.Ok? ==> Ok(after) == StepAll(db, os)) && (r.Err? ==> after == db)
            && (fault.Some? ==>
                  var before := if fault.value.at < |os| then os[..fault.value.at] else os;
                  r == Err(if StepAll(db, before).Err? then StepAll(db, before).error else fault.value.error))
  {
    hide StepAll;
  }

  /** Only a batch is tried again, and it gives up as busy only after three attempts. */
  lemma BatchesGetThreeAttempts(calls: seq<Action>, schedule: Schedule, i: nat)
    requires i < |calls|
    ensures var phase := Reached(calls, schedule).callers[i].phase;
            && (phase == Returned(Err(Busy)) ==> Turns(schedule, i) >= if calls[i].Batch? then 3 else 1)
            && (phase.Trying? && Turns(schedule, i) > 0 ==> calls[i].Batch? && Turns(schedule, i) < 3)
  {
    hide Once, Answer;
    GivingUpTakesAllAttempts(StrikeProtocol(), EMPTY, calls, schedule, i);
    AttemptsAreTurns(StrikeProtocol(), EMPTY, calls, schedule, i);
    var order := RunIsSerial(calls, schedule);
    assert StrikeProtocol().attempts(calls[i]) == if calls[i].Batch? then MAX_BUSY_ATTEMPTS else 1;
  }
}

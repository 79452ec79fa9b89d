/** Sensor outcomes and the strike counters they move.

  An outcome inserts a beat row and bumps or deletes one strike row in the same
  transaction; a batch does so for a whole list, retried as a unit while busy.
*/
module Strikes {
  import opened Wrappers
  import opened Callers
  import opened Scopes
  import Retry

  datatype NewBeat = NewBeat(taskId: Option<I64>, scope: Option<Scope>, sensorBeat: bool, sensor: Option<string>,
                             status: string)

  datatype BeatRow = BeatRow(taskId: Option<I64>, scope: string, sensorBeat: bool, sensor: Option<string>,
                             status: string)

  datatype Outcome = Outcome(beat: NewBeat, ok: bool, message: Option<string>)

  datatype Strike = Strike(taskId: Option<I64>, count: int, message: Option<string>)

  /** The unique pair of a strike row: its signature and its scope key. */
  type Pair = (string, string)

  datatype Db = Db(tasks: set<I64>, beats: seq<BeatRow>, strikes: map<Pair, Strike>)

  datatype DbError =
    | Busy
    | Failure
    | ForeignKey
    | CheckFailed
    | BeatScopeMismatch(scope: string, taskId: Option<I64>)
    | InvalidBeatScope(value: string)

  /** An error the storage raises before outcome `at` of a batch, or at the commit when `at` is past the end. */
  datatype Fault = Fault(at: nat, error: DbError)

  const MAX_BUSY_ATTEMPTS := 3

  // ---- one outcome ----

  function ResolvedScope(beat: NewBeat): Result<Scope, DbError> {
    match beat.scope
    case Some(scope) =>
      if TaskIdOf(scope) == beat.taskId then Ok(scope) else Err(BeatScopeMismatch(Key(scope), beat.taskId))
    case None => Ok(if beat.taskId.Some? then TaskScope(beat.taskId.value) else Global)
  }

  function Signature(beat: NewBeat): string {
    "sensor:" + if beat.sensor.Some? then beat.sensor.value else "unknown"
  }

  function PairOf(o: Outcome): Pair
    requires ResolvedScope(o.beat).Ok?
  {
    (Signature(o.beat), Key(ResolvedScope(o.beat).value))
  }

  function InsertBeat(db: Db, beat: NewBeat): Result<Db, DbError> {
    var scope := ResolvedScope(beat);
    if scope.Err? then Err(scope.error)
    else if beat.taskId.Some? && beat.taskId.value !in db.tasks then Err(ForeignKey)
    else if beat.sensorBeat && beat.sensor.None? then Err(CheckFailed)
    else Ok(db.(beats := db.beats + [BeatRow(beat.taskId, Key(scope.value), beat.sensorBeat, beat.sensor, beat.status)]))
  }

  /** UPDATE, or INSERT when no row was updated; only the INSERT parses the scope key. */
  function Bump(db: Db, pair: Pair, message: Option<string>): Result<Db, DbError> {
    if pair in db.strikes then
      var row := db.strikes[pair];
      Ok(db.(strikes := db.strikes[pair := row.(count := row.count + 1,
                                                message := if message.Some? then message else row.message)]))
    else
      match Parse(pair.1)
      case Err(value) => Err(InvalidBeatScope(value))
      case Ok(scope) =>
        if scope.TaskScope? && scope.id !in db.tasks then Err(ForeignKey)
        else Ok(db.(strikes := db.strikes[pair := Strike(TaskIdOf(scope), 1, message)]))
  }

  function Reset(db: Db, pair: Pair): Db {
    db.(strikes := db.strikes - {pair})
  }

  function Step(db: Db, o: Outcome): Result<Db, DbError> {
    match InsertBeat(db, o.beat)
    case Err(e) => Err(e)
    case Ok(with) => if o.ok then Ok(Reset(with, PairOf(o))) else Bump(with, PairOf(o), o.message)
  }

  function StepAll(db: Db, os: seq<Outcome>): Result<Db, DbError>
    decreases |os|
  {
    if os == [] then Ok(db)
    else
      match Step(db, os[0])
      case Err(e) => Err(e)
      case Ok(next) => StepAll(next, os[1..])
  }

  // ---- transactions ----

  /** What a transaction leaves behind: the new tables, or the old ones with the error. */
  function Landed(db: Db, r: Result<Db, DbError>): (Db, Result<(), DbError>) {
    if r.Ok? then (r.value, Ok(())) else (db, Err(r.error))
  }

  /** A batch as one transaction: everything commits, or nothing does. */
  function Transact(db: Db, os: seq<Outcome>, fault: Option<Fault>): (Db, Result<(), DbError>) {
    var reached := if fault.Some? && fault.value.at < |os| then os[..fault.value.at] else os;
    var r := StepAll(db, reached);
    if r.Ok? && fault.Some? then (db, Err(fault.value.error)) else Landed(db, r)
  }

  predicate Selected(pair: Pair, scope: Option<string>, signature: Option<string>) {
    (scope.None? || pair.1 == scope.value) && (signature.None? || pair.0 == signature.value)
  }

  function Cleared(db: Db, scope: Option<string>, signature: Option<string>): Db {
    db.(strikes := map pair | pair in db.strikes && !Selected(pair, scope, signature) :: db.strikes[pair])
  }

  /** Every way the strike table is written. */
  datatype Action =
    | AddTask(id: I64)
    | Single(o: Outcome)
    | Batch(os: seq<Outcome>)
    | BumpPair(pair: Pair, message: Option<string>)
    | ResetPair(pair: Pair)
    | Clear(scope: Option<string>, signature: Option<string>)

  /** What an action does in one undisturbed attempt. */
  function Answer(db: Db, a: Action): Result<Db, DbError> {
    match a
    case AddTask(id) => Ok(db.(tasks := db.tasks + {id}))
    case Single(o) => Step(db, o)
    case Batch(os) => StepAll(db, os)
    case BumpPair(pair, message) => Bump(db, pair, message)
    case ResetPair(pair) => Ok(Reset(db, pair))
    case Clear(scope, signature) => Ok(Cleared(db, scope, signature))
  }

  /** One attempt under a fault. A single outcome resolves its scope before its transaction begins. */
  function Once(db: Db, a: Action, fault: Option<Fault>): (Db, Result<(), DbError>) {
    match a
    case Single(o) =>
      if ResolvedScope(o.beat).Err? then (db, Err(ResolvedScope(o.beat).error)) else Transact(db, [o], fault)
    case Batch(os) => Transact(db, os, fault)
    case _ => if fault.Some? then (db, Err(fault.value.error)) else Landed(db, Answer(db, a))
  }

  function Committed(db: Db, a: Action): Db {
    if Answer(db, a).Ok? then Answer(db, a).value else db
  }

  function AllCommitted(db: Db, actions: seq<Action>): Db {
    if actions == [] then db
    else Committed(AllCommitted(db, actions[..|actions| - 1]), actions[|actions| - 1])
  }

  // ---- retries ----

  function Attempt(os: seq<Outcome>, faults: nat -> Option<Fault>): (Db, nat) -> (Db, Result<(), DbError>) {
    (db: Db, k: nat) => Transact(db, os, faults(k))
  }

  /** Other connections run `rivals(k)` after attempt `k`. */
  function Between(rivals: nat -> seq<Action>): (Db, nat) -> Db {
    (db: Db, k: nat) => AllCommitted(db, rivals(k))
  }

  /** The batch replayed as a unit while the storage answers busy. */
  function Recorded(db: Db, os: seq<Outcome>, faults: nat -> Option<Fault>, rivals: nat -> seq<Action>)
    : (Db, Result<(), DbError>)
  {
    Retry.Retried(Attempt(os, faults), Busy, Between(rivals), db, 0, MAX_BUSY_ATTEMPTS)
  }

  /** All actions, for runs in which the attempts of several callers interleave; only batches are retried. */
  function StrikeProtocol(): Protocol<Db, Action, DbError, Option<Fault>> {
    Protocol((db: Db, a: Action, fault: Option<Fault>) => Once(db, a, fault), Busy,
             (a: Action) => if a.Batch? then MAX_BUSY_ATTEMPTS else 1,
             (db: Db, a: Action) => Answer(db, a).Ok?, (db: Db, a: Action) => Committed(db, a))
  }

  // ---- the tables ----

  class StrikeTable {
    var tasks: set<I64>
    var beats: seq<BeatRow>
    var strikes: map<Pair, Strike>

    constructor ()
      ensures State() == Db({}, [], map[])
    {
      tasks, beats, strikes := {}, [], map[];
    }

    function State(): Db
      reads this
    {
      Db(tasks, beats, strikes)
    }

    method Restore(db: Db)
      modifies this
      ensures State() == db
    {
      tasks, beats, strikes := db.tasks, db.beats, db.strikes;
    }

    method InsertBeatOn(beat: NewBeat) returns (r: Result<(), DbError>)
      modifies this
      ensures match InsertBeat(old(State()), beat)
              case Err(e) => State() == old(State()) && r == Err(e)
              case Ok(db) => State() == db && r.Ok?
    {
      var scope := ResolvedScope(beat);
      if scope.Err? {
        return Err(scope.error);
      }
      if beat.taskId.Some? && beat.taskId.value !in tasks {
        return Err(ForeignKey);
      }
      if beat.sensorBeat && beat.sensor.None? {
        return Err(CheckFailed);
      }
      beats := beats + [BeatRow(beat.taskId, Key(scope.value), beat.sensorBeat, beat.sensor, beat.status)];
      r := Ok(());
    }

    method ResetErrorSignature(pair: Pair) returns (removed: bool)
      modifies this
      ensures State() == Reset(old(State()), pair)
      ensures removed <==> pair in old(strikes)
    {
      removed := pair in strikes;
      strikes := strikes - {pair};
    }

    method BumpErrorSignatureOn(pair: Pair, message: Option<string>) returns (r: Result<int, DbError>)
      modifies this
      ensures match Bump(old(State()), pair, message)
              case Err(e) => State() == old(State()) && r == Err(e)
              case Ok(db) => State() == db && pair in db.strikes && r == Ok(db.strikes[pair].count)
    {
      if pair in strikes {
        var row := strikes[pair];
        strikes := strikes[pair := row.(count := row.count + 1,
                                        message := if message.Some? then message else row.message)];
      } else {
        var scope := Parse(pair.1);
        if scope.Err? {
          return Err(InvalidBeatScope(scope.error));
        }
        if scope.value.TaskScope? && scope.value.id !in tasks {
          return Err(ForeignKey);
        }
        strikes := strikes[pair := Strike(TaskIdOf(scope.value), 1, message)];
      }
      r := Ok(strikes[pair].count);
    }

    /** The beat and its strike, on the open transaction. */
    method RecordOn(o: Outcome) returns (r: Result<int, DbError>)
      modifies this
      ensures match Step(old(State()), o)
              case Err(e) => r == Err(e)
              case Ok(db) => State() == db && r == Ok(if o.ok then 0 else StruckCount(db, o))
    {
      var inserted := InsertBeatOn(o.beat);
      if inserted.Err? {
        return Err(inserted.error);
      }
      var pair := PairOf(o);
      if o.ok {
        var _ := ResetErrorSignature(pair);
        r := Ok(0);
      } else {
        r := BumpErrorSignatureOn(pair, o.message);
      }
    }

    method RecordSensorOutcome(o: Outcome, fault: Option<Fault>) returns (r: Result<int, DbError>)
      modifies this
      ensures State() == Once(old(State()), Single(o), fault).0
      ensures match Once(old(State()), Single(o), fault).1
              case Err(e) => r == Err(e)
              case Ok(_) => r == Ok(if o.ok then 0 else StruckCount(State(), o))
    {
      var scope := ResolvedScope(o.beat);
      if scope.Err? {
        return Err(scope.error);
      }
      var before := State();
      assert [o][..0] == [];
      assert StepAll(before, [o]) == Step(before, o) by {
        assert [o][1..] == [];
      }
      if fault.Some? && fault.value.at == 0 {
        return Err(fault.value.error);
      }
      r := RecordOn(o);
      if r.Err? {
        Restore(before);
      } else if fault.Some? {
        Restore(before);
        r := Err(fault.value.error);
      }
    }

    method RecordVerifyBatchOnce(os: seq<Outcome>, fault: Option<Fault>) returns (r: Result<(), DbError>)
      modifies this
      ensures (State(), r) == Transact(old(State()), os, fault)
    {
      var before := State();
      ghost var reached := if fault.Some? && fault.value.at < |os| then os[..fault.value.at] else os;
      for i := 0 to |os|
        invariant i <= |reached| && StepAll(before, reached) == StepAll(State(), reached[i..])
      {
        if fault.Some? && fault.value.at == i {
          assert reached[i..] == [];
          Restore(before);
          return Err(fault.value.error);
        }
        assert reached[i] == os[i] && reached[i..][1..] == reached[i + 1..];
        var recorded := RecordOn(os[i]);
        if recorded.Err? {
          Restore(before);
          return Err(recorded.error);
        }
      }
      if fault.Some? {
        Restore(before);
        return Err(fault.value.error);
      }
      r := Ok(());
    }

    /** Actions of other connections. */
    method CommitRivals(actions: seq<Action>)
      modifies this
      ensures State() == AllCommitted(old(State()), actions)
    {
      hide Answer;
      for i := 0 to |actions|
        invariant State() == AllCommitted(old(State()), actions[..i])
      {
        Perform(actions[i]);
        assert actions[..i + 1][..i] == actions[..i];
      }
      assert actions[..|actions|] == actions;
    }

    method Perform(a: Action)
      modifies this
      ensures State() == Committed(old(State()), a)
    {
      match a {
        case AddTask(id) => tasks := tasks + {id};
        case Single(o) =>
          var _ := RecordSensorOutcome(o, None);
          SingleIsStep(old(State()), o);
        case Batch(os) => var _ := RecordVerifyBatchOnce(os, None);
        case BumpPair(pair, message) => var _ := BumpErrorSignatureOn(pair, message);
        case ResetPair(pair) => var _ := ResetErrorSignature(pair);
        case Clear(scope, signature) => var _ := ClearErrorSignatures(scope, signature);
      }
    }

    /** `rivals(k)` are the actions other connections commit between attempt `k` and the next. */
    method RecordVerifyBatch(os: seq<Outcome>, faults: nat -> Option<Fault>, rivals: nat -> seq<Action>)
      returns (r: Result<(), DbError>)
      modifies this
      ensures (State(), r) == Recorded(old(State()), os, faults, rivals)
    {
      hide Transact, AllCommitted;
      for attempt := 0 to MAX_BUSY_ATTEMPTS
        invariant Recorded(old(State()), os, faults, rivals) ==
                  Retry.Retried(Attempt(os, faults), Busy, Between(rivals), State(), attempt, MAX_BUSY_ATTEMPTS)
      {
        r := RecordVerifyBatchOnce(os, faults(attempt));
        if r.Ok? || !r.error.Busy? || attempt + 1 == MAX_BUSY_ATTEMPTS {
          return;
        }
        CommitRivals(rivals(attempt));
      }
      r := Err(Busy);
    }

    /** The four DELETE statements, by which filters are given. */
    method ClearErrorSignatures(scope: Option<string>, signature: Option<string>) returns (removed: int)
      modifies this
      ensures State() == Cleared(old(State()), scope, signature)
      ensures removed == |set pair | pair in old(strikes) && Selected(pair, scope, signature)|
    {
      ghost var gone := set pair | pair in strikes && Selected(pair, scope, signature);
      var doomed: set<Pair>;
      match (scope, signature) {
        case (None, None) => doomed := strikes.Keys;
        case (Some(key), None) => doomed := set pair | pair in strikes && pair.1 == key;
        case (None, Some(sig)) => doomed := set pair | pair in strikes && pair.0 == sig;
        case (Some(key), Some(sig)) => doomed := {(sig, key)} * strikes.Keys;
      }
      assert doomed == gone;
      removed := |doomed|;
      strikes := strikes - doomed;
    }
  }

  lemma SingleIsStep(db: Db, o: Outcome)
    ensures Once(db, Single(o), None) == Landed(db, Step(db, o))
  {
    assert [o][1..] == [];
    assert StepAll(db, [o]) == Step(db, o);
  }

  /** The count stored for an outcome's pair. */
  function StruckCount(db: Db, o: Outcome): int {
    if ResolvedScope(o.beat).Ok? && PairOf(o) in db.strikes then db.strikes[PairOf(o)].count else 0
  }
}

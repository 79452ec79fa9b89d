/** Task commands: every change of a task row is committed together with its event.

  A command is one transaction, retried as a whole while the database is busy. The
  state is the task table, the event log in insertion order and the recorded beats.
*/
module Tasks {
  import opened Wrappers
  import opened Callers
  import Retry

  datatype TaskState = Pending | InProgress | Done | Failed

  datatype Task = Task(parent: Option<int>, title: string, method_: Option<string>, index: int,
                       status: TaskState, precondition: Option<string>)

  datatype NewTask = NewTask(title: string, method_: Option<string>, index: int,
                             precondition: Option<string>, parent: Option<int>)

  datatype Event =
    | TaskAdded(id: int, title: string, method_: Option<string>)
    | TaskAdvanced(id: int, index: int)
    | TaskCompleted(id: int)
    | TaskFailed(id: int)

  /** A recorded beat; the stored status is text. */
  datatype Beat = Beat(taskId: Option<int>, sensorBeat: bool, sensor: string, status: string)

  datatype DbError =
    | Busy
    | Failure
    | ForeignKey
    | NotFound
    | InvalidTerminalState
    | InvalidTaskTransition
    | GateUnsatisfied(taskId: int, sensor: string)
    | InvalidBeatStatus(value: string)

  /** `nextId` is the autoincrement counter of the task table. */
  datatype Db = Db(tasks: map<int, Task>, nextId: int, events: seq<Event>, beats: seq<Beat>)

  const EMPTY := Db(map[], 1, [], [])

  const MAX_ATTEMPTS := 3

  datatype Command =
    | Add(task: NewTask)
    | Advance(id: int, sensor: Option<string>)
    | Finish(id: int, status: TaskState, sensors: seq<string>)
    | Record(beat: Beat)

  predicate Terminal(s: TaskState) {
    s.Done? || s.Failed?
  }

  // ---- gates ----

  /** Status of the latest sensor beat recorded for the task and sensor. */
  function LatestBeat(beats: seq<Beat>, id: int, sensor: string): Option<string> {
    if beats == [] then None
    else
      var b := beats[|beats| - 1];
      if b.taskId == Some(id) && b.sensorBeat && b.sensor == sensor then Some(b.status)
      else LatestBeat(beats[..|beats| - 1], id, sensor)
  }

  predicate About(b: Beat, id: int, sensor: string) {
    b.taskId == Some(id) && b.sensorBeat && b.sensor == sensor
  }

  /** No sensor beat of the task and sensor comes after the one whose status counts. */
  lemma {:induction false} LatestBeatIsLast(beats: seq<Beat>, id: int, sensor: string)
    ensures match LatestBeat(beats, id, sensor)
            case None => forall i :: 0 <= i < |beats| ==> !About(beats[i], id, sensor)
            case Some(status) =>
              exists i :: 0 <= i < |beats| && About(beats[i], id, sensor) && beats[i].status == status &&
                          forall j :: i < j < |beats| ==> !About(beats[j], id, sensor)
  {
    if beats != [] {
      var n := |beats| - 1;
      LatestBeatIsLast(beats[..n], id, sensor);
      if About(beats[n], id, sensor) {
        assert LatestBeat(beats, id, sensor) == Some(beats[n].status);
      } else if LatestBeat(beats[..n], id, sensor).Some? {
        var i :| 0 <= i < n && About(beats[..n][i], id, sensor) && beats[..n][i].status == LatestBeat(beats[..n], id, sensor).value &&
                 forall j :: i < j < n ==> !About(beats[..n][j], id, sensor);
        assert About(beats[i], id, sensor);
        forall j | i < j < |beats|
          ensures !About(beats[j], id, sensor)
        {
          assert j < n ==> beats[..n][j] == beats[j];
        }
      }
    }
  }

  predicate GateOpen(db: Db, id: int, sensor: string) {
    LatestBeat(db.beats, id, sensor) == Some("ok")
  }

  function CheckGate(db: Db, id: int, sensor: string): Option<DbError> {
    match LatestBeat(db.beats, id, sensor)
    case None => Some(GateUnsatisfied(id, sensor))
    case Some(status) =>
      if status == "ok" then None
      else if status == "failed" || status == "warn" then Some(GateUnsatisfied(id, sensor))
      else Some(InvalidBeatStatus(status))
  }

  /** What a closed gate answers: there is no beat or the latest says failed or warn, or it says something else. */
  ghost predicate ClosedBy(db: Db, id: int, sensor: string, e: DbError) {
    match LatestBeat(db.beats, id, sensor)
    case None => e == GateUnsatisfied(id, sensor)
    case Some(status) =>
      && status != "ok"
      && e == if status in {"failed", "warn"} then GateUnsatisfied(id, sensor) else InvalidBeatStatus(status)
  }

  /** The first failing gate, in order. */
  function CheckGates(db: Db, id: int, sensors: seq<string>): (e: Option<DbError>)
    ensures e.None? <==> forall s :: s in sensors ==> GateOpen(db, id, s)
    ensures e.Some? ==> exists i :: 0 <= i < |sensors| && ClosedBy(db, id, sensors[i], e.value) &&
                                    forall j :: 0 <= j < i ==> GateOpen(db, id, sensors[j])
  {
    if sensors == [] then None
    else
      var first := CheckGate(db, id, sensors[0]);
      assert first.None? <==> GateOpen(db, id, sensors[0]);
      assert first.Some? ==> ClosedBy(db, id, sensors[0], first.value);
      assert forall i :: 0 < i < |sensors| ==> sensors[i] == sensors[1..][i - 1];
      if first.Some? then first else CheckGates(db, id, sensors[1..])
  }

  // ---- one transaction ----

  /** Why a command is refused, checks in the order of the transaction body. */
  function Refusal(db: Db, c: Command): Option<DbError> {
    match c
    case Add(task) =>
      if task.parent.Some? && task.parent.value !in db.tasks then Some(ForeignKey) else None
    case Advance(id, sensor) =>
      var gate := if sensor.Some? then CheckGate(db, id, sensor.value) else None;
      if gate.Some? then gate
      else if id !in db.tasks then Some(NotFound)
      else if Terminal(db.tasks[id].status) then Some(InvalidTaskTransition)
      else None
    case Finish(id, status, sensors) =>
      if !Terminal(status) then Some(InvalidTerminalState)
      else if id !in db.tasks then Some(NotFound)
      else
        var gate := CheckGates(db, id, sensors);
        if gate.Some? then gate
        else if Terminal(db.tasks[id].status) then Some(InvalidTaskTransition)
        else None
    case Record(beat) =>
      if beat.taskId.Some? && beat.taskId.value !in db.tasks then Some(ForeignKey) else None
  }

  /** The committed state of a command that is not refused. */
  function Effect(db: Db, c: Command): Db
    requires Refusal(db, c).None?
  {
    match c
    case Add(t) =>
      var id := db.nextId;
      db.(tasks := db.tasks[id := Task(t.parent, t.title, t.method_, t.index, Pending, t.precondition)],
          nextId := id + 1, events := db.events + [TaskAdded(id, t.title, t.method_)])
    case Advance(id, _) =>
      var t := db.tasks[id];
      db.(tasks := db.tasks[id := t.(index := t.index + 1, status := InProgress)],
          events := db.events + [TaskAdvanced(id, t.index + 1)])
    case Finish(id, status, _) =>
      db.(tasks := db.tasks[id := db.tasks[id].(status := status)],
          events := db.events + [if status.Done? then TaskCompleted(id) else TaskFailed(id)])
    case Record(beat) => db.(beats := db.beats + [beat])
  }

  /** A fault rolls the transaction back; one that would strike after a guard has refused never shows, so it is
      none. A terminal-state argument is checked before the transaction begins. */
  function Once(db: Db, c: Command, fault: Option<DbError>): (Db, Result<(), DbError>) {
    if c.Finish? && !Terminal(c.status) then (db, Err(InvalidTerminalState))
    else if fault.Some? then (db, Err(fault.value))
    else if Refusal(db, c).Some? then (db, Err(Refusal(db, c).value))
    else (Effect(db, c), Ok(()))
  }

  /** A command run in one undisturbed attempt: its effect, or nothing when it is refused. */
  function Committed(db: Db, c: Command): Db {
    if Refusal(db, c).None? then Effect(db, c) else db
  }

  function AllCommitted(db: Db, cs: seq<Command>): Db {
    if cs == [] then db else Committed(AllCommitted(db, cs[..|cs| - 1]), cs[|cs| - 1])
  }

  /** What attempt `k` of a command makes of a state; `faults(k)` is the fault it meets. */
  function Attempt(c: Command, faults: nat -> Option<DbError>): (Db, nat) -> (Db, Result<(), DbError>) {
    (db: Db, k: nat) => Once(db, c, faults(k))
  }

  /** Other connections run the commands `rivals(k)` after attempt `k`. */
  function Between(rivals: nat -> seq<Command>): (Db, nat) -> Db {
    (db: Db, k: nat) => AllCommitted(db, rivals(k))
  }

  /** The command as its callers see it, replayed while the storage answers busy. */
  function Called(db: Db, c: Command, faults: nat -> Option<DbError>, rivals: nat -> seq<Command>)
    : (Db, Result<(), DbError>)
  {
    Retry.Retried(Attempt(c, faults), Busy, Between(rivals), db, 0, MAX_ATTEMPTS)
  }

  /** All commands, for runs in which the attempts of several callers interleave. */
  function TaskProtocol(): Protocol<Db, Command, DbError, Option<DbError>> {
    Protocol((db: Db, c: Command, fault: Option<DbError>) => Once(db, c, fault), Busy, (c: Command) => MAX_ATTEMPTS,
             (db: Db, c: Command) => Refusal(db, c).None?, (db: Db, c: Command) => Committed(db, c))
  }

  class Store {
    var tasks: map<int, Task>
    var nextId: int
    var events: seq<Event>
    var beats: seq<Beat>

    constructor ()
      ensures State() == EMPTY
    {
      tasks, nextId, events, beats := map[], 1, [], [];
    }

    function State(): Db
      reads this
    {
      Db(tasks, nextId, events, beats)
    }

    method InsertTaskWithEventOnce(task: NewTask, fault: Option<DbError>) returns (r: Result<(), DbError>)
      modifies this
      ensures (State(), r) == Once(old(State()), Add(task), fault)
    {
      if fault.Some? {
        return Err(fault.value);
      }
      if task.parent.Some? && task.parent.value !in tasks {
        return Err(ForeignKey);
      }
      var id := nextId;
      tasks := tasks[id := Task(task.parent, task.title, task.method_, task.index, Pending, task.precondition)];
      nextId := id + 1;
      events := events + [TaskAdded(id, task.title, task.method_)];
      r := Ok(());
    }

    method AdvanceSubtaskWithEventOnce(id: int, sensor: Option<string>, fault: Option<DbError>) returns (r: Result<(), DbError>)
      modifies this
      ensures (State(), r) == Once(old(State()), Advance(id, sensor), fault)
    {
      if fault.Some? {
        return Err(fault.value);
      }
      if sensor.Some? {
        var gate := CheckGate(State(), id, sensor.value);
        if gate.Some? {
          return Err(gate.value);
        }
      }
      if id !in tasks {
        return Err(NotFound);
      }
      if Terminal(tasks[id].status) {
        return Err(InvalidTaskTransition);
      }
      var index := tasks[id].index + 1;
      tasks := tasks[id := tasks[id].(index := index, status := InProgress)];
      events := events + [TaskAdvanced(id, index)];
      r := Ok(());
    }

    /** The gate of every required sensor in turn, stopping at the first that is closed. */
    method EnsureSensorsOk(id: int, sensors: seq<string>) returns (failed: Option<DbError>)
      ensures failed == CheckGates(State(), id, sensors)
    {
      hide CheckGate, GateOpen;
      for i := 0 to |sensors|
        invariant CheckGates(State(), id, sensors) == CheckGates(State(), id, sensors[i..])
      {
        var gate := CheckGate(State(), id, sensors[i]);
        if gate.Some? {
          return gate;
        }
        assert sensors[i..][1..] == sensors[i + 1..];
      }
      failed := None;
    }

    method UpdateTaskStatusWithEventOnce(id: int, status: TaskState, sensors: seq<string>, fault: Option<DbError>)
      returns (r: Result<(), DbError>)
      modifies this
      ensures (State(), r) == Once(old(State()), Finish(id, status, sensors), fault)
    {
      hide CheckGates, GateOpen;
      var event;
      match status {
        case Done => event := TaskCompleted(id);
        case Failed => event := TaskFailed(id);
        case _ => return Err(InvalidTerminalState);
      }
      if fault.Some? {
        return Err(fault.value);
      }
      if id !in tasks {
        return Err(NotFound);
      }
      var gate := EnsureSensorsOk(id, sensors);
      if gate.Some? {
        return Err(gate.value);
      }
      if Terminal(tasks[id].status) {
        return Err(InvalidTaskTransition);
      }
      tasks := tasks[id := tasks[id].(status := status)];
      events := events + [event];
      r := Ok(());
    }

    method RecordBeatOnce(beat: Beat, fault: Option<DbError>) returns (r: Result<(), DbError>)
      modifies this
      ensures (State(), r) == Once(old(State()), Record(beat), fault)
    {
      if fault.Some? {
        return Err(fault.value);
      }
      if beat.taskId.Some? && beat.taskId.value !in tasks {
        return Err(ForeignKey);
      }
      beats := beats + [beat];
      r := Ok(());
    }

    /** One attempt of any command. */
    method Try(c: Command, fault: Option<DbError>) returns (r: Result<(), DbError>)
      modifies this
      ensures (State(), r) == Once(old(State()), c, fault)
    {
      match c {
        case Add(task) => r := InsertTaskWithEventOnce(task, fault);
        case Advance(id, sensor) => r := AdvanceSubtaskWithEventOnce(id, sensor, fault);
        case Finish(id, status, sensors) => r := UpdateTaskStatusWithEventOnce(id, status, sensors, fault);
        case Record(beat) => r := RecordBeatOnce(beat, fault);
      }
    }

    /** Commands of other connections. */
    method CommitRivals(cs: seq<Command>)
      modifies this
      ensures State() == AllCommitted(old(State()), cs)
    {
      hide Refusal, Effect;
      for i := 0 to |cs|
        invariant State() == AllCommitted(old(State()), cs[..i])
      {
        var _ := Try(cs[i], None);
        assert cs[..i + 1][..i] == cs[..i];
        UndisturbedCommits(AllCommitted(old(State()), cs[..i]), cs[i]);
      }
      assert cs[..|cs|] == cs;
    }

    /** `faults(k)` is the fault the storage injects into attempt `k`, and `rivals(k)` are the commands other
        connections commit between that attempt and the next. */
    method RetryOnBusy(c: Command, faults: nat -> Option<DbError>, rivals: nat -> seq<Command>)
      returns (r: Result<(), DbError>)
      modifies this
      ensures (State(), r) == Called(old(State()), c, faults, rivals)
    {
      hide Once, AllCommitted;
      for attempt := 0 to MAX_ATTEMPTS
        invariant Called(old(State()), c, faults, rivals) ==
                  Retry.Retried(Attempt(c, faults), Busy, Between(rivals), State(), attempt, MAX_ATTEMPTS)
      {
        r := Try(c, faults(attempt));
        if r.Ok? || !r.error.Busy? || attempt + 1 == MAX_ATTEMPTS {
          return;
        }
        CommitRivals(rivals(attempt));
      }
      r := Err(Busy);
    }
  }

  lemma UndisturbedCommits(db: Db, c: Command)
    ensures Once(db, c, None).0 == Committed(db, c)
  {
  }
}

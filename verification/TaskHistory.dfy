/** What every history of task commands keeps, with retries, failures and interleaved attempts included. */
module TaskHistory {
  import opened Wrappers
  import opened Callers
  import opened Tasks
  import Retry

  /** The state after commands run one after another. */
  function After(order: seq<Command>): Db {
    Applied(TaskProtocol(), EMPTY, order)
  }

  type Schedule = seq<Choice<Option<DbError>>>

  /** Any number of calls after some schedule of their attempts, from the empty database. */
  function Reached(calls: seq<Command>, schedule: Schedule): World<Db, Command, DbError> {
    Run(TaskProtocol(), Begin(EMPTY, calls), schedule)
  }

  function TablesAfter(calls: seq<Command>, schedule: Schedule): Db {
    Reached(calls, schedule).state
  }

  // ---- a call takes effect once or not at all ----

  lemma AttemptsAreTransactional(c: Command, faults: nat -> Option<DbError>)
    ensures Retry.Transactional(Attempt(c, faults))
  {
    hide Refusal, Effect;
    forall db: Db, k: nat
      ensures Attempt(c, faults)(db, k).1.Err? ==> Attempt(c, faults)(db, k).0 == db
    {
      assert Attempt(c, faults)(db, k) == Once(db, c, faults(k));
    }
  }

  /** Whatever faults its attempts meet and whatever others commit between them, one attempt decides: a call
      that succeeds applied its effect once, to the state that attempt saw and with every guard passed there; a
      call that fails left only the others' commits. */
  lemma CallsAreAllOrNothing(db: Db, c: Command, faults: nat -> Option<DbError>, rivals: nat -> seq<Command>)
    returns (k: nat)
    ensures k < MAX_ATTEMPTS
    ensures var (after, r) := Called(db, c, faults, rivals);
            var seen := Retry.Seen(Between(rivals), db, 0, k);
            if r.Ok? then Refusal(seen, c).None? && after == Effect(seen, c) else after == seen
  {
    AttemptsAreTransactional(c, faults);
    k := Retry.OneAttemptDecides(Attempt(c, faults), Busy, Between(rivals), db, 0, MAX_ATTEMPTS);
    hide Refusal, Effect;
    var seen := Retry.Seen(Between(rivals), db, 0, k);
    assert Called(db, c, faults, rivals) == Once(seen, c, faults(k));
  }

  /** Only contention is retried: any other answer is final. */
  lemma OnlyBusyIsRetried(db: Db, c: Command, faults: nat -> Option<DbError>, rivals: nat -> seq<Command>)
    requires faults(0) != Some(Busy)
    ensures Called(db, c, faults, rivals) == Once(db, c, faults(0))
  {
    if c.Advance? && c.sensor.Some? {
      GateAnswers(db, c.id, [c.sensor.value]);
    } else if c.Finish? {
      GateAnswers(db, c.id, c.sensors);
    }
    AttemptsAreTransactional(c, faults);
    var k := Retry.OneAttemptDecides(Attempt(c, faults), Busy, Between(rivals), db, 0, MAX_ATTEMPTS);
    assert Attempt(c, faults)(db, 0) == Once(db, c, faults(0));
    assert Retry.Seen(Between(rivals), db, 0, 0) == db;
  }

  /** An undisturbed advance or completion commits exactly when the task is live and every required sensor's
      latest beat is ok at that moment. */
  lemma CommitsIffGatesAreOpen(db: Db, id: int, sensors: seq<string>, status: TaskState)
    ensures Once(db, Finish(id, status, sensors), None).1.Ok? <==>
              (Terminal(status) && id in db.tasks && !Terminal(db.tasks[id].status) &&
               forall s :: s in sensors ==> GateOpen(db, id, s))
    ensures |sensors| == 1 ==>
              (Once(db, Advance(id, Some(sensors[0])), None).1.Ok? <==>
                 (id in db.tasks && !Terminal(db.tasks[id].status) && GateOpen(db, id, sensors[0])))
  {
  }

  /** The sensors a command needs green, and the task they are checked for. */
  function Required(c: Command): seq<string> {
    match c
    case Advance(_, sensor) => if sensor.Some? then [sensor.value] else []
    case Finish(_, _, sensors) => sensors
    case _ => []
  }

  /** Every other answer of an undisturbed command, with the one state of affairs it stands for; a closed gate is
      that of the first required sensor whose latest beat is not ok. */
  lemma RefusedIff(db: Db, c: Command)
    ensures var r := Once(db, c, None).1;
            var gated := c.Advance? || (c.Finish? && Terminal(c.status));
            var open := forall s :: s in Required(c) ==> GateOpen(db, c.id, s);
            && (r == Err(InvalidTerminalState) <==> c.Finish? && !Terminal(c.status))
            && (r == Err(NotFound) <==> gated && c.id !in db.tasks && (c.Finish? || open))
            && (r == Err(InvalidTaskTransition) <==>
                  gated && c.id in db.tasks && Terminal(db.tasks[c.id].status) && open)
            && (r == Err(ForeignKey) <==>
                  || (c.Add? && c.task.parent.Some? && c.task.parent.value !in db.tasks)
                  || (c.Record? && c.beat.taskId.Some? && c.beat.taskId.value !in db.tasks))
            && (r.Err? && (r.error.GateUnsatisfied? || r.error.InvalidBeatStatus?) <==>
                  gated && !open && (c.Finish? ==> c.id in db.tasks))
  {
    if c.Finish? {
      GateAnswers(db, c.id, c.sensors);
    } else if c.Advance? && c.sensor.Some? {
      assert Required(c)[0] == c.sensor.value;
      GateAnswers(db, c.id, [c.sensor.value]);
    }
    hide CheckGates, CheckGate, GateOpen;
  }

  lemma GateAnswers(db: Db, id: int, sensors: seq<string>)
    ensures var e := CheckGates(db, id, sensors); e.Some? ==> e.value.GateUnsatisfied? || e.value.InvalidBeatStatus?
    ensures |sensors| == 1 ==> CheckGate(db, id, sensors[0]) == CheckGates(db, id, sensors)
  {
    var e := CheckGates(db, id, sensors);
    if e.Some? {
      var i :| 0 <= i < |sensors| && ClosedBy(db, id, sensors[i], e.value);
    }
    if |sensors| == 1 {
      assert sensors[1..] == [];
    }
  }

  /** An attempt that meets a fault answers it and changes nothing, unless its argument is refused before. */
  lemma FaultedAttempt(db: Db, c: Command, error: DbError)
    ensures Once(db, c, Some(error)) ==
            (db, Err(if c.Finish? && c.status !in {Done, Failed} then InvalidTerminalState else error))
  {
  }

  // ---- interleaved attempts ----

  lemma ProtocolIsSound()
    ensures Sound(TaskProtocol())
  {
    hide Refusal, Effect;
    forall db: Db, c: Command, fault: Option<DbError>
      ensures var (after, r) := TaskProtocol().once(db, c, fault);
              if r.Ok? then TaskProtocol().permitted(db, c) && after == TaskProtocol().effect(db, c) else after == db
    {
      assert TaskProtocol().once(db, c, fault) == Once(db, c, fault);
    }
  }

  /** A run from any database ends in the state of its committed commands, one after another. */
  lemma RunFromIsSerial(db: Db, calls: seq<Command>, schedule: Schedule) returns (order: seq<Command>)
    ensures var w := Run(TaskProtocol(), Begin(db, calls), schedule);
            && CallersInv(TaskProtocol(), calls, w)
            && order == Order(calls, w.commits) && w.state == Applied(TaskProtocol(), db, order)
            && Serial(TaskProtocol(), db, order)
  {
    ProtocolIsSound();
    EveryInterleavingIsSerial(TaskProtocol(), db, calls, schedule);
    order := Order(calls, Run(TaskProtocol(), Begin(db, calls), schedule).commits);
  }

  /** The committed commands of a run, in the order in which they took effect. */
  lemma RunIsSerial(calls: seq<Command>, schedule: Schedule) returns (order: seq<Command>)
    ensures var w := Reached(calls, schedule);
            && CallersInv(TaskProtocol(), calls, w)
            && order == Order(calls, w.commits) && w.state == After(order) && Serial(TaskProtocol(), EMPTY, order)
  {
    order := RunFromIsSerial(EMPTY, calls, schedule);
  }

  /** Every committed command passed all its guards in the very state it took effect in: however attempts
      interleave, no gated event commits while the latest beat of a required sensor is missing or not ok. */
  lemma CommitsSawOpenGates(calls: seq<Command>, schedule: Schedule, j: nat)
    requires j < |Reached(calls, schedule).commits|
    ensures var commits := Reached(calls, schedule).commits;
            && (forall i :: 0 <= i < |commits| ==> commits[i] < |calls|)
            && var order := Order(calls, commits);
               && Refusal(After(order[..j]), order[j]).None?
               && After(order[..j + 1]) == Effect(After(order[..j]), order[j])
               && forall s :: s in Required(order[j]) ==> GateOpen(After(order[..j]), order[j].id, s)
  {
    var order := RunIsSerial(calls, schedule);
    assert TaskProtocol().permitted(After(order[..j]), order[j]);
    assert order[..j + 1][..j] == order[..j];
    hide Effect;
    if order[j].Advance? || order[j].Finish? {
      RefusedByClosedGates(After(order[..j]), order[j]);
    }
  }

  lemma RefusedByClosedGates(db: Db, c: Command)
    requires c.Advance? || c.Finish?
    ensures Refusal(db, c).None? ==> forall s :: s in Required(c) ==> GateOpen(db, c.id, s)
  {
  }

  /** An attempt of a gated command changes nothing while a required gate is closed. */
  lemma ClosedGateBlocksTheAttempt(w: World<Db, Command, DbError>, i: nat, fault: Option<DbError>, sensor: string)
    requires i < |w.callers|
    requires var c := w.callers[i].call; (c.Advance? || c.Finish?) && sensor in Required(c) && !GateOpen(w.state, c.id, sensor)
    ensures var v := NextAttempt(TaskProtocol(), w, i, fault); v.state == w.state && v.commits == w.commits
  {
    var c := w.callers[i].call;
    RefusedByClosedGates(w.state, c);
    hide Refusal, Effect, GateOpen;
    assert TaskProtocol().once(w.state, c, fault) == Once(w.state, c, fault);
  }

  // ---- the life of a task ----

  /** The events of one task, in order. */
  function EventsOf(events: seq<Event>, id: int): seq<Event> {
    if events == [] then []
    else
      var n := |events| - 1;
      EventsOf(events[..n], id) + if events[n].id == id then [events[n]] else []
  }

  /** How often the task was advanced. */
  function Advances(evs: seq<Event>, t: Task): int {
    |evs| - 1 - (if Terminal(t.status) then 1 else 0)
  }

  /** Added once, then advanced by consecutive indices, then at most one terminal event and nothing more; the
      row is what the events say. */
  ghost predicate Lifecycle(evs: seq<Event>, id: int, t: Task) {
    var m := Advances(evs, t);
    && m >= 0
    && evs[0] == TaskAdded(id, t.title, t.method_)
    && (forall j :: 1 <= j <= m ==> evs[j] == TaskAdvanced(id, t.index - m + j))
    && match t.status
       case Pending => m == 0
       case InProgress => m > 0
       case Done => evs[m + 1] == TaskCompleted(id)
       case Failed => evs[m + 1] == TaskFailed(id)
  }

  /** The row of one task, if it has one, and its events agree. */
  ghost predicate OnTrack(db: Db, id: int) {
    if id in db.tasks then 0 < id < db.nextId && Lifecycle(EventsOf(db.events, id), id, db.tasks[id])
    else EventsOf(db.events, id) == []
  }

  ghost predicate Inv(db: Db) {
    forall id :: OnTrack(db, id)
  }

  /** The index a task was added with: its index less its advances. */
  function Origin(db: Db, id: int): int
    requires id in db.tasks
  {
    db.tasks[id].index - Advances(EventsOf(db.events, id), db.tasks[id])
  }

  lemma EventsOfSnoc(events: seq<Event>, e: Event, id: int)
    ensures EventsOf(events + [e], id) == EventsOf(events, id) + if e.id == id then [e] else []
  {
    assert (events + [e])[..|events|] == events;
  }

  lemma StartingALife(id: int, t: Task)
    requires t.status.Pending?
    ensures Lifecycle([TaskAdded(id, t.title, t.method_)], id, t) && Advances([TaskAdded(id, t.title, t.method_)], t) == 0
  {
  }

  lemma AdvancingALife(evs: seq<Event>, id: int, t: Task)
    requires Lifecycle(evs, id, t) && !Terminal(t.status)
    ensures var next := t.(index := t.index + 1, status := InProgress);
            Lifecycle(evs + [TaskAdvanced(id, t.index + 1)], id, next) &&
            Advances(evs + [TaskAdvanced(id, t.index + 1)], next) == Advances(evs, t) + 1
  {
  }

  lemma EndingALife(evs: seq<Event>, id: int, t: Task, status: TaskState)
    requires Lifecycle(evs, id, t) && !Terminal(t.status) && Terminal(status)
    ensures var more := evs + [if status.Done? then TaskCompleted(id) else TaskFailed(id)];
            Lifecycle(more, id, t.(status := status)) && Advances(more, t.(status := status)) == Advances(evs, t)
  {
  }

  lemma AddOnNewTask(db: Db, task: NewTask)
    requires Refusal(db, Add(task)).None? && OnTrack(db, db.nextId) && db.nextId > 0
    ensures db.nextId !in db.tasks && db.nextId in Effect(db, Add(task)).tasks
    ensures OnTrack(Effect(db, Add(task)), db.nextId) && Origin(Effect(db, Add(task)), db.nextId) == task.index
  {
    hide Lifecycle, Advances, Refusal;
    var after := Effect(db, Add(task));
    var id := db.nextId;
    var e := TaskAdded(id, task.title, task.method_);
    assert EventsOf(after.events, id) == [e] by {
      EventsOfSnoc(db.events, e, id);
    }
    hide EventsOf;
    StartingALife(id, after.tasks[id]);
  }

  lemma AddOnOldTask(db: Db, task: NewTask, id: int)
    requires Refusal(db, Add(task)).None? && OnTrack(db, id) && id != db.nextId
    ensures OnTrack(Effect(db, Add(task)), id)
    ensures id in db.tasks <==> id in Effect(db, Add(task)).tasks
    ensures id in db.tasks ==> Origin(Effect(db, Add(task)), id) == Origin(db, id)
  {
    hide Lifecycle, Advances, Refusal, EventsOf;
    var after := Effect(db, Add(task));
    EventsOfSnoc(db.events, TaskAdded(db.nextId, task.title, task.method_), id);
    assert EventsOf(after.events, id) == EventsOf(db.events, id);
  }

  lemma AdvanceOnOneTask(db: Db, target: int, sensor: Option<string>, id: int)
    requires Refusal(db, Advance(target, sensor)).None? && OnTrack(db, id)
    ensures var after := Effect(db, Advance(target, sensor));
            && OnTrack(after, id)
            && (id in db.tasks <==> id in after.tasks)
            && (id in db.tasks ==> Origin(after, id) == Origin(db, id))
  {
    assert target in db.tasks && !Terminal(db.tasks[target].status);
    hide Lifecycle, EventsOf, Advances, Refusal;
    var after := Effect(db, Advance(target, sensor));
    var evs := EventsOf(db.events, id);
    EventsOfSnoc(db.events, TaskAdvanced(target, db.tasks[target].index + 1), id);
    if id == target {
      AdvancingALife(evs, id, db.tasks[id]);
    } else {
      assert EventsOf(after.events, id) == evs;
    }
  }

  lemma FinishOnOneTask(db: Db, target: int, status: TaskState, sensors: seq<string>, id: int)
    requires Refusal(db, Finish(target, status, sensors)).None? && OnTrack(db, id)
    ensures var after := Effect(db, Finish(target, status, sensors));
            && OnTrack(after, id)
            && (id in db.tasks <==> id in after.tasks)
            && (id in db.tasks ==> Origin(after, id) == Origin(db, id))
  {
    assert Terminal(status) && target in db.tasks && !Terminal(db.tasks[target].status);
    hide Lifecycle, EventsOf, Advances, Refusal;
    var after := Effect(db, Finish(target, status, sensors));
    var evs := EventsOf(db.events, id);
    EventsOfSnoc(db.events, if status.Done? then TaskCompleted(target) else TaskFailed(target), id);
    if id == target {
      EndingALife(evs, id, db.tasks[id], status);
    } else {
      assert EventsOf(after.events, id) == evs;
    }
  }

  /** A command extends the life of the one task it names and touches no other; the index a task was added
      with never changes. */
  lemma EffectOnOneTask(db: Db, c: Command, id: int)
    requires Refusal(db, c).None? && OnTrack(db, id) && OnTrack(db, db.nextId) && db.nextId > 0
    ensures var after := Effect(db, c);
            && OnTrack(after, id)
            && (id in db.tasks ==> id in after.tasks && Origin(after, id) == Origin(db, id))
            && (id in after.tasks && id !in db.tasks ==> c.Add? && Origin(after, id) == c.task.index)
  {
    hide Lifecycle, EventsOf, Advances;
    match c
    case Add(task) =>
      if id == db.nextId {
        AddOnNewTask(db, task);
      } else {
        AddOnOldTask(db, task, id);
      }
    case Advance(target, sensor) => AdvanceOnOneTask(db, target, sensor, id);
    case Finish(target, status, sensors) => FinishOnOneTask(db, target, status, sensors, id);
    case Record(_) =>
  }

  /** Ids that are still to be given out have neither rows nor events. */
  ghost predicate FreshIds(db: Db) {
    db.nextId > 0 && forall id :: db.nextId <= id ==> OnTrack(db, id)
  }

  lemma CommandKeepsFreshIds(db: Db, c: Command)
    requires Refusal(db, c).None? && FreshIds(db)
    ensures FreshIds(Effect(db, c)) && Effect(db, c).nextId >= db.nextId
  {
    assert Effect(db, c).nextId >= db.nextId;
    hide Refusal, Effect, OnTrack;
    forall id | Effect(db, c).nextId <= id
      ensures OnTrack(Effect(db, c), id)
    {
      EffectOnOneTask(db, c, id);
    }
  }

  /** From any database a task whose events agree with its row stays so, and so does an id not given out yet. */
  lemma {:induction false} HistoryKeepsTrack(db: Db, order: seq<Command>, id: int)
    requires FreshIds(db) && OnTrack(db, id)
    ensures FreshIds(Applied(TaskProtocol(), db, order)) && OnTrack(Applied(TaskProtocol(), db, order), id)
  {
    if order != [] {
      var n := |order| - 1;
      HistoryKeepsTrack(db, order[..n], id);
      var before := Applied(TaskProtocol(), db, order[..n]);
      assert Applied(TaskProtocol(), db, order) == Committed(before, order[n]);
      hide OnTrack, Refusal, Effect;
      if Refusal(before, order[n]).None? {
        EffectOnOneTask(before, order[n], id);
        CommandKeepsFreshIds(before, order[n]);
      }
    }
  }

  lemma HistoryKeepsInv(order: seq<Command>)
    ensures Inv(After(order)) && After(order).nextId > 0
  {
    assert FreshIds(EMPTY) && OnTrack(EMPTY, 0);
    HistoryKeepsTrack(EMPTY, order, 0);
    forall id
      ensures OnTrack(After(order), id)
    {
      assert OnTrack(EMPTY, id);
      HistoryKeepsTrack(EMPTY, order, id);
    }
  }

  /** Every interleaving keeps the invariant, because it equals its commits in order. */
  lemma RunKeepsInv(calls: seq<Command>, schedule: Schedule)
    ensures Inv(TablesAfter(calls, schedule))
  {
    var order := RunIsSerial(calls, schedule);
    HistoryKeepsInv(order);
  }

  /** For every run of any number of calls, each task's events are one addition, consecutive advances and at most one terminal
      event at the end, its row is their result, and no event belongs to a missing task. */
  lemma TasksLiveByTheirEvents(calls: seq<Command>, schedule: Schedule, id: int)
    ensures var db := TablesAfter(calls, schedule);
            if id in db.tasks then Lifecycle(EventsOf(db.events, id), id, db.tasks[id])
            else EventsOf(db.events, id) == []
  {
    RunKeepsInv(calls, schedule);
    assert OnTrack(TablesAfter(calls, schedule), id);
  }

  /** The count of tasks without an Added event stays zero. */
  lemma NoTaskWithoutAddedEvent(calls: seq<Command>, schedule: Schedule, id: int)
    requires id in TablesAfter(calls, schedule).tasks
    ensures var events := TablesAfter(calls, schedule).events;
            exists i :: 0 <= i < |events| && events[i].TaskAdded? && events[i].id == id
  {
    TasksLiveByTheirEvents(calls, schedule, id);
    var db := TablesAfter(calls, schedule);
    EventsOfAreEvents(db.events, id, EventsOf(db.events, id)[0]);
  }

  lemma {:induction false} EventsOfAreEvents(events: seq<Event>, id: int, e: Event)
    requires e in EventsOf(events, id)
    ensures e.id == id && exists i :: 0 <= i < |events| && events[i] == e
  {
    var n := |events| - 1;
    if e in EventsOf(events[..n], id) {
      EventsOfAreEvents(events[..n], id, e);
      var i :| 0 <= i < n && events[..n][i] == e;
      assert events[i] == e;
    } else {
      assert events[n] == e;
    }
  }

  // ---- the board: the latest event of a task decides its state ----

  function StateAfter(e: Event): TaskState {
    match e
    case TaskAdded(_, _, _) => Pending
    case TaskAdvanced(_, _) => InProgress
    case TaskCompleted(_) => Done
    case TaskFailed(_) => Failed
  }

  function Board(events: seq<Event>): map<int, TaskState> {
    if events == [] then map[]
    else
      var n := |events| - 1;
      Board(events[..n])[events[n].id := StateAfter(events[n])]
  }

  lemma {:induction false} BoardShowsLastEvents(events: seq<Event>, id: int)
    ensures id in Board(events) <==> EventsOf(events, id) != []
    ensures var own := EventsOf(events, id); own != [] ==> Board(events)[id] == StateAfter(own[|own| - 1])
  {
    if events != [] {
      BoardShowsLastEvents(events[..|events| - 1], id);
    }
  }

  lemma LifeEndsInItsState(evs: seq<Event>, id: int, t: Task)
    requires Lifecycle(evs, id, t)
    ensures evs != [] && StateAfter(evs[|evs| - 1]) == t.status
  {
  }

  /** For every run the board folded from the log shows exactly the tasks of the table, each in the state of
      its row. */
  lemma BoardIsTheTable(calls: seq<Command>, schedule: Schedule)
    ensures var db := TablesAfter(calls, schedule); Board(db.events) == map id | id in db.tasks :: db.tasks[id].status
  {
    var db := TablesAfter(calls, schedule);
    forall id
      ensures id in Board(db.events) <==> id in db.tasks
      ensures id in db.tasks ==> Board(db.events)[id] == db.tasks[id].status
    {
      TasksLiveByTheirEvents(calls, schedule, id);
      BoardShowsLastEvents(db.events, id);
      if id in db.tasks {
        LifeEndsInItsState(EventsOf(db.events, id), id, db.tasks[id]);
      }
    }
  }

  lemma {:induction false} BoardOfTwo(a: seq<Event>, b: seq<Event>)
    ensures Board(a + b) == Board(a) + Board(b)
  {
    if b == [] {
      assert a + b == a;
    } else {
      var n := |b| - 1;
      assert (a + b)[..|a + b| - 1] == a + b[..n];
      BoardOfTwo(a, b[..n]);
    }
  }

  /** Replaying a stream that was already folded changes nothing. */
  lemma ReplayIsIdempotent(events: seq<Event>)
    ensures Board(events + events) == Board(events)
  {
    BoardOfTwo(events, events);
  }

  // ---- folding the log back into rows ----

  datatype View = View(title: string, method_: Option<string>, index: int, status: TaskState)

  function ViewOf(t: Task): View {
    View(t.title, t.method_, t.index, t.status)
  }

  /** Everything the published events carry, folded back. */
  function Fold(events: seq<Event>): map<int, View> {
    if events == [] then map[]
    else
      var n := |events| - 1;
      var m := Fold(events[..n]);
      match events[n]
      case TaskAdded(id, title, method_) => m[id := View(title, method_, 0, Pending)]
      case TaskAdvanced(id, index) => if id in m then m[id := m[id].(index := index, status := InProgress)] else m
      case TaskCompleted(id) => if id in m then m[id := m[id].(status := Done)] else m
      case TaskFailed(id) => if id in m then m[id := m[id].(status := Failed)] else m
  }

  /** A fold over the whole log is, task by task, a fold over the task's own events. */
  lemma {:induction false} FoldIsByTask(events: seq<Event>, id: int)
    ensures (id in Fold(events) <==> id in Fold(EventsOf(events, id)))
    ensures id in Fold(events) ==> Fold(events)[id] == Fold(EventsOf(events, id))[id]
  {
    if events != [] {
      var n := |events| - 1;
      FoldIsByTask(events[..n], id);
      if events[n].id == id {
        var own := EventsOf(events[..n], id);
        assert (own + [events[n]])[..|own|] == own;
      } else {
        assert EventsOf(events, id) == EventsOf(events[..n], id);
      }
    }
  }

  /** Folding the first events of a life gives the view of the row at that point. */
  lemma {:induction false} FoldOfALife(evs: seq<Event>, id: int, t: Task)
    requires Lifecycle(evs, id, t)
    ensures id in Fold(evs)
    ensures Fold(evs)[id] == ViewOf(t).(index := if Advances(evs, t) == 0 then 0 else t.index)
    decreases |evs|
  {
    var n := |evs| - 1;
    if n == 0 {
      assert evs[..0] == [];
    } else if Terminal(t.status) {
      var before := t.(status := if n == 1 then Pending else InProgress);
      assert Lifecycle(evs[..n], id, before);
      FoldOfALife(evs[..n], id, before);
    } else {
      var before := t.(index := t.index - 1, status := if n == 1 then Pending else InProgress);
      assert Lifecycle(evs[..n], id, before);
      FoldOfALife(evs[..n], id, before);
    }
  }

  /** Replaying the log gives every row its title, method and state; it gives the row's index exactly when
      the task was advanced or was added at index 0, because the Added event carries no index. */
  lemma ReplayRebuildsRows(calls: seq<Command>, schedule: Schedule, id: int)
    requires id in TablesAfter(calls, schedule).tasks
    ensures var db := TablesAfter(calls, schedule);
            var row := db.tasks[id];
            && id in Fold(db.events)
            && Fold(db.events)[id].(index := row.index) == ViewOf(row)
            && (Fold(db.events)[id] == ViewOf(row) <==> Advances(EventsOf(db.events, id), row) > 0 || row.index == 0)
  {
    TasksLiveByTheirEvents(calls, schedule, id);
    var db := TablesAfter(calls, schedule);
    FoldIsByTask(db.events, id);
    FoldOfALife(EventsOf(db.events, id), id, db.tasks[id]);
  }

  /** Only real tasks appear on the board. */
  lemma ReplayInventsNoTask(calls: seq<Command>, schedule: Schedule, id: int)
    requires id !in TablesAfter(calls, schedule).tasks
    ensures id !in Fold(TablesAfter(calls, schedule).events)
  {
    TasksLiveByTheirEvents(calls, schedule, id);
    FoldIsByTask(TablesAfter(calls, schedule).events, id);
  }

  // ---- where indices start ----

  /** Every row of the table was added by one of the committed commands, at that command's index. */
  lemma {:induction false} AddedByACommit(order: seq<Command>, id: int) returns (j: nat)
    requires Serial(TaskProtocol(), EMPTY, order) && id in After(order).tasks
    ensures j < |order| && order[j].Add? && After(order[..j]).nextId == id
    ensures Origin(After(order), id) == order[j].task.index
  {
    var n := |order| - 1;
    var before, c := order[..n], order[n];
    var db := After(before);
    SerialPrefix(TaskProtocol(), EMPTY, order, n);
    assert Refusal(db, c).None? && After(order) == Effect(db, c);
    HistoryKeepsInv(before);
    assert OnTrack(db, id) && OnTrack(db, db.nextId);
    EffectOnOneTask(db, c, id);
    hide Inv, OnTrack, Lifecycle, Refusal, Origin;
    if id in db.tasks {
      j := AddedByACommit(before, id);
      assert order[..j] == before[..j];
    } else {
      j := n;
      OnlyAddAdds(db, c, id);
    }
  }

  lemma OnlyAddAdds(db: Db, c: Command, id: int)
    requires Refusal(db, c).None? && id !in db.tasks && id in Effect(db, c).tasks
    ensures c.Add? && id == db.nextId
  {
  }

  /** In every run the advances of a task count on from the index of the Add call that created it. */
  lemma AdvancesFollowTheAdd(calls: seq<Command>, schedule: Schedule, id: int) returns (j: nat)
    requires id in TablesAfter(calls, schedule).tasks
    ensures var w := Reached(calls, schedule);
            && j < |w.commits| && w.commits[j] < |calls| && calls[w.commits[j]].Add?
            && var t, added, evs := w.state.tasks[id], calls[w.commits[j]].task.index, EventsOf(w.state.events, id);
               && t.index == added + Advances(evs, t)
               && forall k :: 1 <= k <= Advances(evs, t) && k < |evs| ==> evs[k] == TaskAdvanced(id, added + k)
  {
    var order := RunIsSerial(calls, schedule);
    j := AddedByACommit(order, id);
    TasksLiveByTheirEvents(calls, schedule, id);
  }

  ghost predicate AddsAtZero(calls: seq<Command>) {
    forall i :: 0 <= i < |calls| && calls[i].Add? ==> calls[i].task.index == 0
  }

  /** Tasks added as the command line adds them, at index 0, are rebuilt exactly. */
  lemma TasksAddedAtZeroAreRebuilt(calls: seq<Command>, schedule: Schedule, id: int)
    requires AddsAtZero(calls) && id in TablesAfter(calls, schedule).tasks
    ensures var db := TablesAfter(calls, schedule); id in Fold(db.events) && Fold(db.events)[id] == ViewOf(db.tasks[id])
  {
    ReplayRebuildsRows(calls, schedule, id);
    TasksLiveByTheirEvents(calls, schedule, id);
    var j := AdvancesFollowTheAdd(calls, schedule, id);
    assert calls[Reached(calls, schedule).commits[j]].task.index == 0;
  }

  /** A task added at another index and not advanced is rebuilt at index 0. */
  lemma ReplayMissesTheIndex(task: NewTask)
    requires task.parent.None? && task.index != 0
    ensures var db := TablesAfter([Add(task)], [Choice(0, None)]);
            1 in db.tasks && 1 in Fold(db.events) && Fold(db.events)[1] != ViewOf(db.tasks[1])
  {
    var calls, schedule := [Add(task)], [Choice(0, None)];
    var w := Begin<Db, Command, DbError>(EMPTY, calls);
    assert schedule[..|schedule| - 1] == [];
    assert Run(TaskProtocol(), w, []) == w;
    assert Reached(calls, schedule) == NextAttempt(TaskProtocol(), w, 0, None);
    var db := TablesAfter(calls, schedule);
    assert db == Effect(EMPTY, Add(task));
    assert db.events == [TaskAdded(1, task.title, task.method_)] && db.events[..0] == [];
    assert Fold(db.events)[1].index == 0;
  }

  /** A command gives up as busy only after three attempts, and is tried no more than three times. */
  lemma CommandsGetThreeAttempts(calls: seq<Command>, schedule: Schedule, i: nat)
    requires i < |calls|
    ensures var phase := Reached(calls, schedule).callers[i].phase;
            && (phase == Returned(Err(Busy)) ==> Turns(schedule, i) >= 3)
            && (phase.Trying? ==> Turns(schedule, i) < 3)
  {
    hide Once, Refusal, Effect;
    GivingUpTakesAllAttempts(TaskProtocol(), EMPTY, calls, schedule, i);
    AttemptsAreTurns(TaskProtocol(), EMPTY, calls, schedule, i);
    var order := RunIsSerial(calls, schedule);
    assert TaskProtocol().attempts(calls[i]) == MAX_ATTEMPTS;
  }
}

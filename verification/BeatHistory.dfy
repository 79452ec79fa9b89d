/** Which beat rows a history of outcomes leaves behind, the rows that gates look at later. */
module BeatHistory {
  import opened Wrappers
  import opened Callers
  import opened Scopes
  import opened Strikes
  import opened StrikeHistory

  /** The row an outcome asks for: its own scope, or the one its task stands for. */
  function Row(beat: NewBeat): BeatRow {
    var scope := match beat.scope
      case Some(given) => given
      case None => match beat.taskId case Some(id) => TaskScope(id) case None => Global;
    BeatRow(beat.taskId, Key(scope), beat.sensorBeat, beat.sensor, beat.status)
  }

  function Rows(os: seq<Outcome>): seq<BeatRow> {
    seq(|os|, i requires 0 <= i < |os| => Row(os[i].beat))
  }

  /** One row for each outcome that committed, alone or in a batch. */
  function RowsBy(a: Action): seq<BeatRow> {
    match a
    case Single(o) => [Row(o.beat)]
    case Batch(os) => Rows(os)
    case _ => []
  }

  function AllRows(order: seq<Action>): seq<BeatRow> {
    if order == [] then [] else AllRows(order[..|order| - 1]) + RowsBy(order[|order| - 1])
  }

  function TasksIn(order: seq<Action>): set<I64> {
    set i | 0 <= i < |order| && order[i].AddTask? :: order[i].id
  }

  lemma StepAddsItsRow(db: Db, o: Outcome)
    requires Step(db, o).Ok?
    ensures var after := Step(db, o).value;
            && after.beats == db.beats + [Row(o.beat)] && after.tasks == db.tasks
            && PairOf(o).1 == Row(o.beat).scope
  {
    hide Parse;
  }

  lemma {:induction false} BatchAddsItsRows(db: Db, os: seq<Outcome>)
    requires StepAll(db, os).Ok?
    ensures var after := StepAll(db, os).value; after.beats == db.beats + Rows(os) && after.tasks == db.tasks
    decreases |os|
  {
    hide Step, Row;
    if os == [] {
      assert db.beats + Rows(os) == db.beats;
    } else {
      var next := Step(db, os[0]).value;
      StepAddsItsRow(db, os[0]);
      BatchAddsItsRows(next, os[1..]);
      assert Rows(os) == [Row(os[0].beat)] + Rows(os[1..]);
    }
  }

  lemma CallAddsItsRows(db: Db, a: Action)
    requires Answer(db, a).Ok?
    ensures var after := Answer(db, a).value;
            && after.beats == db.beats + RowsBy(a)
            && after.tasks == db.tasks + (if a.AddTask? then {a.id} else {})
  {
    hide Parse, Step, StepAll, Row, Rows;
    match a
    case Single(o) => StepAddsItsRow(db, o);
    case Batch(os) => BatchAddsItsRows(db, os);
    case _ =>
  }

  lemma {:induction false} OrderAddsItsRows(order: seq<Action>)
    requires Serial(StrikeProtocol(), EMPTY, order)
    ensures After(order).beats == AllRows(order) && After(order).tasks == TasksIn(order)
  {
    if order != [] {
      hide Serial, Answer, RowsBy;
      var n := |order| - 1;
      SerialPrefix(StrikeProtocol(), EMPTY, order, n);
      OrderAddsItsRows(order[..n]);
      var db := After(order[..n]);
      assert Answer(db, order[n]).Ok? && After(order) == Answer(db, order[n]).value;
      CallAddsItsRows(db, order[n]);
      assert TasksIn(order) == TasksIn(order[..n]) + if order[n].AddTask? then {order[n].id} else {} by {
        OneMoreTask(order);
      }
    }
  }

  lemma OneMoreTask(order: seq<Action>)
    requires order != []
    ensures var n := |order| - 1; TasksIn(order) == TasksIn(order[..n]) + if order[n].AddTask? then {order[n].id} else {}
  {
    var n := |order| - 1;
    forall id | id in TasksIn(order[..n])
      ensures id in TasksIn(order)
    {
      var i :| 0 <= i < n && order[..n][i].AddTask? && order[..n][i].id == id;
      assert order[i].AddTask? && order[i].id == id;
    }
    forall id | id in TasksIn(order)
      ensures id in TasksIn(order[..n]) || (order[n].AddTask? && id == order[n].id)
    {
      var i :| 0 <= i <= n && order[i].AddTask? && order[i].id == id;
      assert i < n ==> order[..n][i] == order[i];
    }
  }

  /** However attempts interleave, the stored beats are exactly those of the committed outcomes and batches, in
      commit order, each with its task, scope key, kind, sensor and status; a batch adds a row for each of its
      outcomes or none at all. */
  lemma BeatsAreTheOutcomes(calls: seq<Action>, schedule: Schedule)
    ensures var w := Reached(calls, schedule);
            && (forall j :: 0 <= j < |w.commits| ==> w.commits[j] < |calls|)
            && var order := Order(calls, w.commits);
               w.state.beats == AllRows(order) && w.state.tasks == TasksIn(order)
  {
    var order := RunIsSerial(calls, schedule);
    OrderAddsItsRows(order);
  }

  /** A row that gates can trust: its scope belongs to its task, which is there, and a sensor beat is named. */
  ghost predicate Consistent(tasks: set<I64>, row: BeatRow) {
    && (row.taskId.Some? ==> row.taskId.value in tasks && row.scope == Key(TaskScope(row.taskId.value)))
    && (row.taskId.None? ==> row.scope == Key(Global) || exists name :: row.scope == Key(Branch(name)))
    && (row.sensorBeat ==> row.sensor.Some?)
  }

  lemma StepIsConsistent(db: Db, o: Outcome)
    requires Step(db, o).Ok?
    ensures Consistent(db.tasks, Row(o.beat))
  {
    hide Parse, Key;
    var scope := ResolvedScope(o.beat).value;
    if scope.Branch? {
      assert Row(o.beat).scope == Key(Branch(scope.name));
    }
  }

  lemma {:induction false} BatchIsConsistent(db: Db, os: seq<Outcome>)
    requires StepAll(db, os).Ok?
    ensures forall row :: row in Rows(os) ==> Consistent(db.tasks, row)
    decreases |os|
  {
    hide Step, Row, Consistent;
    if os != [] {
      StepIsConsistent(db, os[0]);
      StepAddsItsRow(db, os[0]);
      BatchIsConsistent(Step(db, os[0]).value, os[1..]);
      assert Rows(os) == [Row(os[0].beat)] + Rows(os[1..]);
    }
  }

  lemma CallIsConsistent(db: Db, a: Action)
    requires Answer(db, a).Ok?
    ensures forall row :: row in RowsBy(a) ==> Consistent(db.tasks, row)
  {
    hide Step, StepAll, Row, Rows, Consistent;
    match a
    case Single(o) => StepIsConsistent(db, o);
    case Batch(os) => BatchIsConsistent(db, os);
    case _ =>
  }

  lemma {:induction false} OrderIsConsistent(order: seq<Action>)
    requires Serial(StrikeProtocol(), EMPTY, order)
    ensures forall row :: row in AllRows(order) ==> Consistent(TasksIn(order), row)
  {
    if order != [] {
      hide Serial, Answer, RowsBy;
      var n := |order| - 1;
      SerialPrefix(StrikeProtocol(), EMPTY, order, n);
      OrderIsConsistent(order[..n]);
      OrderAddsItsRows(order[..n]);
      OneMoreTask(order);
      CallIsConsistent(After(order[..n]), order[n]);
      hide TasksIn, After;
    }
  }

  /** In every run a stored beat and its scope agree about the task, so that looking either up finds the same beats. */
  lemma StoredBeatsAreConsistent(calls: seq<Action>, schedule: Schedule, row: BeatRow)
    requires row in Reached(calls, schedule).state.beats
    ensures Consistent(Reached(calls, schedule).state.tasks, row)
  {
    var order := RunIsSerial(calls, schedule);
    OrderAddsItsRows(order);
    OrderIsConsistent(order);
  }

  /** The strike row of an outcome is the one of its sensor and of the scope its beat is stored under. */
  lemma StrikeAndBeatAgree(o: Outcome)
    requires ResolvedScope(o.beat).Ok?
    ensures PairOf(o) == ("sensor:" + (match o.beat.sensor case Some(name) => name case None => "unknown"), Row(o.beat).scope)
  {
  }
}

/** The hash chain that task commands leave behind.

  A command appends its event inside its own transaction, which holds the write lock, so
  the row it inserts is the one built from the current tail.
*/
module TaskLog {
  import opened Wrappers
  import opened Callers
  import EventLog
  import EventWriters
  import TaskHistory
  import Tasks

  /** `encode` gives the kind and the JSON text of an event. */
  datatype Storage = Storage(codec: EventLog.Codec, encode: Tasks.Event -> EventWriters.Event)

  /** The task tables and the stored rows of the event log. */
  datatype Database = Database(tables: Tasks.Db, log: seq<EventLog.Row>)

  /** Events serialise to valid JSON and belong to their task. */
  ghost predicate Serialises(st: Storage) {
    forall e :: st.codec.canon(st.encode(e).raw).Some? && st.encode(e).taskId == e.id
  }

  function Encoded(st: Storage, events: seq<Tasks.Event>): seq<EventWriters.Event> {
    seq(|events|, i requires 0 <= i < |events| => st.encode(events[i]))
  }

  /** The events that one state of the tables has and an earlier one has not. */
  function NewEvents(before: Tasks.Db, after: Tasks.Db): seq<Tasks.Event> {
    if |before.events| <= |after.events| then after.events[|before.events|..] else []
  }

  /** One transaction of a command: the tables change, and each event it adds is appended to the chain. */
  function LoggedOnce(st: Storage, d: Database, c: Tasks.Command, fault: Option<Tasks.DbError>)
    : (Database, Result<(), Tasks.DbError>)
  {
    var (after, r) := Tasks.Once(d.tables, c, fault);
    (Database(after, EventWriters.AppendAll(st.codec, d.log, Encoded(st, NewEvents(d.tables, after)))), r)
  }

  function LoggedProtocol(st: Storage): Protocol<Database, Tasks.Command, Tasks.DbError, Option<Tasks.DbError>> {
    Protocol((d: Database, c: Tasks.Command, fault: Option<Tasks.DbError>) => LoggedOnce(st, d, c, fault),
             Tasks.Busy, (c: Tasks.Command) => Tasks.MAX_ATTEMPTS,
             (d: Database, c: Tasks.Command) => Tasks.Refusal(d.tables, c).None?,
             (d: Database, c: Tasks.Command) => LoggedOnce(st, d, c, None).0)
  }

  /** Any number of calls whose attempts interleave, each attempt one transaction on tables and log. */
  function LoggedRun(st: Storage, d: Database, calls: seq<Tasks.Command>, schedule: TaskHistory.Schedule)
    : World<Database, Tasks.Command, Tasks.DbError>
  {
    Run(LoggedProtocol(st), Begin(d, calls), schedule)
  }

  function TaskRun(db: Tasks.Db, calls: seq<Tasks.Command>, schedule: TaskHistory.Schedule)
    : World<Tasks.Db, Tasks.Command, Tasks.DbError>
  {
    Run(Tasks.TaskProtocol(), Begin(db, calls), schedule)
  }

  // ---- one transaction ----

  lemma EventsOnlyGrow(db: Tasks.Db, c: Tasks.Command, fault: Option<Tasks.DbError>)
    ensures db.events <= Tasks.Once(db, c, fault).0.events
  {
  }

  /** The log is that of the start with all later events appended. */
  ghost predicate Follows(st: Storage, start: Database, d: Database) {
    && start.tables.events <= d.tables.events
    && d.log == EventWriters.AppendAll(st.codec, start.log, Encoded(st, NewEvents(start.tables, d.tables)))
  }

  lemma OnceKeepsFollowing(st: Storage, start: Database, d: Database, c: Tasks.Command, fault: Option<Tasks.DbError>)
    requires Follows(st, start, d)
    ensures Follows(st, start, LoggedOnce(st, d, c, fault).0)
  {
    var after := LoggedOnce(st, d, c, fault).0;
    EventsOnlyGrow(d.tables, c, fault);
    hide Tasks.Once, EventWriters.AppendAll;
    var earlier, later := NewEvents(start.tables, d.tables), NewEvents(d.tables, after.tables);
    assert NewEvents(start.tables, after.tables) == earlier + later;
    assert Encoded(st, earlier + later) == Encoded(st, earlier) + Encoded(st, later);
    EventWriters.AppendAllSplits(st.codec, start.log, Encoded(st, earlier), Encoded(st, later));
  }

  // ---- every run ----

  /** Writing the log changes nothing about the tables or the answers of a run, and at every moment the log holds
      exactly the committed events. */
  lemma {:induction false} LogFollowsTheRun(st: Storage, d: Database, calls: seq<Tasks.Command>, schedule: TaskHistory.Schedule)
    ensures var w, t := LoggedRun(st, d, calls, schedule), TaskRun(d.tables, calls, schedule);
            && w.state.tables == t.state && w.callers == t.callers && w.commits == t.commits
            && Follows(st, d, w.state)
  {
    hide Tasks.Once, EventWriters.AppendAll;
    if schedule == [] {
      assert NewEvents(d.tables, d.tables) == [] && Encoded(st, []) == [];
      EventWriters.AppendNothing(st.codec, d.log);
    } else {
      var n := |schedule| - 1;
      LogFollowsTheRun(st, d, calls, schedule[..n]);
      var w := LoggedRun(st, d, calls, schedule[..n]);
      var i, fault := schedule[n].caller, schedule[n].fault;
      if i < |w.callers| && w.callers[i].phase.Trying? {
        OnceKeepsFollowing(st, d, w.state, w.callers[i].call, fault);
      }
    }
  }

  /** Row `first + i` belongs to the task of event `i` and holds its canonical form. */
  ghost predicate RowsHold(st: Storage, log: seq<EventLog.Row>, first: nat, events: seq<Tasks.Event>) {
    && |log| == first + |events|
    && forall i :: 0 <= i < |events| ==>
         var row := log[first + i];
         row.taskId == events[i].id && Some(row.payload) == st.codec.canon(st.encode(events[i]).raw)
  }

  lemma OneMoreRow(st: Storage, rows: seq<EventLog.Row>, events: seq<Tasks.Event>) returns (row: EventLog.Row)
    requires Serialises(st) && events != []
    ensures var e := events[|events| - 1];
            row.taskId == e.id && Some(row.payload) == st.codec.canon(st.encode(e).raw)
    ensures EventWriters.AppendAll(st.codec, rows, Encoded(st, events)) ==
            EventWriters.AppendAll(st.codec, rows, Encoded(st, events[..|events| - 1])) + [row]
  {
    var n := |events| - 1;
    assert Encoded(st, events)[..n] == Encoded(st, events[..n]);
    row := EventWriters.NextRow(st.codec, EventWriters.AppendAll(st.codec, rows, Encoded(st, events[..n])), st.encode(events[n]));
  }

  lemma NothingStored(st: Storage, rows: seq<EventLog.Row>)
    ensures EventWriters.AppendAll(st.codec, rows, Encoded(st, [])) == rows && RowsHold(st, rows, |rows|, [])
  {
    EventWriters.AppendNothing(st.codec, rows);
    assert Encoded(st, []) == [];
  }

  lemma RowsHoldOneMore(st: Storage, log: seq<EventLog.Row>, first: nat, events: seq<Tasks.Event>, row: EventLog.Row)
    requires events != [] && RowsHold(st, log, first, events[..|events| - 1])
    requires var e := events[|events| - 1];
             row.taskId == e.id && Some(row.payload) == st.codec.canon(st.encode(e).raw)
    ensures RowsHold(st, log + [row], first, events)
  {
    forall i | 0 <= i < |events|
      ensures var r := (log + [row])[first + i];
              r.taskId == events[i].id && Some(r.payload) == st.codec.canon(st.encode(events[i]).raw)
    {
      if i < |events| - 1 {
        assert events[..|events| - 1][i] == events[i] && (log + [row])[first + i] == log[first + i];
      }
    }
  }

  lemma {:induction false} StoredRowByRow(st: Storage, rows: seq<EventLog.Row>, events: seq<Tasks.Event>)
    requires Serialises(st)
    ensures var log := EventWriters.AppendAll(st.codec, rows, Encoded(st, events));
            rows <= log && RowsHold(st, log, |rows|, events)
  {
    hide EventWriters.AppendAll, Encoded, Serialises, RowsHold;
    if events == [] {
      NothingStored(st, rows);
    } else {
      var n := |events| - 1;
      StoredRowByRow(st, rows, events[..n]);
      var row := OneMoreRow(st, rows, events);
      RowsHoldOneMore(st, EventWriters.AppendAll(st.codec, rows, Encoded(st, events[..n])), |rows|, events, row);
    }
  }

  /** From any tables with an intact log, and for any run of any number of task calls: earlier rows stay, the
      auditor answers Intact, and behind them are exactly the events the run committed, in order, each row with
      the canonical form of its event. */
  lemma TaskRunsAuditIntact(st: Storage, d: Database, calls: seq<Tasks.Command>, schedule: TaskHistory.Schedule)
    requires Serialises(st) && EventLog.CanonIdempotent(st.codec) && EventLog.IsIntact(st.codec, d.log)
    ensures var after := LoggedRun(st, d, calls, schedule).state;
            var committed := NewEvents(d.tables, TaskRun(d.tables, calls, schedule).state);
            && EventLog.Verdict(st.codec, after.log) == Ok(EventLog.Intact(|d.log| + |committed|))
            && d.log <= after.log && RowsHold(st, after.log, |d.log|, committed)
  {
    LogFollowsTheRun(st, d, calls, schedule);
    hide LoggedRun, TaskRun, EventWriters.AppendAll, Serialises, EventLog.CanonIdempotent, EventLog.IsIntact,
         EventLog.Verdict, Encoded;
    var after := LoggedRun(st, d, calls, schedule).state;
    var committed := NewEvents(d.tables, after.tables);
    StoredRowByRow(st, d.log, committed);
    EventWriters.AppendAllKeepsIntact(st.codec, d.log, Encoded(st, committed));
    EventLog.AuditDecidesIntact(st.codec, after.log);
  }
}

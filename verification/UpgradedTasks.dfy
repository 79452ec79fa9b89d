/** Task histories that do not start from an empty database: what an upgrade leaves behind stays as it was. */
module UpgradedTasks {
  import opened Wrappers
  import opened Callers
  import opened Tasks
  import opened TaskHistory

  /** The tables after a run of calls on an existing database. */
  function TablesFrom(db: Db, calls: seq<Command>, schedule: Schedule): Db {
    Run(TaskProtocol(), Begin(db, calls), schedule).state
  }

  /** A row that `count_tasks_without_added_event` counts. */
  ghost predicate Unadded(db: Db, id: int) {
    id in db.tasks && forall i :: 0 <= i < |db.events| && db.events[i].TaskAdded? ==> db.events[i].id != id
  }

  lemma CommandAndUnadded(db: Db, c: Command, id: int)
    ensures Unadded(Committed(db, c), id) ==> Unadded(db, id)
    ensures id < db.nextId && Unadded(db, id) ==> Unadded(Committed(db, c), id)
    ensures Committed(db, c).nextId >= db.nextId
  {
    var after := Committed(db, c);
    if after.events != db.events {
      var e := after.events[|db.events|];
      assert after.events == db.events + [e];
      assert e.TaskAdded? <==> c.Add?;
      assert after.tasks.Keys == db.tasks.Keys + {e.id};
      assert forall i :: 0 <= i < |db.events| ==> after.events[i] == db.events[i];
    }
  }

  lemma {:induction false} OrderAndUnadded(db: Db, order: seq<Command>, id: int)
    ensures var after := Applied(TaskProtocol(), db, order);
            && (Unadded(after, id) ==> Unadded(db, id))
            && (id < db.nextId && Unadded(db, id) ==> Unadded(after, id))
            && after.nextId >= db.nextId
  {
    if order != [] {
      var n := |order| - 1;
      var before := Applied(TaskProtocol(), db, order[..n]);
      OrderAndUnadded(db, order[..n], id);
      assert Applied(TaskProtocol(), db, order) == Committed(before, order[n]);
      hide Committed, Unadded;
      CommandAndUnadded(before, order[n], id);
    }
  }

  /** From every database, and however calls interleave, no task is created without its Added event; what lacked
      one at the start lacks it ever after. */
  lemma UnaddedNeverChanges(db: Db, calls: seq<Command>, schedule: Schedule, id: int)
    ensures Unadded(TablesFrom(db, calls, schedule), id) ==> Unadded(db, id)
    ensures id < db.nextId ==> (Unadded(TablesFrom(db, calls, schedule), id) <==> Unadded(db, id))
  {
    var order := RunFromIsSerial(db, calls, schedule);
    OrderAndUnadded(db, order, id);
  }

  // ---- a database that is older than the event log ----

  /** The one event that the migration writes for a task it finds. */
  function Synthetic(id: int, t: Task): Event {
    match t.status
    case Pending => TaskAdded(id, t.title, t.method_)
    case InProgress => TaskAdvanced(id, t.index)
    case Done => TaskCompleted(id)
    case Failed => TaskFailed(id)
  }

  /** Just upgraded: every task has its synthetic event and there are no others. */
  ghost predicate Upgraded(db: Db) {
    && db.nextId > 0
    && (forall id :: id in db.tasks ==> 0 < id < db.nextId)
    && forall id :: EventsOf(db.events, id) == if id in db.tasks then [Synthetic(id, db.tasks[id])] else []
  }

  lemma {:induction false} EventsHaveTheirTask(events: seq<Event>, i: nat)
    requires i < |events|
    ensures events[i] in EventsOf(events, events[i].id)
  {
    var n := |events| - 1;
    if i < n {
      EventsHaveTheirTask(events[..n], i);
    }
  }

  lemma UpgradedUnadded(db: Db, id: int)
    requires Upgraded(db)
    ensures Unadded(db, id) <==> id in db.tasks && !db.tasks[id].status.Pending?
  {
    if id in db.tasks {
      var e := Synthetic(id, db.tasks[id]);
      assert EventsOf(db.events, id) == [e];
      EventsOfAreEvents(db.events, id, e);
      var k :| 0 <= k < |db.events| && db.events[k] == e;
      forall i | 0 <= i < |db.events| && db.events[i].id == id
        ensures db.events[i] == e
      {
        EventsHaveTheirTask(db.events, i);
      }
    }
  }

  /** The count is documented to prove an out-of-band write when it is not zero. After an upgrade it counts, for
      ever, exactly the tasks that were no longer pending then: their synthetic event is not an Added one. */
  lemma CountedForeverIff(db: Db, calls: seq<Command>, schedule: Schedule, id: int)
    requires Upgraded(db)
    ensures Unadded(TablesFrom(db, calls, schedule), id) <==> id in db.tasks && !db.tasks[id].status.Pending?
  {
    UnaddedNeverChanges(db, calls, schedule, id);
    UpgradedUnadded(db, id);
  }

  /** Tasks that were still pending, and all tasks created later, live by their events as in a
      database without a past. */
  lemma LaterTasksLiveByTheirEvents(db: Db, calls: seq<Command>, schedule: Schedule, id: int)
    requires Upgraded(db) && (id in db.tasks ==> db.tasks[id].status.Pending?)
    ensures var after := TablesFrom(db, calls, schedule);
            if id in after.tasks then Lifecycle(EventsOf(after.events, id), id, after.tasks[id])
            else EventsOf(after.events, id) == []
  {
    var order := RunFromIsSerial(db, calls, schedule);
    assert FreshIds(db);
    assert OnTrack(db, id);
    HistoryKeepsTrack(db, order, id);
  }
}

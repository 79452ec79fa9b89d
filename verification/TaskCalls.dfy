/** What the task tables hold, read off the calls that committed and nothing else. */
module TaskCalls {
  import opened Wrappers
  import opened Callers
  import opened Tasks
  import opened TaskHistory

  /** The tasks of the Add calls, in commit order: the `n`-th creates task `n`. */
  function Added(order: seq<Command>): seq<NewTask> {
    if order == [] then []
    else
      var c := order[|order| - 1];
      Added(order[..|order| - 1]) + if c.Add? then [c.task] else []
  }

  /** How many Advance calls name the task. */
  function Advanced(order: seq<Command>, id: int): nat {
    if order == [] then 0
    else
      var c := order[|order| - 1];
      Advanced(order[..|order| - 1], id) + if c.Advance? && c.id == id then 1 else 0
  }

  /** The statuses that Finish calls asked for the task. */
  function Finished(order: seq<Command>, id: int): seq<TaskState> {
    if order == [] then []
    else
      var c := order[|order| - 1];
      Finished(order[..|order| - 1], id) + if c.Finish? && c.id == id then [c.status] else []
  }

  function Recorded(order: seq<Command>): seq<Beat> {
    if order == [] then []
    else
      var c := order[|order| - 1];
      Recorded(order[..|order| - 1]) + if c.Record? then [c.beat] else []
  }

  predicate Created(order: seq<Command>, id: int) {
    0 < id <= |Added(order)|
  }

  function IndexOf(order: seq<Command>, id: int): int
    requires Created(order, id)
  {
    Added(order)[id - 1].index + Advanced(order, id)
  }

  /** A task is what its Add call gave it, moved on by its Advance calls and ended by its Finish call. */
  ghost predicate RowFollows(order: seq<Command>, id: int, t: Task)
    requires Created(order, id)
  {
    var given, ends := Added(order)[id - 1], Finished(order, id);
    && t.title == given.title && t.method_ == given.method_
    && t.parent == given.parent && t.precondition == given.precondition
    && t.index == IndexOf(order, id)
    && |ends| <= 1
    && (if ends != [] then t.status == ends[0] && Terminal(ends[0])
        else if Advanced(order, id) > 0 then t.status == InProgress
        else t.status == Pending)
  }

  /** Whether `e` is the event of call `c`, the calls `before` having committed. */
  ghost predicate Tells(before: seq<Command>, c: Command, e: Event) {
    match c
    case Add(task) => e == TaskAdded(|Added(before)| + 1, task.title, task.method_)
    case Advance(id, _) => Created(before, id) && e == TaskAdvanced(id, IndexOf(before, id) + 1)
    case Finish(id, Done, _) => e == TaskCompleted(id)
    case Finish(id, Failed, _) => e == TaskFailed(id)
    case _ => false
  }

  /** One event for each call that is no beat, in commit order. */
  ghost predicate Told(order: seq<Command>, events: seq<Event>) {
    if order == [] then events == []
    else
      var n := |order| - 1;
      if order[n].Record? then Told(order[..n], events)
      else
        && events != [] && Tells(order[..n], order[n], events[|events| - 1])
        && Told(order[..n], events[..|events| - 1])
  }

  ghost predicate RowsFollow(order: seq<Command>, db: Db) {
    && db.nextId == |Added(order)| + 1
    && forall id :: RowFollowsAt(order, db, id)
  }

  ghost predicate RowFollowsAt(order: seq<Command>, db: Db, id: int) {
    if Created(order, id) then id in db.tasks && RowFollows(order, id, db.tasks[id])
    else id !in db.tasks && Advanced(order, id) == 0 && Finished(order, id) == []
  }

  ghost predicate Follows(order: seq<Command>, db: Db) {
    && RowsFollow(order, db)
    && Told(order, db.events)
    && db.beats == Recorded(order)
  }

  lemma OneMoreCall(before: seq<Command>, c: Command, id: int)
    ensures var more := before + [c];
            && Added(more) == Added(before) + (if c.Add? then [c.task] else [])
            && Advanced(more, id) == Advanced(before, id) + (if c.Advance? && c.id == id then 1 else 0)
            && Finished(more, id) == Finished(before, id) + (if c.Finish? && c.id == id then [c.status] else [])
            && Recorded(more) == Recorded(before) + (if c.Record? then [c.beat] else [])
  {
    assert (before + [c])[..|before|] == before;
  }

  lemma RowKeepsFollowing(before: seq<Command>, db: Db, c: Command, id: int)
    requires RowFollowsAt(before, db, id) && db.nextId == |Added(before)| + 1 && Refusal(db, c).None?
    ensures RowFollowsAt(before + [c], Effect(db, c), id)
  {
    OneMoreCall(before, c, id);
    hide Added, Advanced, Finished, CheckGates, CheckGate;
    var after := Effect(db, c);
    if Concerns(db, c, id) {
      NamedRow(db, c);
      hide Refusal, Effect;
    } else {
      OtherRows(db, c, id);
      hide Refusal, Effect;
      assert Created(before + [c], id) <==> Created(before, id);
    }
  }

  /** The call names the task or creates it. */
  predicate Concerns(db: Db, c: Command, id: int) {
    match c
    case Add(_) => id == db.nextId
    case Advance(target, _) => id == target
    case Finish(target, _, _) => id == target
    case Record(_) => false
  }

  lemma OtherRows(db: Db, c: Command, id: int)
    requires Refusal(db, c).None? && !Concerns(db, c, id)
    ensures id in db.tasks <==> id in Effect(db, c).tasks
    ensures id in db.tasks ==> Effect(db, c).tasks[id] == db.tasks[id]
  {
  }

  /** What a committed call makes of the one row it concerns. */
  lemma NamedRow(db: Db, c: Command)
    requires Refusal(db, c).None? && !c.Record?
    ensures var id := if c.Add? then db.nextId else c.id;
            var after := Effect(db, c).tasks;
            && id in after && (!c.Add? ==> id in db.tasks && !Terminal(db.tasks[id].status))
            && match c
               case Add(t) => after[id] == Task(t.parent, t.title, t.method_, t.index, Pending, t.precondition)
               case Advance(_, _) => after[id] == db.tasks[id].(index := db.tasks[id].index + 1, status := InProgress)
               case Finish(_, status, _) => Terminal(status) && after[id] == db.tasks[id].(status := status)
  {
  }

  lemma NewEvent(before: seq<Command>, db: Db, c: Command)
    requires RowsFollow(before, db) && Refusal(db, c).None? && !c.Record?
    ensures var events := Effect(db, c).events;
            events != [] && events[..|events| - 1] == db.events && Tells(before, c, events[|events| - 1])
  {
    hide Added, Advanced, Finished, CheckGates, CheckGate;
    if c.Advance? {
      assert RowFollowsAt(before, db, c.id);
    }
    hide RowsFollow, RowFollowsAt;
    assert Effect(db, c).events[..|db.events|] == db.events;
  }

  lemma EventsKeepFollowing(before: seq<Command>, db: Db, c: Command)
    requires RowsFollow(before, db) && Told(before, db.events) && Refusal(db, c).None?
    ensures Told(before + [c], Effect(db, c).events)
  {
    var more := before + [c];
    assert more[..|more| - 1] == before;
    if c.Record? {
      EffectOnTheRest(db, c);
    } else {
      NewEvent(before, db, c);
    }
    hide Tells, RowsFollow, Refusal, Effect;
  }

  lemma CommitKeepsFollowing(before: seq<Command>, db: Db, c: Command)
    requires Follows(before, db) && Refusal(db, c).None?
    ensures Follows(before + [c], Effect(db, c))
  {
    hide Told, Added, Advanced, Finished, Recorded, RowFollowsAt, Refusal, Effect;
    EventsKeepFollowing(before, db, c);
    OneMoreCall(before, c, 0);
    EffectOnTheRest(db, c);
    forall id
      ensures RowFollowsAt(before + [c], Effect(db, c), id)
    {
      RowKeepsFollowing(before, db, c, id);
    }
  }

  lemma {:induction false} OrderFollows(order: seq<Command>)
    requires Serial(TaskProtocol(), EMPTY, order)
    ensures Follows(order, After(order))
  {
    if order != [] {
      hide Serial, Follows, Refusal, Effect;
      var n := |order| - 1;
      SerialPrefix(TaskProtocol(), EMPTY, order, n);
      OrderFollows(order[..n]);
      assert Refusal(After(order[..n]), order[n]).None?;
      assert After(order) == Effect(After(order[..n]), order[n]);
      CommitKeepsFollowing(order[..n], After(order[..n]), order[n]);
      assert order == order[..n] + [order[n]];
    }
  }

  lemma EffectOnTheRest(db: Db, c: Command)
    requires Refusal(db, c).None?
    ensures Effect(db, c).nextId == db.nextId + (if c.Add? then 1 else 0)
    ensures c.Record? ==> Effect(db, c).events == db.events
    ensures Effect(db, c).beats == db.beats + (if c.Record? then [c.beat] else [])
  {
  }

  /** In every run task `n` is there exactly when at least `n` Add calls committed. Its title, method, parent and
      precondition are those of the `n`-th, its index counts on from it once for each committed Advance that names
      it, and it is terminal exactly when one committed Finish names it, the only one, with the status that call asked
      for. The events tell of the committed calls one by one, and the beats are those recorded. */
  lemma TablesAreTheirCalls(calls: seq<Command>, schedule: Schedule) returns (order: seq<Command>)
    ensures var w := Reached(calls, schedule);
            && CallersInv(TaskProtocol(), calls, w)
            && order == Order(calls, w.commits) && Follows(order, w.state)
  {
    order := RunIsSerial(calls, schedule);
    OrderFollows(order);
  }

  /** The terminal status of a task is that of the one committed call that finished it. */
  lemma FinishedAsAsked(calls: seq<Command>, schedule: Schedule, id: int) returns (j: nat)
    requires var db := TablesAfter(calls, schedule); id in db.tasks && Terminal(db.tasks[id].status)
    ensures var w := Reached(calls, schedule);
            && j < |w.commits| && w.commits[j] < |calls|
            && calls[w.commits[j]].Finish? && calls[w.commits[j]].id == id
            && calls[w.commits[j]].status == w.state.tasks[id].status
            && forall k :: 0 <= k < |w.commits| && w.commits[k] < |calls| ==>
                 var c := calls[w.commits[k]]; c.Finish? && c.id == id ==> k == j
  {
    var order := TablesAreTheirCalls(calls, schedule);
    assert RowFollowsAt(order, TablesAfter(calls, schedule), id);
    assert forall k :: 0 <= k < |order| ==> order[k] == calls[Reached(calls, schedule).commits[k]];
    hide Finished, Added, Advanced, RowsFollow, Told, Reached;
    j := OnlyFinish(order, id);
  }

  lemma {:induction false} NoFinish(order: seq<Command>, id: int)
    requires Finished(order, id) == []
    ensures forall k :: 0 <= k < |order| && order[k].Finish? ==> order[k].id != id
  {
    if order != [] {
      NoFinish(order[..|order| - 1], id);
    }
  }

  lemma {:induction false} OnlyFinish(order: seq<Command>, id: int) returns (j: nat)
    requires |Finished(order, id)| == 1
    ensures j < |order| && order[j].Finish? && order[j].id == id && order[j].status == Finished(order, id)[0]
    ensures forall k :: 0 <= k < |order| && order[k].Finish? && order[k].id == id ==> k == j
  {
    var n := |order| - 1;
    if order[n].Finish? && order[n].id == id {
      j := n;
      NoFinish(order[..n], id);
    } else {
      j := OnlyFinish(order[..n], id);
    }
  }
}

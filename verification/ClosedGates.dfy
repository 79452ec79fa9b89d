/** Which gated commands can commit at all, once retries let other connections in between the attempts. */
module ClosedGates {
  import opened Wrappers
  import opened Tasks
  import opened TaskHistory
  import Retry

  function BusyOnce(): nat -> Option<DbError> {
    (k: nat) => if k == 0 then Some(Busy) else None
  }

  function Always(cs: seq<Command>): nat -> seq<Command> {
    (k: nat) => cs
  }

  // ---- a call that finds its way open at the second attempt ----

  /** One busy attempt, the rivals, and then an attempt that passes every guard. */
  lemma SecondAttemptCommits(db: Db, c: Command, rivals: seq<Command>)
    requires c.Finish? ==> Terminal(c.status)
    requires Refusal(AllCommitted(db, rivals), c).None?
    ensures Called(db, c, BusyOnce(), Always(rivals)) ==
            (Effect(AllCommitted(db, rivals), c), Ok(()))
  {
    var seen := AllCommitted(db, rivals);
    hide Effect, AllCommitted, Refusal;
    assert Between(Always(rivals))(db, 0) == seen;
    assert Attempt(c, BusyOnce())(db, 0) == Once(db, c, Some(Busy)) == (db, Err(Busy));
    assert Attempt(c, BusyOnce())(seen, 1) == Once(seen, c, None) == (Effect(seen, c), Ok(()));
    hide Attempt, Between, Once;
    assert Retry.Retried(Attempt(c, BusyOnce()), Busy, Between(Always(rivals)), seen, 1, MAX_ATTEMPTS) ==
           (Effect(seen, c), Ok(()));
  }

  /** The guards are those of the attempt that commits, not of the call: with its gate closed at the first,
      busy attempt, a completion still commits when another connection records an ok beat before the next. */
  lemma GateMayOpenBetweenAttempts(task: NewTask)
    requires task.parent.None?
    ensures var db := Effect(EMPTY, Add(task));
            var c, beat := Finish(1, Done, ["t"]), Record(Beat(Some(1), true, "t", "ok"));
            && !GateOpen(db, 1, "t") && Refusal(db, beat).None?
            && Refusal(Effect(db, beat), c).None?
            && Called(db, c, BusyOnce(), Always([beat])) == (Effect(Effect(db, beat), c), Ok(()))
  {
    var db := Effect(EMPTY, Add(task));
    var c, beat := Finish(1, Done, ["t"]), Record(Beat(Some(1), true, "t", "ok"));
    var seen := Effect(db, beat);
    assert GateOpen(seen, 1, "t");
    assert CheckGates(seen, 1, ["t"]).None?;
    assert Refusal(seen, c).None?;
    assert AllCommitted(db, [beat]) == seen by {
      assert [beat][..0] == [];
    }
    hide CheckGates, GateOpen, Effect, AllCommitted, Refusal;
    SecondAttemptCommits(db, c, [beat]);
  }

  // ---- tasks no command can bring to life ----

  /** The task can still be worked on, or its id has not been given out yet. */
  predicate MayLive(db: Db, id: int) {
    db.nextId <= id || (id in db.tasks && !Terminal(db.tasks[id].status))
  }

  lemma CommandRevivesNoTask(db: Db, c: Command, id: int)
    requires MayLive(Committed(db, c), id)
    ensures MayLive(db, id)
  {
  }

  lemma {:induction false} CommandsReviveNoTask(db: Db, cs: seq<Command>, id: int)
    requires MayLive(AllCommitted(db, cs), id)
    ensures MayLive(db, id)
  {
    hide Committed, MayLive;
    if cs != [] {
      var n := |cs| - 1;
      CommandRevivesNoTask(AllCommitted(db, cs[..n]), cs[n], id);
      CommandsReviveNoTask(db, cs[..n], id);
    }
  }

  lemma {:induction false} WaitingRevivesNoTask(db: Db, rivals: nat -> seq<Command>, k: nat, id: int)
    requires MayLive(Retry.Seen(Between(rivals), db, 0, k), id)
    ensures MayLive(db, id)
  {
    hide AllCommitted, MayLive;
    if k > 0 {
      var before := Retry.Seen(Between(rivals), db, 0, k - 1);
      assert Between(rivals)(before, k - 1) == AllCommitted(before, rivals(k - 1));
      CommandsReviveNoTask(before, rivals(k - 1), id);
      WaitingRevivesNoTask(db, rivals, k - 1, id);
    }
  }

  // ---- rivals that clear the way ----

  function Adds(n: nat): seq<Command> {
    if n == 0 then [] else Adds(n - 1) + [Add(NewTask("", None, 0, None, None))]
  }

  function OkBeats(id: int, sensors: seq<string>): seq<Command> {
    seq(|sensors|, i requires 0 <= i < |sensors| => Record(Beat(Some(id), true, sensors[i], "ok")))
  }

  lemma {:induction false} CommittedInTwoParts(db: Db, first: seq<Command>, second: seq<Command>)
    ensures AllCommitted(db, first + second) == AllCommitted(AllCommitted(db, first), second)
  {
    hide Committed;
    if second == [] {
      assert first + second == first;
    } else {
      var n := |second| - 1;
      assert (first + second)[..|first + second| - 1] == first + second[..n];
      CommittedInTwoParts(db, first, second[..n]);
    }
  }

  /** Enough additions give out the next ids, each to a pending task. */
  lemma {:induction false} AddsReach(db: Db, n: nat)
    ensures var after := AllCommitted(db, Adds(n));
            && after.nextId == db.nextId + n
            && forall id :: db.nextId <= id < db.nextId + n ==> id in after.tasks && after.tasks[id].status == Pending
  {
    if n > 0 {
      AddsReach(db, n - 1);
      var cs := Adds(n);
      assert cs[..n - 1] == Adds(n - 1) by {
        AddsCount(n - 1);
      }
    }
  }

  lemma {:induction false} AddsCount(n: nat)
    ensures |Adds(n)| == n
  {
    if n > 0 {
      AddsCount(n - 1);
    }
  }

  /** An ok beat for each sensor opens all their gates and changes no task. */
  lemma {:induction false} BeatsOpenGates(db: Db, id: int, sensors: seq<string>)
    requires id in db.tasks
    ensures var after := AllCommitted(db, OkBeats(id, sensors));
            && after.tasks == db.tasks
            && forall s :: s in sensors ==> GateOpen(after, id, s)
  {
    if sensors != [] {
      var n := |sensors| - 1;
      BeatsOpenGates(db, id, sensors[..n]);
      assert OkBeats(id, sensors)[..n] == OkBeats(id, sensors[..n]);
      var before := AllCommitted(db, OkBeats(id, sensors[..n]));
      var after := AllCommitted(db, OkBeats(id, sensors));
      assert after == Effect(before, Record(Beat(Some(id), true, sensors[n], "ok")));
      assert after.beats[..|before.beats|] == before.beats;
      hide AllCommitted, OkBeats;
      forall s | s in sensors
        ensures GateOpen(after, id, s)
      {
        assert s == sensors[n] || (s in sensors[..n] && GateOpen(before, id, s));
      }
    }
  }

  /** How many additions give out the id. */
  function Missing(db: Db, id: int): nat {
    if id < db.nextId then 0 else id + 1 - db.nextId
  }

  /** Commands of other connections after which the command passes all its guards. */
  function WayOpened(db: Db, c: Command): seq<Command>
    requires c.Advance? || c.Finish?
  {
    Adds(Missing(db, c.id)) + OkBeats(c.id, Required(c))
  }

  lemma AddsMakeTheTaskLive(db: Db, id: int)
    requires MayLive(db, id)
    ensures var ready := AllCommitted(db, Adds(Missing(db, id)));
            id in ready.tasks && !Terminal(ready.tasks[id].status)
  {
    hide Committed;
    AddsReach(db, Missing(db, id));
  }

  lemma OpenWayPasses(db: Db, c: Command)
    requires (c.Advance? || c.Finish?) && (c.Finish? ==> Terminal(c.status)) && MayLive(db, c.id)
    ensures Refusal(AllCommitted(db, WayOpened(db, c)), c).None?
  {
    hide Refusal, AllCommitted, GateOpen, MayLive, Missing, Adds;
    var adds, beats := Adds(Missing(db, c.id)), OkBeats(c.id, Required(c));
    CommittedInTwoParts(db, adds, beats);
    AddsMakeTheTaskLive(db, c.id);
    BeatsOpenGates(AllCommitted(db, adds), c.id, Required(c));
    PassesWithGatesOpen(AllCommitted(db, WayOpened(db, c)), c);
  }

  lemma PassesWithGatesOpen(db: Db, c: Command)
    requires (c.Advance? || c.Finish?) && (c.Finish? ==> Terminal(c.status))
    requires c.id in db.tasks && !Terminal(db.tasks[c.id].status) && forall s :: s in Required(c) ==> GateOpen(db, c.id, s)
    ensures Refusal(db, c).None?
  {
    assert c.Advance? && c.sensor.Some? ==> Required(c)[0] == c.sensor.value;
    hide GateOpen;
    assert c.Advance? && c.sensor.Some? ==> GateOpen(db, c.id, c.sensor.value);
  }

  // ---- exactly which calls can commit ----

  /** A closed gate does not decide a call. Under some faults and some commands of other connections an advance
      or completion commits if and only if it asks for a terminal status (a completion) and its task is live or
      its id still to be given out; whatever the beats say when it is called. */
  lemma MayCommitIff(db: Db, c: Command)
    requires c.Advance? || c.Finish?
    ensures (exists faults: nat -> Option<DbError>, rivals: nat -> seq<Command> :: Called(db, c, faults, rivals).1.Ok?) <==>
            (c.Finish? ==> Terminal(c.status)) && MayLive(db, c.id)
  {
    hide Called, MayLive, WayOpened;
    forall faults: nat -> Option<DbError>, rivals: nat -> seq<Command> | Called(db, c, faults, rivals).1.Ok?
      ensures (c.Finish? ==> Terminal(c.status)) && MayLive(db, c.id)
    {
      CommittedWasLive(db, c, faults, rivals);
    }
    if (c.Finish? ==> Terminal(c.status)) && MayLive(db, c.id) {
      OpenWayPasses(db, c);
      SecondAttemptCommits(db, c, WayOpened(db, c));
      assert Called(db, c, BusyOnce(), Always(WayOpened(db, c))).1.Ok?;
    }
  }

  lemma CommittedWasLive(db: Db, c: Command, faults: nat -> Option<DbError>, rivals: nat -> seq<Command>)
    requires (c.Advance? || c.Finish?) && Called(db, c, faults, rivals).1.Ok?
    ensures (c.Finish? ==> Terminal(c.status)) && MayLive(db, c.id)
  {
    var k := CallsAreAllOrNothing(db, c, faults, rivals);
    hide Called;
    WaitingRevivesNoTask(db, rivals, k, c.id);
  }

  /** With ids below the counter, as the table gives them out, the task is live or does not exist yet. */
  lemma MayLiveBelowTheCounter(db: Db, id: int)
    requires forall i :: i in db.tasks ==> i < db.nextId
    ensures MayLive(db, id) <==> if id in db.tasks then !Terminal(db.tasks[id].status) else db.nextId <= id
  {
  }
}

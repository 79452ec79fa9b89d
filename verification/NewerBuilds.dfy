/** When a newer build runs beside an older one: FutureDatabase after the older one applied migrations. */
module NewerBuilds {
  import opened Wrappers
  import opened Migration
  import opened MigrationOutcomes

  // ---- what a process that applied something and is not done has committed ----

  /** A process that applied a migration and is neither past its catalog nor successful committed one below the
      last it knows. */
  ghost predicate Behind(catalog: seq<Migration>, commits: seq<int>, me: Migrator) {
    && me.known <= |catalog|
    && (me.total > 0 ==>
          || (me.phase.Walking? && me.phase.next == me.known)
          || (me.phase.Returned? && me.phase.result.Ok?)
          || CommittedEarly(catalog, commits, me.known))
  }

  ghost predicate CommittedEarly(catalog: seq<Migration>, commits: seq<int>, known: nat) {
    exists i :: 0 <= i < known - 1 && i < |catalog| && catalog[i].version in commits
  }

  ghost predicate AllBehind(catalog: seq<Migration>, s: State) {
    forall m :: 0 <= m < |s.migrators| ==> Behind(catalog, s.commits, s.migrators[m])
  }

  lemma StepStaysBehind(catalog: seq<Migration>, s: State, m: nat, a: Answer)
    requires Known(catalog, s) && m < |s.migrators| && AllBehind(catalog, s)
    ensures AllBehind(catalog, Step(catalog, s, m, a))
  {
    var t := Step(catalog, s, m, a);
    var me, on := s.migrators[m], t.migrators[m];
    assert Behind(catalog, s.commits, me);
    hide AnyAbove, HighestIs, KnownMax;
    assert forall v :: v in s.commits ==> v in t.commits;
    assert on.known == me.known;
    if on.total > me.total {
      var i := me.phase.next;
      assert catalog[..me.known][i] == catalog[i];
      assert catalog[i].version in t.commits;
      if i + 1 < me.known {
        assert CommittedEarly(catalog, t.commits, me.known);
      }
    } else if CommittedEarly(catalog, s.commits, me.known) {
      assert CommittedEarly(catalog, t.commits, me.known);
    }
    hide Step;
    assert Behind(catalog, t.commits, on);
    forall k | 0 <= k < |t.migrators|
      ensures Behind(catalog, t.commits, t.migrators[k])
    {
      if k != m {
        assert Behind(catalog, s.commits, s.migrators[k]);
        assert t.migrators[k] == s.migrators[k];
      }
    }
  }

  lemma {:induction false} RunStaysBehind(catalog: seq<Migration>, s: State, schedule: seq<Choice>)
    requires Initial(catalog, s) && Known(catalog, s)
    ensures AllBehind(catalog, Run(catalog, s, schedule))
  {
    if schedule != [] {
      var n := |schedule| - 1;
      RunStaysBehind(catalog, s, schedule[..n]);
      var t := Run(catalog, s, schedule[..n]);
      hide AllBehind, Step, Initial;
      if schedule[n].migrator < |t.migrators| {
        StepStaysBehind(catalog, t, schedule[n].migrator, schedule[n].answer);
      }
    }
  }

  // ---- the exact condition ----

  /** The older process still had two migrations to apply, no recorded checksum disagrees, and some other
      process knows more. */
  ghost predicate Overtakable(catalog: seq<Migration>, s: State, m: nat)
    requires m < |s.migrators| && s.migrators[m].known <= |catalog|
  {
    var known := s.migrators[m].known;
    && NoMismatch(catalog, s.rows)
    && known >= 2 && catalog[known - 2].version !in s.rows
    && exists k :: 0 <= k < |s.migrators| && s.migrators[k].known > known
  }

  ghost predicate RefusedAfterApplying(me: Migrator) {
    me.phase.Returned? && me.phase.result.Err? && me.phase.result.error.FutureDatabase? && me.total > 0
  }

  lemma RefusedMeansOvertakable(catalog: seq<Migration>, s: State, schedule: seq<Choice>, m: nat)
    requires Ascending(catalog) && Initial(catalog, s) && Known(catalog, s) && m < |s.migrators|
    requires RefusedAfterApplying(Run(catalog, s, schedule).migrators[m])
    ensures Overtakable(catalog, s, m)
  {
    hide Run, Initial, Inv, AllBehind, OutcomeInv, NewerCommitted, NoMismatch, Ascending, Known;
    var t := Run(catalog, s, schedule);
    RunKeepsInv(catalog, s, schedule);
    RunStaysBehind(catalog, s, schedule);
    RunKeepsOutcome(catalog, s, schedule);
    RefusalsApplyNothing(catalog, s, schedule, m);
    RefusedState(catalog, s.rows, t, m);
    var k :| 0 <= k < |t.migrators| && t.migrators[k].known > t.migrators[m].known;
    assert s.migrators[k].known > s.migrators[m].known;
  }

  lemma RefusedState(catalog: seq<Migration>, start: Table, t: State, m: nat)
    requires Ascending(catalog) && Known(catalog, t) && m < |t.migrators| && RefusedAfterApplying(t.migrators[m])
    requires Inv(catalog, start, t) && AllBehind(catalog, t) && OutcomeInv(catalog, start, t)
    requires NewerCommitted(catalog, t.commits, t.migrators[m].known)
    ensures var known := t.migrators[m].known;
            && NoMismatch(catalog, start) && known >= 2 && catalog[known - 2].version !in start
            && exists k :: 0 <= k < |t.migrators| && t.migrators[k].known > known
  {
    hide NoMismatch, CommittedEarly, NewerCommitted, Ascending, Known, CommitsKnown, TableInv, OkInv;
    var me := t.migrators[m];
    assert TableInv(catalog, start, t.rows, t.commits) && CommitsKnown(catalog, t);
    assert Behind(catalog, t.commits, me) && MigratorInv(catalog, t.rows, t.commits, me);
    hide Inv, AllBehind, OutcomeInv;
    assert CommittedEarly(catalog, t.commits, me.known) && NoMismatch(catalog, t.rows);
    hide Behind, MigratorInv;
    EarlyMeansTwoLeft(catalog, start, t.rows, t.commits, me.known);
    NewerMeansNewerBuild(catalog, t, me.known);
    MismatchesStay(catalog, start, t.rows, t.commits);
  }

  lemma MismatchesStay(catalog: seq<Migration>, start: Table, rows: Table, commits: seq<int>)
    requires TableInv(catalog, start, rows, commits) && NoMismatch(catalog, rows)
    ensures NoMismatch(catalog, start)
  {
  }

  lemma EarlyMeansTwoLeft(catalog: seq<Migration>, start: Table, rows: Table, commits: seq<int>, known: nat)
    requires TableInv(catalog, start, rows, commits) && CommittedEarly(catalog, commits, known) && known <= |catalog|
    ensures known >= 2 && catalog[known - 2].version !in start
  {
    hide Grows, Distinct;
    var i :| 0 <= i < known - 1 && i < |catalog| && catalog[i].version in commits;
    assert catalog[i].version !in start;
  }

  lemma NewerMeansNewerBuild(catalog: seq<Migration>, t: State, known: nat)
    requires Ascending(catalog) && Known(catalog, t) && CommitsKnown(catalog, t) && known <= |catalog|
    requires NewerCommitted(catalog, t.commits, known)
    ensures exists k :: 0 <= k < |t.migrators| && t.migrators[k].known > known
  {
    var v :| v in t.commits && v > KnownMax(catalog[..known]);
    var k :| 0 <= k < |t.migrators| && v in Versions(catalog[..t.migrators[k].known]);
    hide CommitsKnown, Versions;
    var i := VersionIndex(catalog, t.migrators[k].known, v);
    hide Ascending, KnownMax;
    AboveMeansBeyond(catalog, known, i);
  }

  // ---- a run that gets there ----

  /** `schedule` leads from `s` to `t`. */
  ghost predicate Leads(catalog: seq<Migration>, s: State, schedule: seq<Choice>, t: State)
    requires Known(catalog, s)
  {
    Run(catalog, s, schedule) == t
  }

  lemma OneMoreStep(catalog: seq<Migration>, s: State, schedule: seq<Choice>, t: State, m: nat, a: Answer)
    requires Known(catalog, s) && Leads(catalog, s, schedule, t) && m < |t.migrators|
    ensures Known(catalog, t) && Leads(catalog, s, schedule + [Choice(m, a)], Step(catalog, t, m, a))
  {
    RunSnoc(catalog, s, schedule, Choice(m, a));
  }

  /** The migrations from `next` on are either recorded with an agreeing or absent checksum, or not applied. */
  ghost predicate Clear(catalog: seq<Migration>, stored: Table, rows: Table, next: nat) {
    forall i :: next <= i < |catalog| ==>
      var mig := catalog[i];
      if mig.version in stored then stored[mig.version] in {None, Some(mig.checksum)} else mig.version !in rows
  }

  /** One working statement of the walk. */
  lemma WalkOne(catalog: seq<Migration>, t: State, m: nat)
    requires Ascending(catalog) && Known(catalog, t) && m < |t.migrators|
    requires var p := t.migrators[m].phase;
             p.Walking? && p.next < t.migrators[m].known && Clear(catalog, p.stored, t.rows, p.next)
    ensures var u := Step(catalog, t, m, Works);
            var me, on := t.migrators[m], u.migrators[m];
            && u.migrators == t.migrators[m := on] && on.known == me.known && on.attempt == me.attempt
            && on.phase == Walking(me.phase.stored, me.phase.next + 1)
            && on.total >= me.total
            && (catalog[me.phase.next].version !in me.phase.stored ==>
                  on.total > me.total && catalog[me.phase.next].version in u.rows)
            && t.rows.Keys <= u.rows.Keys <= t.rows.Keys + {catalog[me.phase.next].version}
            && Clear(catalog, me.phase.stored, u.rows, me.phase.next + 1)
  {
    var me := t.migrators[m];
    var next := me.phase.next;
    assert catalog[..me.known][next] == catalog[next];
    assert catalog[next].version in me.phase.stored ==> me.phase.stored[catalog[next].version] in {None, Some(catalog[next].checksum)};
    hide AnyAbove, HighestIs, KnownMax;
    var u := Step(catalog, t, m, Works);
    assert u.rows.Keys <= t.rows.Keys + {catalog[next].version};
    forall i | next + 1 <= i < |catalog|
      ensures var mig := catalog[i];
              if mig.version in me.phase.stored then me.phase.stored[mig.version] in {None, Some(mig.checksum)}
              else mig.version !in u.rows
    {
      assert catalog[next].version < catalog[i].version;
    }
  }

  /** A walk without faults from `next` to `upto`. */
  lemma {:induction false} WalkTo(catalog: seq<Migration>, s: State, schedule: seq<Choice>, t: State, m: nat, upto: nat)
    returns (longer: seq<Choice>, u: State)
    requires Ascending(catalog) && Known(catalog, s) && Leads(catalog, s, schedule, t) && m < |t.migrators|
    requires var p := t.migrators[m].phase;
             p.Walking? && p.next <= upto <= t.migrators[m].known && Clear(catalog, p.stored, t.rows, p.next)
    ensures Leads(catalog, s, longer, u) && |u.migrators| == |t.migrators|
    ensures var me, on := t.migrators[m], u.migrators[m];
            && u.migrators == t.migrators[m := on] && on.known == me.known && on.attempt == me.attempt
            && on.phase == Walking(me.phase.stored, upto) && on.total >= me.total
            && Clear(catalog, me.phase.stored, u.rows, upto)
            && t.rows.Keys <= u.rows.Keys
            && (forall v :: v in u.rows ==> v in t.rows || exists i :: 0 <= i < upto && i < |catalog| && catalog[i].version == v)
            && (me.phase.next < upto && catalog[upto - 1].version !in me.phase.stored ==>
                  on.total > me.total && catalog[upto - 1].version in u.rows)
    decreases upto - (if t.migrators[m].phase.Walking? then t.migrators[m].phase.next else 0)
  {
    var me := t.migrators[m];
    var next := me.phase.next;
    if next == upto {
      longer, u := schedule, t;
    } else {
      OneMoreStep(catalog, s, schedule, t, m, Works);
      WalkOne(catalog, t, m);
      var one := Step(catalog, t, m, Works);
      hide Step, Leads, Clear, Ascending, Known;
      assert forall v :: v in one.rows ==> v in t.rows || v == catalog[next].version;
      longer, u := WalkTo(catalog, s, schedule + [Choice(m, Works)], one, m, upto);
      assert u.migrators == t.migrators[m := u.migrators[m]];
      if next + 1 < upto && catalog[upto - 1].version !in me.phase.stored {
        assert u.migrators[m].total > one.migrators[m].total;
      }
    }
  }

  /** Every applied version is among the first `n` of the catalog. */
  ghost predicate Within(catalog: seq<Migration>, rows: Table, n: nat) {
    forall v :: v in rows ==> exists i :: 0 <= i < n && i < |catalog| && catalog[i].version == v
  }

  lemma NoneAbove(catalog: seq<Migration>, rows: Table, n: nat, known: nat)
    requires Ascending(catalog) && Within(catalog, rows, n) && n <= known <= |catalog|
    ensures !AnyAbove(rows, KnownMax(catalog[..known]))
  {
    forall v | v in rows
      ensures v <= KnownMax(catalog[..known])
    {
      var i :| 0 <= i < n && i < |catalog| && catalog[i].version == v;
      assert catalog[..known][known - 1] == catalog[known - 1];
    }
  }

  /** The two reads that begin a call and find nothing newer. */
  lemma Enter(catalog: seq<Migration>, s: State, schedule: seq<Choice>, t: State, m: nat)
    returns (longer: seq<Choice>, u: State)
    requires Known(catalog, s) && Leads(catalog, s, schedule, t) && m < |t.migrators| && t.migrators[m].known <= |catalog|
    requires t.migrators[m].phase == Start && !AnyAbove(t.rows, KnownMax(catalog[..t.migrators[m].known]))
    ensures Leads(catalog, s, longer, u) && u.rows == t.rows
    ensures u.migrators == t.migrators[m := t.migrators[m].(phase := Walking(t.rows, 0))]
  {
    hide AnyAbove, KnownMax, HighestIs;
    OneMoreStep(catalog, s, schedule, t, m, Works);
    var listed := Step(catalog, t, m, Works);
    OneMoreStep(catalog, s, schedule + [Choice(m, Works)], listed, m, Works);
    longer, u := schedule + [Choice(m, Works)] + [Choice(m, Works)], Step(catalog, listed, m, Works);
    hide Leads;
    assert listed.rows == t.rows && listed.migrators[m].phase == Listed;
  }

  lemma ClearAtTheStart(catalog: seq<Migration>, rows: Table)
    requires NoMismatch(catalog, rows)
    ensures Clear(catalog, rows, rows, 0)
  {
  }

  /** The older process applies all but its last migration and meets contention. */
  lemma OlderStalls(catalog: seq<Migration>, s: State, m: nat) returns (schedule: seq<Choice>, t: State)
    requires Ascending(catalog) && Initial(catalog, s) && Known(catalog, s) && m < |s.migrators|
    requires Overtakable(catalog, s, m)
    ensures Leads(catalog, s, schedule, t)
    ensures var known := s.migrators[m].known;
            && t.migrators == s.migrators[m := t.migrators[m]]
            && t.migrators[m].phase == Failed(Busy) && t.migrators[m].attempt == 0 && t.migrators[m].total > 0
            && t.migrators[m].known == known && Within(catalog, t.rows, known - 1)
  {
    var known := s.migrators[m].known;
    PrefixIsWithin(catalog, s.rows, known);
    NoneAbove(catalog, s.rows, known - 2, known);
    ClearAtTheStart(catalog, s.rows);
    assert s.migrators[m].phase == Start && s.migrators[m].attempt == 0 && s.migrators[m].total == 0;
    hide Initial, NoMismatch, AnyAbove, KnownMax, HighestIs, Clear, Overtakable, Within, IsPrefix;
    var entered;
    schedule, entered := Enter(catalog, s, [], s, m);
    hide Leads, Run;
    schedule, t := WalkAndStall(catalog, s, schedule, entered, m);
    assert t.migrators == s.migrators[m := t.migrators[m]];
  }

  lemma WalkAndStall(catalog: seq<Migration>, s: State, schedule: seq<Choice>, entered: State, m: nat)
    returns (longer: seq<Choice>, t: State)
    requires Ascending(catalog) && Known(catalog, s) && Leads(catalog, s, schedule, entered)
    requires m < |entered.migrators| && 2 <= entered.migrators[m].known <= |catalog|
    requires var me := entered.migrators[m];
             && me.phase == Walking(entered.rows, 0) && Clear(catalog, entered.rows, entered.rows, 0)
             && Within(catalog, entered.rows, me.known - 2)
             && catalog[me.known - 2].version !in entered.rows && catalog[me.known - 1].version !in entered.rows
    ensures Leads(catalog, s, longer, t)
    ensures var me, on := entered.migrators[m], t.migrators[m];
            && |t.migrators| == |entered.migrators| && t.migrators == entered.migrators[m := on]
            && on.phase == Failed(Busy) && on.attempt == me.attempt && on.known == me.known && on.total > me.total
            && Within(catalog, t.rows, me.known - 1)
  {
    hide Clear, Within, Leads, Run, Step, Ascending;
    var known := entered.migrators[m].known;
    var walked;
    longer, walked := WalkTo(catalog, s, schedule, entered, m, known - 1);
    WalkedWithin(catalog, entered.rows, walked.rows, known - 1);
    OneMoreStep(catalog, s, longer, walked, m, FailsBusy);
    longer, t := longer + [Choice(m, FailsBusy)], Step(catalog, walked, m, FailsBusy);
    StallStep(catalog, walked, m);
  }

  lemma PrefixIsWithin(catalog: seq<Migration>, rows: Table, known: nat)
    requires IsPrefix(catalog, rows) && 2 <= known <= |catalog| && catalog[known - 2].version !in rows
    ensures Within(catalog, rows, known - 2) && catalog[known - 1].version !in rows
  {
    forall v | v in rows
      ensures exists i :: 0 <= i < known - 2 && i < |catalog| && catalog[i].version == v
    {
      assert catalog[..|catalog|] == catalog;
      var i := VersionIndex(catalog, |catalog|, v);
      assert i < known - 2;
    }
  }

  lemma WalkedWithin(catalog: seq<Migration>, before: Table, rows: Table, n: nat)
    requires 0 < n && Within(catalog, before, n - 1)
    requires forall v :: v in rows ==> v in before || exists i :: 0 <= i < n && i < |catalog| && catalog[i].version == v
    ensures Within(catalog, rows, n)
  {
    forall v | v in rows
      ensures exists i :: 0 <= i < n && i < |catalog| && catalog[i].version == v
    {
      if v in before {
        var i :| 0 <= i < n - 1 && i < |catalog| && catalog[i].version == v;
      }
    }
  }

  lemma StallStep(catalog: seq<Migration>, t: State, m: nat)
    requires Known(catalog, t) && m < |t.migrators|
    requires var p := t.migrators[m].phase; p.Walking? && p.next < t.migrators[m].known && catalog[p.next].version !in p.stored
    ensures var u := Step(catalog, t, m, FailsBusy);
            u.rows == t.rows && u.migrators == t.migrators[m := t.migrators[m].(phase := Failed(Busy))]
  {
    assert catalog[..t.migrators[m].known][t.migrators[m].phase.next] == catalog[t.migrators[m].phase.next];
    hide AnyAbove, HighestIs, KnownMax;
  }

  /** The newer process then applies one migration more than the older one knows. */
  lemma NewerOvertakes(catalog: seq<Migration>, s: State, schedule: seq<Choice>, t: State, m: nat, k: nat)
    returns (longer: seq<Choice>, u: State)
    requires Ascending(catalog) && Known(catalog, s) && Leads(catalog, s, schedule, t)
    requires m < |t.migrators| && k < |t.migrators| && k != m
    requires 1 <= t.migrators[m].known < t.migrators[k].known && t.migrators[k].phase == Start
    requires Within(catalog, t.rows, t.migrators[m].known - 1) && NoMismatch(catalog, t.rows)
    ensures Leads(catalog, s, longer, u) && |u.migrators| == |t.migrators| && u.migrators[m] == t.migrators[m]
    ensures AnyAbove(u.rows, KnownMax(catalog[..t.migrators[m].known]))
  {
    var known := t.migrators[m].known;
    assert Known(catalog, t);
    NoneAbove(catalog, t.rows, known - 1, t.migrators[k].known);
    ClearAtTheStart(catalog, t.rows);
    NotWithin(catalog, t.rows, known - 1, known);
    var entered;
    longer, entered := Enter(catalog, s, schedule, t, k);
    hide Leads, Clear;
    longer, u := WalkTo(catalog, s, longer, entered, k, known + 1);
    assert catalog[known].version in u.rows && catalog[known].version > catalog[known - 1].version;
    assert KnownMax(catalog[..known]) == catalog[known - 1].version;
  }

  lemma NotWithin(catalog: seq<Migration>, rows: Table, n: nat, j: nat)
    requires Ascending(catalog) && Within(catalog, rows, n) && n <= j < |catalog|
    ensures catalog[j].version !in rows
  {
    forall v | v in rows
      ensures v < catalog[j].version
    {
      var i :| 0 <= i < n && i < |catalog| && catalog[i].version == v;
    }
  }

  /** The older process retries, finds the newer version and refuses. */
  lemma OlderRefuses(catalog: seq<Migration>, s: State, schedule: seq<Choice>, t: State, m: nat) returns (longer: seq<Choice>)
    requires Known(catalog, s) && Leads(catalog, s, schedule, t) && m < |t.migrators| && t.migrators[m].known <= |catalog|
    requires t.migrators[m].phase == Failed(Busy) && t.migrators[m].attempt == 0
    requires AnyAbove(t.rows, KnownMax(catalog[..t.migrators[m].known]))
    ensures var me := Run(catalog, s, longer).migrators[m];
            && me.phase == Returned(Err(FutureDatabase(KnownMax(catalog[..t.migrators[m].known]))))
            && me.total == t.migrators[m].total
  {
    hide AnyAbove, KnownMax, HighestIs;
    OneMoreStep(catalog, s, schedule, t, m, Works);
    var again := Step(catalog, t, m, Works);
    OneMoreStep(catalog, s, schedule + [Choice(m, Works)], again, m, Works);
    var refused := Step(catalog, again, m, Works);
    OneMoreStep(catalog, s, schedule + [Choice(m, Works)] + [Choice(m, Works)], refused, m, Works);
    longer := schedule + [Choice(m, Works)] + [Choice(m, Works)] + [Choice(m, Works)];
    hide Run;
    assert again.rows == t.rows && again.migrators[m].phase == Start;
    assert refused.migrators[m].phase == Failed(FutureDatabase(KnownMax(catalog[..t.migrators[m].known])));
  }

  /** From every start where it is possible, this run ends in FutureDatabase after applying migrations: the older
      process applies all but its last migration and is stopped by contention, the newer one passes it, and the
      older one retries. */
  lemma OvertakingRun(catalog: seq<Migration>, s: State, m: nat) returns (schedule: seq<Choice>)
    requires Ascending(catalog) && Initial(catalog, s) && Known(catalog, s) && m < |s.migrators|
    requires Overtakable(catalog, s, m)
    ensures RefusedAfterApplying(Run(catalog, s, schedule).migrators[m])
  {
    var known := s.migrators[m].known;
    var k :| 0 <= k < |s.migrators| && s.migrators[k].known > known;
    assert s.migrators[k].phase == Start;
    var t, u;
    schedule, t := OlderStalls(catalog, s, m);
    RunKeepsInv(catalog, s, schedule);
    assert MigratorInv(catalog, t.rows, t.commits, t.migrators[m]);
    assert NoMismatch(catalog, t.rows);
    hide Initial, Inv, MigratorInv, NoMismatch, Overtakable, Within, AnyAbove, KnownMax;
    schedule, u := NewerOvertakes(catalog, s, schedule, t, m, k);
    schedule := OlderRefuses(catalog, s, schedule, u, m);
  }

  /** Some run ends in FutureDatabase for a process that had applied migrations exactly when, at the start, no
      recorded checksum disagrees, that process has at least two migrations to apply, and another process knows
      more migrations. */
  lemma FutureAfterApplyingIff(catalog: seq<Migration>, s: State, m: nat)
    requires Ascending(catalog) && Initial(catalog, s) && Known(catalog, s) && m < |s.migrators|
    ensures (exists schedule :: RefusedAfterApplying(Run(catalog, s, schedule).migrators[m])) <==> Overtakable(catalog, s, m)
  {
    if Overtakable(catalog, s, m) {
      var schedule := OvertakingRun(catalog, s, m);
    }
    forall schedule | RefusedAfterApplying(Run(catalog, s, schedule).migrators[m])
      ensures Overtakable(catalog, s, m)
    {
      RefusedMeansOvertakable(catalog, s, schedule, m);
    }
  }
}

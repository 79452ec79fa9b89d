/** What the result of a migration call says about the database. */
module MigrationOutcomes {
  import opened Wrappers
  import opened Migration

  // ---- what a success says about checksums ----

  /** Some recorded checksum of the first `known` migrations disagrees with the catalog. */
  ghost predicate Mismatched(catalog: seq<Migration>, rows: Table, known: nat)
    requires known <= |catalog|
  {
    exists i :: 0 <= i < known && catalog[i].version in rows &&
                rows[catalog[i].version] !in {None, Some(catalog[i].checksum)}
  }

  /** A call that succeeded either checked every checksum or found the table at its own highest version. */
  ghost predicate OkInv(catalog: seq<Migration>, start: Table, rows: Table, me: Migrator)
    requires me.known <= |catalog|
  {
    me.phase.Returned? && me.phase.result.Ok? ==>
      !Mismatched(catalog, rows, me.known) || HighestIs(start, KnownMax(catalog[..me.known]))
  }

  ghost predicate OutcomeInv(catalog: seq<Migration>, start: Table, s: State) {
    && Known(catalog, s)
    && (s.commits != [] ==> NoMismatch(catalog, s.rows))
    && CommitsKnown(catalog, s)
    && forall m :: 0 <= m < |s.migrators| ==> OkInv(catalog, start, s.rows, s.migrators[m])
  }

  /** Mismatches are never introduced. */
  lemma MismatchesAreOld(catalog: seq<Migration>, a: Table, b: Table, known: nat)
    requires Grows(catalog, a, b) && known <= |catalog|
    ensures Mismatched(catalog, b, known) ==> Mismatched(catalog, a, known)
    ensures NoMismatch(catalog, a) ==> NoMismatch(catalog, b)
    ensures NoMismatch(catalog, b) ==> !Mismatched(catalog, b, known)
    ensures Verified(catalog, b, known) ==> !Mismatched(catalog, b, known)
  {
  }

  lemma SuccessIsChecked(catalog: seq<Migration>, start: Table, rows: Table, commits: seq<int>, me: Migrator, a: Answer)
    requires TableInv(catalog, start, rows, commits) && MigratorInv(catalog, rows, commits, me)
    requires (commits != [] ==> NoMismatch(catalog, rows)) && OkInv(catalog, start, rows, me)
    ensures var (after, on) := StepPhase(catalog, rows, me, a);
            on.known == me.known && OkInv(catalog, start, after, on)
  {
    MismatchesAreOld(catalog, start, rows, me.known) by { assert TableInv(catalog, start, rows, commits); }
    assert |catalog[..me.known]| == me.known;
    if commits == [] {
      SameKeysSameHighest(catalog, start, rows, KnownMax(catalog[..me.known]));
    }
    hide TableInv, NoMismatch, Mismatched, Verified, Grows, IsPrefix, HighestIs, AnyAbove, KnownMax, Versions, Complete;
    if me.phase.Walking? && me.phase.next < me.known {
      WalkDoesNotReturn(catalog[..me.known], rows, me, a);
      hide WalkStep;
    }
  }

  lemma SameKeysSameHighest(catalog: seq<Migration>, start: Table, rows: Table, v: int)
    requires TableInv(catalog, start, rows, [])
    ensures HighestIs(rows, v) == HighestIs(start, v)
  {
    assert forall w :: w in rows <==> w in start;
    hide Grows, IsPrefix, Distinct;
  }

  lemma WalkDoesNotReturn(mine: seq<Migration>, rows: Table, me: Migrator, a: Answer)
    requires me.phase.Walking? && me.phase.next < |mine|
    ensures !WalkStep(mine, rows, me, a).1.phase.Returned? && WalkStep(mine, rows, me, a).1.known == me.known
  {
  }

  /** Only a walking process commits, and only the next migration it knows. */
  lemma CommitsAreKnown(catalog: seq<Migration>, s: State, m: nat, a: Answer)
    requires Known(catalog, s) && m < |s.migrators|
    ensures var t := Step(catalog, s, m, a);
            var me := s.migrators[m];
            && Known(catalog, t) && |t.migrators| == |s.migrators|
            && (forall k :: 0 <= k < |s.migrators| ==> t.migrators[k].known == s.migrators[k].known)
            && (forall k :: 0 <= k < |s.migrators| && k != m ==> t.migrators[k] == s.migrators[k])
            && (t.rows, t.migrators[m]) == StepPhase(catalog, s.rows, me, a)
            && (t.commits == s.commits ||
                  (&& t.migrators[m].total > 0
                   && exists v :: v in Versions(catalog[..me.known]) && t.commits == s.commits + [v]))
  {
    var t := Step(catalog, s, m, a);
    var me := s.migrators[m];
    if t.commits != s.commits {
      assert me.phase.Walking? && me.phase.next < me.known;
      assert catalog[..me.known][me.phase.next].version == catalog[me.phase.next].version;
    }
  }

  ghost predicate CommitsKnown(catalog: seq<Migration>, s: State)
    requires Known(catalog, s)
  {
    forall v :: v in s.commits ==> exists m :: 0 <= m < |s.migrators| && v in Versions(catalog[..s.migrators[m].known])
  }

  lemma StepKeepsCommitsKnown(catalog: seq<Migration>, s: State, m: nat, a: Answer)
    requires Known(catalog, s) && m < |s.migrators| && CommitsKnown(catalog, s)
    ensures Known(catalog, Step(catalog, s, m, a)) && CommitsKnown(catalog, Step(catalog, s, m, a))
  {
    CommitsAreKnown(catalog, s, m, a);
    hide Step, StepPhase, Versions;
    var t := Step(catalog, s, m, a);
    forall v | v in t.commits
      ensures exists k :: 0 <= k < |t.migrators| && v in Versions(catalog[..t.migrators[k].known])
    {
      if v in s.commits {
        var k :| 0 <= k < |s.migrators| && v in Versions(catalog[..s.migrators[k].known]);
        assert t.migrators[k].known == s.migrators[k].known;
      } else {
        assert v in Versions(catalog[..t.migrators[m].known]);
      }
    }
  }

  lemma StepKeepsChecksums(catalog: seq<Migration>, start: Table, s: State, m: nat, a: Answer)
    requires Ascending(catalog) && Inv(catalog, start, s) && m < |s.migrators| && Known(catalog, s)
    requires s.commits != [] ==> NoMismatch(catalog, s.rows)
    ensures var t := Step(catalog, s, m, a); Grows(catalog, s.rows, t.rows) && (t.commits != [] ==> NoMismatch(catalog, t.rows))
  {
    CommitsAreKnown(catalog, s, m, a);
    hide Step, StepPhase, TableInv, NoMismatch, Grows, Versions, Ascending;
    var t := Step(catalog, s, m, a);
    var me := s.migrators[m];
    assert MigratorInv(catalog, s.rows, s.commits, me);
    StepKeepsInv(catalog, start, s, m, a);
    StepPhaseKeepsInv(catalog, start, s.rows, s.commits, me, a);
    assert MigratorInv(catalog, t.rows, t.commits, t.migrators[m]);
    MismatchesAreOld(catalog, s.rows, t.rows, me.known);
  }

  lemma StepKeepsOutcome(catalog: seq<Migration>, start: Table, s: State, m: nat, a: Answer)
    requires Ascending(catalog) && Inv(catalog, start, s) && OutcomeInv(catalog, start, s) && m < |s.migrators|
    ensures OutcomeInv(catalog, start, Step(catalog, s, m, a))
  {
    StepKeepsCommitsKnown(catalog, s, m, a);
    StepKeepsChecksums(catalog, start, s, m, a);
    CommitsAreKnown(catalog, s, m, a);
    hide Step, StepPhase, TableInv, NoMismatch, Mismatched, Grows, KnownMax, HighestIs, Versions, Ascending, CommitsKnown;
    var t := Step(catalog, s, m, a);
    var me := s.migrators[m];
    assert MigratorInv(catalog, s.rows, s.commits, me) && OkInv(catalog, start, s.rows, me);
    SuccessIsChecked(catalog, start, s.rows, s.commits, me, a);
    hide MigratorInv, Inv;
    forall k | 0 <= k < |t.migrators|
      ensures OkInv(catalog, start, t.rows, t.migrators[k])
    {
      if k != m {
        assert OkInv(catalog, start, s.rows, s.migrators[k]);
        MismatchesAreOld(catalog, s.rows, t.rows, t.migrators[k].known);
      }
    }
  }

  lemma {:induction false} RunKeepsOutcome(catalog: seq<Migration>, s: State, schedule: seq<Choice>)
    requires Ascending(catalog) && Initial(catalog, s) && Known(catalog, s)
    ensures OutcomeInv(catalog, s.rows, Run(catalog, s, schedule))
  {
    if schedule != [] {
      var n := |schedule| - 1;
      RunKeepsOutcome(catalog, s, schedule[..n]);
      RunKeepsInv(catalog, s, schedule[..n]);
      var t := Run(catalog, s, schedule[..n]);
      hide OutcomeInv, Inv, Initial, Step;
      if schedule[n].migrator < |t.migrators| {
        StepKeepsOutcome(catalog, s.rows, t, schedule[n].migrator, schedule[n].answer);
      }
    }
  }

  // ---- the promises ----

  /** A success hides a checksum that disagrees with the catalog exactly when the table already stood at
      the highest version of the process and recorded such a checksum: the `applied_max == known_max`
      shortcut, taken after any failure but a refusal, once no busy retry is left, looks at versions only. */
  lemma OkHidesAMismatchIff(catalog: seq<Migration>, s: State, m: nat)
    requires Ascending(catalog) && Initial(catalog, s) && Known(catalog, s) && m < |s.migrators|
    ensures (exists schedule ::
               var t := Run(catalog, s, schedule);
               t.migrators[m].phase == Returned(Ok(())) && Mismatched(catalog, t.rows, s.migrators[m].known))
       <==> (Mismatched(catalog, s.rows, s.migrators[m].known) &&
             HighestIs(s.rows, KnownMax(catalog[..s.migrators[m].known])))
  {
    var known := s.migrators[m].known;
    forall schedule | var t := Run(catalog, s, schedule);
                      t.migrators[m].phase == Returned(Ok(())) && Mismatched(catalog, t.rows, known)
      ensures Mismatched(catalog, s.rows, known) && HighestIs(s.rows, KnownMax(catalog[..known]))
    {
      var t := Run(catalog, s, schedule);
      RunKeepsInv(catalog, s, schedule);
      RunKeepsOutcome(catalog, s, schedule);
      MismatchesAreOld(catalog, s.rows, t.rows, known) by { assert TableInv(catalog, s.rows, t.rows, t.commits); }
      hide Mismatched, Initial, KnownMax, HighestIs, Run, Inv, Grows;
      assert OkInv(catalog, s.rows, t.rows, t.migrators[m]);
    }
    if Mismatched(catalog, s.rows, known) && HighestIs(s.rows, KnownMax(catalog[..known])) {
      hide Mismatched, Initial, KnownMax, HighestIs, Run;
      ShortcutRun(catalog, s, m);
    }
  }

  /** A first read that fails. */
  lemma FailedRead(catalog: seq<Migration>, s: State, m: nat)
    requires Known(catalog, s) && m < |s.migrators| && s.migrators[m].phase == Start
    ensures var t := Step(catalog, s, m, FailsOtherwise);
            && Known(catalog, t) && t.rows == s.rows && |t.migrators| == |s.migrators|
            && t.migrators[m] == s.migrators[m].(phase := Failed(Failure))
  {
    hide HighestIs, AnyAbove, KnownMax;
  }

  /** The look at the versions that follows. */
  lemma LookAtVersions(catalog: seq<Migration>, s: State, m: nat)
    requires Known(catalog, s) && m < |s.migrators| && s.migrators[m].phase == Failed(Failure)
    requires HighestIs(s.rows, KnownMax(catalog[..s.migrators[m].known]))
    ensures var t := Step(catalog, s, m, Works);
            t.rows == s.rows && |t.migrators| == |s.migrators| && t.migrators[m].phase == Returned(Ok(()))
  {
    hide HighestIs, AnyAbove, KnownMax;
  }

  /** Together they answer Ok whatever checksums are recorded. */
  lemma ShortcutRun(catalog: seq<Migration>, s: State, m: nat)
    requires Known(catalog, s) && m < |s.migrators| && s.migrators[m].phase == Start
    requires HighestIs(s.rows, KnownMax(catalog[..s.migrators[m].known]))
    ensures var t := Run(catalog, s, [Choice(m, FailsOtherwise)] + [Choice(m, Works)]);
            t.rows == s.rows && t.migrators[m].phase == Returned(Ok(()))
  {
    hide HighestIs, AnyAbove, KnownMax;
    var failing, looking := [Choice(m, FailsOtherwise)], Choice(m, Works);
    RunSnoc(catalog, s, [], failing[0]);
    assert [] + failing == failing;
    assert Run(catalog, s, failing) == Step(catalog, s, m, FailsOtherwise);
    FailedRead(catalog, s, m);
    hide Step;
    RunSnoc(catalog, s, failing, looking);
    hide Run;
    LookAtVersions(catalog, Step(catalog, s, m, FailsOtherwise), m);
  }

  lemma RunSnoc(catalog: seq<Migration>, s: State, schedule: seq<Choice>, c: Choice)
    requires Known(catalog, s) && c.migrator < |s.migrators|
    ensures Run(catalog, s, schedule + [c]) == Step(catalog, Run(catalog, s, schedule), c.migrator, c.answer)
  {
    assert (schedule + [c])[..|schedule|] == schedule;
  }

  /** When all processes share one catalog, a call that ends in FutureDatabase applied nothing at all. */
  lemma SharedCatalogRefusesCleanly(catalog: seq<Migration>, s: State, schedule: seq<Choice>, m: nat, known: nat)
    requires Ascending(catalog) && Initial(catalog, s) && Known(catalog, s) && m < |s.migrators| && known <= |catalog|
    requires forall k :: 0 <= k < |s.migrators| ==> s.migrators[k].known == known
    requires var p := Run(catalog, s, schedule).migrators[m].phase; p.Returned? && p.result.Err? && p.result.error.FutureDatabase?
    ensures Run(catalog, s, schedule).migrators[m].total == 0
  {
    var t := Run(catalog, s, schedule);
    RefusalsApplyNothing(catalog, s, schedule, m);
    RunKeepsOutcome(catalog, s, schedule);
    forall v | v in t.commits
      ensures v <= KnownMax(catalog[..known])
    {
      var k :| 0 <= k < |t.migrators| && v in Versions(catalog[..t.migrators[k].known]);
      var i := VersionIndex(catalog, known, v);
    }
  }

  // ---- one process alone ----

  class Database {
    var rows: Table

    /** `migrate` with nobody else around; `answers(k)` is how the storage answers statement `k`, and the first
        `done` migrations are dealt with when it ends. */
    method Migrate(catalog: seq<Migration>, answers: nat -> Answer) returns (r: Result<(), DbError>, ghost done: nat)
      requires Ascending(catalog)
      modifies this
      ensures AppliedTo(catalog, old(rows), rows, done) && AgreesTo(catalog, old(rows), done)
      ensures r.Ok? <==> !AnyAbove(old(rows), KnownMax(catalog)) && NoMismatch(catalog, old(rows)) &&
                         StorageWorks(catalog, old(rows), answers)
      ensures r.Ok? ==> done == |catalog|
      ensures match r
              case Ok(_) => true
              case Err(FutureDatabase(known)) =>
                done == 0 && known == KnownMax(catalog) && AnyAbove(old(rows), known)
              case Err(MigrationDiverged(v)) =>
                done < |catalog| && v == catalog[done].version && Disagrees(catalog[done], old(rows))
              case Err(error) => exists k :: 0 <= k < done + 3 && !answers(k).Works? && error == ErrorOf(answers(k))
      ensures Grows(catalog, old(rows), rows)
      ensures r.Ok? ==> Verified(catalog, rows, |catalog|) && rows.Keys == old(rows).Keys + Versions(catalog)
      ensures r.Err? && r.error.FutureDatabase? ==> rows == old(rows)
      ensures r.Err? && r.error.MigrationDiverged? && IsPrefix(catalog, old(rows)) ==>
                rows.Keys == old(rows).Keys && Mismatched(catalog, old(rows), |catalog|)
      ensures Verified(catalog, old(rows), |catalog|) ==> rows == old(rows)
    {
      hide AnyAbove, KnownMax, AppliedTo, Grows, Verified, IsPrefix, Mismatched, Versions;
      done := 0;
      NothingApplied(catalog, rows);
      Consequences(catalog, rows, rows, 0);
      if !answers(0).Works? {
        return Err(ErrorOf(answers(0))), 0;
      }
      if AnyAbove(rows, KnownMax(catalog)) {
        return Err(FutureDatabase(KnownMax(catalog))), 0;
      }
      if !answers(1).Works? {
        return Err(ErrorOf(answers(1))), 0;
      }
      var stored := rows;
      var i := 0;
      while i < |catalog|
        invariant 0 <= i <= |catalog| && done == i
        invariant AppliedTo(catalog, stored, rows, i) && AgreesTo(catalog, stored, i)
        invariant forall j :: 0 <= j < i && Pending(catalog[j], stored) ==> answers(j + 2).Works?
      {
        var migration := catalog[i];
        AppliedOne(catalog, stored, rows, i);
        Consequences(catalog, stored, rows, i);
        if migration.version in stored {
          if stored[migration.version].None? {
            if !answers(i + 2).Works? {
              return Err(ErrorOf(answers(i + 2))), i;
            }
            rows := rows[migration.version := Some(migration.checksum)];
          } else if stored[migration.version] != Some(migration.checksum) {
            return Err(MigrationDiverged(migration.version)), i;
          }
        } else {
          if !answers(i + 2).Works? {
            return Err(ErrorOf(answers(i + 2))), i;
          }
          rows := rows[migration.version := Some(migration.checksum)];
        }
        i := i + 1;
        done := i;
      }
      Consequences(catalog, stored, rows, i);
      r := Ok(());
    }
  }

  /** The recorded checksum of a migration is another one. */
  predicate Disagrees(mig: Migration, rows: Table) {
    mig.version in rows && rows[mig.version] !in {None, Some(mig.checksum)}
  }

  /** The migration, or its checksum, is still to be recorded. */
  predicate Pending(mig: Migration, rows: Table) {
    mig.version !in rows || rows[mig.version].None?
  }

  /** Both reads work, and so does the statement for every pending migration. */
  ghost predicate StorageWorks(catalog: seq<Migration>, rows: Table, answers: nat -> Answer) {
    && answers(0).Works? && answers(1).Works?
    && forall j :: 0 <= j < |catalog| && Pending(catalog[j], rows) ==> answers(j + 2).Works?
  }

  ghost predicate AgreesTo(catalog: seq<Migration>, rows: Table, n: nat) {
    n <= |catalog| && forall j :: 0 <= j < n ==> !Disagrees(catalog[j], rows)
  }

  /** `after` is `before` with the first `n` migrations and their checksums recorded, and nothing else changed. */
  ghost predicate AppliedTo(catalog: seq<Migration>, before: Table, after: Table, n: nat) {
    && n <= |catalog| && after.Keys == before.Keys + Versions(catalog[..n])
    && (forall j :: 0 <= j < n ==> catalog[j].version in after && after[catalog[j].version] == Some(catalog[j].checksum))
    && (forall v :: v in before && v !in Versions(catalog[..n]) ==> after[v] == before[v])
  }

  lemma NothingApplied(catalog: seq<Migration>, rows: Table)
    ensures AppliedTo(catalog, rows, rows, 0)
  {
  }

  lemma AppliedOne(catalog: seq<Migration>, before: Table, rows: Table, i: nat)
    requires Ascending(catalog) && AppliedTo(catalog, before, rows, i) && i < |catalog|
    ensures var mig := catalog[i];
            && AppliedTo(catalog, before, rows[mig.version := Some(mig.checksum)], i + 1)
            && (!Pending(mig, before) && !Disagrees(mig, before) ==> AppliedTo(catalog, before, rows, i + 1))
  {
    var mig := catalog[i];
    var after := rows[mig.version := Some(mig.checksum)];
    assert Versions(catalog[..i + 1]) == Versions(catalog[..i]) + {mig.version} by {
      VersionsGrow(catalog, i);
    }
    assert mig.version !in Versions(catalog[..i]) by {
      if mig.version in Versions(catalog[..i]) {
        var j := VersionIndex(catalog, i, mig.version);
      }
    }
    if !Pending(mig, before) && !Disagrees(mig, before) {
      assert rows[mig.version] == before[mig.version] == Some(mig.checksum);
      assert rows == after;
    }
  }

  lemma VersionsGrow(catalog: seq<Migration>, i: nat)
    requires i < |catalog|
    ensures Versions(catalog[..i + 1]) == Versions(catalog[..i]) + {catalog[i].version}
  {
    forall v | v in Versions(catalog[..i]) + {catalog[i].version}
      ensures v in Versions(catalog[..i + 1])
    {
      if v in Versions(catalog[..i]) {
        var j := VersionIndex(catalog, i, v);
        assert catalog[..i + 1][j].version == v;
      } else {
        assert catalog[..i + 1][i].version == v;
      }
    }
    forall v | v in Versions(catalog[..i + 1])
      ensures v in Versions(catalog[..i]) + {catalog[i].version}
    {
      var j := VersionIndex(catalog, i + 1, v);
      assert j < i ==> catalog[..i][j].version == v;
    }
  }

  /** What follows for a table that `migrate` alone leaves behind. */
  lemma Consequences(catalog: seq<Migration>, before: Table, after: Table, n: nat)
    requires Ascending(catalog) && AppliedTo(catalog, before, after, n) && AgreesTo(catalog, before, n)
    ensures Grows(catalog, before, after)
    ensures n == |catalog| ==> Verified(catalog, after, n) && after.Keys == before.Keys + Versions(catalog)
    ensures n == 0 || Verified(catalog, before, |catalog|) ==> after == before
    ensures n < |catalog| && Disagrees(catalog[n], before) && IsPrefix(catalog, before) ==>
              after.Keys == before.Keys && Mismatched(catalog, before, |catalog|)
    ensures n == |catalog| ==> NoMismatch(catalog, before)
  {
    assert catalog[..|catalog|] == catalog;
    AppliedGrows(catalog, before, after, n);
    if n < |catalog| && Disagrees(catalog[n], before) && IsPrefix(catalog, before) {
      forall v | v in Versions(catalog[..n])
        ensures v in before
      {
        var j := VersionIndex(catalog, n, v);
      }
    }
    if Verified(catalog, before, |catalog|) {
      forall v | v in Versions(catalog[..n])
        ensures v in before && after[v] == before[v]
      {
        var j := VersionIndex(catalog, n, v);
      }
      assert after.Keys == before.Keys;
      assert forall v :: v in before ==> after[v] == before[v];
      assert after == before;
    }
    if n == 0 {
      assert Versions(catalog[..0]) == {} && after.Keys == before.Keys;
      assert forall v :: v in before ==> after[v] == before[v];
      assert after == before;
    }
  }

  lemma AppliedGrows(catalog: seq<Migration>, before: Table, after: Table, n: nat)
    requires Ascending(catalog) && AppliedTo(catalog, before, after, n) && AgreesTo(catalog, before, n)
    ensures Grows(catalog, before, after)
  {
    forall i | 0 <= i < |catalog| && catalog[i].version in after
      ensures var v := catalog[i].version;
              (v in before && after[v] == before[v]) ||
              ((v !in before || before[v].None?) && after[v] == Some(catalog[i].checksum))
    {
      if i < n {
        assert !Disagrees(catalog[i], before);
      } else if catalog[i].version in Versions(catalog[..n]) {
        var j := VersionIndex(catalog, n, catalog[i].version);
      }
    }
  }
}

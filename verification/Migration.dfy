/** The migration protocol: several processes bring one database up to their own catalog.

  A process reads the applied versions, then the recorded checksums, then handles one
  migration per transaction, all against snapshots that other processes outdate. Each
  binary knows a prefix of one ascending catalog, so older and newer builds may run at once.
*/
module Migration {
  import opened Wrappers

  datatype Migration = Migration(version: int, checksum: string)

  /** `schema_migrations`: a checksum is absent on rows older than checksum tracking. */
  type Table = map<int, Option<string>>

  datatype DbError =
    | Busy
    | Failure
    | FutureDatabase(knownMax: int)
    | MigrationDiverged(version: int)

  const BUSY_RETRY_ATTEMPTS := 5

  ghost predicate Ascending(catalog: seq<Migration>) {
    forall i, j :: 0 <= i < j < |catalog| ==> catalog[i].version < catalog[j].version
  }

  function Versions(catalog: seq<Migration>): set<int> {
    set i | 0 <= i < |catalog| :: catalog[i].version
  }

  /** Highest version of an ascending catalog, 0 when it is empty. */
  function KnownMax(catalog: seq<Migration>): int {
    if catalog == [] then 0 else catalog[|catalog| - 1].version
  }

  /** `applied_max == Some(v)`: the highest applied version is `v`. */
  predicate HighestIs(rows: Table, v: int) {
    v in rows && forall w :: w in rows ==> w <= v
  }

  /** The downgrade guard: some applied version is above `v`. */
  predicate AnyAbove(rows: Table, v: int) {
    exists w :: w in rows && w > v
  }

  // ---- one process, statement by statement ----

  datatype Phase =
    | Start
    | Listed
    | Walking(stored: Table, next: nat)
    | Failed(error: DbError)
    | Returned(result: Result<(), DbError>)

  /** `known` migrations of the catalog are embedded in the process; `applied` counts its commits in the
      current call of `migrate`, `total` those of all its retries. */
  datatype Migrator = Migrator(known: nat, attempt: nat, phase: Phase, applied: nat, total: nat)

  /** `commits` lists the versions committed during the run. */
  datatype State = State(rows: Table, commits: seq<int>, migrators: seq<Migrator>)

  /** How the storage answers the next statement. */
  datatype Answer = Works | FailsBusy | FailsOtherwise

  datatype Choice = Choice(migrator: nat, answer: Answer)

  function ErrorOf(a: Answer): DbError
    requires !a.Works?
  {
    if a.FailsBusy? then Busy else Failure
  }

  /** `verify_migration_checksum` or `apply_migration` for the next migration of the catalog. */
  function WalkStep(mine: seq<Migration>, rows: Table, me: Migrator, a: Answer): (Table, Migrator)
    requires me.phase.Walking? && me.phase.next < |mine|
  {
    var stored, next := me.phase.stored, me.phase.next;
    var mig := mine[next];
    var on := me.(phase := Walking(stored, next + 1));
    if mig.version in stored then
      if stored[mig.version] == Some(mig.checksum) then (rows, on)
      else if stored[mig.version].Some? then (rows, me.(phase := Failed(MigrationDiverged(mig.version))))
      else if !a.Works? then (rows, me.(phase := Failed(ErrorOf(a))))
      else (if mig.version in rows then rows[mig.version := Some(mig.checksum)] else rows, on)
    else
      // one transaction: the primary key rejects a version another process committed first
      if !a.Works? then (rows, me.(phase := Failed(ErrorOf(a))))
      else if mig.version in rows then (rows, me.(phase := Failed(Failure)))
      else (rows[mig.version := Some(mig.checksum)], on.(applied := me.applied + 1, total := me.total + 1))
  }

  /** `migrate_with_retry` after `migrate` failed: retry, refuse, or look whether somebody else finished. */
  function AfterFailure(mine: seq<Migration>, rows: Table, me: Migrator, a: Answer): Migrator
    requires me.phase.Failed?
  {
    var err := me.phase.error;
    if err.Busy? && me.attempt + 1 < BUSY_RETRY_ATTEMPTS
    then me.(attempt := me.attempt + 1, phase := Start, applied := 0)
    else if err.FutureDatabase? || err.MigrationDiverged? then me.(phase := Returned(Err(err)))
    else if !a.Works? then me.(phase := Returned(Err(ErrorOf(a))))
    else if HighestIs(rows, KnownMax(mine)) then me.(phase := Returned(Ok(())))
    else me.(phase := Returned(Err(err)))
  }

  /** Reading the applied versions, then the recorded checksums. */
  function ReadStep(mine: seq<Migration>, rows: Table, me: Migrator, a: Answer): Migrator
    requires me.phase.Start? || me.phase.Listed?
  {
    if !a.Works? then me.(phase := Failed(ErrorOf(a)))
    else if me.phase.Listed? then me.(phase := Walking(rows, 0))
    else if AnyAbove(rows, KnownMax(mine)) then me.(phase := Failed(FutureDatabase(KnownMax(mine))))
    else me.(phase := Listed)
  }

  function StepPhase(catalog: seq<Migration>, rows: Table, me: Migrator, a: Answer): (Table, Migrator)
    requires me.known <= |catalog|
  {
    var mine := catalog[..me.known];
    match me.phase
    case Start => (rows, ReadStep(mine, rows, me, a))
    case Listed => (rows, ReadStep(mine, rows, me, a))
    case Walking(_, next) =>
      if next < |mine| then WalkStep(mine, rows, me, a) else (rows, me.(phase := Returned(Ok(()))))
    case Failed(_) => (rows, AfterFailure(mine, rows, me, a))
    case Returned(_) => (rows, me)
  }

  function Step(catalog: seq<Migration>, s: State, m: nat, a: Answer): State
    requires m < |s.migrators| && s.migrators[m].known <= |catalog|
  {
    var (rows, me) := StepPhase(catalog, s.rows, s.migrators[m], a);
    State(rows,
          if me.total > s.migrators[m].total then s.commits + [catalog[s.migrators[m].phase.next].version] else s.commits,
          s.migrators[m := me])
  }

  predicate Known(catalog: seq<Migration>, s: State) {
    forall m :: 0 <= m < |s.migrators| ==> s.migrators[m].known <= |catalog|
  }

  function Run(catalog: seq<Migration>, s: State, schedule: seq<Choice>): (t: State)
    requires Known(catalog, s)
    ensures Known(catalog, t) && |t.migrators| == |s.migrators|
    ensures forall m :: 0 <= m < |s.migrators| ==> t.migrators[m].known == s.migrators[m].known
  {
    if schedule == [] then s
    else
      var n := |schedule| - 1;
      var t := Run(catalog, s, schedule[..n]);
      if schedule[n].migrator < |t.migrators| then Step(catalog, t, schedule[n].migrator, schedule[n].answer) else t
  }

  // ---- what every interleaving keeps ----

  /** The applied versions are a prefix of the catalog. */
  ghost predicate IsPrefix(catalog: seq<Migration>, rows: Table) {
    && rows.Keys <= Versions(catalog)
    && forall i, j :: 0 <= i < j < |catalog| && catalog[j].version in rows ==> catalog[i].version in rows
  }

  /** `b` is a later table than `a`: rows are added with the catalog's checksum, and only an absent
      checksum is ever filled in. */
  ghost predicate Grows(catalog: seq<Migration>, a: Table, b: Table) {
    && a.Keys <= b.Keys
    && forall i :: 0 <= i < |catalog| && catalog[i].version in b ==>
         var v := catalog[i].version;
         (v in a && b[v] == a[v]) || ((v !in a || a[v].None?) && b[v] == Some(catalog[i].checksum))
  }

  lemma GrowsIsTransitive(catalog: seq<Migration>, a: Table, b: Table, d: Table)
    requires Grows(catalog, a, b) && Grows(catalog, b, d)
    ensures Grows(catalog, a, d)
  {
  }

  /** The first `n` migrations are applied with the catalog's checksums. */
  ghost predicate Verified(catalog: seq<Migration>, rows: Table, n: nat) {
    n <= |catalog| &&
    forall i :: 0 <= i < n ==> catalog[i].version in rows && rows[catalog[i].version] == Some(catalog[i].checksum)
  }

  /** No recorded checksum disagrees with the catalog. */
  ghost predicate NoMismatch(catalog: seq<Migration>, rows: Table) {
    forall i :: 0 <= i < |catalog| && catalog[i].version in rows ==>
      rows[catalog[i].version].None? || rows[catalog[i].version] == Some(catalog[i].checksum)
  }

  ghost predicate Complete(catalog: seq<Migration>, rows: Table, known: nat) {
    known <= |catalog| && Versions(catalog[..known]) <= rows.Keys
  }

  /** Some committed version is beyond what a process with `known` migrations embeds. */
  ghost predicate NewerCommitted(catalog: seq<Migration>, commits: seq<int>, known: nat)
    requires known <= |catalog|
  {
    exists v :: v in commits && v > KnownMax(catalog[..known])
  }

  ghost predicate MigratorInv(catalog: seq<Migration>, rows: Table, commits: seq<int>, me: Migrator) {
    && me.known <= |catalog| && me.applied <= me.total
    && (me.total > 0 ==> NoMismatch(catalog, rows) && exists v :: v in commits && v in Versions(catalog[..me.known]))
    && match me.phase
       case Start => me.applied == 0
       case Listed => me.applied == 0
       case Walking(stored, next) =>
         && next <= me.known && Verified(catalog, rows, next)
         && IsPrefix(catalog, stored) && Grows(catalog, stored, rows)
         && (me.applied > 0 ==> 0 < next && catalog[next - 1].version !in stored)
       case Failed(err) => RefusalInv(catalog, commits, me, err)
       case Returned(r) => if r.Ok? then Complete(catalog, rows, me.known) else RefusalInv(catalog, commits, me, r.error)
  }

  ghost predicate RefusalInv(catalog: seq<Migration>, commits: seq<int>, me: Migrator, err: DbError)
    requires me.known <= |catalog|
  {
    && (err.MigrationDiverged? ==> me.total == 0)
    && (err.FutureDatabase? ==> me.applied == 0 && (me.total > 0 ==> NewerCommitted(catalog, commits, me.known)))
  }

  ghost predicate Distinct(xs: seq<int>) {
    forall i, j :: 0 <= i < j < |xs| ==> xs[i] != xs[j]
  }

  /** The commits of the run are exactly the versions that were not applied at its start, each once. */
  ghost predicate TableInv(catalog: seq<Migration>, start: Table, rows: Table, commits: seq<int>) {
    && IsPrefix(catalog, start) && IsPrefix(catalog, rows) && Grows(catalog, start, rows)
    && Distinct(commits)
    && (forall v :: v in commits <==> v in rows && v !in start)
  }

  ghost predicate Inv(catalog: seq<Migration>, start: Table, s: State) {
    && TableInv(catalog, start, s.rows, s.commits)
    && forall m :: 0 <= m < |s.migrators| ==> MigratorInv(catalog, s.rows, s.commits, s.migrators[m])
  }

  /** What one migrator knows survives the progress of the others. */
  lemma MigratorInvIsStable(catalog: seq<Migration>, rows: Table, commits: seq<int>, me: Migrator,
                            rows': Table, commits': seq<int>)
    requires MigratorInv(catalog, rows, commits, me) && Grows(catalog, rows, rows') && commits <= commits'
    ensures MigratorInv(catalog, rows', commits', me)
  {
    assert forall v :: v in commits ==> v in commits';
    if me.phase.Walking? {
      GrowsIsTransitive(catalog, me.phase.stored, rows, rows');
    }
  }

  lemma GrowsIsReflexive(catalog: seq<Migration>, rows: Table)
    ensures Grows(catalog, rows, rows)
  {
  }

  lemma VersionIndex(catalog: seq<Migration>, n: nat, v: int) returns (i: nat)
    requires n <= |catalog| && v in Versions(catalog[..n])
    ensures i < n && catalog[i].version == v
  {
    i :| 0 <= i < n && catalog[..n][i].version == v;
  }

  /** A version above the highest known one lies beyond the known ones. */
  lemma AboveMeansBeyond(catalog: seq<Migration>, known: nat, i: nat)
    requires Ascending(catalog) && known <= |catalog| && i < |catalog|
    requires catalog[i].version > KnownMax(catalog[..known])
    ensures i >= known
  {
  }

  /** A newer version in the table was committed meanwhile, or the process cannot have applied anything. */
  lemma FutureMeansNewer(catalog: seq<Migration>, start: Table, rows: Table, commits: seq<int>, me: Migrator)
    requires Ascending(catalog) && TableInv(catalog, start, rows, commits) && MigratorInv(catalog, rows, commits, me)
    requires AnyAbove(rows, KnownMax(catalog[..me.known]))
    ensures me.total > 0 ==> NewerCommitted(catalog, commits, me.known)
  {
    if me.total > 0 {
      var top :| top in rows && top > KnownMax(catalog[..me.known]);
      assert catalog[..|catalog|] == catalog;
      var i := VersionIndex(catalog, |catalog|, top);
      var v :| v in commits && v in Versions(catalog[..me.known]);
      var j := VersionIndex(catalog, me.known, v);
      AboveMeansBeyond(catalog, me.known, i);
      hide MigratorInv, Versions, Grows, Ascending, AnyAbove;
      assert top in start ==> v in start;
      assert top in commits;
    }
  }

  /** The success shortcut: in a prefix, the highest version stands for all of them. */
  lemma HighestStandsForAll(catalog: seq<Migration>, rows: Table, known: nat)
    requires Ascending(catalog) && IsPrefix(catalog, rows) && known <= |catalog|
    requires HighestIs(rows, KnownMax(catalog[..known]))
    ensures Complete(catalog, rows, known)
  {
    forall v | v in Versions(catalog[..known])
      ensures v in rows
    {
      var i := VersionIndex(catalog, known, v);
      assert catalog[..known][known - 1].version in rows;
    }
  }

  /** The table part of applying the next migration of a prefix. */
  lemma AppliedRow(catalog: seq<Migration>, start: Table, rows: Table, commits: seq<int>, next: nat)
    requires Ascending(catalog) && TableInv(catalog, start, rows, commits)
    requires Verified(catalog, rows, next) && next < |catalog| && catalog[next].version !in rows
    ensures var mig := catalog[next];
            var after := rows[mig.version := Some(mig.checksum)];
            && Grows(catalog, rows, after) && TableInv(catalog, start, after, commits + [mig.version])
            && Verified(catalog, after, next + 1) && NoMismatch(catalog, after)
  {
    var mig := catalog[next];
    var after := rows[mig.version := Some(mig.checksum)];
    assert mig.version in Versions(catalog);
    assert forall i :: next < i < |catalog| ==> catalog[i].version !in rows;
    assert Grows(catalog, rows, after);
    GrowsIsTransitive(catalog, start, rows, after);
    hide Grows, Versions;
    assert Verified(catalog, after, next + 1);
    hide Verified, NoMismatch;
    assert forall v :: v in commits + [mig.version] <==> v in after && v !in start;
    assert Distinct(commits + [mig.version]);
  }

  /** Applying the next migration: everything before it is applied and verified. */
  lemma ApplyKeepsInv(catalog: seq<Migration>, start: Table, rows: Table, commits: seq<int>, me: Migrator)
    requires Ascending(catalog) && TableInv(catalog, start, rows, commits) && MigratorInv(catalog, rows, commits, me)
    requires me.phase.Walking? && me.phase.next < me.known
    requires catalog[me.phase.next].version !in rows
    ensures var mig := catalog[me.phase.next];
            var after := rows[mig.version := Some(mig.checksum)];
            var on := me.(phase := Walking(me.phase.stored, me.phase.next + 1), applied := me.applied + 1, total := me.total + 1);
            && Grows(catalog, rows, after)
            && TableInv(catalog, start, after, commits + [mig.version])
            && MigratorInv(catalog, after, commits + [mig.version], on)
  {
    var next, stored := me.phase.next, me.phase.stored;
    var mig := catalog[next];
    var after := rows[mig.version := Some(mig.checksum)];
    AppliedRow(catalog, start, rows, commits, next);
    GrowsIsTransitive(catalog, stored, rows, after);
    assert mig.version !in stored by { assert Grows(catalog, stored, rows); }
    assert mig.version in Versions(catalog[..me.known]) by { assert catalog[..me.known][next] == mig; }
    assert mig.version in commits + [mig.version];
    hide Grows, TableInv, IsPrefix, Verified, NoMismatch, Versions;
  }

  /** The table part of adopting a missing checksum. */
  lemma AdoptedRow(catalog: seq<Migration>, start: Table, rows: Table, commits: seq<int>, stored: Table, next: nat)
    requires Ascending(catalog) && TableInv(catalog, start, rows, commits)
    requires Verified(catalog, rows, next) && next < |catalog| && Grows(catalog, stored, rows)
    requires catalog[next].version in stored && stored[catalog[next].version].None?
    ensures var mig := catalog[next];
            var after := rows[mig.version := Some(mig.checksum)];
            && mig.version in rows && Grows(catalog, rows, after) && TableInv(catalog, start, after, commits)
            && Verified(catalog, after, next + 1)
  {
    var mig := catalog[next];
    var after := rows[mig.version := Some(mig.checksum)];
    assert Grows(catalog, rows, after);
    GrowsIsTransitive(catalog, start, rows, after);
    assert after.Keys == rows.Keys;
  }

  /** Adopting a missing checksum. */
  lemma AdoptKeepsInv(catalog: seq<Migration>, start: Table, rows: Table, commits: seq<int>, me: Migrator)
    requires Ascending(catalog) && TableInv(catalog, start, rows, commits) && MigratorInv(catalog, rows, commits, me)
    requires me.phase.Walking? && me.phase.next < me.known
    requires catalog[me.phase.next].version in me.phase.stored && me.phase.stored[catalog[me.phase.next].version].None?
    ensures var mig := catalog[me.phase.next];
            var after := rows[mig.version := Some(mig.checksum)];
            var on := me.(phase := Walking(me.phase.stored, me.phase.next + 1));
            && mig.version in rows && Grows(catalog, rows, after)
            && TableInv(catalog, start, after, commits) && MigratorInv(catalog, after, commits, on)
  {
    var next, stored := me.phase.next, me.phase.stored;
    var mig := catalog[next];
    var after := rows[mig.version := Some(mig.checksum)];
    AdoptedRow(catalog, start, rows, commits, stored, next);
    MigratorInvIsStable(catalog, rows, commits, me, after, commits);
    NothingAppliedBelow(catalog, rows, commits, me, next);
    hide Grows, TableInv, Verified, NoMismatch, Versions;
  }

  /** A call that has applied something is past every stored version. */
  lemma NothingAppliedBelow(catalog: seq<Migration>, rows: Table, commits: seq<int>, me: Migrator, i: nat)
    requires MigratorInv(catalog, rows, commits, me) && me.phase.Walking?
    requires me.phase.next <= i < |catalog| && catalog[i].version in me.phase.stored
    ensures me.applied == 0
  {
    hide Grows, Verified, NoMismatch, Versions;
  }

  /** Finding a stored checksum that agrees. */
  lemma AgreeKeepsInv(catalog: seq<Migration>, rows: Table, commits: seq<int>, me: Migrator)
    requires Ascending(catalog) && MigratorInv(catalog, rows, commits, me)
    requires me.phase.Walking? && me.phase.next < me.known
    requires catalog[me.phase.next].version in me.phase.stored
    requires me.phase.stored[catalog[me.phase.next].version] == Some(catalog[me.phase.next].checksum)
    ensures MigratorInv(catalog, rows, commits, me.(phase := Walking(me.phase.stored, me.phase.next + 1)))
  {
    NothingAppliedBelow(catalog, rows, commits, me, me.phase.next);
    hide Ascending, NoMismatch, IsPrefix, Versions;
  }

  /** A disagreeing checksum is met before this call applied anything. */
  lemma DivergedMeansNothingApplied(catalog: seq<Migration>, rows: Table, commits: seq<int>, me: Migrator)
    requires Ascending(catalog) && MigratorInv(catalog, rows, commits, me)
    requires me.phase.Walking? && me.phase.next < me.known
    requires var mig := catalog[me.phase.next];
             mig.version in me.phase.stored && me.phase.stored[mig.version] !in {None, Some(mig.checksum)}
    ensures me.total == 0
  {
    var mig := catalog[me.phase.next];
    assert mig.version in rows && rows[mig.version] == me.phase.stored[mig.version];
  }

  /** What one statement of one migrator owes the others and itself. */
  ghost predicate GoodStep(catalog: seq<Migration>, start: Table, rows: Table, commits: seq<int>, me: Migrator,
                           after: Table, commits': seq<int>, on: Migrator)
  {
    && Grows(catalog, rows, after) && commits <= commits'
    && TableInv(catalog, start, after, commits') && MigratorInv(catalog, after, commits', on)
  }

  lemma StayingPut(catalog: seq<Migration>, start: Table, rows: Table, commits: seq<int>, me: Migrator, on: Migrator)
    requires TableInv(catalog, start, rows, commits) && MigratorInv(catalog, rows, commits, on)
    ensures GoodStep(catalog, start, rows, commits, me, rows, commits, on)
  {
    GrowsIsReflexive(catalog, rows);
  }

  lemma WalkKeepsInv(catalog: seq<Migration>, start: Table, rows: Table, commits: seq<int>, me: Migrator, a: Answer)
    requires Ascending(catalog) && TableInv(catalog, start, rows, commits) && MigratorInv(catalog, rows, commits, me)
    requires me.phase.Walking? && me.phase.next < me.known
    ensures var (after, on) := StepPhase(catalog, rows, me, a);
            var commits' := if on.total > me.total then commits + [catalog[me.phase.next].version] else commits;
            GoodStep(catalog, start, rows, commits, me, after, commits', on)
  {
    var stored, next := me.phase.stored, me.phase.next;
    var mig := catalog[next];
    assert catalog[..me.known][next] == mig;
    var (after, on) := StepPhase(catalog, rows, me, a);
    hide Grows, TableInv, IsPrefix, Verified, NoMismatch, Versions;
    if mig.version in stored && stored[mig.version] == Some(mig.checksum) {
      AgreeKeepsInv(catalog, rows, commits, me);
      StayingPut(catalog, start, rows, commits, me, on);
    } else if mig.version in stored && stored[mig.version].Some? {
      DivergedMeansNothingApplied(catalog, rows, commits, me);
      StayingPut(catalog, start, rows, commits, me, on);
    } else if mig.version in stored && a.Works? {
      AdoptKeepsInv(catalog, start, rows, commits, me);
    } else if mig.version !in rows && a.Works? {
      ApplyKeepsInv(catalog, start, rows, commits, me);
    } else {
      if mig.version in stored { AdoptKeepsInv(catalog, start, rows, commits, me); }
      StayingPut(catalog, start, rows, commits, me, on);
    }
  }

  lemma ReadKeepsInv(catalog: seq<Migration>, start: Table, rows: Table, commits: seq<int>, me: Migrator, a: Answer)
    requires Ascending(catalog) && TableInv(catalog, start, rows, commits) && MigratorInv(catalog, rows, commits, me)
    requires me.phase.Start? || me.phase.Listed?
    ensures MigratorInv(catalog, rows, commits, ReadStep(catalog[..me.known], rows, me, a))
  {
    if me.phase.Start? && AnyAbove(rows, KnownMax(catalog[..me.known])) {
      FutureMeansNewer(catalog, start, rows, commits, me);
    }
    ListingStartsTheWalk(catalog, start, rows, commits);
    hide Grows, TableInv, IsPrefix, Verified, NoMismatch, Complete, NewerCommitted, Versions, AnyAbove, KnownMax, Ascending;
  }

  lemma FailureKeepsInv(catalog: seq<Migration>, start: Table, rows: Table, commits: seq<int>, me: Migrator, a: Answer)
    requires Ascending(catalog) && TableInv(catalog, start, rows, commits) && MigratorInv(catalog, rows, commits, me)
    requires me.phase.Failed?
    ensures MigratorInv(catalog, rows, commits, AfterFailure(catalog[..me.known], rows, me, a))
  {
    if HighestIs(rows, KnownMax(catalog[..me.known])) {
      HighestStandsForAll(catalog, rows, me.known);
    }
    hide Grows, TableInv, IsPrefix, Verified, NoMismatch, Complete, NewerCommitted, Versions, HighestIs, KnownMax, Ascending;
  }

  lemma StepPhaseKeepsInv(catalog: seq<Migration>, start: Table, rows: Table, commits: seq<int>, me: Migrator, a: Answer)
    requires Ascending(catalog) && TableInv(catalog, start, rows, commits) && MigratorInv(catalog, rows, commits, me)
    ensures var (after, on) := StepPhase(catalog, rows, me, a);
            var commits' := if on.total > me.total then commits + [catalog[me.phase.next].version] else commits;
            GoodStep(catalog, start, rows, commits, me, after, commits', on)
  {
    var (after, on) := StepPhase(catalog, rows, me, a);
    assert |catalog[..me.known]| == me.known;
    hide WalkStep, Grows, TableInv, Verified;
    if me.phase.Walking? && me.phase.next < me.known {
      WalkKeepsInv(catalog, start, rows, commits, me, a);
    } else {
      if me.phase.Walking? {
        VerifiedIsComplete(catalog, rows, me.phase.next);
        assert MigratorInv(catalog, rows, commits, on);
      } else if me.phase.Failed? {
        FailureKeepsInv(catalog, start, rows, commits, me, a);
      } else if !me.phase.Returned? {
        ReadKeepsInv(catalog, start, rows, commits, me, a);
      }
      hide MigratorInv;
      StayingPut(catalog, start, rows, commits, me, on);
    }
  }

  lemma ListingStartsTheWalk(catalog: seq<Migration>, start: Table, rows: Table, commits: seq<int>)
    requires TableInv(catalog, start, rows, commits)
    ensures Verified(catalog, rows, 0) && IsPrefix(catalog, rows) && Grows(catalog, rows, rows)
  {
  }

  lemma VerifiedIsComplete(catalog: seq<Migration>, rows: Table, n: nat)
    requires Verified(catalog, rows, n)
    ensures Complete(catalog, rows, n)
  {
    forall v | v in Versions(catalog[..n])
      ensures v in rows
    {
      var i := VersionIndex(catalog, n, v);
    }
  }

  ghost predicate Initial(catalog: seq<Migration>, s: State) {
    && IsPrefix(catalog, s.rows) && s.commits == []
    && forall m :: 0 <= m < |s.migrators| ==>
         var me := s.migrators[m];
         me.known <= |catalog| && me.attempt == 0 && me.phase == Start && me.applied == me.total == 0
  }

  lemma StepKeepsInv(catalog: seq<Migration>, start: Table, s: State, m: nat, a: Answer)
    requires Ascending(catalog) && Inv(catalog, start, s) && m < |s.migrators| && s.migrators[m].known <= |catalog|
    ensures Inv(catalog, start, Step(catalog, s, m, a))
  {
    var t := Step(catalog, s, m, a);
    StepPhaseKeepsInv(catalog, start, s.rows, s.commits, s.migrators[m], a);
    hide MigratorInv, TableInv, Grows, StepPhase;
    assert GoodStep(catalog, start, s.rows, s.commits, s.migrators[m], t.rows, t.commits, t.migrators[m]);
    forall k | 0 <= k < |t.migrators|
      ensures MigratorInv(catalog, t.rows, t.commits, t.migrators[k])
    {
      if k != m {
        MigratorInvIsStable(catalog, s.rows, s.commits, s.migrators[k], t.rows, t.commits);
      }
    }
  }

  lemma {:induction false} RunKeepsInv(catalog: seq<Migration>, s: State, schedule: seq<Choice>)
    requires Ascending(catalog) && Initial(catalog, s)
    ensures Known(catalog, s) && Inv(catalog, s.rows, Run(catalog, s, schedule))
  {
    if schedule == [] {
      GrowsIsReflexive(catalog, s.rows);
    } else {
      var n := |schedule| - 1;
      RunKeepsInv(catalog, s, schedule[..n]);
      var t := Run(catalog, s, schedule[..n]);
      hide Inv, Initial;
      if schedule[n].migrator < |t.migrators| {
        StepKeepsInv(catalog, s.rows, t, schedule[n].migrator, schedule[n].answer);
      }
    }
  }

  // ---- the promises ----

  /** However migrators interleave, fail and retry, the applied versions stay a prefix of the catalog, no
      migration commits twice, and every version committed is recorded with the catalog's checksum. */
  lemma AppliedStaysAPrefix(catalog: seq<Migration>, s: State, schedule: seq<Choice>)
    requires Ascending(catalog) && Initial(catalog, s) && Known(catalog, s)
    ensures var t := Run(catalog, s, schedule);
            && IsPrefix(catalog, t.rows) && s.rows.Keys <= t.rows.Keys
            && Distinct(t.commits)
            && (forall v :: v in t.commits <==> v in t.rows && v !in s.rows)
            && (forall i :: 0 <= i < |catalog| && catalog[i].version in t.commits ==>
                  t.rows[catalog[i].version] == Some(catalog[i].checksum))
  {
    RunKeepsInv(catalog, s, schedule);
  }

  /** A process that returned Ok, by walking its catalog or by the `applied_max == known_max` shortcut,
      left every migration it knows applied. */
  lemma OkMeansComplete(catalog: seq<Migration>, s: State, schedule: seq<Choice>, m: nat)
    requires Ascending(catalog) && Initial(catalog, s) && Known(catalog, s) && m < |s.migrators|
    requires Run(catalog, s, schedule).migrators[m].phase == Returned(Ok(()))
    ensures Complete(catalog, Run(catalog, s, schedule).rows, s.migrators[m].known)
  {
    RunKeepsInv(catalog, s, schedule);
    var t := Run(catalog, s, schedule);
    assert MigratorInv(catalog, t.rows, t.commits, t.migrators[m]);
  }

  /** A call that ends in MigrationDiverged applied no migration; one that ends in FutureDatabase applied
      none either, unless a newer build committed beyond this one's catalog while it was retrying. */
  lemma RefusalsApplyNothing(catalog: seq<Migration>, s: State, schedule: seq<Choice>, m: nat)
    requires Ascending(catalog) && Initial(catalog, s) && Known(catalog, s) && m < |s.migrators|
    requires var p := Run(catalog, s, schedule).migrators[m].phase; p.Returned? && p.result.Err?
    ensures var t := Run(catalog, s, schedule);
            var me := t.migrators[m];
            && (me.phase.result.error.MigrationDiverged? ==> me.total == 0)
            && (me.phase.result.error.FutureDatabase? ==>
                  me.applied == 0 && (me.total > 0 ==> NewerCommitted(catalog, t.commits, me.known)))
  {
    RunKeepsInv(catalog, s, schedule);
    var t := Run(catalog, s, schedule);
    assert MigratorInv(catalog, t.rows, t.commits, t.migrators[m]);
  }
}

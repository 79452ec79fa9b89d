/** One migrating process among many, left alone from some point on. */
module LoneMigrator {
  import opened Wrappers
  import opened Migration
  import opened MigrationOutcomes

  /** Process `m` takes `n` steps with nobody in between and the storage working. */
  function Alone(catalog: seq<Migration>, s: State, m: nat, n: nat): (t: State)
    requires Known(catalog, s) && m < |s.migrators|
    ensures |t.migrators| == |s.migrators|
    decreases n
  {
    if n == 0 then s
    else
      CommitsAreKnown(catalog, s, m, Works);
      Alone(catalog, Step(catalog, s, m, Works), m, n - 1)
  }

  /** The table still shows what the process read of the migrations it has yet to handle, and nothing disagrees. */
  ghost predicate Undisturbed(catalog: seq<Migration>, stored: Table, rows: Table, next: nat, known: nat)
    requires known <= |catalog|
  {
    forall i :: next <= i < known ==>
      && !Disagrees(catalog[i], stored)
      && (catalog[i].version in rows <==> catalog[i].version in stored)
  }

  lemma WalkOnAlone(catalog: seq<Migration>, s: State, m: nat, start: Table)
    requires Ascending(catalog) && Known(catalog, s) && m < |s.migrators|
    requires var me := s.migrators[m];
             me.phase.Walking? && me.phase.next < me.known && AppliedTo(catalog, start, s.rows, me.phase.next) &&
             Undisturbed(catalog, me.phase.stored, s.rows, me.phase.next, me.known) && me.phase.stored == start
    ensures var me, t := s.migrators[m], Step(catalog, s, m, Works);
            && t.migrators[m].phase == Walking(start, me.phase.next + 1) && t.migrators[m].known == me.known
            && AppliedTo(catalog, start, t.rows, me.phase.next + 1)
            && Undisturbed(catalog, start, t.rows, me.phase.next + 1, me.known)
  {
    var me := s.migrators[m];
    var mig := catalog[me.phase.next];
    assert catalog[..me.known][me.phase.next] == mig;
    AppliedOne(catalog, start, s.rows, me.phase.next);
    assert forall i :: me.phase.next < i < me.known ==> catalog[i].version != mig.version;
    hide AppliedTo;
  }

  lemma {:induction false} WalksToTheEnd(catalog: seq<Migration>, s: State, m: nat, start: Table)
    requires Ascending(catalog) && Known(catalog, s) && m < |s.migrators|
    requires var me := s.migrators[m];
             me.phase.Walking? && me.phase.next <= me.known && AppliedTo(catalog, start, s.rows, me.phase.next) &&
             Undisturbed(catalog, me.phase.stored, s.rows, me.phase.next, me.known) && me.phase.stored == start
    ensures var me := s.migrators[m];
            var t := Alone(catalog, s, m, me.known - me.phase.next + 1);
            t.migrators[m].phase == Returned(Ok(())) && AppliedTo(catalog, start, t.rows, me.known)
    decreases s.migrators[m].known - s.migrators[m].phase.next
  {
    hide AppliedTo, Undisturbed, Step;
    var me := s.migrators[m];
    CommitsAreKnown(catalog, s, m, Works);
    if me.phase.next < me.known {
      WalkOnAlone(catalog, s, m, start);
      WalksToTheEnd(catalog, Step(catalog, s, m, Works), m, start);
    } else {
      LastStepReturns(catalog, s, m);
      assert Alone(catalog, Step(catalog, s, m, Works), m, 0) == Step(catalog, s, m, Works);
    }
  }

  lemma LastStepReturns(catalog: seq<Migration>, s: State, m: nat)
    requires Known(catalog, s) && m < |s.migrators|
    requires var me := s.migrators[m]; me.phase.Walking? && me.phase.next == me.known
    ensures var t := Step(catalog, s, m, Works); t.rows == s.rows && t.migrators[m].phase == Returned(Ok(()))
  {
  }

  lemma ReadsAlone(catalog: seq<Migration>, s: State, m: nat)
    requires Known(catalog, s) && m < |s.migrators| && s.migrators[m].phase.Start?
    requires !AnyAbove(s.rows, KnownMax(catalog[..s.migrators[m].known]))
    ensures var t := Step(catalog, s, m, Works);
            && Known(catalog, t) && t.rows == s.rows && |t.migrators| == |s.migrators|
            && t.migrators[m] == s.migrators[m].(phase := Listed)
  {
    CommitsAreKnown(catalog, s, m, Works);
    hide AnyAbove;
  }

  lemma ReadsChecksumsAlone(catalog: seq<Migration>, s: State, m: nat)
    requires Known(catalog, s) && m < |s.migrators| && s.migrators[m].phase.Listed?
    ensures var t := Step(catalog, s, m, Works);
            && Known(catalog, t) && t.rows == s.rows && |t.migrators| == |s.migrators|
            && t.migrators[m] == s.migrators[m].(phase := Walking(s.rows, 0))
  {
    CommitsAreKnown(catalog, s, m, Works);
  }

  /** A process that starts on a table with no newer version and no checksum that disagrees, and is then left
      alone, applies everything it knows and returns Ok. */
  lemma AloneAppliesAll(catalog: seq<Migration>, s: State, m: nat)
    requires Ascending(catalog) && Known(catalog, s) && m < |s.migrators| && s.migrators[m].phase.Start?
    requires !AnyAbove(s.rows, KnownMax(catalog[..s.migrators[m].known]))
    requires NoMismatch(catalog[..s.migrators[m].known], s.rows)
    ensures var known := s.migrators[m].known;
            var t := Alone(catalog, s, m, known + 3);
            t.migrators[m].phase == Returned(Ok(())) && AppliedTo(catalog, s.rows, t.rows, known)
  {
    hide AppliedTo, Step, AnyAbove;
    var known := s.migrators[m].known;
    ReadsAlone(catalog, s, m);
    var listed := Step(catalog, s, m, Works);
    ReadsChecksumsAlone(catalog, listed, m);
    var walking := Step(catalog, listed, m, Works);
    NothingApplied(catalog, s.rows);
    assert forall i :: 0 <= i < known ==> catalog[..known][i] == catalog[i];
    assert Undisturbed(catalog, s.rows, walking.rows, 0, known);
    hide Undisturbed, NoMismatch;
    WalksToTheEnd(catalog, walking, m, s.rows);
    assert Alone(catalog, listed, m, known + 2) == Alone(catalog, walking, m, known + 1);
  }
}

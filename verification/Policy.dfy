/** Which sensors a resolved change lets the policy drop. */
module Policy {
  import opened Text
  import opened Resolver

  const SENSOR_SCOPES: map<string, seq<string>> := map[
    "check-agt" := ["crates/guardian-proxy"],
    "check-mcp" := ["crates/guardian-proxy"],
    "powerset" := ["crates/guardian-proxy"],
    "test-shared" := ["crates/shared_lib"],
    "test-leaf-a" := ["crates/leaf_a"],
    "test-leaf-b" := ["crates/leaf_b"],
    "check-codegen" := ["crates/codegen_crate"],
    "test-codegen" := ["crates/codegen_crate"]
  ]

  const ALWAYS_APPLICABLE: set<string> := {"commitlint", "dora"}

  datatype Removed = Removed(sensor: string, scopes: seq<string>)

  /** A component root and a scope are the same directory or one lies under the other. */
  predicate Touches(component: string, target: string) {
    component == target || target + "/" <= component || component + "/" <= target
  }

  /** The component roots the policy considers active. */
  function Active(f: Facts): set<string> {
    set r | r in f.components + f.affected
  }

  predicate FallsBack(f: Facts) {
    !f.resolved || f.globalChange || f.warnings > 0
  }

  predicate Matches(targets: seq<string>, active: set<string>) {
    exists t :: t in targets && exists c :: c in active && Touches(c, t)
  }

  predicate Kept(f: Facts, sensor: string) {
    FallsBack(f) || sensor in ALWAYS_APPLICABLE || sensor !in SENSOR_SCOPES || Matches(SENSOR_SCOPES[sensor], Active(f))
  }

  /** The sensors of `baseline` the policy keeps, in order. */
  function Selected(f: Facts, baseline: seq<string>): seq<string> {
    if baseline == [] then []
    else
      var n := |baseline| - 1;
      Selected(f, baseline[..n]) + if Kept(f, baseline[n]) then [baseline[n]] else []
  }

  /** The sensors of `baseline` the policy drops, in order. */
  function Dropped(f: Facts, baseline: seq<string>): seq<Removed> {
    if baseline == [] then []
    else
      var n := |baseline| - 1;
      Dropped(f, baseline[..n]) +
      if Kept(f, baseline[n]) then [] else [Removed(baseline[n], SENSOR_SCOPES[baseline[n]])]
  }

  method Evaluate(f: Facts, baseline: seq<string>) returns (selected: seq<string>, removed: seq<Removed>, fallback: bool)
    ensures fallback == FallsBack(f)
    ensures selected == Selected(f, baseline) && removed == Dropped(f, baseline)
  {
    if !f.resolved || f.globalChange || f.warnings > 0 {
      FallbackKeepsAll(f, baseline);
      return baseline, [], true;
    }
    var active := Active(f);
    selected, removed, fallback := [], [], false;
    for i := 0 to |baseline|
      invariant selected == Selected(f, baseline[..i]) && removed == Dropped(f, baseline[..i])
    {
      var sensor := baseline[i];
      assert baseline[..i + 1][..i] == baseline[..i];
      if sensor in ALWAYS_APPLICABLE {
        selected := selected + [sensor];
        continue;
      }
      if sensor in SENSOR_SCOPES {
        if Matches(SENSOR_SCOPES[sensor], active) {
          selected := selected + [sensor];
        } else {
          removed := removed + [Removed(sensor, SENSOR_SCOPES[sensor])];
        }
      } else {
        selected := selected + [sensor];
      }
    }
    assert baseline[..|baseline|] == baseline;
  }

  lemma {:induction false} FallbackKeepsAll(f: Facts, baseline: seq<string>)
    requires FallsBack(f)
    ensures Selected(f, baseline) == baseline && Dropped(f, baseline) == []
  {
    if baseline != [] {
      FallbackKeepsAll(f, baseline[..|baseline| - 1]);
    }
  }

  function Sensors(removed: seq<Removed>): seq<string> {
    seq(|removed|, i requires 0 <= i < |removed| => removed[i].sensor)
  }

  /** The two lists partition the baseline in order, each sensor going where `Kept` says. */
  lemma {:induction false} ListsPartitionTheBaseline(f: Facts, baseline: seq<string>)
    ensures Interleaves(seq(|baseline|, i requires 0 <= i < |baseline| => Kept(f, baseline[i])),
                        Selected(f, baseline), Sensors(Dropped(f, baseline)), baseline)
  {
    if baseline != [] {
      var n := |baseline| - 1;
      var keep := seq(|baseline|, i requires 0 <= i < |baseline| => Kept(f, baseline[i]));
      ListsPartitionTheBaseline(f, baseline[..n]);
      assert keep[..n] == seq(n, i requires 0 <= i < n => Kept(f, baseline[..n][i]));
      var a, b := Selected(f, baseline), Dropped(f, baseline);
      if keep[n] {
        assert a[..|a| - 1] == Selected(f, baseline[..n]) && b == Dropped(f, baseline[..n]);
      } else {
        var names := Sensors(b);
        assert names[..|names| - 1] == Sensors(Dropped(f, baseline[..n])) && a == Selected(f, baseline[..n]);
      }
    }
  }

  /** Reaching more components, or falling back, never drops more. */
  lemma {:induction false} MoreAffectedDropsNoMore(f: Facts, g: Facts, baseline: seq<string>)
    requires FallsBack(f) ==> FallsBack(g)
    requires Active(f) <= Active(g)
    ensures forall r :: r in Dropped(g, baseline) ==> r in Dropped(f, baseline)
    ensures |Dropped(g, baseline)| <= |Dropped(f, baseline)|
  {
    if baseline != [] {
      MoreAffectedDropsNoMore(f, g, baseline[..|baseline| - 1]);
    }
  }

  lemma {:induction false} DroppedIsNotKept(f: Facts, baseline: seq<string>, r: Removed)
    requires r in Dropped(f, baseline)
    ensures r.sensor in baseline && !Kept(f, r.sensor) && r.scopes == SENSOR_SCOPES[r.sensor]
  {
    if r in Dropped(f, baseline[..|baseline| - 1]) {
      DroppedIsNotKept(f, baseline[..|baseline| - 1], r);
    }
  }

  /** The member owns a changed file or is reached from one that does. */
  ghost predicate MayBeAffected(ws: Workspace, changed: seq<string>, id: Id) {
    Modified(ws.members, changed, id) || Affected(ws, changed, id)
  }

  /** From changed files to dropped sensors: a sensor is dropped only if every changed file belongs to a
      member, none is global, and no member that owns a changed file, or that is reached from such a member
      along depended-on-by edges, has a root that equals, contains or lies under one of its scopes. */
  lemma DroppedSensorsAreUntouched(ws: Workspace, changed: seq<string>, f: Facts, baseline: seq<string>, r: Removed)
    requires FactsFor(ws, changed, f) && r in Dropped(f, baseline)
    ensures r.sensor in baseline && r.sensor !in ALWAYS_APPLICABLE
    ensures forall p :: p in changed ==> !IsGlobal(p) && exists m :: m in ws.members && Contains(m.root, p)
    ensures forall m, t :: m in ws.members && t in r.scopes && MayBeAffected(ws, changed, m.id) ==> !Touches(m.root, t)
  {
    DroppedIsNotKept(f, baseline, r);
    forall p | p in changed
      ensures !IsGlobal(p) && exists m :: m in ws.members && Contains(m.root, p)
    {
      assert !Unmapped(ws.members, p);
    }
    hide Modified, Affected, IsGlobal, Contains, Unmapped, Touches;
    forall m, t | m in ws.members && t in r.scopes && MayBeAffected(ws, changed, m.id)
      ensures !Touches(m.root, t)
    {
      assert m.root in f.components || m.root in f.affected;
      assert m.root in Active(f);
    }
  }

  lemma {:induction false} DroppedAreNotKept(f: Facts, baseline: seq<string>, sensor: string)
    ensures sensor in Sensors(Dropped(f, baseline)) <==> sensor in baseline && !Kept(f, sensor)
  {
    if baseline != [] {
      var n := |baseline| - 1;
      DroppedAreNotKept(f, baseline[..n], sensor);
      var few, more := Sensors(Dropped(f, baseline[..n])), Sensors(Dropped(f, baseline));
      assert baseline == baseline[..n] + [baseline[n]];
      assert more == few + if Kept(f, baseline[n]) then [] else [baseline[n]];
      hide Kept, Dropped, Sensors;
    }
  }

  /** The component roots of the facts are those of the members that own a changed file or are reached from one. */
  lemma ActiveRoots(ws: Workspace, changed: seq<string>, f: Facts, root: string)
    requires FactsFor(ws, changed, f)
    ensures root in Active(f) <==> exists m :: m in ws.members && m.root == root && MayBeAffected(ws, changed, m.id)
  {
    hide Modified, Affected, IsGlobal, Unmapped;
  }

  /** The other half as well: a sensor of the baseline is dropped exactly when it is scoped and not exempt, the change
      is neither global nor unmapped, and it leaves alone everything its scopes touch. */
  lemma DroppedIff(ws: Workspace, changed: seq<string>, f: Facts, baseline: seq<string>, sensor: string)
    requires FactsFor(ws, changed, f)
    ensures sensor in Sensors(Dropped(f, baseline)) <==>
              && sensor in baseline && sensor in SENSOR_SCOPES && sensor !in ALWAYS_APPLICABLE
              && (forall p :: p in changed ==> !IsGlobal(p) && !Unmapped(ws.members, p))
              && forall m, t :: m in ws.members && t in SENSOR_SCOPES[sensor] && MayBeAffected(ws, changed, m.id) ==>
                   !Touches(m.root, t)
  {
    DroppedAreNotKept(f, baseline, sensor);
    assert FallsBack(f) <==> exists p :: p in changed && (IsGlobal(p) || Unmapped(ws.members, p)) by {
      hide IsGlobal, Unmapped, ListsModified, ListsAffected;
    }
    hide FallsBack, IsGlobal, Unmapped, Touches, Sensors, Dropped, MayBeAffected, Active, FactsFor;
    if sensor in SENSOR_SCOPES {
      MatchesIff(ws, changed, f, SENSOR_SCOPES[sensor]);
    }
    hide Matches;
  }

  lemma MatchesIff(ws: Workspace, changed: seq<string>, f: Facts, scopes: seq<string>)
    requires FactsFor(ws, changed, f)
    ensures Matches(scopes, Active(f)) <==>
              exists m, t :: m in ws.members && t in scopes && MayBeAffected(ws, changed, m.id) && Touches(m.root, t)
  {
    hide Touches, MayBeAffected, Active, FactsFor;
    if Matches(scopes, Active(f)) {
      var t :| t in scopes && exists c :: c in Active(f) && Touches(c, t);
      var c :| c in Active(f) && Touches(c, t);
      ActiveRoots(ws, changed, f, c);
      var m :| m in ws.members && m.root == c && MayBeAffected(ws, changed, m.id);
      assert Touches(m.root, t);
    }
    if m, t :| m in ws.members && t in scopes && MayBeAffected(ws, changed, m.id) && Touches(m.root, t) {
      ActiveRoots(ws, changed, f, m.root);
      assert m.root in Active(f) && Touches(m.root, t);
    }
  }

  /** For paths given by their components touching means that one list of components starts the other. */
  lemma TouchesIff(a: seq<string>, b: seq<string>)
    requires a != [] && b != [] && (forall x :: x in a ==> '/' !in x) && (forall x :: x in b ==> '/' !in x)
    ensures Touches(Joined('/', a), Joined('/', b)) <==> a <= b || b <= a
  {
    hide Joined, Split;
    LiesUnderIff(a, b);
    LiesUnderIff(b, a);
    SplitJoined('/', a);
    SplitJoined('/', b);
    assert a <= b <==> a < b || a == b;
    assert b <= a <==> b < a || a == b;
  }

  lemma LiesUnderIff(a: seq<string>, b: seq<string>)
    requires a != [] && b != [] && (forall x :: x in a ==> '/' !in x) && (forall x :: x in b ==> '/' !in x)
    ensures Joined('/', a) + "/" <= Joined('/', b) <==> a < b
  {
    hide Joined, Split;
    SplitJoined('/', a);
    SplitJoined('/', b);
    if Joined('/', a) + "/" <= Joined('/', b) {
      var rest := Joined('/', b)[|Joined('/', a)| + 1..];
      assert Joined('/', b) == Joined('/', a) + ['/'] + rest;
      SplitAppend('/', Joined('/', a), rest);
    }
    if a < b {
      JoinedUnder(a, b[|a|..]);
      assert b == a + b[|a|..];
    }
  }

  lemma {:induction false} JoinedUnder(a: seq<string>, rest: seq<string>)
    requires a != [] && rest != []
    ensures Joined('/', a) + "/" <= Joined('/', a + rest)
  {
    assert (a + rest)[1..] == a[1..] + rest;
    if |a| > 1 {
      JoinedUnder(a[1..], rest);
    }
  }
}

/** Which workspace members a change reaches: the Cargo reference resolver. */
module Resolver {
  import opened Text
  import opened Wrappers

  type Id = string

  /** A workspace member with package metadata; `root` is relative to the repository. */
  datatype Member = Member(id: Id, root: string)

  /** A node of the resolved dependency graph. */
  datatype Node = Node(id: Id, deps: seq<Id>)

  datatype Metadata = Metadata(packages: set<Id>, workspace: set<Id>, nodes: seq<Node>)

  datatype Facts = Facts(resolved: bool, components: seq<string>, affected: seq<string>,
                         globalChange: bool, warnings: nat)

  const CARGO_MANIFEST := "Cargo.toml"

  const GLOBAL_PATTERNS: set<string> := {
    "Cargo.lock", "rust-toolchain.toml", ".clippy.toml", ".markdownlint-cli2.jsonc", ".yamllint.yml",
    "do-harness.toml", "deny.toml"
  }

  // ---- reverse dependencies ----

  /** `p` depends on `d` according to the resolved graph. */
  ghost predicate DependsOn(nodes: seq<Node>, p: Id, d: Id) {
    exists i :: 0 <= i < |nodes| && nodes[i].id == p && d in nodes[i].deps
  }

  /** `dependents` maps every known package to the packages that depend on it. */
  ghost predicate ReverseGraph(meta: Metadata, dependents: map<Id, set<Id>>) {
    && dependents.Keys == meta.packages
    && forall d, p :: d in dependents ==> (p in dependents[d] <==> DependsOn(meta.nodes, p, d))
  }

  method BuildDependents(meta: Metadata) returns (dependents: map<Id, set<Id>>)
    ensures ReverseGraph(meta, dependents)
  {
    dependents := map d | d in meta.packages :: {};
    for i := 0 to |meta.nodes|
      invariant dependents.Keys == meta.packages
      invariant forall d, p :: d in dependents ==> (p in dependents[d] <==> DependsOn(meta.nodes[..i], p, d))
    {
      var node := meta.nodes[i];
      ghost var before := dependents;
      for j := 0 to |node.deps|
        invariant dependents.Keys == meta.packages
        invariant forall d, p :: d in dependents ==>
                    (p in dependents[d] <==> p in before[d] || (p == node.id && d in node.deps[..j]))
      {
        var dep := node.deps[j];
        assert node.deps[..j + 1] == node.deps[..j] + [dep];
        if dep in dependents {
          dependents := dependents[dep := dependents[dep] + {node.id}];
        }
      }
      assert node.deps[..|node.deps|] == node.deps;
      forall d, p | d in dependents
        ensures DependsOn(meta.nodes[..i + 1], p, d) <==> DependsOn(meta.nodes[..i], p, d) || (p == node.id && d in node.deps)
      {
        DependsOnOneMore(meta.nodes, i, p, d);
      }
    }
    assert meta.nodes[..|meta.nodes|] == meta.nodes;
  }

  lemma DependsOnOneMore(nodes: seq<Node>, i: nat, p: Id, d: Id)
    requires i < |nodes|
    ensures DependsOn(nodes[..i + 1], p, d) <==> DependsOn(nodes[..i], p, d) || (p == nodes[i].id && d in nodes[i].deps)
  {
    var few, more := nodes[..i], nodes[..i + 1];
    assert more == few + [nodes[i]];
    if DependsOn(few, p, d) {
      var k :| 0 <= k < |few| && few[k].id == p && d in few[k].deps;
      assert more[k] == few[k];
    }
    if p == nodes[i].id && d in nodes[i].deps {
      assert more[i] == nodes[i];
    }
    if DependsOn(more, p, d) {
      var k :| 0 <= k < |more| && more[k].id == p && d in more[k].deps;
      assert k < i ==> few[k] == more[k];
    }
  }

  // ---- transitive dependents ----

  /** The workspace members that depend directly on `p`, if `p` is a known package. */
  function Dependents(dependents: map<Id, set<Id>>, workspace: set<Id>, p: Id): set<Id> {
    if p in dependents then dependents[p] * workspace else {}
  }

  /** A chain of workspace members, each depending on the one before, that starts at a modified member. */
  ghost predicate Chain(dependents: map<Id, set<Id>>, workspace: set<Id>, modified: set<Id>, path: seq<Id>) {
    && path != [] && path[0] in modified
    && forall i :: 0 < i < |path| ==> path[i] in Dependents(dependents, workspace, path[i - 1])
  }

  ghost predicate Reached(dependents: map<Id, set<Id>>, workspace: set<Id>, modified: set<Id>, x: Id) {
    exists path :: Chain(dependents, workspace, modified, path) && path[|path| - 1] == x
  }

  /** Exactly the unmodified workspace members that some modified member reaches. */
  ghost predicate IsClosure(dependents: map<Id, set<Id>>, workspace: set<Id>, modified: set<Id>, affected: set<Id>) {
    forall x :: x in affected <==> x !in modified && x in workspace && Reached(dependents, workspace, modified, x)
  }

  class Closure {
    const dependents: map<Id, set<Id>>
    const workspace: set<Id>
    const modified: set<Id>
    var affected: set<Id>

    constructor (dependents: map<Id, set<Id>>, workspace: set<Id>, modified: set<Id>)
      ensures this.dependents == dependents && this.workspace == workspace && this.modified == modified
      ensures affected == {}
    {
      this.dependents, this.workspace, this.modified := dependents, workspace, modified;
      affected := {};
    }

    ghost predicate Valid()
      reads this
    {
      affected <= workspace - modified && forall x :: x in affected ==> Reached(dependents, workspace, modified, x)
    }

    /** Every unmodified dependent of `x` has been collected. */
    ghost predicate Explored(x: Id)
      reads this
    {
      Dependents(dependents, workspace, x) - modified <= affected
    }

    /** Collects the members reachable from `pkg`; what it adds is explored when it returns. */
    method Visit(pkg: Id)
      requires Valid() && Reached(dependents, workspace, modified, pkg)
      modifies this
      ensures Valid() && old(affected) <= affected && Explored(pkg)
      ensures forall x :: x in affected - old(affected) ==> Explored(x)
      decreases workspace - affected
    {
      var parents := if pkg in dependents then dependents[pkg] else {};
      while parents != {}
        invariant Valid() && old(affected) <= affected
        invariant parents <= (if pkg in dependents then dependents[pkg] else {})
        invariant Dependents(dependents, workspace, pkg) - modified <= affected + parents
        invariant forall x :: x in affected - old(affected) ==> Explored(x)
        decreases parents
      {
        var parent :| parent in parents;
        parents := parents - {parent};
        if parent in workspace && parent !in modified && parent !in affected {
          ReachedStep(dependents, workspace, modified, pkg, parent);
          ghost var before := affected;
          affected := affected + {parent};
          Visit(parent);
          assert forall x :: x in affected - old(affected) ==>
                   x == parent || x in affected - (before + {parent}) || x in before - old(affected);
        }
      }
    }

    /** Visits every modified member: exactly the unmodified members reached from one are collected. */
    method Close()
      requires affected == {}
      modifies this
      ensures IsClosure(dependents, workspace, modified, affected)
    {
      var todo := modified;
      while todo != {}
        invariant Valid() && todo <= modified
        invariant forall x :: x in affected || x in modified - todo ==> Explored(x)
        decreases todo
      {
        var m :| m in todo;
        assert Chain(dependents, workspace, modified, [m]);
        assert [m][|[m]| - 1] == m;
        todo := todo - {m};
        Visit(m);
      }
      forall x | x !in modified && Reached(dependents, workspace, modified, x)
        ensures x in affected
      {
        var path :| Chain(dependents, workspace, modified, path) && path[|path| - 1] == x;
        ExploredSetsHoldReached(dependents, workspace, modified, affected, path);
      }
    }
  }

  lemma ReachedStep(dependents: map<Id, set<Id>>, workspace: set<Id>, modified: set<Id>, x: Id, y: Id)
    requires Reached(dependents, workspace, modified, x) && y in Dependents(dependents, workspace, x)
    ensures Reached(dependents, workspace, modified, y)
  {
    var path :| Chain(dependents, workspace, modified, path) && path[|path| - 1] == x;
    var more := path + [y];
    forall i | 0 < i < |more|
      ensures more[i] in Dependents(dependents, workspace, more[i - 1])
    {
      if i < |path| {
        assert path[i] in Dependents(dependents, workspace, path[i - 1]);
      }
    }
    assert Chain(dependents, workspace, modified, more) && more[|more| - 1] == y;
  }

  lemma {:induction false} ExploredSetsHoldReached(dependents: map<Id, set<Id>>, workspace: set<Id>, modified: set<Id>,
                                                   affected: set<Id>, path: seq<Id>)
    requires Chain(dependents, workspace, modified, path)
    requires forall x :: x in affected + modified ==> Dependents(dependents, workspace, x) - modified <= affected
    ensures path[|path| - 1] in affected + modified
  {
    if |path| > 1 {
      var n := |path| - 1;
      assert Chain(dependents, workspace, modified, path[..n]);
      ExploredSetsHoldReached(dependents, workspace, modified, affected, path[..n]);
      assert path[n] in Dependents(dependents, workspace, path[n - 1]);
    }
  }

  // ---- attributing files to members ----

  /** The member root contains the file. */
  predicate Contains(root: string, path: string) {
    path == root || root + "/" <= path
  }

  ghost predicate LongestFirst(members: seq<Member>) {
    forall i, j :: 0 <= i < j < |members| ==> |members[i].root| >= |members[j].root|
  }

  /** The owner of a file: a member whose root contains it, no other containing root being longer. */
  ghost predicate Owns(members: seq<Member>, m: Member, path: string) {
    m in members && Contains(m.root, path) && forall x :: x in members && Contains(x.root, path) ==> |x.root| <= |m.root|
  }

  /** Two containing roots of the same length are the same root: the longest one is unambiguous. */
  lemma LongestRootIsUnique(members: seq<Member>, m: Member, n: Member, path: string)
    requires Owns(members, m, path) && Owns(members, n, path)
    ensures m.root == n.root
  {
    assert m.root == path[..|m.root|] && n.root == path[..|n.root|];
  }

  /** Cargo keeps one package per directory. */
  ghost predicate OneMemberPerRoot(members: seq<Member>) {
    forall a, b :: a in members && b in members && a.root == b.root ==> a == b
  }

  predicate IsGlobal(path: string) {
    path in GLOBAL_PATTERNS || path == CARGO_MANIFEST
  }

  /** The first match in longest-first order. */
  method FindOwner(members: seq<Member>, path: string) returns (matched: bool, owner: Id)
    requires LongestFirst(members)
    ensures matched ==> exists m :: Owns(members, m, path) && m.id == owner
    ensures !matched ==> forall m :: m in members ==> !Contains(m.root, path)
  {
    owner := "";
    for i := 0 to |members|
      invariant forall j :: 0 <= j < i ==> !Contains(members[j].root, path)
    {
      if Contains(members[i].root, path) {
        assert Owns(members, members[i], path);
        return true, members[i].id;
      }
    }
    matched := false;
  }

  ghost predicate Modified(members: seq<Member>, changed: seq<string>, id: Id) {
    exists p, m :: p in changed && Owns(members, m, p) && m.id == id
  }

  ghost predicate Unmapped(members: seq<Member>, p: string) {
    !IsGlobal(p) && forall m :: m in members ==> !Contains(m.root, p)
  }

  method AttributeFiles(members: seq<Member>, changed: seq<string>) returns (modified: set<Id>, unmapped: seq<string>)
    requires LongestFirst(members) && OneMemberPerRoot(members)
    ensures forall id :: id in modified <==> Modified(members, changed, id)
    ensures forall p :: p in unmapped <==> p in changed && Unmapped(members, p)
  {
    modified, unmapped := {}, [];
    for i := 0 to |changed|
      invariant forall id :: id in modified <==> Modified(members, changed[..i], id)
      invariant forall p :: p in unmapped <==> p in changed[..i] && Unmapped(members, p)
    {
      var path := changed[i];
      var matched, owner := FindOwner(members, path);
      assert changed[..i + 1] == changed[..i] + [path];
      OneMoreFile(members, changed[..i], path, matched, owner);
      if matched {
        modified := modified + {owner};
      } else if !IsGlobal(path) {
        unmapped := unmapped + [path];
      }
      hide Modified, Unmapped, IsGlobal, Contains, Owns;
    }
    assert changed[..|changed|] == changed;
  }

  lemma OneMoreFile(members: seq<Member>, seen: seq<string>, path: string, matched: bool, owner: Id)
    requires OneMemberPerRoot(members)
    requires matched ==> exists m :: Owns(members, m, path) && m.id == owner
    requires !matched ==> forall m :: m in members ==> !Contains(m.root, path)
    ensures forall id :: Modified(members, seen + [path], id) <==> Modified(members, seen, id) || (matched && id == owner)
    ensures Unmapped(members, path) <==> !matched && !IsGlobal(path)
  {
    hide IsGlobal, Contains;
    forall x, y | Owns(members, x, path) && Owns(members, y, path)
      ensures x == y
    {
      LongestRootIsUnique(members, x, y, path);
    }
    assert forall p :: p in seen + [path] <==> p in seen || p == path;
  }

  // ---- the whole resolver ----

  datatype Workspace = Workspace(meta: Metadata, members: seq<Member>)

  ghost predicate WellFormed(ws: Workspace) {
    && OneMemberPerRoot(ws.members) && (forall m :: m in ws.members ==> m.id in ws.meta.workspace)
    && ListedOnce(ws.members)
  }

  ghost predicate ListedOnce(members: seq<Member>) {
    forall m :: m in multiset(members) ==> multiset(members)[m] == 1
  }

  /** A path that leaves the repository: absolute, or with a `..` component. */
  predicate Escapes(path: string) {
    ".." in Split('/', path) || "/" <= path
  }

  function InsertLongest(m: Member, ms: seq<Member>): (r: seq<Member>)
    ensures multiset(r) == multiset(ms) + multiset{m}
  {
    if ms == [] then [m]
    else
      assert ms == [ms[0]] + ms[1..];
      if |m.root| > |ms[0].root| then [m] + ms else [ms[0]] + InsertLongest(m, ms[1..])
  }

  /** Stable sort by root length, longest first. */
  function SortLongest(ms: seq<Member>): (r: seq<Member>)
    ensures multiset(r) == multiset(ms)
  {
    if ms == [] then []
    else
      assert ms == ms[..|ms| - 1] + [ms[|ms| - 1]];
      InsertLongest(ms[|ms| - 1], SortLongest(ms[..|ms| - 1]))
  }

  lemma {:induction false} InsertKeepsLongest(m: Member, ms: seq<Member>)
    requires LongestFirst(ms)
    ensures LongestFirst(InsertLongest(m, ms))
  {
    if ms != [] && |m.root| <= |ms[0].root| {
      var rest := InsertLongest(m, ms[1..]);
      InsertKeepsLongest(m, ms[1..]);
      forall j | 0 <= j < |rest|
        ensures |ms[0].root| >= |rest[j].root|
      {
        assert rest[j] in multiset(rest);
        assert rest[j] == m || rest[j] in ms[1..];
      }
    }
  }

  lemma {:induction false} SortedLongest(ms: seq<Member>)
    ensures LongestFirst(SortLongest(ms))
    ensures forall m :: m in SortLongest(ms) <==> m in ms
  {
    if ms != [] {
      SortedLongest(ms[..|ms| - 1]);
      InsertKeepsLongest(ms[|ms| - 1], SortLongest(ms[..|ms| - 1]));
    }
    assert forall m :: m in SortLongest(ms) <==> m in multiset(SortLongest(ms));
    assert forall m :: m in ms <==> m in multiset(ms);
  }

  /** `p` is a workspace member that depends on the known package `d`. */
  ghost predicate Dependent(ws: Workspace, d: Id, p: Id) {
    p in ws.meta.workspace && d in ws.meta.packages && DependsOn(ws.meta.nodes, p, d)
  }

  /** A chain of depended-on-by edges through workspace members from the owner of a changed file to `x`. */
  ghost predicate ReachedFrom(ws: Workspace, changed: seq<string>, path: seq<Id>, x: Id) {
    && path != [] && Modified(ws.members, changed, path[0]) && path[|path| - 1] == x
    && forall i, j :: 0 < i < |path| && j == i - 1 ==> Dependent(ws, path[j], path[i])
  }

  /** What the resolver's answer must say. */
  ghost predicate FactsFor(ws: Workspace, changed: seq<string>, f: Facts) {
    && f.resolved
    && (f.globalChange <==> exists p :: p in changed && (IsGlobal(p) || Unmapped(ws.members, p)))
    && (f.warnings > 0 <==> exists p :: p in changed && Unmapped(ws.members, p))
    && ListsModified(ws, changed, f.components)
    && ListsAffected(ws, changed, f.affected)
    && StrictlySortedBy(Self, f.components) && StrictlySortedBy(Self, f.affected)
  }

  /** `roots` are exactly the roots of the members that own a changed file. */
  ghost predicate ListsModified(ws: Workspace, changed: seq<string>, roots: seq<string>) {
    forall r :: r in roots <==> exists m :: m in ws.members && m.root == r && Modified(ws.members, changed, m.id)
  }

  ghost predicate Affected(ws: Workspace, changed: seq<string>, id: Id) {
    !Modified(ws.members, changed, id) && exists path :: ReachedFrom(ws, changed, path, id)
  }

  /** `roots` are exactly the roots of the other members reached from one of those. */
  ghost predicate ListsAffected(ws: Workspace, changed: seq<string>, roots: seq<string>) {
    forall r :: r in roots <==> exists m :: m in ws.members && m.root == r && Affected(ws, changed, m.id)
  }

  function RootsOf(members: seq<Member>, ids: set<Id>): (roots: seq<string>)
    ensures forall r :: r in roots <==> exists m :: m in members && m.root == r && m.id in ids
  {
    if members == [] then []
    else
      var n := |members| - 1;
      assert members == members[..n] + [members[n]];
      if members[n].id in ids then RootsOf(members[..n], ids) + [members[n].root] else RootsOf(members[..n], ids)
  }

  const UNRESOLVED := Facts(false, [], [], true, 1)

  /** Path safety and the global patterns. */
  method ScreenPaths(changed: seq<string>) returns (safe: bool, globalChange: bool)
    ensures safe <==> forall p :: p in changed ==> !Escapes(p)
    ensures safe ==> (globalChange <==> exists p :: p in changed && IsGlobal(p))
  {
    globalChange := false;
    hide Escapes, IsGlobal;
    for i := 0 to |changed|
      invariant forall p :: p in changed[..i] ==> !Escapes(p)
      invariant globalChange <==> exists p :: p in changed[..i] && IsGlobal(p)
    {
      assert changed[..i + 1] == changed[..i] + [changed[i]];
      if Escapes(changed[i]) {
        return false, globalChange;
      }
      if IsGlobal(changed[i]) {
        globalChange := true;
      }
    }
    assert changed[..|changed|] == changed;
    safe := true;
  }

  /** `cargo` is absent when the metadata command fails. */
  method Resolve(changed: seq<string>, cargo: Option<Workspace>) returns (f: Facts)
    requires cargo.Some? ==> WellFormed(cargo.value)
    ensures f.resolved <==> cargo.Some? && forall p :: p in changed ==> !Escapes(p)
    ensures f.resolved ==> FactsFor(cargo.value, changed, f)
    ensures !f.resolved ==> f == UNRESOLVED
  {
    hide IsGlobal, Modified, Unmapped, ReverseGraph, IsClosure, Escapes, FactsFor, LongestFirst;
    var safe, globalChange := ScreenPaths(changed);
    if !safe || cargo.None? {
      return UNRESOLVED;
    }
    var ws := cargo.value;
    var members := SortLongest(ws.members);
    SortedLongest(ws.members);
    var dependents := BuildDependents(ws.meta);
    assert OneMemberPerRoot(members) && ListedOnce(members);
    var modified, unmapped := AttributeFiles(members, changed);
    var closure := new Closure(dependents, ws.meta.workspace, modified);
    closure.Close();
    f := Facts(true, Sorted(Self, RootsOf(members, modified)), Sorted(Self, RootsOf(members, closure.affected)),
               globalChange || unmapped != [], if unmapped != [] then 1 else 0);
    FactsAreRight(ws, changed, members, dependents, modified, unmapped, closure.affected, globalChange, f);
  }

  lemma SortedRoots(roots: seq<string>)
    ensures forall r :: r in Sorted(Self, roots) <==> r in roots
  {
    assert forall r :: r in Sorted(Self, roots) <==> r in multiset(Sorted(Self, roots));
    assert forall r :: r in roots <==> r in multiset(roots);
  }

  /** Members with different roots, each listed once, give each root once. */
  lemma {:induction false} RootsAreListedOnce(members: seq<Member>, ids: set<Id>)
    requires OneMemberPerRoot(members) && ListedOnce(members)
    ensures forall r :: r in multiset(RootsOf(members, ids)) ==> multiset(RootsOf(members, ids))[r] == 1
  {
    if members != [] {
      var n := |members| - 1;
      var few, last := members[..n], members[n];
      assert members == few + [last];
      FewerMembers(few, last);
      RootsAreListedOnce(few, ids);
      hide OneMemberPerRoot, ListedOnce;
      assert last.root !in RootsOf(few, ids);
      assert RootsOf(members, ids) == RootsOf(few, ids) + if last.id in ids then [last.root] else [];
      hide RootsOf;
    }
  }

  lemma FewerMembers(few: seq<Member>, last: Member)
    requires OneMemberPerRoot(few + [last]) && ListedOnce(few + [last])
    ensures OneMemberPerRoot(few) && ListedOnce(few) && forall m :: m in few ==> m.root != last.root
  {
    var members := few + [last];
    assert forall m :: m in few ==> m in members;
    forall m | m in few
      ensures multiset(few)[m] == 1 && m.root != last.root
    {
      assert last in members && multiset(members)[m] == 1;
      assert multiset(members) == multiset(few) + multiset{last};
    }
  }

  lemma RootsAreSorted(members: seq<Member>, ids: set<Id>)
    requires OneMemberPerRoot(members) && ListedOnce(members)
    ensures StrictlySortedBy(Self, Sorted(Self, RootsOf(members, ids)))
  {
    hide OneMemberPerRoot, ListedOnce, SortedBy, StrictlySortedBy;
    RootsAreListedOnce(members, ids);
    SortedIsSorted(Self, RootsOf(members, ids));
    NoRepeats(Sorted(Self, RootsOf(members, ids)));
  }

  lemma FactsAreRight(ws: Workspace, changed: seq<string>, members: seq<Member>, dependents: map<Id, set<Id>>,
                      modified: set<Id>, unmapped: seq<string>, affected: set<Id>, globalChange: bool, f: Facts)
    requires WellFormed(ws) && OneMemberPerRoot(members) && ListedOnce(members)
    requires forall m :: m in members <==> m in ws.members
    requires ReverseGraph(ws.meta, dependents)
    requires forall id :: id in modified <==> Modified(members, changed, id)
    requires forall p :: p in unmapped <==> p in changed && Unmapped(members, p)
    requires IsClosure(dependents, ws.meta.workspace, modified, affected)
    requires globalChange <==> exists p :: p in changed && IsGlobal(p)
    requires f == Facts(true, Sorted(Self, RootsOf(members, modified)), Sorted(Self, RootsOf(members, affected)),
                        globalChange || unmapped != [], if unmapped != [] then 1 else 0)
    ensures FactsFor(ws, changed, f)
  {
    hide Modified, Unmapped, ReverseGraph, IsGlobal, ListsModified, ListsAffected, Affected, RootsOf, Sorted, IsClosure, WellFormed,
         StrictlySortedBy, OneMemberPerRoot, ListedOnce;
    RootsAreSorted(members, modified);
    RootsAreSorted(members, affected);
    SameMembers(members, ws.members, changed);
    FlagsAreRight(ws, changed, unmapped, globalChange);
    ModifiedAreListed(ws, changed, members, modified);
    ClosureIsReachedFrom(ws, changed, dependents, modified, affected);
    AffectedAreListed(ws, changed, members, affected);
  }

  lemma ModifiedAreListed(ws: Workspace, changed: seq<string>, members: seq<Member>, ids: set<Id>)
    requires forall m :: m in members <==> m in ws.members
    requires forall id :: id in ids <==> Modified(ws.members, changed, id)
    ensures ListsModified(ws, changed, Sorted(Self, RootsOf(members, ids)))
  {
    hide Modified;
    SortedRoots(RootsOf(members, ids));
  }

  lemma AffectedAreListed(ws: Workspace, changed: seq<string>, members: seq<Member>, ids: set<Id>)
    requires forall m :: m in members <==> m in ws.members
    requires forall m :: m in ws.members ==> (m.id in ids <==> Affected(ws, changed, m.id))
    ensures ListsAffected(ws, changed, Sorted(Self, RootsOf(members, ids)))
  {
    hide Affected;
    SortedRoots(RootsOf(members, ids));
  }

  lemma FlagsAreRight(ws: Workspace, changed: seq<string>, unmapped: seq<string>, globalChange: bool)
    requires forall p :: p in unmapped <==> p in changed && Unmapped(ws.members, p)
    requires globalChange <==> exists p :: p in changed && IsGlobal(p)
    ensures unmapped != [] <==> exists p :: p in changed && Unmapped(ws.members, p)
    ensures globalChange || unmapped != [] <==> exists p :: p in changed && (IsGlobal(p) || Unmapped(ws.members, p))
  {
    hide IsGlobal, Unmapped;
    if unmapped != [] {
      assert unmapped[0] in unmapped;
    }
  }

  lemma ClosureIsReachedFrom(ws: Workspace, changed: seq<string>, dependents: map<Id, set<Id>>, modified: set<Id>,
                             affected: set<Id>)
    requires WellFormed(ws) && ReverseGraph(ws.meta, dependents)
    requires forall id :: id in modified <==> Modified(ws.members, changed, id)
    requires IsClosure(dependents, ws.meta.workspace, modified, affected)
    ensures forall m :: m in ws.members ==> (m.id in affected <==> Affected(ws, changed, m.id))
  {
    hide Modified, ReverseGraph;
    forall x
      ensures Reached(dependents, ws.meta.workspace, modified, x) <==> exists path :: ReachedFrom(ws, changed, path, x)
    {
      ReachedIsReachedFrom(ws, changed, dependents, modified, x);
    }
    hide Reached, ReachedFrom;
  }

  lemma SameMembers(a: seq<Member>, b: seq<Member>, changed: seq<string>)
    requires forall m :: m in a <==> m in b
    ensures forall id :: Modified(a, changed, id) <==> Modified(b, changed, id)
    ensures forall p :: Unmapped(a, p) <==> Unmapped(b, p)
  {
    hide Contains, IsGlobal;
    assert forall m, p :: Owns(a, m, p) <==> Owns(b, m, p);
  }

  lemma ReachedIsReachedFrom(ws: Workspace, changed: seq<string>, dependents: map<Id, set<Id>>, modified: set<Id>, x: Id)
    requires ReverseGraph(ws.meta, dependents)
    requires forall id :: id in modified <==> Modified(ws.members, changed, id)
    ensures Reached(dependents, ws.meta.workspace, modified, x) <==> exists path :: ReachedFrom(ws, changed, path, x)
  {
    hide DependsOn, Modified;
    assert forall d, p :: d in dependents ==> (p in dependents[d] <==> DependsOn(ws.meta.nodes, p, d));
    if path :| Chain(dependents, ws.meta.workspace, modified, path) && path[|path| - 1] == x {
      assert ReachedFrom(ws, changed, path, x);
    }
    if path :| ReachedFrom(ws, changed, path, x) {
      forall i | 0 < i < |path|
        ensures path[i] in Dependents(dependents, ws.meta.workspace, path[i - 1])
      {
        assert Dependent(ws, path[i - 1], path[i]);
      }
      assert Chain(dependents, ws.meta.workspace, modified, path);
    }
  }
}

/** Artifact globs: a budgeted walk that returns everything it should or says that it did not.

  The file system is a tree whose nodes may refuse to be read. Glob matching is a
  parameter; completeness needs of it only that what the given patterns match starts with
  their directory text as written, and it is shown which patterns meet that.
*/
module Artifacts {
  import opened Wrappers
  import opened Text

  const MAX_ARTIFACTS := 200
  const MAX_VISITS := 10_000
  const MAX_DEPTH := 64

  datatype Artifact = Artifact(path: string, sha256: string)

  const MARKER := Artifact("@unverified", "unreadable")

  datatype Tree =
    | Dir(entries: seq<Entry>)
    | UnreadableDir

  /** `contained` is the containment check of managed paths; `utf8` says that the name is valid UTF-8. */
  datatype Kind =
    | Broken
    | Untyped
    | Folder(sub: Tree, reachable: bool)
    | Leaf(regular: bool, contained: bool, utf8: bool, digest: string)

  datatype Entry = Entry(name: string, kind: Kind)

  predicate Marked(out: seq<Artifact>) {
    exists a :: a in out && a.path == MARKER.path
  }

  /** A regular file of `entries` at the components `comps`; `skipGit` leaves out what lies below `.git`. */
  predicate HasFile(entries: seq<Entry>, comps: seq<string>, digest: string, skipGit: bool)
    decreases |comps|
  {
    comps != [] && exists i :: 0 <= i < |entries| && EntryHasFile(entries[i], comps, digest, skipGit)
  }

  predicate EntryHasFile(e: Entry, comps: seq<string>, digest: string, skipGit: bool)
    requires comps != []
    decreases |comps|, 0
  {
    e.name == comps[0] &&
    if |comps| == 1 then e.kind.Leaf? && e.kind.regular && e.kind.digest == digest
    else e.kind.Folder? && !(skipGit && e.name == ".git") && e.kind.sub.Dir?
         && HasFile(e.kind.sub.entries, comps[1..], digest, skipGit)
  }

  /** What the walk below `at` owes for the listed entries: every matching file, or the marker. */
  ghost predicate Covered(out: seq<Artifact>, matches: string -> bool, at: seq<string>, entries: seq<Entry>) {
    Marked(out) ||
    forall comps, digest :: HasFile(entries, comps, digest, true) && matches(Joined('/', at + comps)) ==>
      Artifact(Joined('/', at + comps), digest) in out
  }

  /** Every artifact was there before, is the marker, or is a matching regular file with its digest. */
  ghost predicate Sound(out: seq<Artifact>, before: seq<Artifact>, matches: string -> bool, at: seq<string>, entries: seq<Entry>) {
    forall a :: a in out ==> a in before || a == MARKER || IsFileOf(a, matches, at, entries)
  }

  ghost predicate IsFileOf(a: Artifact, matches: string -> bool, at: seq<string>, entries: seq<Entry>) {
    matches(a.path) && exists comps :: HasFile(entries, comps, a.sha256, false) && a.path == Joined('/', at + comps)
  }

  // ---- what a walk cannot vouch for ----

  /** `e` lies at the components `comps`, behind directories that the walk enters. */
  predicate EntryAt(entries: seq<Entry>, comps: seq<string>, e: Entry)
    decreases |comps|
  {
    comps != [] && exists i :: 0 <= i < |entries| && LeadsTo(entries[i], comps, e)
  }

  predicate LeadsTo(first: Entry, comps: seq<string>, e: Entry)
    requires comps != []
    decreases |comps|, 0
  {
    first.name == comps[0] &&
    if |comps| == 1 then first == e
    else first.kind.Folder? && first.name != ".git" && first.kind.sub.Dir? && EntryAt(first.kind.sub.entries, comps[1..], e)
  }

  /** An entry that cannot be verified: of unknown kind, a directory that is out of bounds, unreadable or too deep,
      a file whose name is no text, or a match that is no regular file within bounds. */
  predicate Unverifiable(e: Entry, matches: string -> bool, path: string, depth: nat) {
    match e.kind
    case Broken => true
    case Untyped => true
    case Folder(sub, reachable) => e.name != ".git" && (!reachable || sub.UnreadableDir? || depth > MAX_DEPTH)
    case Leaf(regular, contained, utf8, _) => !utf8 || (matches(path) && (!regular || !contained))
  }

  /** Some entry below the directory at `at`, `depth` levels down, cannot be verified. */
  ghost predicate TroubleIn(entries: seq<Entry>, at: seq<string>, matches: string -> bool, depth: nat) {
    exists comps, e :: EntryAt(entries, comps, e) && Unverifiable(e, matches, Joined('/', at + comps), depth + |comps|)
  }

  /** The directory itself, or an entry below it, cannot be verified. */
  ghost predicate Trouble(tree: Tree, reachable: bool, at: seq<string>, matches: string -> bool, depth: nat) {
    depth > MAX_DEPTH || !reachable || tree.UnreadableDir? || TroubleIn(tree.entries, at, matches, depth)
  }

  ghost predicate EntryTrouble(e: Entry, at: seq<string>, matches: string -> bool, depth: nat) {
    if e.kind.Folder? then e.name != ".git" && Trouble(e.kind.sub, e.kind.reachable, at + [e.name], matches, depth + 1)
    else Unverifiable(e, matches, Joined('/', at + [e.name]), depth + 1)
  }

  lemma EntryTroubleIn(e: Entry, at: seq<string>, matches: string -> bool, depth: nat)
    ensures EntryTrouble(e, at, matches, depth) <==> TroubleIn([e], at, matches, depth)
  {
    hide Joined;
    if EntryTrouble(e, at, matches, depth) {
      if Unverifiable(e, matches, Joined('/', at + [e.name]), depth + 1) {
        assert LeadsTo([e][0], [e.name], e);
        assert EntryAt([e], [e.name], e);
      } else {
        var comps, x :| EntryAt(e.kind.sub.entries, comps, x) &&
                        Unverifiable(x, matches, Joined('/', at + [e.name] + comps), depth + 1 + |comps|);
        var longer := [e.name] + comps;
        assert longer[1..] == comps;
        assert LeadsTo([e][0], longer, x);
        assert EntryAt([e], longer, x);
        assert at + longer == at + [e.name] + comps;
      }
    }
    if TroubleIn([e], at, matches, depth) {
      var comps, x :| EntryAt([e], comps, x) && Unverifiable(x, matches, Joined('/', at + comps), depth + |comps|);
      assert LeadsTo(e, comps, x);
      if |comps| == 1 {
        assert comps == [e.name];
      } else {
        assert at + comps == at + [e.name] + comps[1..];
        var rest, below := comps[1..], at + [e.name];
        assert EntryAt(e.kind.sub.entries, rest, x) && depth + |comps| == depth + 1 + |rest|;
        assert Unverifiable(x, matches, Joined('/', below + rest), depth + 1 + |rest|);
      }
    }
  }

  lemma TroubleSplits(entries: seq<Entry>, at: seq<string>, matches: string -> bool, depth: nat, i: nat)
    requires i < |entries|
    ensures TroubleIn(entries[..i + 1], at, matches, depth) <==>
              TroubleIn(entries[..i], at, matches, depth) || EntryTrouble(entries[i], at, matches, depth)
  {
    EntryTroubleIn(entries[i], at, matches, depth);
    hide EntryTrouble, Unverifiable, Joined, EntryAt;
    var first, last, both := entries[..i], [entries[i]], entries[..i + 1];
    forall comps, e | EntryAt(both, comps, e) && Unverifiable(e, matches, Joined('/', at + comps), depth + |comps|)
      ensures TroubleIn(first, at, matches, depth) || TroubleIn(last, at, matches, depth)
    {
      EntryAtSplits(entries, comps, e, i);
    }
    forall comps, e | (EntryAt(first, comps, e) || EntryAt(last, comps, e)) &&
                      Unverifiable(e, matches, Joined('/', at + comps), depth + |comps|)
      ensures TroubleIn(both, at, matches, depth)
    {
      EntryAtSplits(entries, comps, e, i);
    }
  }

  lemma EntryAtSplits(entries: seq<Entry>, comps: seq<string>, e: Entry, i: nat)
    requires i < |entries|
    ensures EntryAt(entries[..i + 1], comps, e) <==> EntryAt(entries[..i], comps, e) || EntryAt([entries[i]], comps, e)
  {
    if comps != [] {
      hide LeadsTo;
      var first, last, both := entries[..i], [entries[i]], entries[..i + 1];
      if k :| 0 <= k < |both| && LeadsTo(both[k], comps, e) {
        assert if k < i then LeadsTo(first[k], comps, e) else LeadsTo(last[0], comps, e);
      }
      if k :| 0 <= k < |first| && LeadsTo(first[k], comps, e) {
        assert LeadsTo(both[k], comps, e);
      }
      if LeadsTo(last[0], comps, e) {
        assert LeadsTo(both[i], comps, e);
      }
    }
  }

  // ---- what a walk collects ----

  /** The verified matches below the first `n` entries of a directory the walk enters, in the order of the walk. */
  function Found(tree: Tree, at: seq<string>, matches: string -> bool, depth: nat, n: nat): seq<Artifact>
    requires tree.Dir? && n <= |tree.entries|
    decreases tree, n
  {
    if n == 0 then [] else Found(tree, at, matches, depth, n - 1) + FoundAt(tree.entries[n - 1], at, matches, depth)
  }

  function FoundAt(e: Entry, at: seq<string>, matches: string -> bool, depth: nat): seq<Artifact>
    decreases e
  {
    match e.kind
    case Folder(sub, reachable) =>
      if e.name != ".git" then AllFound(sub, reachable, at + [e.name], matches, depth + 1) else []
    case Leaf(regular, contained, utf8, digest) =>
      var path := Joined('/', at + [e.name]);
      if utf8 && regular && contained && matches(path) then [Artifact(path, digest)] else []
    case _ => []
  }

  function AllFound(tree: Tree, reachable: bool, at: seq<string>, matches: string -> bool, depth: nat): seq<Artifact>
    decreases tree
  {
    if Entered(tree, reachable, depth) then Found(tree, at, matches, depth, |tree.entries|) else []
  }

  predicate Entered(tree: Tree, reachable: bool, depth: nat) {
    reachable && tree.Dir? && depth <= MAX_DEPTH
  }

  /** The number of entries it looks at on the way. */
  function Visited(tree: Tree, depth: nat, n: nat): nat
    requires tree.Dir? && n <= |tree.entries|
    decreases tree, n
  {
    if n == 0 then 0 else Visited(tree, depth, n - 1) + VisitedAt(tree.entries[n - 1], depth)
  }

  function VisitedAt(e: Entry, depth: nat): (n: nat)
    ensures n >= 1
    decreases e
  {
    1 + if e.kind.Folder? && e.name != ".git" then AllVisited(e.kind.sub, e.kind.reachable, depth + 1) else 0
  }

  function AllVisited(tree: Tree, reachable: bool, depth: nat): nat
    decreases tree
  {
    if Entered(tree, reachable, depth) then Visited(tree, depth, |tree.entries|) else 0
  }

  lemma {:induction false} FoundGrows(tree: Tree, at: seq<string>, matches: string -> bool, depth: nat, m: nat, n: nat)
    requires tree.Dir? && m <= n <= |tree.entries|
    ensures |Found(tree, at, matches, depth, m)| <= |Found(tree, at, matches, depth, n)|
    ensures Visited(tree, depth, m) + (n - m) <= Visited(tree, depth, n)
    decreases n - m
  {
    if m < n {
      FoundGrows(tree, at, matches, depth, m, n - 1);
    }
  }

  function Unmarked(xs: seq<Artifact>): seq<Artifact> {
    if xs == [] then []
    else
      var n := |xs| - 1;
      Unmarked(xs[..n]) + if xs[n] == MARKER then [] else [xs[n]]
  }

  lemma {:induction false} UnmarkedOfTwo(a: seq<Artifact>, b: seq<Artifact>)
    ensures Unmarked(a + b) == Unmarked(a) + Unmarked(b)
  {
    if b == [] {
      assert a + b == a;
    } else {
      var n := |b| - 1;
      assert (a + b)[..|a + b| - 1] == a + b[..n];
      UnmarkedOfTwo(a, b[..n]);
    }
  }

  /** What the marker may still take of the list. */
  ghost function Room(out: seq<Artifact>): nat {
    if Marked(out) then 0 else 1
  }

  /** What a part of the walk did. It is marked after trouble. Within the budgets it looked at `visited` entries and
      added exactly `found`, and the marker only after trouble. */
  ghost predicate Did(out0: seq<Artifact>, visits0: nat, out: seq<Artifact>, visits: nat, found: seq<Artifact>,
                      visited: nat, trouble: bool) {
    && (trouble ==> Marked(out))
    && (|out0| + |found| + Room(out0) < MAX_ARTIFACTS && visits0 + visited < MAX_VISITS ==>
          && visits == visits0 + visited
          && if trouble then Unmarked(out) == Unmarked(out0 + found) && |out| <= |out0| + |found| + Room(out0)
             else out == out0 + found)
  }

  lemma DidBoth(a: seq<Artifact>, visitsA: nat, b: seq<Artifact>, visitsB: nat, c: seq<Artifact>, visitsC: nat,
                found: seq<Artifact>, visited: nat, trouble: bool, found': seq<Artifact>, visited': nat, trouble': bool)
    requires Did(a, visitsA, b, visitsB, found, visited, trouble)
    requires Did(b, visitsB, c, visitsC, found', visited', trouble')
    requires Marked(b) ==> Marked(c)
    ensures Did(a, visitsA, c, visitsC, found + found', visited + visited', trouble || trouble')
  {
    assert Marked(a) ==> Marked(a + found) by {
      MarkedStays(a, found);
    }
    UnmarkedOfTwo(a + found, found');
    UnmarkedOfTwo(b, found');
    hide Marked, Unmarked;
    assert a + found + found' == a + (found + found');
  }

  lemma MarkedStays(a: seq<Artifact>, b: seq<Artifact>)
    ensures Marked(a) ==> Marked(a + b)
  {
    if x :| x in a && x.path == MARKER.path {
      assert x in a + b;
    }
  }

  /** What handling one entry did. */
  ghost predicate Exact(out0: seq<Artifact>, visits0: nat, out: seq<Artifact>, visits: nat, e: Entry, at: seq<string>,
                        matches: string -> bool, depth: nat) {
    Did(out0, visits0, out, visits, FoundAt(e, at, matches, depth), VisitedAt(e, depth), EntryTrouble(e, at, matches, depth))
  }

  /** The same of the first `i` entries. */
  ghost predicate ExactUpTo(out0: seq<Artifact>, visits0: nat, out: seq<Artifact>, visits: nat, tree: Tree, at: seq<string>,
                            matches: string -> bool, depth: nat, i: nat)
    requires tree.Dir? && i <= |tree.entries|
  {
    Did(out0, visits0, out, visits, Found(tree, at, matches, depth, i), Visited(tree, depth, i),
        TroubleIn(tree.entries[..i], at, matches, depth))
  }

  /** The same of a directory. */
  ghost predicate WalkExact(out0: seq<Artifact>, visits0: nat, out: seq<Artifact>, visits: nat, tree: Tree, reachable: bool,
                            at: seq<string>, matches: string -> bool, depth: nat) {
    Did(out0, visits0, out, visits, AllFound(tree, reachable, at, matches, depth), AllVisited(tree, reachable, depth),
        Trouble(tree, reachable, at, matches, depth))
  }

  lemma OneMoreExact(out0: seq<Artifact>, visits0: nat, before: seq<Artifact>, looked: nat, out: seq<Artifact>, visits: nat,
                     tree: Tree, at: seq<string>, matches: string -> bool, depth: nat, i: nat)
    requires tree.Dir? && i < |tree.entries|
    requires ExactUpTo(out0, visits0, before, looked, tree, at, matches, depth, i)
    requires Exact(before, looked, out, visits, tree.entries[i], at, matches, depth) && (Marked(before) ==> Marked(out))
    ensures ExactUpTo(out0, visits0, out, visits, tree, at, matches, depth, i + 1)
  {
    hide TroubleIn, EntryTrouble, Marked, FoundAt, VisitedAt, Did;
    TroubleSplits(tree.entries, at, matches, depth, i);
    DidBoth(out0, visits0, before, looked, out, visits,
            Found(tree, at, matches, depth, i), Visited(tree, depth, i), TroubleIn(tree.entries[..i], at, matches, depth),
            FoundAt(tree.entries[i], at, matches, depth), VisitedAt(tree.entries[i], depth),
            EntryTrouble(tree.entries[i], at, matches, depth));
  }

  lemma NothingYet(out: seq<Artifact>, visits: nat, tree: Tree, at: seq<string>, matches: string -> bool, depth: nat)
    requires tree.Dir?
    ensures ExactUpTo(out, visits, out, visits, tree, at, matches, depth, 0)
  {
  }

  /** What handling one entry must have done, seen from the budgets. */
  ghost predicate Counted(before: seq<Artifact>, looked: nat, out: seq<Artifact>, visits: nat, e: Entry, at: seq<string>,
                          matches: string -> bool, depth: nat) {
    match e.kind
    case Folder(sub, reachable) =>
      if e.name == ".git" then out == before && visits == looked + 1
      else WalkExact(before, looked + 1, out, visits, sub, reachable, at + [e.name], matches, depth + 1)
    case Leaf(regular, contained, utf8, digest) =>
      var a := Artifact(Joined('/', at + [e.name]), digest);
      visits == looked + 1 &&
      if !utf8 || (matches(a.path) && (!regular || !contained)) then MarkerAdded(before, out)
      else out == before + if matches(a.path) then [a] else []
    case _ => visits == looked + 1 && MarkerAdded(before, out)
  }

  /** The marker is in the list now; unless the list was full, nothing else changed. */
  ghost predicate MarkerAdded(before: seq<Artifact>, out: seq<Artifact>) {
    && Marked(out)
    && (Marked(before) ==> out == before)
    && (!Marked(before) && |before| < MAX_ARTIFACTS ==> out == before + [MARKER])
    && (!Marked(before) && |before| >= MAX_ARTIFACTS ==> out == before[..|before| - 1] + [MARKER])
  }

  lemma MarkerIsTrouble(before: seq<Artifact>, visits: nat, out: seq<Artifact>)
    requires MarkerAdded(before, out)
    ensures Did(before, visits, out, visits, [], 0, true)
  {
    UnmarkedOfTwo(before, [MARKER]);
    assert [MARKER][..0] == [] && Unmarked([MARKER]) == [];
    assert before + [] == before;
    hide Unmarked;
  }

  lemma EntryExact(before: seq<Artifact>, looked: nat, out: seq<Artifact>, visits: nat, e: Entry, at: seq<string>,
                   matches: string -> bool, depth: nat)
    requires Counted(before, looked, out, visits, e, at, matches, depth)
    ensures Exact(before, looked, out, visits, e, at, matches, depth)
  {
    hide Trouble, Marked, AllFound, AllVisited, Unmarked;
    assert before + [] == before;
    if MarkerAdded(before, out) {
      MarkerIsTrouble(before, looked, out);
    }
    hide MarkerAdded;
  }

  lemma WalkedAll(out0: seq<Artifact>, visits0: nat, out: seq<Artifact>, visits: nat, tree: Tree, at: seq<string>,
                  matches: string -> bool, depth: nat)
    requires tree.Dir? && depth <= MAX_DEPTH
    requires ExactUpTo(out0, visits0, out, visits, tree, at, matches, depth, |tree.entries|)
    ensures WalkExact(out0, visits0, out, visits, tree, true, at, matches, depth)
  {
    assert tree.entries[..|tree.entries|] == tree.entries;
    hide TroubleIn, Found, Visited, Did;
  }

  /** A budget that has run out before the next entry cannot suffice for all of them. */
  lemma BudgetRunsOut(out0: seq<Artifact>, visits0: nat, before: seq<Artifact>, looked: nat, out: seq<Artifact>, visits: nat,
                      tree: Tree, at: seq<string>, matches: string -> bool, depth: nat, i: nat)
    requires tree.Dir? && i < |tree.entries| && Marked(out) && depth <= MAX_DEPTH
    requires ExactUpTo(out0, visits0, before, looked, tree, at, matches, depth, i)
    requires |before| >= MAX_ARTIFACTS || looked >= MAX_VISITS
    ensures WalkExact(out0, visits0, out, visits, tree, true, at, matches, depth)
  {
    FoundGrows(tree, at, matches, depth, i, |tree.entries|);
    hide TroubleIn, Found, Visited, Marked, Unmarked;
  }

  /** A directory that is not walked leaves the marker. */
  lemma NotWalked(out0: seq<Artifact>, visits: nat, out: seq<Artifact>, tree: Tree, reachable: bool,
                  at: seq<string>, matches: string -> bool, depth: nat)
    requires MarkerAdded(out0, out)
    requires |out0| >= MAX_ARTIFACTS || visits >= MAX_VISITS || depth > MAX_DEPTH || !reachable || tree.UnreadableDir?
    ensures WalkExact(out0, visits, out, visits, tree, reachable, at, matches, depth)
    ensures tree.Dir? ==> Covered(out, matches, at, tree.entries) && Sound(out, out0, matches, at, tree.entries)
    ensures Marked(out) && forall a :: a in out ==> a in out0 || a == MARKER
  {
    if !Entered(tree, reachable, depth) {
      MarkerIsTrouble(out0, visits, out);
    }
  }

  /** Making room for the marker takes the last entry of a full list and no other. */
  ghost predicate Keeps(before: seq<Artifact>, out: seq<Artifact>) {
    |before| <= MAX_ARTIFACTS && (if |before| < MAX_ARTIFACTS then before else before[..MAX_ARTIFACTS - 1]) <= out
  }

  lemma KeepsItself(out: seq<Artifact>, more: seq<Artifact>)
    requires |out| <= MAX_ARTIFACTS
    ensures Keeps(out, out) && Keeps(out, out + more)
  {
  }

  /** Nothing but the marker came to the list. */
  lemma OnlyMarker(start: seq<Artifact>, before: seq<Artifact>, out: seq<Artifact>, matches: string -> bool, at: seq<string>,
                   entries: seq<Entry>)
    requires Sound(before, start, matches, at, entries) && MarkerAdded(before, out)
    ensures Covered(out, matches, at, entries) && Sound(out, start, matches, at, entries)
  {
  }

  lemma NothingCollected(out: seq<Artifact>, matches: string -> bool, at: seq<string>, entries: seq<Entry>)
    ensures Covered(out, matches, at, []) && Sound(out, out, matches, at, entries)
  {
  }

  lemma KeepsAll(a: seq<Artifact>, b: seq<Artifact>, c: seq<Artifact>)
    requires Keeps(a, b) && Keeps(b, c)
    ensures Keeps(a, c)
  {
  }

  class Collector {
    var out: seq<Artifact>
    var visits: nat

    constructor ()
      ensures out == [] && visits == 0
    {
      out, visits := [], 0;
    }

    /** Records that something could not be verified, making room for the marker when the list is full. */
    method Unverified()
      requires |out| <= MAX_ARTIFACTS
      modifies this
      ensures MarkerAdded(old(out), out) && Keeps(old(out), out) && |out| <= MAX_ARTIFACTS && visits == old(visits)
      ensures Marked(out) && forall a :: a in out ==> a in old(out) || a == MARKER
    {
      if exists a :: a in out && a.path == MARKER.path {
        return;
      }
      if |out| >= MAX_ARTIFACTS {
        out := out[..|out| - 1];
      }
      out := out + [MARKER];
      assert MARKER in out;
    }

    /** Collects the matching files of `tree`, which lies at `at` below the root. */
    method Walk(tree: Tree, reachable: bool, at: seq<string>, matches: string -> bool, depth: nat)
      requires |out| <= MAX_ARTIFACTS
      modifies this
      ensures |out| <= MAX_ARTIFACTS
      ensures Marked(old(out)) ==> Marked(out)
      ensures Marked(out) || old(out) <= out
      ensures Keeps(old(out), out)
      ensures WalkExact(old(out), old(visits), out, visits, tree, reachable, at, matches, depth)
      ensures tree.Dir? ==> Covered(out, matches, at, tree.entries) && Sound(out, old(out), matches, at, tree.entries)
      ensures !tree.Dir? ==> Marked(out) && forall a :: a in out ==> a in old(out) || a == MARKER
      decreases tree
    {
      hide Covered, Sound, Keeps, Marked, Trouble, TroubleIn, Found, Visited, WalkExact, ExactUpTo, Entered, MarkerAdded;
      if tree.Dir? {
        NothingCollected(out, matches, at, tree.entries);
      }
      if |out| >= MAX_ARTIFACTS || visits >= MAX_VISITS || depth > MAX_DEPTH {
        Unverified();
        NotWalked(old(out), visits, out, tree, reachable, at, matches, depth);
        return;
      }
      if !reachable || tree.UnreadableDir? {
        Unverified();
        NotWalked(old(out), visits, out, tree, reachable, at, matches, depth);
        return;
      }
      NothingYet(out, visits, tree, at, matches, depth);
      KeepsItself(out, []);
      assert tree.entries[..0] == [];
      var entries := tree.entries;
      for i := 0 to |entries|
        invariant |out| <= MAX_ARTIFACTS
        invariant Marked(old(out)) ==> Marked(out)
        invariant Marked(out) || old(out) <= out
        invariant Keeps(old(out), out)
        invariant ExactUpTo(old(out), old(visits), out, visits, tree, at, matches, depth, i)
        invariant Covered(out, matches, at, entries[..i]) && Sound(out, old(out), matches, at, entries)
      {
        var entry := entries[i];
        ghost var before, looked := out, visits;
        visits := visits + 1;
        if |out| >= MAX_ARTIFACTS || visits > MAX_VISITS {
          Unverified();
          KeepsAll(old(out), before, out);
          OnlyMarker(old(out), before, out, matches, at, entries);
          BudgetRunsOut(old(out), old(visits), before, looked, out, visits, tree, at, matches, depth, i);
          return;
        }
        match entry.kind {
          case Broken => Unverified();
          case Untyped => Unverified();
          case Folder(sub, ok) =>
            if entry.name != ".git" {
              Walk(sub, ok, at + [entry.name], matches, depth + 1);
            }
          case Leaf(regular, contained, utf8, digest) =>
            var relative := Joined('/', at + [entry.name]);
            if !utf8 {
              Unverified();
            } else if matches(relative) {
              if !regular || !contained {
                Unverified();
              } else {
                out := out + [Artifact(relative, digest)];
              }
            }
        }
        if entry.kind.Leaf? {
          ghost var a := Artifact(Joined('/', at + [entry.name]), entry.kind.digest);
          KeepsItself(before, [a]);
          MarkedStays(before, [a]);
        } else {
          KeepsItself(before, []);
        }
        KeepsAll(old(out), before, out);
        OneMoreEntry(before, out, old(out), matches, at, entries, i);
        EntryExact(before, looked, out, visits, entry, at, matches, depth);
        OneMoreExact(old(out), old(visits), before, looked, out, visits, tree, at, matches, depth, i);
      }
      assert entries[..|entries|] == entries;
      WalkedAll(old(out), old(visits), out, visits, tree, at, matches, depth);
    }
  }

  /** What handling entry `i` must have done to `out`. */
  ghost predicate Handled(before: seq<Artifact>, out: seq<Artifact>, matches: string -> bool, at: seq<string>, e: Entry) {
    && (Marked(before) ==> Marked(out)) && (Marked(out) || before <= out)
    && match e.kind
       case Broken => Marked(out) && forall a :: a in out ==> a in before || a == MARKER
       case Untyped => Marked(out) && forall a :: a in out ==> a in before || a == MARKER
       case Folder(sub, _) =>
         if e.name == ".git" then out == before
         else if sub.Dir? then Covered(out, matches, at + [e.name], sub.entries) && Sound(out, before, matches, at + [e.name], sub.entries)
         else Marked(out) && forall a :: a in out ==> a in before || a == MARKER
       case Leaf(regular, contained, utf8, digest) =>
         var a := Artifact(Joined('/', at + [e.name]), digest);
         if utf8 && !matches(a.path) then out == before
         else if utf8 && regular && contained then out == before + [a]
         else Marked(out) && forall a :: a in out ==> a in before || a == MARKER
  }

  lemma OneMoreEntry(before: seq<Artifact>, out: seq<Artifact>, start: seq<Artifact>, matches: string -> bool,
                     at: seq<string>, entries: seq<Entry>, i: nat)
    requires i < |entries| && Handled(before, out, matches, at, entries[i])
    requires Covered(before, matches, at, entries[..i]) && Sound(before, start, matches, at, entries)
    ensures Covered(out, matches, at, entries[..i + 1]) && Sound(out, start, matches, at, entries)
  {
    OneMoreCovered(before, out, matches, at, entries, i);
    OneMoreSound(before, out, start, matches, at, entries, i);
  }

  lemma OneMoreCovered(before: seq<Artifact>, out: seq<Artifact>, matches: string -> bool,
                       at: seq<string>, entries: seq<Entry>, i: nat)
    requires i < |entries| && Handled(before, out, matches, at, entries[i])
    requires Covered(before, matches, at, entries[..i])
    ensures Covered(out, matches, at, entries[..i + 1])
  {
    var e := entries[i];
    if !Marked(out) {
      forall comps, digest | HasFile(entries[..i + 1], comps, digest, true) && matches(Joined('/', at + comps))
        ensures Artifact(Joined('/', at + comps), digest) in out
      {
        var k :| 0 <= k < i + 1 && EntryHasFile(entries[..i + 1][k], comps, digest, true);
        if k < i {
          assert EntryHasFile(entries[..i][k], comps, digest, true);
          assert Artifact(Joined('/', at + comps), digest) in before;
        } else if |comps| == 1 {
          assert at + comps == at + [e.name];
        } else {
          assert at + comps == at + [e.name] + comps[1..];
        }
      }
    }
  }

  lemma OneMoreSound(before: seq<Artifact>, out: seq<Artifact>, start: seq<Artifact>, matches: string -> bool,
                     at: seq<string>, entries: seq<Entry>, i: nat)
    requires i < |entries| && Handled(before, out, matches, at, entries[i])
    requires Sound(before, start, matches, at, entries)
    ensures Sound(out, start, matches, at, entries)
  {
    var e := entries[i];
    forall a | a in out
      ensures a in start || a == MARKER || IsFileOf(a, matches, at, entries)
    {
      if a !in before && a != MARKER {
        if e.kind.Leaf? {
          assert EntryHasFile(e, [e.name], a.sha256, false);
          assert HasFile(entries, [e.name], a.sha256, false);
        } else {
          var comps :| HasFile(e.kind.sub.entries, comps, a.sha256, false) && a.path == Joined('/', at + [e.name] + comps);
          var longer := [e.name] + comps;
          assert longer[1..] == comps;
          assert EntryHasFile(e, longer, a.sha256, false);
          assert HasFile(entries, longer, a.sha256, false);
          assert at + [e.name] + comps == at + longer;
        }
      }
    }
  }

  // ---- where a glob is walked from ----

  const WILDCARDS: set<char> := {'*', '?', '[', '{', '!'}

  /** Length of the text before the first wildcard. */
  function HeadLength(pattern: string): (n: nat)
    ensures n <= |pattern|
  {
    if pattern == [] || pattern[0] in WILDCARDS then 0 else 1 + HeadLength(pattern[1..])
  }

  /** Position of the last `/`, if any. */
  function LastSlash(s: string): (i: Option<nat>)
    ensures i.Some? ==> i.value < |s| && s[i.value] == '/'
  {
    if s == [] then None
    else if s[|s| - 1] == '/' then Some(|s| - 1)
    else LastSlash(s[..|s| - 1])
  }

  function LiteralPrefix(pattern: string): string {
    var head := pattern[..HeadLength(pattern)];
    var slash := LastSlash(head);
    if slash.Some? then head[..slash.value] else ""
  }

  /** The components a relative path is resolved by; `.` and empty ones are dropped. */
  function Components(parts: seq<string>): seq<string> {
    if parts == [] then []
    else (if parts[0] == "" || parts[0] == "." then [] else [parts[0]]) + Components(parts[1..])
  }

  /** Where the walk of a prefix starts. */
  datatype Start = Missing | Refused | At(tree: Tree, reachable: bool)

  /** Follows components from a directory. A step up anywhere is refused before the first name is looked at; so
      is anything but a folder on the way, but a missing name is not. */
  function Locate(tree: Tree, comps: seq<string>): Start
    decreases |comps|
  {
    if comps == [] then At(tree, true)
    else if ".." in comps || tree.UnreadableDir? then Refused
    else
      var e := Find(tree.entries, comps[0]);
      if e.None? then Missing
      else if !e.value.kind.Folder? then Refused
      else if !e.value.kind.reachable then Refused
      else Locate(e.value.kind.sub, comps[1..])
  }

  function Find(entries: seq<Entry>, name: string): (e: Option<Entry>)
    ensures e.Some? ==> e.value in entries && e.value.name == name
    ensures e.None? ==> forall x :: x in entries ==> x.name != name
  {
    if entries == [] then None
    else if entries[0].name == name then Some(entries[0])
    else Find(entries[1..], name)
  }

  /** Names in a directory are distinct path components. */
  ghost predicate WellFormed(tree: Tree)
    decreases tree
  {
    tree.Dir? ==>
      && (forall i, j :: 0 <= i < j < |tree.entries| ==> tree.entries[i].name != tree.entries[j].name)
      && (forall i :: 0 <= i < |tree.entries| ==>
            && Plain(tree.entries[i].name)
            && (tree.entries[i].kind.Folder? ==> WellFormed(tree.entries[i].kind.sub)))
  }

  function Prefixes(patterns: seq<string>): seq<string> {
    Deduped(Self, Sorted(Self, LiteralPrefixes(patterns)))
  }

  function LiteralPrefixes(patterns: seq<string>): (ps: seq<string>)
    ensures |ps| == |patterns| && forall i :: 0 <= i < |patterns| ==> ps[i] == LiteralPrefix(patterns[i])
  {
    seq(|patterns|, i requires 0 <= i < |patterns| => LiteralPrefix(patterns[i]))
  }

  function PathOf(a: Artifact): string {
    a.path
  }

  /** The glob library: which patterns compile, whether a set of them builds, and which paths one matches. */
  datatype Globs = Globs(compiles: string -> bool, builds: seq<string> -> bool, glob: (string, string) -> bool)

  predicate Matches(g: Globs, patterns: seq<string>, path: string) {
    exists p :: p in patterns && g.compiles(p) && g.glob(p, path)
  }

  /** The directory text of a pattern, with its slash; empty when the pattern is walked from the root. */
  function LiteralDirectory(pattern: string): string {
    var prefix := LiteralPrefix(pattern);
    if prefix == "" then "" else prefix + "/"
  }

  /** What a pattern matches starts with its directory text as written. */
  ghost predicate LiteralHeads(g: Globs, patterns: seq<string>) {
    forall p, path :: p in patterns && g.glob(p, path) ==> LiteralDirectory(p) <= path
  }

  function Matcher(g: Globs, patterns: seq<string>): string -> bool {
    path => Matches(g, patterns, path)
  }

  // ---- a prefix walk sees what the whole tree holds ----

  /** What a finished prefix owes: the matching files below it, or the marker. */
  ghost predicate PrefixDone(out: seq<Artifact>, tree: Tree, matches: string -> bool, at: seq<string>) {
    match Locate(tree, at)
    case Missing => true
    case Refused => Marked(out)
    case At(sub, _) => if sub.Dir? then Covered(out, matches, at, sub.entries) else Marked(out)
  }

  ghost predicate AllFiles(out: seq<Artifact>, matches: string -> bool, entries: seq<Entry>) {
    forall a :: a in out ==> a == MARKER || IsFileOf(a, matches, [], entries)
  }

  lemma PrefixStaysDone(a: seq<Artifact>, b: seq<Artifact>, tree: Tree, matches: string -> bool, at: seq<string>)
    requires PrefixDone(a, tree, matches, at) && (Marked(a) ==> Marked(b)) && (Marked(b) || a <= b)
    ensures PrefixDone(b, tree, matches, at)
  {
  }

  /** Files found below a located directory are files of the tree. */
  lemma {:induction false} LocatedFilesAreFiles(tree: Tree, at: seq<string>, comps: seq<string>, digest: string)
    requires var s := Locate(tree, at); s.At? && s.tree.Dir? && HasFile(s.tree.entries, comps, digest, false)
    ensures tree.Dir? && HasFile(tree.entries, at + comps, digest, false)
    decreases |at|
  {
    if at == [] {
      assert at + comps == comps;
    } else {
      var e := Find(tree.entries, at[0]).value;
      LocatedFilesAreFiles(e.kind.sub, at[1..], comps, digest);
      assert (at + comps)[1..] == at[1..] + comps;
      assert EntryHasFile(e, at + comps, digest, false);
    }
  }

  /** A file below `at` is below the directory located there, unless that directory is refused. */
  lemma {:induction false} FilesAreLocated(tree: Tree, at: seq<string>, comps: seq<string>, digest: string)
    requires WellFormed(tree) && tree.Dir? && comps != [] && HasFile(tree.entries, at + comps, digest, true)
    ensures var s := Locate(tree, at);
            s.Refused? || (s.At? && s.tree.Dir? && HasFile(s.tree.entries, comps, digest, true))
    decreases |at|
  {
    if at == [] {
      assert at + comps == comps;
    } else {
      var i :| 0 <= i < |tree.entries| && EntryHasFile(tree.entries[i], at + comps, digest, true);
      var e := tree.entries[i];
      assert (at + comps)[1..] == at[1..] + comps;
      var f := Find(tree.entries, at[0]);
      assert f == Some(e) by {
        assert e in tree.entries;
      }
      FilesAreLocated(e.kind.sub, at[1..], comps, digest);
    }
  }

  /** The components of a file are plain names. */
  ghost predicate PlainNames(comps: seq<string>) {
    forall i :: 0 <= i < |comps| ==> Plain(comps[i])
  }

  predicate Plain(c: string) {
    c != "" && c != "." && c != ".." && '/' !in c
  }

  lemma {:induction false} FilesHavePlainNames(tree: Tree, comps: seq<string>, digest: string, skipGit: bool)
    requires WellFormed(tree) && tree.Dir? && HasFile(tree.entries, comps, digest, skipGit)
    ensures comps != [] && PlainNames(comps)
    decreases |comps|
  {
    var i :| 0 <= i < |tree.entries| && EntryHasFile(tree.entries[i], comps, digest, skipGit);
    if |comps| > 1 {
      FilesHavePlainNames(tree.entries[i].kind.sub, comps[1..], digest, skipGit);
    }
    assert comps == [comps[0]] + comps[1..];
  }

  lemma {:induction false} PlainComponents(comps: seq<string>)
    requires PlainNames(comps)
    ensures Components(comps) == comps
  {
    if comps != [] {
      PlainComponents(comps[1..]);
    }
  }

  /** A path that starts with the directory text of a pattern lies below the pattern's prefix directory. */
  lemma MatchesLieBelowThePrefix(pattern: string, comps: seq<string>) returns (k: nat)
    requires comps != [] && PlainNames(comps) && LiteralDirectory(pattern) <= Joined('/', comps)
    ensures k < |comps| && Components(Split('/', LiteralPrefix(pattern))) == comps[..k]
  {
    var path := Joined('/', comps);
    var prefix := LiteralPrefix(pattern);
    if prefix == "" {
      k := 0;
    } else {
      var rest := path[|prefix| + 1..];
      assert path == LiteralDirectory(pattern) + rest;
      assert path == prefix + ['/'] + rest;
      SplitAppend('/', prefix, rest);
      SplitJoined('/', comps);
      k := |Split('/', prefix)|;
      assert comps[..k] == Split('/', prefix);
      PlainComponents(comps[..k]);
    }
  }

  /** A prefix that is done holds every matching file below it. */
  lemma DonePrefixHolds(out: seq<Artifact>, tree: Tree, matches: string -> bool, at: seq<string>, rest: seq<string>, digest: string)
    requires WellFormed(tree) && tree.Dir? && !Marked(out) && PrefixDone(out, tree, matches, at)
    requires rest != [] && HasFile(tree.entries, at + rest, digest, true) && matches(Joined('/', at + rest))
    ensures Artifact(Joined('/', at + rest), digest) in out
  {
    hide Joined, Marked;
    FilesAreLocated(tree, at, rest, digest);
    hide WellFormed, HasFile, Locate;
  }

  /** With the prefix of a pattern done, none of its matches is missing. */
  lemma PrefixSuffices(out: seq<Artifact>, tree: Tree, matches: string -> bool, pattern: string, comps: seq<string>, digest: string)
    requires WellFormed(tree) && tree.Dir? && !Marked(out)
    requires PrefixDone(out, tree, matches, Components(Split('/', LiteralPrefix(pattern))))
    requires LiteralDirectory(pattern) <= Joined('/', comps)
    requires HasFile(tree.entries, comps, digest, true) && matches(Joined('/', comps))
    ensures Artifact(Joined('/', comps), digest) in out
  {
    hide WellFormed, PlainNames, HasFile, Locate, PrefixDone, LiteralPrefix, LiteralDirectory, Split, Components, Marked, Joined;
    FilesHavePlainNames(tree, comps, digest, true);
    var k := MatchesLieBelowThePrefix(pattern, comps);
    assert comps == comps[..k] + comps[k..];
    DonePrefixHolds(out, tree, matches, comps[..k], comps[k..], digest);
  }

  /** Where a prefix lies below the root, whose own path has the components `base`; an absolute prefix may lie
      outside. */
  function Place(base: seq<string>, prefix: string): Option<seq<string>> {
    var comps := Components(Split('/', prefix));
    if prefix == "" || prefix[0] != '/' then Some(comps)
    else if base <= comps then Some(comps[|base|..])
    else None
  }

  /** What the walk of one prefix owes. */
  ghost predicate Settled(out: seq<Artifact>, tree: Tree, matches: string -> bool, base: seq<string>, prefix: string) {
    match Place(base, prefix)
    case None => Marked(out)
    case Some(at) => PrefixDone(out, tree, matches, at)
  }

  lemma MatchesAreRelative(base: seq<string>, pattern: string, comps: seq<string>)
    requires comps != [] && PlainNames(comps) && LiteralDirectory(pattern) <= Joined('/', comps)
    ensures Place(base, LiteralPrefix(pattern)) == Some(Components(Split('/', LiteralPrefix(pattern))))
  {
    assert Joined('/', comps)[0] == comps[0][0];
    assert LiteralPrefix(pattern) != "" ==> LiteralDirectory(pattern)[0] == LiteralPrefix(pattern)[0];
    hide LiteralPrefix, Components, Split, Joined;
  }

  /** With every prefix done, nothing that matches is missing. */
  lemma PrefixesSuffice(out: seq<Artifact>, tree: Tree, base: seq<string>, g: Globs, patterns: seq<string>,
                        comps: seq<string>, digest: string)
    requires WellFormed(tree) && tree.Dir? && LiteralHeads(g, patterns) && !Marked(out)
    requires AllPrefixesDone(out, tree, base, g, patterns)
    requires HasFile(tree.entries, comps, digest, true) && Matches(g, patterns, Joined('/', comps))
    ensures Artifact(Joined('/', comps), digest) in out
  {
    hide WellFormed, PrefixDone, HasFile, Joined, HeadLength, LiteralPrefix, LiteralDirectory, Components, Split, Prefixes,
         Marked, PlainNames, Place;
    var pattern :| pattern in patterns && g.compiles(pattern) && g.glob(pattern, Joined('/', comps));
    PrefixIsListed(patterns, pattern);
    FilesHavePlainNames(tree, comps, digest, true);
    MatchesAreRelative(base, pattern, comps);
    assert Settled(out, tree, Matcher(g, patterns), base, LiteralPrefix(pattern));
    PrefixSuffices(out, tree, Matcher(g, patterns), pattern, comps, digest);
  }

  ghost predicate AllPrefixesDone(out: seq<Artifact>, tree: Tree, base: seq<string>, g: Globs, patterns: seq<string>) {
    forall p :: p in Prefixes(patterns) ==> Settled(out, tree, Matcher(g, patterns), base, p)
  }

  lemma PrefixIsListed(patterns: seq<string>, pattern: string)
    requires pattern in patterns
    ensures LiteralPrefix(pattern) in Prefixes(patterns)
  {
    var all := LiteralPrefixes(patterns);
    var i :| 0 <= i < |patterns| && patterns[i] == pattern;
    assert all[i] == LiteralPrefix(pattern);
    hide LiteralPrefix, LiteralPrefixes, Sorted, Deduped;
    SortedDeduped(Self, all);
    assert HasKey(Self, Prefixes(patterns), Self(LiteralPrefix(pattern)));
  }

  function Truncated(xs: seq<Artifact>, n: nat): seq<Artifact> {
    if |xs| <= n then xs else xs[..n]
  }

  /** Sorting, dropping repeated paths and truncating keep the marker and every path. */
  lemma FinishKeepsPaths(out: seq<Artifact>)
    requires |out| <= MAX_ARTIFACTS
    ensures var r := Truncated(Deduped(PathOf, Sorted(PathOf, out)), MAX_ARTIFACTS);
            && |r| <= MAX_ARTIFACTS && |r| <= |out| && StrictlySortedBy(PathOf, r)
            && (forall a :: a in r ==> a in out)
            && (forall a :: a in out ==> HasKey(PathOf, r, a.path))
  {
    SortedDeduped(PathOf, out);
    hide StrictlySortedBy, Sorted, Deduped, HasKey;
  }

  /** Either some listed entry is the marker, or every matching regular file outside `.git` is listed. */
  ghost predicate Complete(artifacts: seq<Artifact>, g: Globs, patterns: seq<string>, entries: seq<Entry>) {
    Marked(artifacts) ||
    forall comps, digest :: HasFile(entries, comps, digest, true) && Matches(g, patterns, Joined('/', comps)) ==>
      HasKey(PathOf, artifacts, Joined('/', comps))
  }

  lemma FinishedIsComplete(out: seq<Artifact>, tree: Tree, base: seq<string>, g: Globs, patterns: seq<string>,
                           artifacts: seq<Artifact>)
    requires WellFormed(tree) && tree.Dir? && LiteralHeads(g, patterns)
    requires AllPrefixesDone(out, tree, base, g, patterns)
    requires forall a :: a in out ==> HasKey(PathOf, artifacts, a.path)
    ensures Complete(artifacts, g, patterns, tree.entries)
  {
    hide WellFormed, LiteralHeads, AllPrefixesDone, HasFile, Joined;
    if Marked(out) {
      var a :| a in out && a.path == MARKER.path;
      assert HasKey(PathOf, artifacts, a.path);
    } else {
      hide HasKey, Marked;
      forall comps, digest | HasFile(tree.entries, comps, digest, true) && Matches(g, patterns, Joined('/', comps))
        ensures HasKey(PathOf, artifacts, Joined('/', comps))
      {
        PrefixesSuffice(out, tree, base, g, patterns, comps, digest);
        assert HasKey(PathOf, artifacts, Artifact(Joined('/', comps), digest).path);
      }
    }
  }

  ghost predicate OnlyMarkerAdded(before: seq<Artifact>, out: seq<Artifact>) {
    Marked(out) && forall a :: a in out ==> a in before || a == MARKER
  }

  /** What the walk of one prefix did to the list. */
  ghost predicate Contributed(before: seq<Artifact>, out: seq<Artifact>, start: Start, matches: string -> bool, at: seq<string>) {
    if start.Missing? then out == before || OnlyMarkerAdded(before, out)
    else if start.At? && start.tree.Dir? then
      Covered(out, matches, at, start.tree.entries) && Sound(out, before, matches, at, start.tree.entries)
    else OnlyMarkerAdded(before, out)
  }

  lemma OnePrefix(before: seq<Artifact>, out: seq<Artifact>, tree: Tree, matches: string -> bool, at: seq<string>)
    requires tree.Dir? && AllFiles(before, matches, tree.entries)
    requires Contributed(before, out, Locate(tree, at), matches, at)
    ensures AllFiles(out, matches, tree.entries) && PrefixDone(out, tree, matches, at)
  {
    forall a | a in out
      ensures a == MARKER || IsFileOf(a, matches, [], tree.entries)
    {
      if a !in before && a != MARKER {
        var sub := Locate(tree, at).tree;
        var comps :| HasFile(sub.entries, comps, a.sha256, false) && a.path == Joined('/', at + comps);
        LocatedFilesAreFiles(tree, at, comps, a.sha256);
        assert [] + (at + comps) == at + comps;
      }
    }
  }

  /** The first `i` prefixes of the list are done. */
  ghost predicate DoneUpTo(out: seq<Artifact>, tree: Tree, matches: string -> bool, base: seq<string>,
                           prefixes: seq<string>, i: nat)
    requires i <= |prefixes|
  {
    forall j :: 0 <= j < i ==> Settled(out, tree, matches, base, prefixes[j])
  }

  /** What the walk of prefix `i` did to the list. */
  ghost predicate Walked(before: seq<Artifact>, out: seq<Artifact>, tree: Tree, matches: string -> bool,
                         base: seq<string>, prefix: string) {
    match Place(base, prefix)
    case None => OnlyMarkerAdded(before, out)
    case Some(at) => Contributed(before, out, Locate(tree, at), matches, at)
  }

  lemma NextPrefix(before: seq<Artifact>, out: seq<Artifact>, tree: Tree, matches: string -> bool, base: seq<string>,
                   prefixes: seq<string>, i: nat)
    requires i < |prefixes| && tree.Dir? && AllFiles(before, matches, tree.entries)
    requires DoneUpTo(before, tree, matches, base, prefixes, i) && Walked(before, out, tree, matches, base, prefixes[i])
    requires (Marked(before) ==> Marked(out)) && (Marked(out) || before <= out)
    ensures AllFiles(out, matches, tree.entries) && DoneUpTo(out, tree, matches, base, prefixes, i + 1)
  {
    hide Contributed, Marked, Place, Locate, PrefixDone;
    var at := Place(base, prefixes[i]);
    if at.Some? {
      OnePrefix(before, out, tree, matches, at.value);
    }
    hide AllFiles;
    forall j | 0 <= j < i
      ensures Settled(out, tree, matches, base, prefixes[j])
    {
      assert Settled(before, tree, matches, base, prefixes[j]);
      var earlier := Place(base, prefixes[j]);
      if earlier.Some? {
        PrefixStaysDone(before, out, tree, matches, earlier.value);
      }
    }
  }

  /** No prefix of the patterns exists in the tree. */
  ghost predicate NowhereToWalk(tree: Tree, base: seq<string>, patterns: seq<string>) {
    forall p :: p in Prefixes(patterns) ==> Absent(tree, base, p)
  }

  predicate Absent(tree: Tree, base: seq<string>, prefix: string) {
    var at := Place(base, prefix);
    at.Some? && Locate(tree, at.value).Missing?
  }

  // ---- when the marker appears ----

  /** The walk of a prefix meets something it cannot vouch for. */
  ghost predicate Untrusted(tree: Tree, base: seq<string>, matches: string -> bool, prefix: string) {
    match Place(base, prefix)
    case None => true
    case Some(at) =>
      match Locate(tree, at)
      case Missing => false
      case Refused => true
      case At(sub, reachable) => Trouble(sub, reachable, at, matches, 0)
  }

  /** The matching files below one prefix. */
  function FoundBelow(tree: Tree, base: seq<string>, matches: string -> bool, prefix: string): seq<Artifact> {
    var at := Place(base, prefix);
    if at.None? then []
    else
      var start := Locate(tree, at.value);
      if start.At? then AllFound(start.tree, start.reachable, at.value, matches, 0) else []
  }

  function VisitedBelow(tree: Tree, base: seq<string>, prefix: string): nat {
    var at := Place(base, prefix);
    if at.None? then 0
    else
      var start := Locate(tree, at.value);
      if start.At? then AllVisited(start.tree, start.reachable, 0) else 0
  }

  function FoundBelowAll(tree: Tree, base: seq<string>, matches: string -> bool, prefixes: seq<string>): seq<Artifact> {
    if prefixes == [] then []
    else
      var n := |prefixes| - 1;
      FoundBelowAll(tree, base, matches, prefixes[..n]) + FoundBelow(tree, base, matches, prefixes[n])
  }

  function VisitedBelowAll(tree: Tree, base: seq<string>, prefixes: seq<string>): nat {
    if prefixes == [] then 0
    else
      var n := |prefixes| - 1;
      VisitedBelowAll(tree, base, prefixes[..n]) + VisitedBelow(tree, base, prefixes[n])
  }

  ghost predicate AnyUntrusted(tree: Tree, base: seq<string>, matches: string -> bool, prefixes: seq<string>) {
    exists i :: 0 <= i < |prefixes| && Untrusted(tree, base, matches, prefixes[i])
  }

  /** What the walks of the prefixes did, together. */
  ghost predicate Listed(out: seq<Artifact>, visits: nat, tree: Tree, base: seq<string>, matches: string -> bool,
                         prefixes: seq<string>) {
    Did([], 0, out, visits, FoundBelowAll(tree, base, matches, prefixes), VisitedBelowAll(tree, base, prefixes),
        AnyUntrusted(tree, base, matches, prefixes))
  }

  /** What the walk of one prefix did. */
  ghost predicate OneListed(before: seq<Artifact>, looked: nat, out: seq<Artifact>, visits: nat, tree: Tree,
                            base: seq<string>, matches: string -> bool, prefix: string) {
    Did(before, looked, out, visits, FoundBelow(tree, base, matches, prefix), VisitedBelow(tree, base, prefix),
        Untrusted(tree, base, matches, prefix))
  }

  lemma OneMoreListed(before: seq<Artifact>, looked: nat, out: seq<Artifact>, visits: nat, tree: Tree,
                      base: seq<string>, matches: string -> bool, prefixes: seq<string>, i: nat)
    requires i < |prefixes| && Listed(before, looked, tree, base, matches, prefixes[..i])
    requires OneListed(before, looked, out, visits, tree, base, matches, prefixes[i])
    requires Marked(before) ==> Marked(out)
    ensures Listed(out, visits, tree, base, matches, prefixes[..i + 1])
  {
    hide Untrusted, Marked, FoundBelow, VisitedBelow, Did, AnyUntrusted;
    var some, more := prefixes[..i], prefixes[..i + 1];
    assert more[..|more| - 1] == some && more[i] == prefixes[i];
    OneMoreUntrusted(tree, base, matches, prefixes, i);
    DidBoth([], 0, before, looked, out, visits,
            FoundBelowAll(tree, base, matches, some), VisitedBelowAll(tree, base, some), AnyUntrusted(tree, base, matches, some),
            FoundBelow(tree, base, matches, prefixes[i]), VisitedBelow(tree, base, prefixes[i]),
            Untrusted(tree, base, matches, prefixes[i]));
  }

  lemma OneMoreUntrusted(tree: Tree, base: seq<string>, matches: string -> bool, prefixes: seq<string>, i: nat)
    requires i < |prefixes|
    ensures AnyUntrusted(tree, base, matches, prefixes[..i + 1]) <==>
              AnyUntrusted(tree, base, matches, prefixes[..i]) || Untrusted(tree, base, matches, prefixes[i])
  {
    hide Untrusted;
    var some, more := prefixes[..i], prefixes[..i + 1];
    if k :| 0 <= k < |some| && Untrusted(tree, base, matches, some[k]) {
      assert Untrusted(tree, base, matches, more[k]);
    }
    if k :| 0 <= k < |more| && Untrusted(tree, base, matches, more[k]) {
      assert k < i ==> Untrusted(tree, base, matches, some[k]);
    }
    assert more[i] == prefixes[i];
  }

  lemma PrefixIsListedOnce(before: seq<Artifact>, looked: nat, out: seq<Artifact>, visits: nat, tree: Tree,
                           base: seq<string>, matches: string -> bool, prefix: string)
    requires match Place(base, prefix)
             case None => MarkerAdded(before, out) && visits == looked
             case Some(at) =>
               match Locate(tree, at)
               case Missing =>
                 (out == before && visits == looked) || |before| >= MAX_ARTIFACTS || looked >= MAX_VISITS
               case Refused => MarkerAdded(before, out) && visits == looked
               case At(sub, reachable) => WalkExact(before, looked, out, visits, sub, reachable, at, matches, 0)
    ensures OneListed(before, looked, out, visits, tree, base, matches, prefix)
  {
    hide Place, Locate, Trouble, Marked, AllFound, AllVisited, Unmarked;
    assert before + [] == before;
    if MarkerAdded(before, out) {
      MarkerIsTrouble(before, looked, out);
    }
    hide MarkerAdded;
  }

  lemma NothingListed(tree: Tree, base: seq<string>, matches: string -> bool, prefixes: seq<string>)
    ensures Listed([], 0, tree, base, matches, prefixes[..0])
  {
  }

  /** The answer has the paths of the list, so it is marked exactly when the list is. */
  lemma FinishKeepsMarker(out: seq<Artifact>, artifacts: seq<Artifact>)
    requires forall a :: a in artifacts ==> a in out
    requires forall a :: a in out ==> HasKey(PathOf, artifacts, a.path)
    ensures Marked(artifacts) <==> Marked(out)
  {
    if Marked(out) {
      var a :| a in out && a.path == MARKER.path;
      assert HasKey(PathOf, artifacts, a.path);
      var b :| b in artifacts && PathOf(b) == a.path;
      assert b.path == MARKER.path;
    }
  }

  /** The budgets suffice for everything below the prefixes, and for the marker. */
  ghost predicate WithinBudgets(tree: Tree, base: seq<string>, matches: string -> bool, prefixes: seq<string>) {
    && |FoundBelowAll(tree, base, matches, prefixes)| + 1 < MAX_ARTIFACTS
    && VisitedBelowAll(tree, base, prefixes) < MAX_VISITS
  }

  /** The verified matches, each path once, and the marker exactly when it is wanted or a match bears its name. */
  ghost predicate ListsExactly(artifacts: seq<Artifact>, found: seq<Artifact>, wanted: bool) {
    && (forall a :: a in artifacts ==> a in found || (wanted && a == MARKER))
    && (forall a :: a in found ==> HasKey(PathOf, artifacts, a.path))
    && (Marked(artifacts) <==> wanted || Marked(found))
  }

  /** What an answer and its marker say: the marker is there when something below some prefix cannot be verified, and,
      within the budgets, only then; the rest of the answer is then exactly what can. */
  ghost predicate MarkerIsMeant(artifacts: seq<Artifact>, tree: Tree, base: seq<string>, matches: string -> bool,
                                prefixes: seq<string>) {
    var untrusted := AnyUntrusted(tree, base, matches, prefixes);
    && (untrusted ==> Marked(artifacts))
    && (WithinBudgets(tree, base, matches, prefixes) ==>
          ListsExactly(artifacts, FoundBelowAll(tree, base, matches, prefixes), untrusted))
  }

  lemma {:induction false} UnmarkedElements(xs: seq<Artifact>, a: Artifact)
    ensures a in Unmarked(xs) <==> a in xs && a != MARKER
  {
    if xs != [] {
      var n := |xs| - 1;
      UnmarkedElements(xs[..n], a);
      assert xs == xs[..n] + [xs[n]];
    }
  }

  lemma ListedIsMeant(out: seq<Artifact>, visits: nat, tree: Tree, base: seq<string>, matches: string -> bool,
                      prefixes: seq<string>, artifacts: seq<Artifact>)
    requires Listed(out, visits, tree, base, matches, prefixes)
    requires forall a :: a in artifacts ==> a in out
    requires forall a :: a in out ==> HasKey(PathOf, artifacts, a.path)
    ensures MarkerIsMeant(artifacts, tree, base, matches, prefixes)
  {
    FinishKeepsMarker(out, artifacts);
    var found, untrusted := FoundBelowAll(tree, base, matches, prefixes), AnyUntrusted(tree, base, matches, prefixes);
    hide AnyUntrusted, FoundBelowAll, VisitedBelowAll, Unmarked;
    if WithinBudgets(tree, base, matches, prefixes) {
      assert [] + found == found;
      DidIsListed(out, found, untrusted, artifacts);
    }
  }

  lemma DidIsListed(out: seq<Artifact>, found: seq<Artifact>, trouble: bool, artifacts: seq<Artifact>)
    requires (trouble && Unmarked(out) == Unmarked(found) && Marked(out)) || (!trouble && out == found)
    requires Marked(artifacts) <==> Marked(out)
    requires forall a :: a in artifacts ==> a in out
    requires forall a :: a in out ==> HasKey(PathOf, artifacts, a.path)
    ensures ListsExactly(artifacts, found, trouble)
  {
    if trouble {
      forall a
        ensures a != MARKER ==> (a in out <==> a in found)
      {
        UnmarkedElements(out, a);
        UnmarkedElements(found, a);
      }
      hide Unmarked;
      forall a | a in found
        ensures HasKey(PathOf, artifacts, a.path)
      {
        if a == MARKER {
          var b :| b in artifacts && b.path == MARKER.path;
          assert PathOf(b) == a.path;
        }
      }
    }
  }

  /** `root` is absent when it cannot be canonicalised; `base` are the components of its own path. */
  method Resolve(root: Option<Tree>, base: seq<string>, g: Globs, patterns: seq<string>) returns (artifacts: seq<Artifact>)
    requires root.Some? ==> WellFormed(root.value)
    ensures |artifacts| <= MAX_ARTIFACTS && StrictlySortedBy(PathOf, artifacts)
    ensures root.None? || !g.builds(patterns) ==> artifacts == []
    ensures root.Some? && NowhereToWalk(root.value, base, patterns) ==> artifacts == []
    ensures root.Some? && g.builds(patterns) && (exists p :: p in patterns && g.compiles(p)) ==>
              MarkerIsMeant(artifacts, root.value, base, Matcher(g, patterns), Prefixes(patterns))
    ensures root.Some? && root.value.Dir? ==>
              && AllFiles(artifacts, Matcher(g, patterns), root.value.entries)
              && (LiteralHeads(g, patterns) && g.builds(patterns) ==> Complete(artifacts, g, patterns, root.value.entries))
  {
    if root.None? || (forall p :: p in patterns ==> !g.compiles(p)) || !g.builds(patterns) {
      return [];
    }
    var tree := root.value;
    var collector := new Collector();
    hide WellFormed, LiteralHeads, AllFiles, Covered, Sound, Complete, Marked, StrictlySortedBy, DoneUpTo,
         Components, Split, Locate, Place, Absent, Sorted, Deduped, Truncated, Matcher, Prefixes, MarkerIsMeant, Listed;
    var prefixes := Prefixes(patterns);
    WalkPrefixes(tree, base, g, patterns, prefixes, collector);
    artifacts := Truncated(Deduped(PathOf, Sorted(PathOf, collector.out)), MAX_ARTIFACTS);
    FinishKeepsPaths(collector.out);
    ListedIsMeant(collector.out, collector.visits, tree, base, Matcher(g, patterns), prefixes, artifacts);
    if tree.Dir? {
      SubsetIsFiles(collector.out, artifacts, Matcher(g, patterns), tree.entries);
      if LiteralHeads(g, patterns) {
        AllDone(collector.out, tree, base, g, patterns, prefixes);
        FinishedIsComplete(collector.out, tree, base, g, patterns, artifacts);
      }
    }
  }

  /** The loop over the prefixes. */
  method WalkPrefixes(tree: Tree, base: seq<string>, g: Globs, patterns: seq<string>, prefixes: seq<string>,
                      collector: Collector)
    requires collector.out == [] && collector.visits == 0
    modifies collector
    ensures |collector.out| <= MAX_ARTIFACTS
    ensures (forall p :: p in prefixes ==> Absent(tree, base, p)) ==> collector.out == []
    ensures Listed(collector.out, collector.visits, tree, base, Matcher(g, patterns), prefixes)
    ensures tree.Dir? ==> AllFiles(collector.out, Matcher(g, patterns), tree.entries)
    ensures tree.Dir? ==> DoneUpTo(collector.out, tree, Matcher(g, patterns), base, prefixes, |prefixes|)
  {
    var matches := Matcher(g, patterns);
    NoFiles(tree, matches, base, prefixes);
    NothingListed(tree, base, matches, prefixes);
    hide AllFiles, Covered, Sound, Marked, DoneUpTo, Components, Split, Locate, Place, Matcher, Listed, OneListed, WalkExact;
    for i := 0 to |prefixes|
      invariant |collector.out| <= MAX_ARTIFACTS
      invariant (forall p :: p in prefixes ==> Absent(tree, base, p)) ==> collector.out == [] && collector.visits == 0
      invariant Listed(collector.out, collector.visits, tree, base, matches, prefixes[..i])
      invariant tree.Dir? ==> AllFiles(collector.out, matches, tree.entries)
      invariant tree.Dir? ==> DoneUpTo(collector.out, tree, matches, base, prefixes, i)
    {
      ghost var before, looked := collector.out, collector.visits;
      assert prefixes[i] in prefixes;
      var at := Place(base, prefixes[i]);
      if at.None? {
        collector.Unverified();
      } else {
        var start := Locate(tree, at.value);
        match start {
          case Missing =>
            if |collector.out| >= MAX_ARTIFACTS || collector.visits >= MAX_VISITS {
              collector.Unverified();
            }
          case Refused => collector.Unverified();
          case At(sub, reachable) => collector.Walk(sub, reachable, at.value, matches, 0);
        }
      }
      PrefixIsListedOnce(before, looked, collector.out, collector.visits, tree, base, matches, prefixes[i]);
      OneMoreListed(before, looked, collector.out, collector.visits, tree, base, matches, prefixes, i);
      if tree.Dir? {
        NextPrefix(before, collector.out, tree, matches, base, prefixes, i);
      }
    }
    assert prefixes[..|prefixes|] == prefixes;
  }

  lemma AllDone(out: seq<Artifact>, tree: Tree, base: seq<string>, g: Globs, patterns: seq<string>, prefixes: seq<string>)
    requires prefixes == Prefixes(patterns) && DoneUpTo(out, tree, Matcher(g, patterns), base, prefixes, |prefixes|)
    ensures AllPrefixesDone(out, tree, base, g, patterns)
  {
    hide Prefixes, Settled;
  }

  lemma NoFiles(tree: Tree, matches: string -> bool, base: seq<string>, prefixes: seq<string>)
    ensures tree.Dir? ==> AllFiles([], matches, tree.entries)
    ensures DoneUpTo([], tree, matches, base, prefixes, 0)
  {
  }

  lemma SubsetIsFiles(out: seq<Artifact>, some: seq<Artifact>, matches: string -> bool, entries: seq<Entry>)
    requires AllFiles(out, matches, entries) && forall a :: a in some ==> a in out
    ensures AllFiles(some, matches, entries)
  {
  }

  /** Of several entries for one path the first survives. */
  lemma FinishKeepsFirst(out: seq<Artifact>, path: string)
    requires |out| <= MAX_ARTIFACTS
    ensures FirstWith(PathOf, Truncated(Deduped(PathOf, Sorted(PathOf, out)), MAX_ARTIFACTS), path) == FirstWith(PathOf, out, path)
  {
    MergingKeepsFirst(PathOf, out, path);
  }
}

/** What a walk collects, said of paths and not of the order in which it goes. */
module WalkFinds {
  import opened Wrappers
  import opened Text
  import opened Artifacts

  /** A file at `comps` that can be verified: regular, within bounds, its name a text, behind directories that the walk
      enters. */
  ghost predicate VerifiedAt(entries: seq<Entry>, comps: seq<string>, digest: string, depth: nat)
    decreases |comps|
  {
    comps != [] && exists i :: 0 <= i < |entries| && VerifiedFrom(entries[i], comps, digest, depth)
  }

  ghost predicate VerifiedFrom(e: Entry, comps: seq<string>, digest: string, depth: nat)
    requires comps != []
    decreases |comps|, 0
  {
    e.name == comps[0] &&
    if |comps| == 1 then e.kind == Leaf(true, true, true, digest)
    else
      && e.kind.Folder? && e.name != ".git" && Entered(e.kind.sub, e.kind.reachable, depth + 1)
      && VerifiedAt(e.kind.sub.entries, comps[1..], digest, depth + 1)
  }

  /** `a` is such a file, and matches. */
  ghost predicate IsFind(a: Artifact, entries: seq<Entry>, at: seq<string>, matches: string -> bool, depth: nat) {
    matches(a.path) && exists comps :: VerifiedAt(entries, comps, a.sha256, depth) && a.path == Joined('/', at + comps)
  }

  /** The same seen from the first step. */
  ghost predicate FindsFrom(a: Artifact, e: Entry, at: seq<string>, matches: string -> bool, depth: nat) {
    matches(a.path) &&
    exists comps :: comps != [] && VerifiedFrom(e, comps, a.sha256, depth) && a.path == Joined('/', at + comps)
  }

  lemma FindSplits(a: Artifact, entries: seq<Entry>, at: seq<string>, matches: string -> bool, depth: nat, i: nat)
    requires i < |entries|
    ensures IsFind(a, entries[..i + 1], at, matches, depth) <==>
              IsFind(a, entries[..i], at, matches, depth) || FindsFrom(a, entries[i], at, matches, depth)
  {
    hide VerifiedFrom, Joined;
    var few, more := entries[..i], entries[..i + 1];
    assert more[i] == entries[i];
    if IsFind(a, more, at, matches, depth) {
      var comps :| VerifiedAt(more, comps, a.sha256, depth) && a.path == Joined('/', at + comps);
      var k :| 0 <= k < |more| && VerifiedFrom(more[k], comps, a.sha256, depth);
      assert k < i ==> VerifiedFrom(few[k], comps, a.sha256, depth);
    }
    if IsFind(a, few, at, matches, depth) {
      var comps :| VerifiedAt(few, comps, a.sha256, depth) && a.path == Joined('/', at + comps);
      var k :| 0 <= k < |few| && VerifiedFrom(few[k], comps, a.sha256, depth);
      assert VerifiedFrom(more[k], comps, a.sha256, depth);
    }
    if FindsFrom(a, entries[i], at, matches, depth) {
      var comps :| comps != [] && VerifiedFrom(entries[i], comps, a.sha256, depth) && a.path == Joined('/', at + comps);
      assert VerifiedFrom(more[i], comps, a.sha256, depth);
    }
  }

  lemma FolderFinds(a: Artifact, e: Entry, at: seq<string>, matches: string -> bool, depth: nat)
    requires e.kind.Folder?
    ensures FindsFrom(a, e, at, matches, depth) <==>
              && e.name != ".git" && Entered(e.kind.sub, e.kind.reachable, depth + 1)
              && IsFind(a, e.kind.sub.entries, at + [e.name], matches, depth + 1)
  {
    hide Joined;
    if FindsFrom(a, e, at, matches, depth) {
      var comps :| comps != [] && VerifiedFrom(e, comps, a.sha256, depth) && a.path == Joined('/', at + comps);
      assert at + comps == at + [e.name] + comps[1..];
    }
    if && e.name != ".git" && Entered(e.kind.sub, e.kind.reachable, depth + 1)
       && IsFind(a, e.kind.sub.entries, at + [e.name], matches, depth + 1) {
      var rest :| VerifiedAt(e.kind.sub.entries, rest, a.sha256, depth + 1) && a.path == Joined('/', at + [e.name] + rest);
      var comps := [e.name] + rest;
      assert comps[1..] == rest && at + comps == at + [e.name] + rest;
      assert VerifiedFrom(e, comps, a.sha256, depth);
    }
  }

  lemma LeafFinds(a: Artifact, e: Entry, at: seq<string>, matches: string -> bool, depth: nat)
    requires !e.kind.Folder?
    ensures FindsFrom(a, e, at, matches, depth) <==> a in FoundAt(e, at, matches, depth)
  {
    hide Joined;
    if FindsFrom(a, e, at, matches, depth) {
      var comps :| comps != [] && VerifiedFrom(e, comps, a.sha256, depth) && a.path == Joined('/', at + comps);
      assert comps == [e.name];
    }
    if a in FoundAt(e, at, matches, depth) {
      assert VerifiedFrom(e, [e.name], a.sha256, depth);
    }
  }

  /** A walk finds a file if and only if it matches and can be verified. */
  lemma {:induction false} FoundIff(a: Artifact, tree: Tree, at: seq<string>, matches: string -> bool, depth: nat, n: nat)
    requires tree.Dir? && n <= |tree.entries|
    ensures a in Found(tree, at, matches, depth, n) <==> IsFind(a, tree.entries[..n], at, matches, depth)
    decreases tree, n
  {
    hide IsFind, FindsFrom, Joined;
    if n == 0 {
      NothingToFind(a, at, matches, depth);
    } else {
      FoundIff(a, tree, at, matches, depth, n - 1);
      FindSplits(a, tree.entries, at, matches, depth, n - 1);
      var e := tree.entries[n - 1];
      if e.kind.Folder? {
        var sub, reachable := e.kind.sub, e.kind.reachable;
        FolderFinds(a, e, at, matches, depth);
        if e.name != ".git" && Entered(sub, reachable, depth + 1) {
          FoundIff(a, sub, at + [e.name], matches, depth + 1, |sub.entries|);
          assert sub.entries[..|sub.entries|] == sub.entries;
          assert FoundAt(e, at, matches, depth) == AllFound(sub, reachable, at + [e.name], matches, depth + 1);
        }
      } else {
        LeafFinds(a, e, at, matches, depth);
      }
      assert a in FoundAt(e, at, matches, depth) <==> FindsFrom(a, e, at, matches, depth);
    }
  }

  lemma NothingToFind(a: Artifact, at: seq<string>, matches: string -> bool, depth: nat)
    ensures !IsFind(a, [], at, matches, depth)
  {
  }
}

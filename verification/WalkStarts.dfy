/** Where the walks of artifact patterns start, said without following names one by one. */
module WalkStarts {
  import opened Wrappers
  import opened Text
  import opened Artifacts

  /** The directory `sub` lies at `at` behind folders that can all be read and are within bounds. */
  ghost predicate FolderAt(tree: Tree, at: seq<string>, sub: Tree)
    decreases |at|
  {
    if at == [] then sub == tree
    else tree.Dir? && exists i :: 0 <= i < |tree.entries| && EntersAt(tree.entries[i], at, sub)
  }

  ghost predicate EntersAt(e: Entry, at: seq<string>, sub: Tree)
    requires at != []
    decreases |at|, 0
  {
    e.name == at[0] && e.kind.Folder? && e.kind.reachable && FolderAt(e.kind.sub, at[1..], sub)
  }

  /** Some directory on the way can be read and does not hold the next name. */
  ghost predicate BreaksOff(tree: Tree, at: seq<string>) {
    exists k, sub :: 0 <= k < |at| && FolderAt(tree, at[..k], sub) && Lacks(sub, at[k])
  }

  predicate Lacks(tree: Tree, name: string) {
    tree.Dir? && forall i :: 0 <= i < |tree.entries| ==> tree.entries[i].name != name
  }

  lemma FoundEntry(tree: Tree, name: string, i: nat)
    requires WellFormed(tree) && tree.Dir? && i < |tree.entries| && tree.entries[i].name == name
    ensures Find(tree.entries, name) == Some(tree.entries[i])
  {
    assert tree.entries[i] in tree.entries;
    var e := Find(tree.entries, name).value;
    var j :| 0 <= j < |tree.entries| && tree.entries[j] == e;
  }

  /** A walk starts at a directory exactly when that lies there behind readable folders within bounds, and nowhere
      exactly when the way breaks off; in every other case, and for every step up, it is refused. */
  lemma {:induction false} LocatedIff(tree: Tree, at: seq<string>)
    requires WellFormed(tree) && ".." !in at
    ensures forall sub, reachable :: Locate(tree, at) == At(sub, reachable) <==> reachable && FolderAt(tree, at, sub)
    ensures Locate(tree, at).Missing? <==> BreaksOff(tree, at)
    decreases |at|
  {
    if at != [] && tree.Dir? {
      var e := Find(tree.entries, at[0]);
      if e.Some? && e.value.kind.Folder? {
        var i :| 0 <= i < |tree.entries| && tree.entries[i] == e.value;
        LocatedIff(e.value.kind.sub, at[1..]);
      }
      OneStep(tree, at);
      BreaksOffStep(tree, at);
      hide WellFormed, BreaksOff;
    } else if at != [] {
      assert forall k, sub :: 0 <= k < |at| && FolderAt(tree, at[..k], sub) ==> sub == tree;
    }
  }

  lemma OneStep(tree: Tree, at: seq<string>)
    requires WellFormed(tree) && tree.Dir? && at != []
    ensures var e := Find(tree.entries, at[0]);
            forall sub :: FolderAt(tree, at, sub) <==>
              e.Some? && e.value.kind.Folder? && e.value.kind.reachable && FolderAt(e.value.kind.sub, at[1..], sub)
  {
    forall i | 0 <= i < |tree.entries| && tree.entries[i].name == at[0]
      ensures Find(tree.entries, at[0]) == Some(tree.entries[i])
    {
      FoundEntry(tree, at[0], i);
    }
    var e := Find(tree.entries, at[0]);
    if e.Some? {
      var i :| 0 <= i < |tree.entries| && tree.entries[i] == e.value;
      forall sub | e.value.kind.Folder? && e.value.kind.reachable && FolderAt(e.value.kind.sub, at[1..], sub)
        ensures FolderAt(tree, at, sub)
      {
        assert EntersAt(tree.entries[i], at, sub);
      }
    }
  }

  lemma BreaksOffStep(tree: Tree, at: seq<string>)
    requires WellFormed(tree) && tree.Dir? && at != []
    ensures var e := Find(tree.entries, at[0]);
            BreaksOff(tree, at) <==>
              e.None? || (e.value.kind.Folder? && e.value.kind.reachable && BreaksOff(e.value.kind.sub, at[1..]))
  {
    hide WellFormed, Lacks, FolderAt;
    var e := Find(tree.entries, at[0]);
    var lacking := Lacks(tree, at[0]);
    assert lacking <==> e.None? by {
      LacksIff(tree, at[0]);
    }
    forall k, sub | 0 < k < |at|
      ensures FolderAt(tree, at[..k], sub) <==>
                e.Some? && e.value.kind.Folder? && e.value.kind.reachable && FolderAt(e.value.kind.sub, at[1..][..k - 1], sub)
    {
      OneStep(tree, at[..k]);
      assert at[..k][1..] == at[1..][..k - 1];
    }
    assert FolderAt(tree, at[..0], tree) by {
      FolderHere(tree, tree);
    }
    if BreaksOff(tree, at) {
      var k, sub :| 0 <= k < |at| && FolderAt(tree, at[..k], sub) && Lacks(sub, at[k]);
      if k == 0 {
        FolderHere(tree, sub);
      } else {
        assert at[1..][k - 1] == at[k];
      }
    }
    if e.Some? && e.value.kind.Folder? && e.value.kind.reachable && BreaksOff(e.value.kind.sub, at[1..]) {
      var k, sub :| 0 <= k < |at| - 1 && FolderAt(e.value.kind.sub, at[1..][..k], sub) && Lacks(sub, at[1..][k]);
      assert FolderAt(tree, at[..k + 1], sub) && at[1..][k] == at[k + 1];
    }
  }

  lemma FolderHere(tree: Tree, sub: Tree)
    ensures FolderAt(tree, [], sub) <==> sub == tree
  {
  }

  lemma LacksIff(tree: Tree, name: string)
    requires tree.Dir?
    ensures Lacks(tree, name) <==> Find(tree.entries, name).None?
  {
    var e := Find(tree.entries, name);
    if e.Some? {
      var i :| 0 <= i < |tree.entries| && tree.entries[i] == e.value;
    }
  }

  /** A relative prefix lies where it says; an absolute one lies below the root exactly when it names the root's own
      path first. */
  lemma PlaceIs(base: seq<string>, comps: seq<string>)
    requires comps != [] && PlainNames(comps)
    ensures Place(base, Joined('/', comps)) == Some(comps)
    ensures Place(base, "/" + Joined('/', comps)) == if base <= comps then Some(comps[|base|..]) else None
  {
    assert forall c :: c in comps ==> Plain(c);
    SplitJoined('/', comps);
    PlainComponents(comps);
    var text := Joined('/', comps);
    assert text[0] == comps[0][0];
    assert ("/" + text)[1..] == text;
    assert Split('/', "/" + text) == [""] + comps;
    assert Components([""] + comps) == comps by {
      assert ([""] + comps)[1..] == comps;
    }
  }

  /** The prefix of a pattern holds no wildcard, ends at a slash of the pattern, and every later slash comes behind
      the first wildcard. */
  lemma PrefixIs(pattern: string)
    ensures var prefix := LiteralPrefix(pattern);
            && (forall c :: c in prefix ==> c !in WILDCARDS)
            && (prefix != "" ==> prefix + "/" <= pattern)
            && forall i :: |prefix| < i < |pattern| && pattern[i] == '/' ==>
                 exists j :: 0 <= j < i && pattern[j] in WILDCARDS
  {
    HeadIsLiteral(pattern);
    var n := HeadLength(pattern);
    var head := pattern[..n];
    LastSlashIsLast(head);
    var prefix := LiteralPrefix(pattern);
    hide HeadLength, LastSlash;
    assert prefix <= head;
    assert forall i :: |prefix| < i < n ==> head[i] != '/' && pattern[i] == head[i];
    forall i | |prefix| < i < |pattern| && pattern[i] == '/'
      ensures exists j :: 0 <= j < i && pattern[j] in WILDCARDS
    {
      assert n <= i && pattern[n] in WILDCARDS;
    }
  }

  lemma {:induction false} HeadIsLiteral(pattern: string)
    ensures forall i :: 0 <= i < HeadLength(pattern) ==> pattern[i] !in WILDCARDS
    ensures HeadLength(pattern) < |pattern| ==> pattern[HeadLength(pattern)] in WILDCARDS
  {
    if pattern != "" && pattern[0] !in WILDCARDS {
      HeadIsLiteral(pattern[1..]);
    }
  }

  lemma {:induction false} LastSlashIsLast(s: string)
    ensures match LastSlash(s)
            case None => '/' !in s
            case Some(i) => forall j :: i < j < |s| ==> s[j] != '/'
  {
    if s != "" && s[|s| - 1] != '/' {
      LastSlashIsLast(s[..|s| - 1]);
    }
  }
}

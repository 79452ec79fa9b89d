/** Artifact patterns with a backslash in their directory: which files their walk loses.

  Globs read a backslash as an escape of the next character, as on Unix; the walk takes
  the text before the first wildcard as it is written.
*/
module EscapedPatterns {
  import opened Wrappers
  import opened Text
  import opened Artifacts

  /** What a glob reads from literal text: a backslash stands for the character after it. */
  function Unescaped(s: string): string {
    if s == [] then []
    else if s[0] == '\\' && |s| > 1 then [s[1]] + Unescaped(s[2..])
    else [s[0]] + Unescaped(s[1..])
  }

  /** The library matches literal text by what it reads from it. */
  ghost predicate ReadsEscapes(g: Globs) {
    forall p, path :: g.glob(p, path) ==> Unescaped(LiteralDirectory(p)) <= path
  }

  lemma {:induction false} PlainIsUnescaped(s: string)
    requires '\\' !in s
    ensures Unescaped(s) == s
  {
    if s != [] {
      PlainIsUnescaped(s[1..]);
      assert s == [s[0]] + s[1..];
    }
  }

  function Slashes(s: string): nat {
    if s == [] then 0 else (if s[0] == '/' then 1 else 0) + Slashes(s[1..])
  }

  lemma {:induction false} SlashesSplit(a: string, b: string)
    ensures Slashes(a + b) == Slashes(a) + Slashes(b)
  {
    if a == [] {
      assert a + b == b;
    } else {
      assert (a + b)[1..] == a[1..] + b;
      SlashesSplit(a[1..], b);
    }
  }

  /** Reading drops backslashes only: every slash stays. */
  lemma {:induction false} SlashesStay(s: string)
    ensures Slashes(Unescaped(s)) == Slashes(s) && |Unescaped(s)| <= |s|
    decreases |s|
  {
    if s != [] {
      if s[0] == '\\' && |s| > 1 {
        SlashesStay(s[2..]);
        assert s[1..][1..] == s[2..];
        assert Unescaped(s)[1..] == Unescaped(s[2..]);
      } else {
        SlashesStay(s[1..]);
        assert Unescaped(s)[1..] == Unescaped(s[1..]);
      }
    }
  }

  lemma {:induction false} EscapesShorten(directory: string)
    requires '\\' in directory
    ensures |Unescaped(directory + "/")| <= |directory|
    decreases |directory|
  {
    var text := directory + "/";
    if directory[0] == '\\' {
      SlashesStay(text[2..]);
    } else {
      assert text[1..] == directory[1..] + "/";
      assert directory == [directory[0]] + directory[1..];
      EscapesShorten(directory[1..]);
    }
  }

  /** A text that starts with a directory as read does not start with it as written, if that holds a backslash:
      the shorter reading would be a prefix of the writing, yet hold all its slashes, the last one included. */
  lemma BackslashIsNeverLiteral(directory: string, path: string)
    requires '\\' in directory && Unescaped(directory + "/") <= path
    ensures !(directory + "/" <= path)
  {
    var written, read := directory + "/", Unescaped(directory + "/");
    EscapesShorten(directory);
    if written <= path {
      var rest := written[|read|..];
      assert written == read + rest;
      SlashesSplit(read, rest);
      assert rest == rest[..|rest| - 1] + "/";
      SlashesSplit(rest[..|rest| - 1], "/");
      SlashesStay(written);
    }
  }

  /** For a library that reads escapes: what a pattern matches starts with its directory as written exactly when
      that directory holds no backslash. */
  lemma LiteralIff(g: Globs, pattern: string, path: string)
    requires ReadsEscapes(g) && g.glob(pattern, path)
    ensures LiteralDirectory(pattern) <= path <==> '\\' !in LiteralPrefix(pattern)
  {
    var prefix := LiteralPrefix(pattern);
    if '\\' in prefix {
      BackslashIsNeverLiteral(prefix, path);
    } else {
      PlainIsUnescaped(LiteralDirectory(pattern));
    }
  }

  /** What a caller can check of its patterns. */
  predicate NoBackslashes(patterns: seq<string>) {
    forall i :: 0 <= i < |patterns| ==> '\\' !in LiteralPrefix(patterns[i])
  }

  lemma NoBackslashesMeansLiteral(g: Globs, patterns: seq<string>)
    requires ReadsEscapes(g) && NoBackslashes(patterns)
    ensures LiteralHeads(g, patterns)
  {
    hide LiteralDirectory, LiteralPrefix, Unescaped;
    forall p, path | p in patterns && g.glob(p, path)
      ensures LiteralDirectory(p) <= path
    {
      var i :| 0 <= i < |patterns| && patterns[i] == p;
      LiteralIff(g, p, path);
    }
  }

  // ---- a directory with a backslash is never found ----

  /** A tree with one file at `comps`. */
  function OneFile(comps: seq<string>, digest: string): Tree
    requires comps != []
  {
    Dir([Entry(comps[0], if |comps| == 1 then Leaf(true, true, true, digest) else Folder(OneFile(comps[1..], digest), true))])
  }

  lemma {:induction false} OneFileHasIt(comps: seq<string>, digest: string)
    requires comps != [] && PlainNames(comps) && ".git" !in comps
    ensures WellFormed(OneFile(comps, digest)) && HasFile(OneFile(comps, digest).entries, comps, digest, true)
  {
    var e := OneFile(comps, digest).entries[0];
    if |comps| > 1 {
      assert forall i :: 0 <= i < |comps| - 1 ==> comps[1..][i] == comps[i + 1];
      OneFileHasIt(comps[1..], digest);
    }
    assert EntryHasFile(e, comps, digest, true);
  }

  /** Following names that leave the path of that file ends nowhere. */
  lemma {:induction false} ElsewhereIsMissing(comps: seq<string>, digest: string, names: seq<string>)
    requires comps != [] && !(names <= comps) && !(comps <= names) && ".." !in names
    ensures Locate(OneFile(comps, digest), names).Missing?
  {
    var entries := OneFile(comps, digest).entries;
    assert names[0] in names && entries[1..] == [];
    if names[0] == comps[0] {
      assert names == [names[0]] + names[1..] && comps == [comps[0]] + comps[1..];
      ElsewhereIsMissing(comps[1..], digest, names[1..]);
      assert Find(entries, names[0]) == Some(entries[0]);
    } else {
      assert Find(entries, names[0]) == None;
    }
  }

  lemma JoinedHead(c: char, parts: seq<string>)
    requires parts != []
    ensures Joined('/', [[c] + parts[0]] + parts[1..]) == [c] + Joined('/', parts)
  {
    var longer := [[c] + parts[0]] + parts[1..];
    assert longer[1..] == parts[1..];
    hide Joined;
    if |parts| > 1 {
      assert [c] + (parts[0] + ['/'] + Joined('/', parts[1..])) == [c] + parts[0] + ['/'] + Joined('/', parts[1..]);
    }
  }

  lemma {:induction false} JoinedSplit(s: string)
    ensures Joined('/', Split('/', s)) == s
  {
    if s != [] {
      JoinedSplit(s[1..]);
      var rest := Split('/', s[1..]);
      assert s == [s[0]] + s[1..];
      if s[0] == '/' {
        assert Split('/', s) == [[]] + rest;
        assert ([[]] + rest)[1..] == rest;
        assert Joined('/', [[]] + rest) == [] + ['/'] + Joined('/', rest);
      } else {
        JoinedHead(s[0], rest);
      }
    }
  }

  lemma {:induction false} JoinedAppend(a: seq<string>, b: seq<string>)
    requires a != [] && b != []
    ensures Joined('/', a + b) == Joined('/', a) + "/" + Joined('/', b)
  {
    assert (a + b)[1..] == a[1..] + b;
    if |a| > 1 {
      JoinedAppend(a[1..], b);
    } else {
      assert a[1..] + b == b;
    }
  }

  lemma {:induction false} SplitCounts(s: string)
    ensures |Split('/', s)| == Slashes(s) + 1
  {
    if s != [] {
      SplitCounts(s[1..]);
    }
  }

  /** Reading starts afresh after a slash. */
  lemma {:induction false} ReadAfterSlash(x: string, y: string)
    ensures Unescaped(x + "/" + y) == Unescaped(x + "/") + Unescaped(y)
    decreases |x|
  {
    var whole, head := x + "/" + y, x + "/";
    if x == "" {
      assert whole == "/" + y && whole[1..] == y && head[1..] == "";
    } else if x[0] == '\\' && |x| == 1 {
      assert whole[2..] == y && head[2..] == "" && whole[1] == '/' && head[1] == '/';
    } else if x[0] == '\\' {
      assert whole[2..] == x[2..] + "/" + y && head[2..] == x[2..] + "/" && whole[1] == head[1];
      ReadAfterSlash(x[2..], y);
    } else {
      assert whole[1..] == x[1..] + "/" + y && head[1..] == x[1..] + "/";
      ReadAfterSlash(x[1..], y);
    }
  }

  /** A plain component of the directory as written is one of the path. */
  lemma ComponentIsRead(x: string, part: string, y: string, path: string)
    requires '\\' !in part && '/' !in part
    requires Unescaped(x + "/" + (part + "/" + y)) <= path
    ensures part in Split('/', path)
  {
    ReadAfterSlash(x, part + "/" + y);
    ReadAfterSlash(part, y);
    PlainIsUnescaped(part + "/");
    ReadEndsInSlash(x);
    var read := Unescaped(x + "/");
    var w, z := read[..|read| - 1], path[|read| + |part| + 1..];
    assert Unescaped(x + "/" + (part + "/" + y)) == read + (part + "/" + Unescaped(y));
    assert path == w + "/" + (part + "/" + z);
    SplitAppend('/', w, part + "/" + z);
    SplitAppend('/', part, z);
    SplitWithout('/', part);
  }

  lemma {:induction false} ReadEndsInSlash(x: string)
    ensures Unescaped(x + "/") != "" && Unescaped(x + "/")[|Unescaped(x + "/")| - 1] == '/'
    decreases |x|
  {
    var text := x + "/";
    if x != "" {
      if x[0] == '\\' && |x| > 1 {
        assert text[2..] == x[2..] + "/";
        ReadEndsInSlash(x[2..]);
      } else if x[0] != '\\' {
        assert text[1..] == x[1..] + "/";
        ReadEndsInSlash(x[1..]);
      }
    }
  }

  lemma FirstComponentIsRead(part: string, y: string, path: string)
    requires '\\' !in part && '/' !in part && Unescaped(part + "/" + y) <= path
    ensures part in Split('/', path)
  {
    ReadAfterSlash(part, y);
    PlainIsUnescaped(part + "/");
    var z := path[|part| + 1..];
    assert path == part + "/" + z;
    SplitAppend('/', part, z);
    SplitWithout('/', part);
  }

  /** A directory read as the start of a plain path is written without empty, `.` or `..` components. */
  lemma WrittenIsProper(directory: string, comps: seq<string>, j: nat)
    requires comps != [] && PlainNames(comps) && Unescaped(directory + "/") <= Joined('/', comps)
    requires j < |Split('/', directory)|
    ensures Split('/', directory)[j] !in {"", ".", ".."}
  {
    var raw := Split('/', directory);
    var part := raw[j];
    assert '/' !in part by { assert part in raw; }
    assert forall c :: c in comps ==> Plain(c);
    SplitJoined('/', comps);
    if part in {"", ".", ".."} {
      assert '\\' !in part;
      PartIsRead(directory, j, Joined('/', comps));
    }
  }

  lemma PartIsRead(directory: string, j: nat, path: string)
    requires Unescaped(directory + "/") <= path
    requires j < |Split('/', directory)| && '\\' !in Split('/', directory)[j] && '/' !in Split('/', directory)[j]
    ensures Split('/', directory)[j] in Split('/', path)
  {
    JoinedSplit(directory);
    hide Split, Joined, Unescaped;
    var raw := Split('/', directory);
    var part := raw[j];
    TailIs(raw, j);
    var y := if j + 1 < |raw| then Joined('/', raw[j + 1..]) + "/" else "";
    if j == 0 {
      assert raw[0..] == raw;
      assert directory + "/" == part + "/" + y;
      FirstComponentIsRead(part, y, path);
    } else {
      assert raw == raw[..j] + raw[j..];
      JoinedAppend(raw[..j], raw[j..]);
      var x := Joined('/', raw[..j]);
      assert directory + "/" == x + "/" + (part + "/" + y);
      ComponentIsRead(x, part, y, path);
    }
  }

  lemma TailIs(raw: seq<string>, j: nat)
    requires j < |raw|
    ensures Joined('/', raw[j..]) + "/" == raw[j] + "/" + if j + 1 < |raw| then Joined('/', raw[j + 1..]) + "/" else ""
  {
    if j + 1 < |raw| {
      assert raw[j..] == [raw[j]] + raw[j + 1..];
      JoinedAppend([raw[j]], raw[j + 1..]);
      hide Joined;
      assert Joined('/', [raw[j]]) == raw[j];
    }
  }

  lemma {:induction false} ProperComponents(parts: seq<string>)
    requires forall i :: 0 <= i < |parts| ==> parts[i] !in {"", ".", ".."}
    ensures Components(parts) == parts
  {
    if parts != [] {
      ProperComponents(parts[1..]);
    }
  }

  /** The file of a pattern is there and matched, but the pattern is walked nowhere. */
  ghost predicate Loses(tree: Tree, base: seq<string>, pattern: string, comps: seq<string>, digest: string) {
    && WellFormed(tree) && tree.Dir? && HasFile(tree.entries, comps, digest, true)
    && Absent(tree, base, LiteralPrefix(pattern))
  }

  lemma BackslashLoses(base: seq<string>, pattern: string, comps: seq<string>, digest: string)
    requires comps != [] && PlainNames(comps) && ".git" !in comps && '\\' in LiteralPrefix(pattern)
    requires Unescaped(LiteralDirectory(pattern)) <= Joined('/', comps)
    ensures Loses(OneFile(comps, digest), base, pattern, comps, digest)
  {
    var prefix, path := LiteralPrefix(pattern), Joined('/', comps);
    hide LiteralPrefix;
    var raw := Split('/', prefix);
    forall j | 0 <= j < |raw|
      ensures raw[j] !in {"", ".", ".."}
    {
      WrittenIsProper(prefix, comps, j);
    }
    ProperComponents(raw);
    if prefix[0] == '/' {
      NothingBeforeSlash(prefix);
    }
    WrittenIsShorter(prefix, comps);
    WrittenLeavesThePath(prefix, comps);
    hide Split, Components, Joined, Unescaped;
    ElsewhereIsMissing(comps, digest, raw);
    OneFileHasIt(comps, digest);
  }

  lemma NothingBeforeSlash(s: string)
    requires s != "" && s[0] == '/'
    ensures Split('/', s)[0] == ""
  {
  }

  lemma WrittenIsShorter(prefix: string, comps: seq<string>)
    requires comps != [] && PlainNames(comps) && Unescaped(prefix + "/") <= Joined('/', comps)
    ensures |Split('/', prefix)| < |comps|
  {
    assert Slashes("/") == 1;
    assert forall c :: c in comps ==> Plain(c);
    SplitJoined('/', comps);
    hide Unescaped, Joined, Split, Slashes, PlainNames, Plain;
    SplitCounts(Joined('/', comps));
    SplitCounts(prefix);
    SlashesStay(prefix + "/");
    SlashesSplit(prefix, "/");
    PrefixHasFewerSlashes(Unescaped(prefix + "/"), Joined('/', comps));
  }

  lemma PrefixHasFewerSlashes(a: string, s: string)
    requires a <= s
    ensures Slashes(a) <= Slashes(s)
  {
    assert s == a + s[|a|..];
    SlashesSplit(a, s[|a|..]);
  }

  lemma StartsWritten(prefix: string, rest: string)
    ensures prefix + "/" <= prefix + "/" + rest
  {
  }

  lemma WrittenLeavesThePath(prefix: string, comps: seq<string>)
    requires comps != [] && '\\' in prefix && Unescaped(prefix + "/") <= Joined('/', comps)
    requires |Split('/', prefix)| < |comps|
    ensures !(Split('/', prefix) <= comps)
  {
    hide Unescaped, Joined, Split;
    var raw := Split('/', prefix);
    BackslashIsNeverLiteral(prefix, Joined('/', comps));
    if raw <= comps {
      var rest := comps[|raw|..];
      assert comps == raw + rest;
      JoinedSplit(prefix);
      JoinedAppend(raw, rest);
      StartsWritten(prefix, Joined('/', rest));
    }
  }

  /** The exact condition, for a library that reads escapes and any path a pattern matches: some tree holds that
      file and loses it without a marker exactly when the directory of the pattern holds a backslash. */
  lemma LosesFilesIff(base: seq<string>, g: Globs, pattern: string, comps: seq<string>, digest: string)
    requires ReadsEscapes(g) && g.glob(pattern, Joined('/', comps))
    requires comps != [] && PlainNames(comps) && ".git" !in comps
    ensures '\\' in LiteralPrefix(pattern) <==> exists tree :: Loses(tree, base, pattern, comps, digest)
  {
    hide LiteralPrefix, LiteralDirectory, ReadsEscapes, Loses, Unescaped, Joined, PlainNames;
    if '\\' in LiteralPrefix(pattern) {
      ReadDirectory(g, pattern, Joined('/', comps));
      BackslashLoses(base, pattern, comps, digest);
    } else {
      LiteralIff(g, pattern, Joined('/', comps));
      forall tree
        ensures !Loses(tree, base, pattern, comps, digest)
      {
        LiteralKeeps(tree, base, pattern, comps, digest);
      }
    }
  }

  lemma ReadDirectory(g: Globs, pattern: string, path: string)
    requires ReadsEscapes(g) && g.glob(pattern, path)
    ensures Unescaped(LiteralDirectory(pattern)) <= path
  {
  }

  lemma LiteralKeeps(tree: Tree, base: seq<string>, pattern: string, comps: seq<string>, digest: string)
    requires comps != [] && PlainNames(comps) && LiteralDirectory(pattern) <= Joined('/', comps)
    ensures !Loses(tree, base, pattern, comps, digest)
  {
    hide LiteralPrefix, LiteralDirectory, Joined, Components, Split, PlainNames, WellFormed, HasFile;
    if WellFormed(tree) && tree.Dir? && HasFile(tree.entries, comps, digest, true) {
      MatchesAreRelative(base, pattern, comps);
      var k := MatchesLieBelowThePrefix(pattern, comps);
      assert comps == comps[..k] + comps[k..];
      FilesAreLocated(tree, comps[..k], comps[k..], digest);
    }
  }

  /** What such a tree gives: nothing is listed, and that is not complete. */
  lemma LossIsSilent(tree: Tree, base: seq<string>, g: Globs, pattern: string, comps: seq<string>, digest: string)
    requires Loses(tree, base, pattern, comps, digest) && g.compiles(pattern) && g.glob(pattern, Joined('/', comps))
    ensures NowhereToWalk(tree, base, [pattern]) && !Complete([], g, [pattern], tree.entries)
  {
    PrefixOfOne(pattern);
    hide LiteralPrefix, HasFile, WellFormed, Absent, Joined;
    assert Matches(g, [pattern], Joined('/', comps));
  }

  lemma PrefixOfOne(pattern: string)
    ensures Prefixes([pattern]) == [LiteralPrefix(pattern)]
  {
    var prefix := LiteralPrefix(pattern);
    assert LiteralPrefixes([pattern]) == [prefix];
    assert [prefix][..0] == [];
    assert Sorted(Self, [prefix]) == [prefix] && Deduped(Self, [prefix]) == [prefix];
  }

  // ---- lists of patterns ----

  /** The pattern's prefix lies below the root, never steps up, and turns off before the end of the file's path. */
  predicate Misses(base: seq<string>, pattern: string, comps: seq<string>) {
    var at := Place(base, LiteralPrefix(pattern));
    at.Some? && ".." !in at.value && !(at.value <= comps) && !(comps <= at.value)
  }

  /** All prefixes are walked as they should be, yet neither the file nor the marker is in the list. */
  ghost predicate Lost(out: seq<Artifact>, tree: Tree, base: seq<string>, g: Globs, patterns: seq<string>,
                       comps: seq<string>, digest: string) {
    && WellFormed(tree) && tree.Dir? && HasFile(tree.entries, comps, digest, true)
    && AllPrefixesDone(out, tree, base, g, patterns) && !Marked(out)
    && Artifact(Joined('/', comps), digest) !in out
  }

  /** A walk that would start at a file or behind it is refused. */
  lemma {:induction false} BehindAFileIsRefused(tree: Tree, comps: seq<string>, more: seq<string>, digest: string)
    requires WellFormed(tree) && tree.Dir? && comps != [] && HasFile(tree.entries, comps, digest, true)
    ensures Locate(tree, comps + more).Refused?
    decreases |comps|
  {
    var i :| 0 <= i < |tree.entries| && EntryHasFile(tree.entries[i], comps, digest, true);
    var e := tree.entries[i];
    assert (comps + more)[0] == comps[0] && (comps + more)[1..] == comps[1..] + more;
    assert Find(tree.entries, comps[0]) == Some(e) by {
      assert e in tree.entries;
    }
    if |comps| > 1 {
      BehindAFileIsRefused(e.kind.sub, comps[1..], more, digest);
    }
  }

  lemma LostIsMissed(out: seq<Artifact>, tree: Tree, base: seq<string>, g: Globs, patterns: seq<string>,
                     comps: seq<string>, digest: string, pattern: string)
    requires Lost(out, tree, base, g, patterns, comps, digest) && Matches(g, patterns, Joined('/', comps))
    requires comps != [] && pattern in patterns
    ensures Misses(base, pattern, comps)
  {
    hide WellFormed, HasFile, Joined, LiteralPrefix, Prefixes, Marked, Place, Matches, Locate;
    PrefixIsListed(patterns, pattern);
    var matches := Matcher(g, patterns);
    assert Settled(out, tree, matches, base, LiteralPrefix(pattern));
    var at := Place(base, LiteralPrefix(pattern)).value;
    StepsUpAreRefused(tree, at);
    if comps <= at {
      assert at == comps + at[|comps|..];
      BehindAFileIsRefused(tree, comps, at[|comps|..], digest);
    } else if at <= comps {
      assert comps == at + comps[|at|..];
      DonePrefixHolds(out, tree, matches, at, comps[|at|..], digest);
    }
  }

  lemma StepsUpAreRefused(tree: Tree, at: seq<string>)
    ensures ".." in at ==> Locate(tree, at).Refused?
  {
  }

  ghost predicate AllMiss(base: seq<string>, patterns: seq<string>, comps: seq<string>) {
    forall i :: 0 <= i < |patterns| ==> Misses(base, patterns[i], comps)
  }

  lemma MissedIsNowhere(base: seq<string>, patterns: seq<string>, comps: seq<string>, digest: string)
    requires comps != [] && AllMiss(base, patterns, comps)
    ensures NowhereToWalk(OneFile(comps, digest), base, patterns)
  {
    hide Locate, LiteralPrefix, Place, OneFile;
    forall p | p in Prefixes(patterns)
      ensures Absent(OneFile(comps, digest), base, p)
    {
      var i := ListedIsAPrefix(patterns, p);
      assert Misses(base, patterns[i], comps);
      ElsewhereIsMissing(comps, digest, Place(base, p).value);
    }
  }

  lemma ListedIsAPrefix(patterns: seq<string>, p: string) returns (i: nat)
    requires p in Prefixes(patterns)
    ensures i < |patterns| && p == LiteralPrefix(patterns[i])
  {
    var all := LiteralPrefixes(patterns);
    hide LiteralPrefix, LiteralPrefixes, Sorted, Deduped;
    SortedDeduped(Self, all);
    assert p in all;
    i :| 0 <= i < |patterns| && all[i] == p;
  }

  lemma NowhereIsDone(tree: Tree, base: seq<string>, g: Globs, patterns: seq<string>)
    requires NowhereToWalk(tree, base, patterns)
    ensures AllPrefixesDone([], tree, base, g, patterns) && !Marked([])
  {
    hide Prefixes, Place, Locate;
    forall p | p in Prefixes(patterns)
      ensures Settled([], tree, Matcher(g, patterns), base, p)
    {
      assert Absent(tree, base, p);
    }
  }

  /** The exact condition for a list of patterns, for any way of matching: some tree holds the file, and walks of
      all prefixes list neither it nor the marker, exactly when every prefix misses it. Then no prefix exists
      in the tree with just that file, so nothing at all is listed there. */
  lemma ListLosesFilesIff(base: seq<string>, g: Globs, patterns: seq<string>, comps: seq<string>, digest: string)
    requires Matches(g, patterns, Joined('/', comps))
    requires comps != [] && PlainNames(comps) && ".git" !in comps
    ensures (exists tree, out :: Lost(out, tree, base, g, patterns, comps, digest)) <==> AllMiss(base, patterns, comps)
    ensures AllMiss(base, patterns, comps) ==>
              var tree := OneFile(comps, digest);
              && WellFormed(tree) && HasFile(tree.entries, comps, digest, true) && NowhereToWalk(tree, base, patterns)
  {
    hide Matches, Joined, PlainNames, Misses, HasFile, WellFormed, AllPrefixesDone, NowhereToWalk, Marked;
    if AllMiss(base, patterns, comps) {
      MissedIsNowhere(base, patterns, comps, digest);
      OneFileHasIt(comps, digest);
      NowhereIsDone(OneFile(comps, digest), base, g, patterns);
      assert Lost([], OneFile(comps, digest), base, g, patterns, comps, digest);
    }
    forall tree, out | Lost(out, tree, base, g, patterns, comps, digest)
      ensures AllMiss(base, patterns, comps)
    {
      hide Lost;
      forall i | 0 <= i < |patterns|
        ensures Misses(base, patterns[i], comps)
      {
        LostIsMissed(out, tree, base, g, patterns, comps, digest, patterns[i]);
      }
    }
  }

  // ---- an example ----

  const ESCAPED := "\\src/*.rs"

  /** A directory `src` with one file. */
  function OneSource(digest: string): Tree {
    Dir([Entry("src", Folder(Dir([Entry("a.rs", Leaf(true, true, true, digest))]), true))])
  }

  lemma EscapedPrefix()
    ensures Prefixes([ESCAPED]) == ["\\src"]
  {
    assert HeadLength("*.rs") == 0;
    assert ESCAPED[5..] == "*.rs";
    HeadIs("\\src/", "*.rs");
    assert ESCAPED == "\\src/" + "*.rs" && ESCAPED[..5] == "\\src/";
    assert LiteralPrefix(ESCAPED) == "\\src";
    hide LiteralPrefix, HeadLength;
    PrefixOfOne(ESCAPED);
  }

  lemma {:induction false} HeadIs(head: string, rest: string)
    requires (forall i :: 0 <= i < |head| ==> head[i] !in WILDCARDS) && HeadLength(rest) == 0
    ensures HeadLength(head + rest) == |head|
  {
    if head == "" {
      assert head + rest == rest;
    } else {
      assert (head + rest)[1..] == head[1..] + rest;
      HeadIs(head[1..], rest);
    }
  }

  /** The files of such a directory are lost without a marker: the walk looks for a directory named with the
      backslash, finds none and lists nothing, although the pattern matches the file. */
  lemma BackslashLosesTheFile(base: seq<string>, g: Globs, digest: string)
    requires g.compiles(ESCAPED) && g.glob(ESCAPED, "src/a.rs")
    ensures WellFormed(OneSource(digest)) && NowhereToWalk(OneSource(digest), base, [ESCAPED])
    ensures !Complete([], g, [ESCAPED], OneSource(digest).entries)
  {
    OneSourceHasItsFile(digest);
    EscapedPlaceIsMissing(base, digest);
    EscapedPrefix();
    hide HasFile, WellFormed, Prefixes, Absent;
    var comps := ["src", "a.rs"];
    assert Joined('/', comps) == "src/a.rs" by {
      assert comps[1..] == ["a.rs"];
    }
    hide Joined;
    assert Matches(g, [ESCAPED], Joined('/', comps));
  }

  lemma EscapedPlaceIsMissing(base: seq<string>, digest: string)
    ensures Absent(OneSource(digest), base, "\\src")
  {
    SplitWithout('/', "\\src");
    assert ["\\src"][1..] == [];
    assert Components(["\\src"]) == ["\\src"];
    var entries := OneSource(digest).entries;
    assert entries[1..] == [] && Find(entries, "\\src") == None;
  }

  lemma OneSourceHasItsFile(digest: string)
    ensures HasFile(OneSource(digest).entries, ["src", "a.rs"], digest, true) && WellFormed(OneSource(digest))
  {
    var tree := OneSource(digest);
    var src := tree.entries[0];
    assert ["src", "a.rs"][1..] == ["a.rs"];
    assert EntryHasFile(src.kind.sub.entries[0], ["a.rs"], digest, true);
    assert HasFile(src.kind.sub.entries, ["a.rs"], digest, true);
    assert EntryHasFile(src, ["src", "a.rs"], digest, true);
  }
}

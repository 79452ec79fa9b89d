/** Which sensors a change needs: discovery of changed paths and the selection over them. */
module Applicability {
  import opened Wrappers
  import opened NameStatus
  import Text

  // ---- discovery ----

  function PathOf(f: ChangedFile): string {
    f.path
  }

  /** Sorted by path, one entry for each. */
  function Merged(files: seq<ChangedFile>): seq<ChangedFile> {
    Text.Deduped(PathOf, Text.Sorted(PathOf, files))
  }

  /** What the two git queries report together: the index of a repository without commits lists additions. */
  function Discovered(born: bool, tracked: string, untracked: string, valid: string -> bool)
    : Result<seq<ChangedFile>, ParseError>
  {
    var first := if born then Parsed(tracked, valid) else ParsedPaths(tracked, Added, valid);
    var second := ParsedPaths(untracked, Untracked, valid);
    if first.Err? then first else if second.Err? then second else Ok(Merged(first.value + second.value))
  }

  method DiscoverInner(born: bool, tracked: string, untracked: string, valid: string -> bool)
    returns (r: Result<seq<ChangedFile>, ParseError>)
    ensures r == Discovered(born, tracked, untracked, valid)
  {
    var files: seq<ChangedFile>;
    if born {
      r := ParseNameStatus(tracked, valid);
    } else {
      r := ParsedPaths(tracked, Added, valid);
    }
    if r.Err? {
      return;
    }
    files := r.value;
    r := ParsedPaths(untracked, Untracked, valid);
    if r.Err? {
      return;
    }
    files := files + r.value;
    files := Text.Sorted(PathOf, files);
    files := Text.Deduped(PathOf, files);
    r := Ok(files);
  }

  /** Merging leaves a strictly sorted list with exactly the same paths. */
  lemma MergedKeepsPaths(files: seq<ChangedFile>)
    ensures Text.StrictlySortedBy(PathOf, Merged(files)) && FilePaths(Merged(files)) == FilePaths(files)
  {
    Text.SortedDeduped(PathOf, files);
    hide Text.StrictlySortedBy, Text.HasKey, Text.Sorted, Text.Deduped;
    var r := Merged(files);
    assert Text.StrictlySortedBy(PathOf, r);
    assert forall f :: f in r ==> f in files;
    assert forall f :: f in files ==> Text.HasKey(PathOf, r, PathOf(f));
    SamePaths(files, r);
  }

  lemma SamePaths(files: seq<ChangedFile>, r: seq<ChangedFile>)
    requires forall f :: f in r ==> f in files
    requires forall f :: f in files ==> Text.HasKey(PathOf, r, PathOf(f))
    ensures FilePaths(r) == FilePaths(files)
  {
    forall p | p in FilePaths(files)
      ensures p in FilePaths(r)
    {
      var f :| f in files && f.path == p;
      assert Text.HasKey(PathOf, r, PathOf(f));
      var h :| h in r && PathOf(h) == PathOf(f);
      assert h.path == p;
    }
  }

  // ---- selection ----

  datatype Sensor = Sensor(name: string, whenChanged: seq<string>)

  datatype Listed = Listed(name: string, reason: string)

  datatype ChangedFiles = ChangedFiles(files: seq<ChangedFile>, discoveryFailed: bool, discoveryError: Option<string>)

  /** The glob library: which patterns compile and which paths a pattern matches. */
  datatype Globs = Globs(compiles: string -> bool, matches: (string, string) -> bool)

  datatype Verdict = Keep(reason: string) | Skip

  const FAIL_CLOSED_REASON := "change discovery failed; selected fail-closed"
  const UNCONSTRAINED_REASON := "no applicability constraint (`when-changed` unset)"
  const SKIP_REASON := "no configured path matched"

  predicate Hits(g: Globs, pattern: string, files: seq<ChangedFile>) {
    exists i :: 0 <= i < |files| && g.matches(pattern, files[i].path)
  }

  function FailClosedReason(changed: ChangedFiles): string {
    match changed.discoveryError
    case Some(error) => FAIL_CLOSED_REASON + ": " + error
    case None => FAIL_CLOSED_REASON
  }

  /** The first pattern from `from` on that matches a changed path. */
  function FirstHit(g: Globs, patterns: seq<string>, files: seq<ChangedFile>): (r: Option<string>)
    ensures r.None? <==> forall i :: 0 <= i < |patterns| ==> !Hits(g, patterns[i], files)
    ensures r.Some? ==> r.value in patterns && Hits(g, r.value, files)
  {
    if patterns == [] then None
    else if Hits(g, patterns[0], files) then Some(patterns[0])
    else FirstHit(g, patterns[1..], files)
  }

  function Judged(g: Globs, s: Sensor, changed: ChangedFiles): Verdict {
    if changed.discoveryFailed then Keep(FailClosedReason(changed))
    else if s.whenChanged == [] then Keep(UNCONSTRAINED_REASON)
    else if exists i :: 0 <= i < |s.whenChanged| && !g.compiles(s.whenChanged[i]) then Keep(FAIL_CLOSED_REASON)
    else
      match FirstHit(g, s.whenChanged, changed.files)
      case Some(pattern) => Keep("matched `" + pattern + "`")
      case None => Skip
  }

  function Kept(g: Globs, sensors: seq<Sensor>, changed: ChangedFiles): seq<Listed> {
    if sensors == [] then []
    else
      var n := |sensors| - 1;
      var v := Judged(g, sensors[n], changed);
      Kept(g, sensors[..n], changed) + if v.Keep? then [Listed(sensors[n].name, v.reason)] else []
  }

  function Skipped(g: Globs, sensors: seq<Sensor>, changed: ChangedFiles): seq<Listed> {
    if sensors == [] then []
    else
      var n := |sensors| - 1;
      Skipped(g, sensors[..n], changed) +
      if Judged(g, sensors[n], changed).Skip? then [Listed(sensors[n].name, SKIP_REASON)] else []
  }

  /** The compiled patterns of a sensor, in order. */
  function Compiled(g: Globs, patterns: seq<string>): (r: seq<string>)
    ensures |r| <= |patterns|
    ensures |r| == |patterns| <==> forall i :: 0 <= i < |patterns| ==> g.compiles(patterns[i])
    ensures |r| == |patterns| ==> r == patterns
  {
    if patterns == [] then []
    else (if g.compiles(patterns[0]) then [patterns[0]] else []) + Compiled(g, patterns[1..])
  }

  /** The selection loop, sensor by sensor. */
  method Select(g: Globs, candidates: seq<Sensor>, changed: ChangedFiles)
    returns (selected: seq<Listed>, skipped: seq<Listed>)
    ensures selected == Kept(g, candidates, changed) && skipped == Skipped(g, candidates, changed)
  {
    selected, skipped := [], [];
    for i := 0 to |candidates|
      invariant selected == Kept(g, candidates[..i], changed) && skipped == Skipped(g, candidates[..i], changed)
    {
      var spec := candidates[i];
      assert candidates[..i + 1][..i] == candidates[..i];
      if changed.discoveryFailed {
        selected := selected + [Listed(spec.name, FailClosedReason(changed))];
        continue;
      }
      if spec.whenChanged == [] {
        selected := selected + [Listed(spec.name, UNCONSTRAINED_REASON)];
        continue;
      }
      var compiled := Compiled(g, spec.whenChanged);
      if |compiled| != |spec.whenChanged| {
        selected := selected + [Listed(spec.name, FAIL_CLOSED_REASON)];
        continue;
      }
      var hit := FirstHit(g, compiled, changed.files);
      if hit.Some? {
        selected := selected + [Listed(spec.name, "matched `" + hit.value + "`")];
      } else {
        skipped := skipped + [Listed(spec.name, SKIP_REASON)];
      }
    }
    assert candidates[..|candidates|] == candidates;
  }

  function Names(xs: seq<Listed>): seq<string> {
    seq(|xs|, i requires 0 <= i < |xs| => xs[i].name)
  }

  function SensorNames(xs: seq<Sensor>): seq<string> {
    seq(|xs|, i requires 0 <= i < |xs| => xs[i].name)
  }

  function Keeps(g: Globs, sensors: seq<Sensor>, changed: ChangedFiles): seq<bool> {
    seq(|sensors|, i requires 0 <= i < |sensors| => Judged(g, sensors[i], changed).Keep?)
  }

  /** The two lists partition the candidates in order. */
  lemma {:induction false} ListsPartitionTheCandidates(g: Globs, sensors: seq<Sensor>, changed: ChangedFiles)
    ensures Text.Interleaves(Keeps(g, sensors, changed), Names(Kept(g, sensors, changed)),
                             Names(Skipped(g, sensors, changed)), SensorNames(sensors))
  {
    hide Judged;
    if sensors != [] {
      var n := |sensors| - 1;
      ListsPartitionTheCandidates(g, sensors[..n], changed);
      var a, b := Kept(g, sensors[..n], changed), Skipped(g, sensors[..n], changed);
      assert Keeps(g, sensors, changed)[..n] == Keeps(g, sensors[..n], changed);
      assert SensorNames(sensors)[..n] == SensorNames(sensors[..n]);
      var v := Judged(g, sensors[n], changed);
      if v.Keep? {
        OneMoreName(a, Listed(sensors[n].name, v.reason));
        assert Skipped(g, sensors, changed) == b;
      } else {
        OneMoreName(b, Listed(sensors[n].name, SKIP_REASON));
        assert Kept(g, sensors, changed) == a;
      }
      hide Names;
    }
  }

  lemma OneMoreName(xs: seq<Listed>, x: Listed)
    ensures Names(xs + [x]) == Names(xs) + [x.name]
    ensures var names := Names(xs + [x]); names[|names| - 1] == x.name && names[..|names| - 1] == Names(xs)
  {
  }

  /** No changed path matches any pattern of the sensor. */
  ghost predicate Untouched(g: Globs, s: Sensor, paths: set<string>) {
    forall pattern, path :: pattern in s.whenChanged && path in paths ==> !g.matches(pattern, path)
  }

  ghost predicate AllCompile(g: Globs, s: Sensor) {
    forall pattern :: pattern in s.whenChanged ==> g.compiles(pattern)
  }

  /** A sensor is skipped exactly when discovery worked, it has patterns, all of them compile and none matches a
      changed path. */
  lemma SkippedIff(g: Globs, s: Sensor, changed: ChangedFiles)
    ensures Judged(g, s, changed).Skip? <==>
              !changed.discoveryFailed && s.whenChanged != [] && AllCompile(g, s) &&
              Untouched(g, s, FilePaths(changed.files))
  {
    if !changed.discoveryFailed && AllCompile(g, s) {
      if i :| 0 <= i < |s.whenChanged| && Hits(g, s.whenChanged[i], changed.files) {
        var j :| 0 <= j < |changed.files| && g.matches(s.whenChanged[i], changed.files[j].path);
        assert changed.files[j].path in FilePaths(changed.files) && s.whenChanged[i] in s.whenChanged;
      } else {
        forall pattern, path | pattern in s.whenChanged && path in FilePaths(changed.files)
          ensures !g.matches(pattern, path)
        {
          var i :| 0 <= i < |s.whenChanged| && s.whenChanged[i] == pattern;
          var j :| 0 <= j < |changed.files| && changed.files[j].path == path;
          assert !Hits(g, s.whenChanged[i], changed.files);
        }
      }
    }
  }

  /** The paths discovered from git's output are those of the records and of the untracked list. */
  lemma DiscoveredPaths(rs: seq<Record>, untracked: seq<string>, valid: string -> bool)
    requires AllWellFormed(rs) && AllFieldsProper(untracked)
    requires forall i :: 0 <= i < |AllFields(rs)| ==> valid(AllFields(rs)[i])
    requires forall i :: 0 <= i < |untracked| ==> valid(untracked[i])
    ensures var found := Discovered(true, Rendered(AllFields(rs)), Rendered(untracked), valid);
            found.Ok? && FilePaths(found.value) == Normalized(AllPaths(rs) + set p | p in untracked)
  {
    hide Parsed, ParsedPaths, Rendered, AllFields, AllFiles, AllPaths, FilePaths, Normalized;
    ParsedRecords(rs, valid);
    PathsOfList(untracked, Untracked, valid);
    assert forall i :: 0 <= i < |rs| ==> rs[i].status != "";
    var first, second := AllFiles(rs), ParsedPaths(Rendered(untracked), Untracked, valid).value;
    assert Discovered(true, Rendered(AllFields(rs)), Rendered(untracked), valid) == Ok(Merged(first + second));
    hide Discovered, Merged;
    FilesHavePaths(rs);
    MergedKeepsPaths(first + second);
    FilePathsOfBoth(first, second);
    NormalizedBoth(AllPaths(rs), set p | p in untracked);
  }

  /** In a repository without commits they are those of the index and of the untracked list. */
  lemma DiscoveredIndexPaths(index: seq<string>, untracked: seq<string>, valid: string -> bool)
    requires AllFieldsProper(index) && AllFieldsProper(untracked)
    requires forall i :: 0 <= i < |index| ==> valid(index[i])
    requires forall i :: 0 <= i < |untracked| ==> valid(untracked[i])
    ensures var found := Discovered(false, Rendered(index), Rendered(untracked), valid);
            found.Ok? && FilePaths(found.value) == Normalized((set p | p in index) + set p | p in untracked)
  {
    hide Parsed, ParsedPaths, Rendered, FilePaths, Normalized, Merged;
    PathsOfList(index, Added, valid);
    PathsOfList(untracked, Untracked, valid);
    var first := ParsedPaths(Rendered(index), Added, valid).value;
    var second := ParsedPaths(Rendered(untracked), Untracked, valid).value;
    MergedKeepsPaths(first + second);
    FilePathsOfBoth(first, second);
    NormalizedBoth(set p | p in index, set p | p in untracked);
  }

  lemma PathsOfList(paths: seq<string>, kind: ChangeKind, valid: string -> bool)
    requires AllFieldsProper(paths) && forall i :: 0 <= i < |paths| ==> valid(paths[i])
    ensures var r := ParsedPaths(Rendered(paths), kind, valid);
            r.Ok? && FilePaths(r.value) == Normalized(set p | p in paths)
  {
    hide Rendered, FilePaths, Normalized, Normalize, ParsedPaths;
    ParsedPathList(paths, kind, valid);
    PathListPaths(paths, ParsedPaths(Rendered(paths), kind, valid).value, kind);
  }

  lemma FilePathsOfBoth(a: seq<ChangedFile>, b: seq<ChangedFile>)
    ensures FilePaths(a + b) == FilePaths(a) + FilePaths(b)
  {
  }

  lemma NormalizedBoth(a: set<string>, b: set<string>)
    ensures Normalized(a + b) == Normalized(a) + Normalized(b)
  {
  }

  /** From git's output to a skip: on any tracked records and untracked paths a sensor is skipped exactly when
      its patterns are there, compile, and match neither end of any record nor any untracked path. */
  lemma SkippedFromGitOutput(g: Globs, s: Sensor, rs: seq<Record>, untracked: seq<string>, valid: string -> bool)
    requires AllWellFormed(rs) && AllFieldsProper(untracked)
    requires forall i :: 0 <= i < |AllFields(rs)| ==> valid(AllFields(rs)[i])
    requires forall i :: 0 <= i < |untracked| ==> valid(untracked[i])
    ensures var found := Discovered(true, Rendered(AllFields(rs)), Rendered(untracked), valid);
            && found.Ok?
            && (Judged(g, s, ChangedFiles(found.value, false, None)).Skip? <==>
                  s.whenChanged != [] && AllCompile(g, s) &&
                  Untouched(g, s, Normalized(AllPaths(rs) + set p | p in untracked)))
  {
    hide Discovered, Judged, Untouched, AllCompile, Rendered, AllFields, AllPaths, Normalized, FilePaths;
    DiscoveredPaths(rs, untracked, valid);
    var found := Discovered(true, Rendered(AllFields(rs)), Rendered(untracked), valid);
    SkippedIff(g, s, ChangedFiles(found.value, false, None));
  }

  /** The same in a repository without commits, where every path of the index is an addition. */
  lemma SkippedFromIndex(g: Globs, s: Sensor, index: seq<string>, untracked: seq<string>, valid: string -> bool)
    requires AllFieldsProper(index) && AllFieldsProper(untracked)
    requires forall i :: 0 <= i < |index| ==> valid(index[i])
    requires forall i :: 0 <= i < |untracked| ==> valid(untracked[i])
    ensures var found := Discovered(false, Rendered(index), Rendered(untracked), valid);
            && found.Ok?
            && (Judged(g, s, ChangedFiles(found.value, false, None)).Skip? <==>
                  s.whenChanged != [] && AllCompile(g, s) &&
                  Untouched(g, s, Normalized((set p | p in index) + set p | p in untracked)))
  {
    hide Discovered, Judged, Untouched, AllCompile, Rendered, Normalized, FilePaths;
    DiscoveredIndexPaths(index, untracked, valid);
    var found := Discovered(false, Rendered(index), Rendered(untracked), valid);
    SkippedIff(g, s, ChangedFiles(found.value, false, None));
  }

  lemma PathListPaths(paths: seq<string>, files: seq<ChangedFile>, kind: ChangeKind)
    requires |files| == |paths|
    requires forall i :: 0 <= i < |paths| ==> files[i] == ChangedFile(Normalize(paths[i]), kind)
    ensures FilePaths(files) == Normalized(set p | p in paths)
  {
    forall i | 0 <= i < |paths|
      ensures Normalize(paths[i]) in FilePaths(files)
    {
      assert files[i] in files;
    }
  }

  /** A discovery that fails skips nothing. */
  lemma {:induction false} FailedDiscoveryKeepsAll(g: Globs, sensors: seq<Sensor>, changed: ChangedFiles)
    requires changed.discoveryFailed
    ensures Skipped(g, sensors, changed) == [] && Names(Kept(g, sensors, changed)) == SensorNames(sensors)
  {
    if sensors != [] {
      FailedDiscoveryKeepsAll(g, sensors[..|sensors| - 1], changed);
      var n := |sensors| - 1;
      assert Names(Kept(g, sensors, changed)) == Names(Kept(g, sensors[..n], changed)) + [sensors[n].name];
    }
  }

  /** No pattern before position `i` hits. */
  ghost predicate FirstAt(g: Globs, patterns: seq<string>, files: seq<ChangedFile>, i: nat) {
    i < |patterns| && Hits(g, patterns[i], files) && forall j :: 0 <= j < i ==> !Hits(g, patterns[j], files)
  }

  lemma {:induction false} FirstHitIsFirst(g: Globs, patterns: seq<string>, files: seq<ChangedFile>) returns (i: nat)
    requires FirstHit(g, patterns, files).Some?
    ensures FirstAt(g, patterns, files, i) && FirstHit(g, patterns, files).value == patterns[i]
  {
    hide Hits;
    if Hits(g, patterns[0], files) {
      i := 0;
    } else {
      var k := FirstHitIsFirst(g, patterns[1..], files);
      i := k + 1;
      assert forall j :: 0 < j <= k ==> patterns[j] == patterns[1..][j - 1];
    }
  }

  /** Why a sensor is kept: the failed discovery with its error, no constraint, a pattern that does not compile, or
      the first of its patterns that matches a changed path. */
  lemma KeptBecause(g: Globs, s: Sensor, changed: ChangedFiles)
    ensures var v := Judged(g, s, changed);
            && (changed.discoveryFailed ==>
                  v == Keep("change discovery failed; selected fail-closed" +
                            match changed.discoveryError case Some(error) => ": " + error case None => ""))
            && (!changed.discoveryFailed && s.whenChanged == [] ==>
                  v == Keep("no applicability constraint (`when-changed` unset)"))
            && (!changed.discoveryFailed && !AllCompile(g, s) ==>
                  v == Keep("change discovery failed; selected fail-closed"))
            && (!changed.discoveryFailed && AllCompile(g, s) && s.whenChanged != [] && v.Keep? ==>
                  exists i: nat :: FirstAt(g, s.whenChanged, changed.files, i) && v == Keep("matched `" + s.whenChanged[i] + "`"))
  {
    assert !AllCompile(g, s) ==> exists i :: 0 <= i < |s.whenChanged| && !g.compiles(s.whenChanged[i]);
    hide Hits;
    var hit := FirstHit(g, s.whenChanged, changed.files);
    if hit.Some? {
      var i := FirstHitIsFirst(g, s.whenChanged, changed.files);
    }
    assert FAIL_CLOSED_REASON + "" == FAIL_CLOSED_REASON;
    hide FirstHit, FirstAt;
  }

  /** Of several entries for one path the first survives, so what git tracks goes before what it does not. */
  lemma MergedKeepsFirst(files: seq<ChangedFile>, path: string)
    ensures Text.FirstWith(PathOf, Merged(files), path) == Text.FirstWith(PathOf, files, path)
  {
    Text.MergingKeepsFirst(PathOf, files, path);
  }

  /** Discovery fails exactly when one of the two queries cannot be read, with the error of the first that cannot;
      every sensor is then kept. */
  lemma UnreadableOutputKeepsAll(g: Globs, sensors: seq<Sensor>, born: bool, tracked: string, untracked: string,
                                 valid: string -> bool)
    ensures var first := if born then Parsed(tracked, valid) else ParsedPaths(tracked, Added, valid);
            var second := ParsedPaths(untracked, Untracked, valid);
            var found := Discovered(born, tracked, untracked, valid);
            && (found.Err? <==> first.Err? || second.Err?)
            && (found.Err? ==> found == if first.Err? then first else second)
            && (found.Err? ==> forall e :: Names(Kept(g, sensors, ChangedFiles([], true, Some(e)))) == SensorNames(sensors))
  {
    hide Parsed, ParsedPaths, Merged, Kept, Skipped, Names, SensorNames;
    forall e: string
      ensures Names(Kept(g, sensors, ChangedFiles([], true, Some(e)))) == SensorNames(sensors)
    {
      FailedDiscoveryKeepsAll(g, sensors, ChangedFiles([], true, Some(e)));
    }
  }
}

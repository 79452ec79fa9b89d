/** NUL-delimited git output and the two parsers that read it.

  Bytes are characters; `valid` says which byte strings are UTF-8.
*/
module NameStatus {
  import opened Wrappers
  import Text

  const NUL := '\0'

  // ---- what git writes ----

  /** A changed path, or both ends of a rename or copy. */
  datatype Record = One(status: string, path: string) | Two(status: string, from: string, to: string)

  predicate TwoPaths(status: string) {
    status != "" && (status[0] == 'R' || status[0] == 'C')
  }

  predicate Field(s: string) {
    s != "" && NUL !in s
  }

  predicate WellFormed(r: Record) {
    Field(r.status) && (TwoPaths(r.status) <==> r.Two?) && if r.One? then Field(r.path) else Field(r.from) && Field(r.to)
  }

  function FieldsOf(r: Record): seq<string> {
    if r.One? then [r.status, r.path] else [r.status, r.from, r.to]
  }

  function AllFields(rs: seq<Record>): seq<string> {
    if rs == [] then [] else FieldsOf(rs[0]) + AllFields(rs[1..])
  }

  /** Every field is followed by a NUL. */
  function Rendered(fields: seq<string>): string {
    if fields == [] then "" else fields[0] + [NUL] + Rendered(fields[1..])
  }

  predicate AllFieldsProper(fields: seq<string>) {
    forall i :: 0 <= i < |fields| ==> Field(fields[i])
  }

  lemma {:induction false} RenderedSplits(fields: seq<string>)
    requires AllFieldsProper(fields)
    ensures Text.Split(NUL, Rendered(fields)) == fields + [""]
  {
    if fields != [] {
      RenderedSplits(fields[1..]);
      Text.SplitAppend(NUL, fields[0], Rendered(fields[1..]));
      Text.SplitWithout(NUL, fields[0]);
    }
  }

  lemma {:induction false} RecordFieldsAreProper(rs: seq<Record>)
    requires forall i :: 0 <= i < |rs| ==> WellFormed(rs[i])
    ensures AllFieldsProper(AllFields(rs))
  {
    if rs != [] {
      RecordFieldsAreProper(rs[1..]);
    }
  }

  // ---- the parser of the change-aware selection ----

  datatype ChangeKind = Added | Modified | Deleted | Renamed(from: string) | Untracked

  datatype ChangedFile = ChangedFile(path: string, kind: ChangeKind)

  datatype ParseError =
    | NotUtf8
    | MissingPath(what: string, status: string)
    | UnsupportedStatus(status: string)
    | TruncatedRename
    | TruncatedPath

  /** No leading `./`; the separator is already `/` outside Windows. */
  function Normalize(path: string): string {
    if "./" <= path then path[2..] else path
  }

  function NonEmpty(parts: seq<string>): (r: seq<string>)
    ensures forall i :: 0 <= i < |r| ==> r[i] != "" && r[i] in parts
  {
    if parts == [] then [] else (if parts[0] == "" then [] else [parts[0]]) + NonEmpty(parts[1..])
  }

  function Kind(letter: char): ChangeKind {
    if letter == 'A' then Added else if letter == 'D' then Deleted else Modified
  }

  function What(letter: char): string {
    if letter == 'A' then "added"
    else if letter == 'M' || letter == 'T' then "modified"
    else if letter == 'D' then "deleted"
    else "changed"
  }

  /** What the loop reads from the chunks still ahead. */
  function FilesIn(chunks: seq<string>): Result<seq<ChangedFile>, ParseError>
    requires forall i :: 0 <= i < |chunks| ==> chunks[i] != ""
  {
    if chunks == [] then Ok([])
    else if TwoPaths(chunks[0]) then
      if |chunks| < 2 then Err(MissingPath("source", chunks[0]))
      else if |chunks| < 3 then Err(MissingPath("destination", chunks[0]))
      else
        var from, to := Normalize(chunks[1]), Normalize(chunks[2]);
        Prepended([ChangedFile(to, Renamed(from)), ChangedFile(from, Deleted)], FilesIn(chunks[3..]))
    else if |chunks| < 2 then Err(MissingPath(What(chunks[0][0]), chunks[0]))
    else Prepended([ChangedFile(Normalize(chunks[1]), Kind(chunks[0][0]))], FilesIn(chunks[2..]))
  }

  function Prepended<T, E>(xs: seq<T>, r: Result<seq<T>, E>): Result<seq<T>, E> {
    if r.Ok? then Ok(xs + r.value) else r
  }

  lemma PrependedTwice<T, E>(a: seq<T>, b: seq<T>, r: Result<seq<T>, E>)
    ensures Prepended(a, Prepended(b, r)) == Prepended(a + b, r)
  {
    if r.Ok? {
      assert a + (b + r.value) == a + b + r.value;
    }
  }

  lemma PrependedNothing<T, E>(xs: seq<T>, r: Result<seq<T>, E>)
    ensures Prepended([], r) == r && Prepended(xs, Ok([])) == Result<seq<T>, E>.Ok(xs)
  {
    if r.Ok? {
      assert [] + r.value == r.value;
    }
    assert xs + [] == xs;
  }

  function Parsed(stdout: string, valid: string -> bool): Result<seq<ChangedFile>, ParseError> {
    var chunks := NonEmpty(Text.Split(NUL, stdout));
    if exists i :: 0 <= i < |chunks| && !valid(chunks[i]) then Err(NotUtf8) else FilesIn(chunks)
  }

  method ParseNameStatus(stdout: string, valid: string -> bool) returns (r: Result<seq<ChangedFile>, ParseError>)
    ensures r == Parsed(stdout, valid)
  {
    var records := NonEmpty(Text.Split(NUL, stdout));
    if exists i :: 0 <= i < |records| && !valid(records[i]) {
      return Err(NotUtf8);
    }
    var files: seq<ChangedFile> := [];
    var next := 0;
    assert records[0..] == records;
    PrependedNothing(files, FilesIn(records));
    hide Normalize, Kind, What;
    while next < |records|
      invariant 0 <= next <= |records|
      invariant FilesIn(records) == Prepended(files, FilesIn(records[next..]))
    {
      var status, ahead := records[next], |records| - next - 1;
      ghost var rest := records[next..];
      var letter := status[0];
      if letter == 'R' || letter == 'C' {
        if ahead < 1 {
          return Err(MissingPath("source", status));
        }
        if ahead < 2 {
          return Err(MissingPath("destination", status));
        }
        var from, to := Normalize(records[next + 1]), Normalize(records[next + 2]);
        var both := [ChangedFile(to, Renamed(from)), ChangedFile(from, Deleted)];
        assert rest[3..] == records[next + 3..];
        PrependedTwice(files, both, FilesIn(records[next + 3..]));
        files := files + both;
        next := next + 3;
      } else {
        if ahead < 1 {
          return Err(MissingPath(What(letter), status));
        }
        var file := ChangedFile(Normalize(records[next + 1]), Kind(letter));
        assert rest[2..] == records[next + 2..];
        PrependedTwice(files, [file], FilesIn(records[next + 2..]));
        files := files + [file];
        next := next + 2;
      }
    }
    PrependedNothing(files, FilesIn([]));
    r := Ok(files);
  }

  /** Plain NUL-delimited paths, all of one kind. */
  function ParsedPaths(stdout: string, kind: ChangeKind, valid: string -> bool): Result<seq<ChangedFile>, ParseError> {
    var chunks := NonEmpty(Text.Split(NUL, stdout));
    if exists i :: 0 <= i < |chunks| && !valid(chunks[i]) then Err(NotUtf8)
    else Ok(seq(|chunks|, i requires 0 <= i < |chunks| => ChangedFile(Normalize(chunks[i]), kind)))
  }

  // ---- the parser of the documentation tools ----

  datatype Change = Change(status: string, oldPath: Option<string>, newPath: Option<string>)

  predicate Ascii(s: string) {
    forall i :: 0 <= i < |s| ==> s[i] < '\U{80}'
  }

  predicate Supported(status: string) {
    Ascii(status) && status != "" && status[0] in "ACDMRTUXB"
  }

  function ChangesIn(fields: seq<string>): Result<seq<Change>, ParseError> {
    if fields == [] then Ok([])
    else
      var status := fields[0];
      if !Supported(status) then Err(UnsupportedStatus(status))
      else if TwoPaths(status) then
        if |fields| < 3 then Err(TruncatedRename)
        else Prepended([Change(status, Some(fields[1]), Some(fields[2]))], ChangesIn(fields[3..]))
      else if |fields| < 2 then Err(TruncatedPath)
      else Prepended([ChangeOf(status, fields[1])], ChangesIn(fields[2..]))
  }

  function ChangeOf(status: string, path: string): Change
    requires status != ""
  {
    Change(status, if status[0] != 'A' then Some(path) else None, if status[0] != 'D' then Some(path) else None)
  }

  function Fields(raw: string): seq<string> {
    var parts := Text.Split(NUL, raw);
    if parts[|parts| - 1] == "" then parts[..|parts| - 1] else parts
  }

  method ParseChanges(raw: string) returns (r: Result<seq<Change>, ParseError>)
    ensures r == ChangesIn(Fields(raw))
  {
    var fields := Fields(raw);
    var changes: seq<Change> := [];
    var index := 0;
    assert fields[0..] == fields;
    PrependedNothing(changes, ChangesIn(fields));
    hide Supported, ChangeOf, Fields;
    while index < |fields|
      invariant 0 <= index <= |fields|
      invariant ChangesIn(fields) == Prepended(changes, ChangesIn(fields[index..]))
    {
      var status := fields[index];
      ghost var rest := fields[index..];
      index := index + 1;
      if !Supported(status) {
        return Err(UnsupportedStatus(status));
      }
      if status[0] in "RC" {
        if index + 1 >= |fields| {
          return Err(TruncatedRename);
        }
        var change := Change(status, Some(fields[index]), Some(fields[index + 1]));
        assert rest[3..] == fields[index + 2..];
        PrependedTwice(changes, [change], ChangesIn(fields[index + 2..]));
        changes := changes + [change];
        index := index + 2;
      } else {
        if index >= |fields| {
          return Err(TruncatedPath);
        }
        var change := ChangeOf(status, fields[index]);
        assert rest[2..] == fields[index + 1..];
        PrependedTwice(changes, [change], ChangesIn(fields[index + 1..]));
        changes := changes + [change];
        index := index + 1;
      }
    }
    PrependedNothing(changes, ChangesIn([]));
    r := Ok(changes);
  }

  // ---- both parsers read the records back ----

  /** The paths a record names: both ends of a rename or copy. */
  function PathsOf(r: Record): set<string> {
    if r.One? then {r.path} else {r.from, r.to}
  }

  function AllPaths(rs: seq<Record>): set<string> {
    if rs == [] then {} else PathsOf(rs[0]) + AllPaths(rs[1..])
  }

  /** The files one record stands for. */
  function FilesOf(r: Record): seq<ChangedFile>
    requires r.status != ""
  {
    if r.One? then [ChangedFile(Normalize(r.path), Kind(r.status[0]))]
    else [ChangedFile(Normalize(r.to), Renamed(Normalize(r.from))), ChangedFile(Normalize(r.from), Deleted)]
  }

  function AllFiles(rs: seq<Record>): seq<ChangedFile>
    requires forall i :: 0 <= i < |rs| ==> rs[i].status != ""
  {
    if rs == [] then [] else FilesOf(rs[0]) + AllFiles(rs[1..])
  }

  function ChangeFor(r: Record): Change
    requires r.status != ""
  {
    if r.One? then ChangeOf(r.status, r.path) else Change(r.status, Some(r.from), Some(r.to))
  }

  function AllChanges(rs: seq<Record>): seq<Change>
    requires forall i :: 0 <= i < |rs| ==> rs[i].status != ""
  {
    if rs == [] then [] else [ChangeFor(rs[0])] + AllChanges(rs[1..])
  }

  predicate AllWellFormed(rs: seq<Record>) {
    forall i :: 0 <= i < |rs| ==> WellFormed(rs[i])
  }

  lemma {:induction false} NonEmptyKeepsFields(fields: seq<string>)
    requires AllFieldsProper(fields)
    ensures NonEmpty(fields + [""]) == fields
  {
    if fields == [] {
      assert fields + [""] == [""] && [""][1..] == [];
    } else {
      NonEmptyKeepsFields(fields[1..]);
      assert (fields + [""])[1..] == fields[1..] + [""];
    }
  }

  lemma {:induction false} FilesInRecords(rs: seq<Record>)
    requires AllWellFormed(rs)
    requires forall i :: 0 <= i < |AllFields(rs)| ==> AllFields(rs)[i] != ""
    ensures FilesIn(AllFields(rs)) == Ok(AllFiles(rs))
  {
    if rs != [] {
      var first, rest := FieldsOf(rs[0]), AllFields(rs[1..]);
      assert WellFormed(rs[0]) && AllFields(rs)[|first|..] == rest;
      assert forall i :: 0 <= i < |rest| ==> rest[i] == AllFields(rs)[|first| + i];
      FilesInRecords(rs[1..]);
    }
  }

  /** Every record list is read back, each path with its kind and both ends of renames and copies, unless some
      field is not UTF-8, which fails the whole list. */
  lemma ParsedRecords(rs: seq<Record>, valid: string -> bool)
    requires AllWellFormed(rs)
    ensures Parsed(Rendered(AllFields(rs)), valid) ==
            if forall i :: 0 <= i < |AllFields(rs)| ==> valid(AllFields(rs)[i]) then Ok(AllFiles(rs)) else Err(NotUtf8)
  {
    RecordFieldsAreProper(rs);
    RenderedSplits(AllFields(rs));
    NonEmptyKeepsFields(AllFields(rs));
    FilesInRecords(rs);
  }

  lemma {:induction false} ChangesInRecords(rs: seq<Record>)
    requires AllWellFormed(rs) && forall i :: 0 <= i < |rs| ==> Supported(rs[i].status)
    ensures ChangesIn(AllFields(rs)) == Ok(AllChanges(rs))
  {
    if rs != [] {
      var first, rest := FieldsOf(rs[0]), AllFields(rs[1..]);
      assert WellFormed(rs[0]) && AllFields(rs)[|first|..] == rest;
      hide Supported;
      ChangesInOneMore(rs[0], rest);
      ChangesInRecords(rs[1..]);
    }
  }

  /** The documentation tools read back one change per record. */
  lemma ChangesReadBack(rs: seq<Record>)
    requires AllWellFormed(rs) && forall i :: 0 <= i < |rs| ==> Supported(rs[i].status)
    ensures ChangesIn(Fields(Rendered(AllFields(rs)))) == Ok(AllChanges(rs))
  {
    RecordFieldsAreProper(rs);
    RenderedSplits(AllFields(rs));
    assert (AllFields(rs) + [""])[..|AllFields(rs)|] == AllFields(rs);
    ChangesInRecords(rs);
  }

  function Normalized(paths: set<string>): set<string> {
    set p | p in paths :: Normalize(p)
  }

  function FilePaths(files: seq<ChangedFile>): set<string> {
    set f | f in files :: f.path
  }

  function ChangePaths(changes: seq<Change>): set<string> {
    (set c | c in changes && c.oldPath.Some? :: c.oldPath.value) +
    (set c | c in changes && c.newPath.Some? :: c.newPath.value)
  }

  /** On every record list both parsers report the same paths, those of the records; the selection side drops a
      leading `./`, which git does not write. */
  lemma ParsersAgreeOnPaths(rs: seq<Record>, valid: string -> bool)
    requires AllWellFormed(rs) && forall i :: 0 <= i < |AllFields(rs)| ==> valid(AllFields(rs)[i])
    requires forall i :: 0 <= i < |rs| ==> Supported(rs[i].status)
    ensures var out := Rendered(AllFields(rs));
            && Parsed(out, valid).Ok? && ChangesIn(Fields(out)).Ok?
            && ChangePaths(ChangesIn(Fields(out)).value) == AllPaths(rs)
            && FilePaths(Parsed(out, valid).value) == Normalized(AllPaths(rs))
  {
    ParsedRecords(rs, valid);
    ChangesReadBack(rs);
    FilesHavePaths(rs);
    ChangesHavePaths(rs);
  }

  lemma {:induction false} FilesHavePaths(rs: seq<Record>)
    requires AllWellFormed(rs)
    ensures FilePaths(AllFiles(rs)) == Normalized(AllPaths(rs))
  {
    if rs != [] {
      FilesHavePaths(rs[1..]);
      assert FilePaths(AllFiles(rs)) == FilePaths(FilesOf(rs[0])) + FilePaths(AllFiles(rs[1..]));
      if rs[0].One? {
        assert FilePaths(FilesOf(rs[0])) == {Normalize(rs[0].path)};
      } else {
        assert FilesOf(rs[0])[0].path == Normalize(rs[0].to) && FilesOf(rs[0])[1].path == Normalize(rs[0].from);
        assert FilePaths(FilesOf(rs[0])) == {Normalize(rs[0].from), Normalize(rs[0].to)};
      }
    }
  }

  lemma {:induction false} ChangesHavePaths(rs: seq<Record>)
    requires AllWellFormed(rs)
    ensures ChangePaths(AllChanges(rs)) == AllPaths(rs)
  {
    if rs != [] {
      ChangesHavePaths(rs[1..]);
      var first, rest := ChangeFor(rs[0]), AllChanges(rs[1..]);
      assert AllChanges(rs) == [first] + rest && WellFormed(rs[0]);
      MoreChangePaths([first], rest);
      OneChangePaths(first);
      hide ChangePaths;
    }
  }

  lemma MoreChangePaths(a: seq<Change>, b: seq<Change>)
    ensures ChangePaths(a + b) == ChangePaths(a) + ChangePaths(b)
  {
  }

  lemma OneChangePaths(c: Change)
    ensures ChangePaths([c]) == (if c.oldPath.Some? then {c.oldPath.value} else {}) +
                                (if c.newPath.Some? then {c.newPath.value} else {})
  {
    assert forall d :: d in [c] <==> d == c;
  }

  /** Plain paths are read back as well. */
  lemma ParsedPathList(paths: seq<string>, kind: ChangeKind, valid: string -> bool)
    requires AllFieldsProper(paths) && forall i :: 0 <= i < |paths| ==> valid(paths[i])
    ensures var r := ParsedPaths(Rendered(paths), kind, valid);
            && r.Ok? && |r.value| == |paths|
            && forall i :: 0 <= i < |paths| ==> r.value[i] == ChangedFile(Normalize(paths[i]), kind)
  {
    RenderedSplits(paths);
    NonEmptyKeepsFields(paths);
  }

  /** What the files and the change of one record say of it. */
  lemma RecordIsTold(r: Record)
    requires WellFormed(r)
    ensures match r
            case One(status, path) =>
              && |FilesOf(r)| == 1 && FilesOf(r)[0].path == Normalize(path)
              && (FilesOf(r)[0].kind == Added <==> status[0] == 'A')
              && (FilesOf(r)[0].kind == Deleted <==> status[0] == 'D')
              && FilesOf(r)[0].kind in {Added, Deleted, Modified}
              && ChangeFor(r).oldPath == (if status[0] == 'A' then None else Some(path))
              && ChangeFor(r).newPath == (if status[0] == 'D' then None else Some(path))
            case Two(status, from, to) =>
              && FilesOf(r) == [ChangedFile(Normalize(to), Renamed(Normalize(from))), ChangedFile(Normalize(from), Deleted)]
              && ChangeFor(r).oldPath == Some(from) && ChangeFor(r).newPath == Some(to)
    ensures ChangeFor(r).status == r.status
  {
  }

  /** A list that breaks off within a record: after its status, or after the first path of a rename or copy. */
  predicate BreaksOff(tail: seq<string>) {
    AllFieldsProper(tail) && (|tail| == 1 || (|tail| == 2 && TwoPaths(tail[0])))
  }

  lemma FilesInOneMore(r: Record, rest: seq<string>)
    requires WellFormed(r) && forall i :: 0 <= i < |rest| ==> rest[i] != ""
    ensures forall i :: 0 <= i < |FieldsOf(r) + rest| ==> (FieldsOf(r) + rest)[i] != ""
    ensures FilesIn(FieldsOf(r) + rest) == Prepended(FilesOf(r), FilesIn(rest))
  {
    assert (FieldsOf(r) + rest)[|FieldsOf(r)|..] == rest;
  }

  lemma ChangesInOneMore(r: Record, rest: seq<string>)
    requires WellFormed(r) && Supported(r.status)
    ensures ChangesIn(FieldsOf(r) + rest) == Prepended([ChangeFor(r)], ChangesIn(rest))
  {
    assert (FieldsOf(r) + rest)[|FieldsOf(r)|..] == rest;
    hide Supported;
  }

  lemma {:induction false} FilesInBrokenRecords(rs: seq<Record>, tail: seq<string>)
    requires AllWellFormed(rs) && BreaksOff(tail)
    requires forall i :: 0 <= i < |AllFields(rs) + tail| ==> (AllFields(rs) + tail)[i] != ""
    ensures var r := FilesIn(AllFields(rs) + tail);
            && r.Err? && r.error.MissingPath? && r.error.status == tail[0]
            && (TwoPaths(tail[0]) ==> r.error.what == if |tail| == 1 then "source" else "destination")
  {
    var fields := AllFields(rs) + tail;
    if rs == [] {
      assert fields == tail;
    } else {
      hide FilesIn, BreaksOff;
      var first, rest := FieldsOf(rs[0]), AllFields(rs[1..]) + tail;
      assert WellFormed(rs[0]) && fields == first + rest;
      assert forall i :: 0 <= i < |rest| ==> rest[i] == fields[|first| + i];
      FilesInOneMore(rs[0], rest);
      FilesInBrokenRecords(rs[1..], tail);
    }
  }

  lemma {:induction false} ChangesInBrokenRecords(rs: seq<Record>, tail: seq<string>)
    requires AllWellFormed(rs) && forall i :: 0 <= i < |rs| ==> Supported(rs[i].status)
    requires BreaksOff(tail) || (tail != [] && !Supported(tail[0]))
    ensures ChangesIn(AllFields(rs) + tail) ==
            Err(if !Supported(tail[0]) then UnsupportedStatus(tail[0])
                else if TwoPaths(tail[0]) then TruncatedRename else TruncatedPath)
  {
    var fields := AllFields(rs) + tail;
    if rs == [] {
      assert fields == tail;
    } else {
      hide Supported, ChangesIn, BreaksOff;
      var rest := AllFields(rs[1..]) + tail;
      assert WellFormed(rs[0]) && fields == FieldsOf(rs[0]) + rest;
      ChangesInOneMore(rs[0], rest);
      ChangesInBrokenRecords(rs[1..], tail);
    }
  }

  lemma FieldsAreProper(rs: seq<Record>, tail: seq<string>)
    requires AllWellFormed(rs) && AllFieldsProper(tail)
    ensures AllFieldsProper(AllFields(rs) + tail)
    ensures NonEmpty(Text.Split(NUL, Rendered(AllFields(rs) + tail))) == AllFields(rs) + tail
    ensures Fields(Rendered(AllFields(rs) + tail)) == AllFields(rs) + tail
  {
    var fields := AllFields(rs) + tail;
    RecordFieldsAreProper(rs);
    assert AllFieldsProper(fields);
    RenderedSplits(fields);
    NonEmptyKeepsFields(fields);
    assert (fields + [""])[..|fields|] == fields;
  }

  /** Output that breaks off within a record is refused, whatever came before. */
  lemma BrokenRecordsAreRefused(rs: seq<Record>, tail: seq<string>, valid: string -> bool)
    requires AllWellFormed(rs) && BreaksOff(tail) && forall s :: s in AllFields(rs) + tail ==> valid(s)
    ensures var r := Parsed(Rendered(AllFields(rs) + tail), valid);
            && r.Err? && r.error.MissingPath? && r.error.status == tail[0]
            && (TwoPaths(tail[0]) ==> r.error.what == if |tail| == 1 then "source" else "destination")
  {
    hide FilesIn, Fields, Rendered, AllFields, NonEmpty, TwoPaths;
    FieldsAreProper(rs, tail);
    FilesInBrokenRecords(rs, tail);
  }

  /** By the documentation tools as well; they also refuse a status that they do not know. */
  lemma BrokenChangesAreRefused(rs: seq<Record>, tail: seq<string>)
    requires AllWellFormed(rs) && forall i :: 0 <= i < |rs| ==> Supported(rs[i].status)
    requires AllFieldsProper(tail) && (BreaksOff(tail) || (tail != [] && !Supported(tail[0])))
    ensures ChangesIn(Fields(Rendered(AllFields(rs) + tail))) ==
            Err(if !Supported(tail[0]) then UnsupportedStatus(tail[0])
                else if TwoPaths(tail[0]) then TruncatedRename else TruncatedPath)
  {
    hide Supported, ChangesIn, Fields, Rendered, AllFields, TwoPaths;
    FieldsAreProper(rs, tail);
    ChangesInBrokenRecords(rs, tail);
  }

  /** A path list with a path that is not UTF-8 is refused as a whole. */
  lemma InvalidPathsAreRefused(paths: seq<string>, kind: ChangeKind, valid: string -> bool)
    requires AllFieldsProper(paths) && exists i :: 0 <= i < |paths| && !valid(paths[i])
    ensures ParsedPaths(Rendered(paths), kind, valid) == Err(NotUtf8)
  {
    RenderedSplits(paths);
    NonEmptyKeepsFields(paths);
  }

  /** Normalising drops one leading `./` and nothing else. */
  lemma NormalizeIs(path: string)
    ensures Normalize("./" + path) == path
    ensures (|path| >= 2 && path[0] == '.' && path[1] == '/') || Normalize(path) == path
  {
  }
}

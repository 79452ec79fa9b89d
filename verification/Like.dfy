/** Finding struck signatures by prefix through SQL LIKE. */
module Like {
  import opened Callers
  import opened Strikes
  import opened StrikeHistory
  import Text

  // ---- the pattern ----

  /** Replaces one character by a string throughout, as one pass over the whole text. */
  function Replaced(s: string, from: char, to: string): string {
    if s == [] then []
    else (if s[0] == from then to else [s[0]]) + Replaced(s[1..], from, to)
  }

  function Escaped(prefix: string): string {
    Replaced(Replaced(Replaced(prefix, '\\', "\\\\"), '%', "\\%"), '_', "\\_")
  }

  // ---- SQLite's LIKE with ESCAPE '\' ----

  function Lower(c: char): char {
    if 'A' <= c <= 'Z' then 'a' + (c - 'A') else c
  }

  /** LIKE compares ASCII letters without regard to case. */
  predicate Same(a: char, b: char) {
    Lower(a) == Lower(b)
  }

  predicate Matches(pattern: string, s: string)
    decreases |pattern| + |s|
  {
    if pattern == [] then s == []
    else if pattern[0] == '%' then Matches(pattern[1..], s) || (s != [] && Matches(pattern, s[1..]))
    else if pattern[0] == '\\' then
      |pattern| > 1 && s != [] && Same(pattern[1], s[0]) && Matches(pattern[2..], s[1..])
    else s != [] && (pattern[0] == '_' || Same(pattern[0], s[0])) && Matches(pattern[1..], s[1..])
  }

  ghost predicate StartsWithFolded(s: string, prefix: string) {
    |prefix| <= |s| && forall i :: 0 <= i < |prefix| ==> Same(prefix[i], s[i])
  }

  // ---- escaping undoes the wildcards ----

  lemma {:induction false} ReplacedAppend(a: string, b: string, from: char, to: string)
    ensures Replaced(a + b, from, to) == Replaced(a, from, to) + Replaced(b, from, to)
  {
    if a == [] {
      assert a + b == b;
    } else {
      assert (a + b)[1..] == a[1..] + b;
      ReplacedAppend(a[1..], b, from, to);
    }
  }

  lemma ReplacedOne(c: char, from: char, to: string)
    ensures Replaced([c], from, to) == if c == from then to else [c]
  {
    assert [c][1..] == [];
  }

  /** The three passes together escape each character on its own: no pass touches what another wrote. */
  lemma EscapedFirst(c: char, rest: string)
    ensures Escaped([c] + rest) == (if c in "\\%_" then ['\\', c] else [c]) + Escaped(rest)
  {
    var s1 := Replaced([c], '\\', "\\\\");
    var s2 := Replaced(s1, '%', "\\%");
    ReplacedOne(c, '\\', "\\\\");
    ReplacedAppend([c], rest, '\\', "\\\\");
    ReplacedAppend(s1, Replaced(rest, '\\', "\\\\"), '%', "\\%");
    ReplacedAppend(s2, Replaced(Replaced(rest, '\\', "\\\\"), '%', "\\%"), '_', "\\_");
    PairReplaced('\\', c);
    if c != '\\' {
      ReplacedOne(c, '%', "\\%");
      ReplacedOne(c, '_', "\\_");
      PairReplaced('\\', '%');
    }
  }

  lemma PairReplaced(a: char, b: char)
    ensures forall from, to :: from != a && from != b ==> Replaced([a, b], from, to) == [a, b]
  {
    forall from: char, to: string | from != a && from != b
      ensures Replaced([a, b], from, to) == [a, b]
    {
      assert [a, b][1..] == [b];
      ReplacedOne(b, from, to);
    }
  }

  lemma {:induction false} PercentMatchesAll(s: string)
    ensures Matches("%", s)
  {
    if s != [] {
      PercentMatchesAll(s[1..]);
    }
  }

  /** The escaped prefix followed by `%` matches exactly the texts that start with the prefix, up to the case of
      ASCII letters, for every prefix and text. */
  lemma {:induction false} EscapedPrefixMatches(prefix: string, s: string)
    ensures Matches(Escaped(prefix) + "%", s) <==> StartsWithFolded(s, prefix)
    decreases prefix
  {
    if prefix == [] {
      assert Escaped(prefix) + "%" == "%";
      PercentMatchesAll(s);
    } else {
      var c, rest := prefix[0], prefix[1..];
      assert prefix == [c] + rest;
      EscapedFirst(c, rest);
      var pattern, tail := Escaped(prefix) + "%", Escaped(rest) + "%";
      if c in "\\%_" {
        assert pattern[..2] == ['\\', c] && pattern[2..] == tail;
      } else {
        assert pattern[0] == c && pattern[1..] == tail;
      }
      hide Escaped, Same;
      if s != [] {
        EscapedPrefixMatches(rest, s[1..]);
        StartsStep(s, prefix);
      }
    }
  }

  lemma StartsStep(s: string, prefix: string)
    requires prefix != [] && s != []
    ensures StartsWithFolded(s, prefix) <==> Same(prefix[0], s[0]) && StartsWithFolded(s[1..], prefix[1..])
  {
    if Same(prefix[0], s[0]) && StartsWithFolded(s[1..], prefix[1..]) {
      forall i | 0 <= i < |prefix|
        ensures Same(prefix[i], s[i])
      {
        if i > 0 {
          assert Same(prefix[1..][i - 1], s[1..][i - 1]);
        }
      }
    }
    if StartsWithFolded(s, prefix) {
      assert forall i :: 0 <= i < |prefix| - 1 ==> prefix[1..][i] == prefix[i + 1] && s[1..][i] == s[i + 1];
    }
  }

  // ---- literal or not ----

  predicate Letter(c: char) {
    'a' <= c <= 'z' || 'A' <= c <= 'Z'
  }

  function Swapped(c: char): char
    requires Letter(c)
  {
    if c <= 'Z' then 'a' + (c - 'A') else 'A' + (c - 'a')
  }

  ghost predicate MatchesLiterally(prefix: string) {
    forall s :: Matches(Escaped(prefix) + "%", s) <==> prefix <= s
  }

  /** The match is literal, as its documentation says, exactly for prefixes without ASCII letters. */
  lemma LiteralIff(prefix: string)
    ensures MatchesLiterally(prefix) <==> forall i :: 0 <= i < |prefix| ==> !Letter(prefix[i])
  {
    if i :| 0 <= i < |prefix| && Letter(prefix[i]) {
      var s := prefix[i := Swapped(prefix[i])];
      EscapedPrefixMatches(prefix, s);
      assert !(prefix <= s) by {
        assert prefix[i] != s[i];
      }
      assert Matches(Escaped(prefix) + "%", s);
    } else {
      forall s
        ensures Matches(Escaped(prefix) + "%", s) <==> prefix <= s
      {
        EscapedPrefixMatches(prefix, s);
        hide Matches, Escaped;
        if StartsWithFolded(s, prefix) {
          forall i | 0 <= i < |prefix|
            ensures prefix[i] == s[i]
          {
            assert Same(prefix[i], s[i]) && !Letter(prefix[i]);
          }
        }
      }
    }
  }

  // ---- the query ----

  predicate Struck(db: Db, scope: string, threshold: int, signature: string) {
    (signature, scope) in db.strikes && db.strikes[(signature, scope)].count >= threshold
  }

  /** The WHERE clause: its three conditions on one row. */
  function Hits(db: Db, scope: string, pattern: string, threshold: int): set<string> {
    set pair | pair in db.strikes && pair.1 == scope && db.strikes[pair].count >= threshold &&
               Matches(pattern, pair.0) :: pair.0
  }

  lemma HitsAre(db: Db, scope: string, prefix: string, threshold: int)
    ensures forall s :: s in Hits(db, scope, Escaped(prefix) + "%", threshold) <==>
                        Struck(db, scope, threshold, s) && StartsWithFolded(s, prefix)
  {
    hide Matches, StartsWithFolded, Escaped;
    forall s
      ensures s in Hits(db, scope, Escaped(prefix) + "%", threshold) <==>
              Struck(db, scope, threshold, s) && StartsWithFolded(s, prefix)
    {
      EscapedPrefixMatches(prefix, s);
      if Struck(db, scope, threshold, s) {
        assert (s, scope) in db.strikes;
      }
    }
  }

  /** The signatures of a scope at or over the threshold that start with the prefix up to ASCII case, each once,
      in order. */
  method StruckSignatures(db: Db, scope: string, prefix: string, threshold: int) returns (r: seq<string>)
    ensures Text.StrictlySortedBy(Text.Self, r)
    ensures forall s :: s in r <==> Struck(db, scope, threshold, s) && StartsWithFolded(s, prefix)
  {
    var found := Hits(db, scope, Escaped(prefix) + "%", threshold);
    HitsAre(db, scope, prefix, threshold);
    r := Text.SortedKeys(found);
  }

  const FAIL_FAST_STRIKES := 3

  const SENSOR_PREFIX := "sensor:"

  /** The configured sensors to halt or quarantine, in their configured order. */
  method StruckSensors(db: Db, names: seq<string>, scope: string) returns (r: seq<string>)
    ensures r == Kept(names, db, scope)
  {
    var struck := StruckSignatures(db, scope, SENSOR_PREFIX, FAIL_FAST_STRIKES);
    var bare := set s | s in struck && SENSOR_PREFIX <= s :: s[|SENSOR_PREFIX|..];
    r := [];
    for i := 0 to |names|
      invariant r == Kept(names[..i], db, scope)
    {
      var signature := SENSOR_PREFIX + names[i];
      assert names[..i + 1][..i] == names[..i];
      assert StartsWithFolded(signature, SENSOR_PREFIX);
      assert names[i] in bare <==> signature in struck by {
        assert signature[|SENSOR_PREFIX|..] == names[i];
        if names[i] in bare {
          var s :| s in struck && SENSOR_PREFIX <= s && s[|SENSOR_PREFIX|..] == names[i];
          assert s == SENSOR_PREFIX + s[|SENSOR_PREFIX|..];
        }
      }
      if names[i] in bare {
        r := r + [names[i]];
      }
    }
    assert names[..|names|] == names;
  }

  function Kept(names: seq<string>, db: Db, scope: string): (r: seq<string>)
    ensures forall n :: n in r <==> n in names && Struck(db, scope, FAIL_FAST_STRIKES, SENSOR_PREFIX + n)
  {
    if names == [] then []
    else
      var n := names[|names| - 1];
      assert names == names[..|names| - 1] + [n];
      Kept(names[..|names| - 1], db, scope) +
      if Struck(db, scope, FAIL_FAST_STRIKES, SENSOR_PREFIX + n) then [n] else []
  }

  /** End to end: however calls interleave, a configured sensor is struck in a workstream exactly when at least
      its last three marks there are all failures. */
  lemma StruckMeansThreeInARow(calls: seq<Action>, schedule: Schedule, names: seq<string>, scope: string, name: string)
    requires name in names
    ensures var w := Reached(calls, schedule);
            && (forall j :: 0 <= j < |w.commits| ==> w.commits[j] < |calls|)
            && (name in Kept(names, w.state, scope) <==>
                  Streak(Marks(Order(calls, w.commits), (SENSOR_PREFIX + name, scope))) >= FAIL_FAST_STRIKES)
  {
    StrikesCountTheStreak(calls, schedule, (SENSOR_PREFIX + name, scope));
  }

  lemma NothingKept(db: Db, scope: string)
    ensures Kept([], db, scope) == []
  {
  }

  lemma OneMoreName(names: seq<string>, db: Db, scope: string) returns (struck: bool)
    requires names != []
    ensures var n := |names| - 1;
            && struck == Struck(db, scope, FAIL_FAST_STRIKES, SENSOR_PREFIX + names[n])
            && Kept(names, db, scope) == Kept(names[..n], db, scope) + if struck then [names[n]] else []
  {
    struck := Struck(db, scope, FAIL_FAST_STRIKES, SENSOR_PREFIX + names[|names| - 1]);
  }

  /** `at` lists, in order, the positions of the configured sensors that are struck. */
  lemma {:induction false} KeptInOrder(names: seq<string>, db: Db, scope: string) returns (at: seq<nat>)
    ensures |at| == |Kept(names, db, scope)|
    ensures forall k :: 0 <= k < |at| ==> at[k] < |names| && Kept(names, db, scope)[k] == names[at[k]]
    ensures forall j, k :: 0 <= j < k < |at| ==> at[j] < at[k]
    ensures forall i: nat :: i < |names| && Struck(db, scope, FAIL_FAST_STRIKES, SENSOR_PREFIX + names[i]) ==> i in at
  {
    hide Struck, Kept;
    if names == [] {
      at := [];
      NothingKept(db, scope);
    } else {
      var n := |names| - 1;
      at := KeptInOrder(names[..n], db, scope);
      var struck := OneMoreName(names, db, scope);
      if struck {
        at := at + [n];
      }
    }
  }
}

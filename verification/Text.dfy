/** Strings as the modules share them: order, sorting, splitting and decimal numbers. */
module Text {
  import opened Wrappers

  // ---- lexicographic order by code point ----

  predicate Less(a: string, b: string) {
    if b == [] then false
    else if a == [] then true
    else a[0] < b[0] || (a[0] == b[0] && Less(a[1..], b[1..]))
  }

  lemma {:induction false} LessIsTransitive(a: string, b: string, c: string)
    requires Less(a, b) && Less(b, c)
    ensures Less(a, c)
  {
    if a != [] && a[0] == b[0] == c[0] {
      LessIsTransitive(a[1..], b[1..], c[1..]);
    }
  }

  lemma {:induction false} LessIsTotal(a: string, b: string)
    ensures Less(a, b) || a == b || Less(b, a)
    ensures !(Less(a, b) && Less(b, a)) && !Less(a, a)
  {
    if a != [] && b != [] && a[0] == b[0] {
      LessIsTotal(a[1..], b[1..]);
      LessIsTotal(a[1..], a[1..]);
      assert a == [a[0]] + a[1..] && b == [b[0]] + b[1..];
    } else if a != [] {
      LessIsTotal(a[1..], a[1..]);
    }
  }

  predicate AtMost(a: string, b: string) {
    a == b || Less(a, b)
  }

  // ---- stable sort by a string key ----

  ghost predicate HasKey<T>(key: T -> string, xs: seq<T>, k: string) {
    exists x :: x in xs && key(x) == k
  }

  ghost predicate SortedBy<T>(key: T -> string, xs: seq<T>) {
    forall i, j :: 0 <= i < j < |xs| ==> AtMost(key(xs[i]), key(xs[j]))
  }

  /** Places `x` before the first element with a greater key. */
  function Insert<T>(key: T -> string, x: T, xs: seq<T>): (r: seq<T>)
    ensures multiset(r) == multiset(xs) + multiset{x}
    ensures |r| == |xs| + 1
  {
    if xs == [] then [x]
    else
      assert xs == [xs[0]] + xs[1..];
      if Less(key(x), key(xs[0])) then [x] + xs
      else [xs[0]] + Insert(key, x, xs[1..])
  }

  function Sorted<T>(key: T -> string, xs: seq<T>): (r: seq<T>)
    ensures multiset(r) == multiset(xs) && |r| == |xs|
  {
    if xs == [] then []
    else
      assert xs == xs[..|xs| - 1] + [xs[|xs| - 1]];
      Insert(key, xs[|xs| - 1], Sorted(key, xs[..|xs| - 1]))
  }

  lemma {:induction false} InsertKeepsSorted<T>(key: T -> string, x: T, xs: seq<T>)
    requires SortedBy(key, xs)
    ensures SortedBy(key, Insert(key, x, xs))
  {
    if xs != [] {
      var r := Insert(key, x, xs);
      LessIsTotal(key(x), key(xs[0]));
      if Less(key(x), key(xs[0])) {
        forall j | 0 <= j < |xs|
          ensures AtMost(key(x), key(xs[j]))
        {
          if j > 0 && Less(key(xs[0]), key(xs[j])) {
            LessIsTransitive(key(x), key(xs[0]), key(xs[j]));
          }
        }
      } else {
        var rest := Insert(key, x, xs[1..]);
        InsertKeepsSorted(key, x, xs[1..]);
        forall j | 0 <= j < |rest|
          ensures AtMost(key(xs[0]), key(rest[j]))
        {
          assert rest[j] in multiset(rest);
          assert rest[j] == x || rest[j] in xs[1..];
        }
        assert r == [xs[0]] + rest;
      }
    }
  }

  lemma {:induction false} SortedIsSorted<T>(key: T -> string, xs: seq<T>)
    ensures SortedBy(key, Sorted(key, xs))
  {
    if xs != [] {
      SortedIsSorted(key, xs[..|xs| - 1]);
      InsertKeepsSorted(key, xs[|xs| - 1], Sorted(key, xs[..|xs| - 1]));
    }
  }

  lemma SortedKeepsElements<T>(key: T -> string, xs: seq<T>)
    ensures forall x :: x in Sorted(key, xs) <==> x in xs
  {
    var r := Sorted(key, xs);
    hide Sorted;
    assert forall x :: x in r <==> x in multiset(r);
    assert forall x :: x in xs <==> x in multiset(xs);
  }

  /** Sorting and then dropping repeats: a strictly sorted list with the keys of the original. */
  lemma SortedDeduped<T>(key: T -> string, xs: seq<T>)
    ensures var r := Deduped(key, Sorted(key, xs));
            && |r| <= |xs| && StrictlySortedBy(key, r)
            && (forall x :: x in r ==> x in xs)
            && (forall x :: x in xs ==> HasKey(key, r, key(x)))
  {
    var sorted := Sorted(key, xs);
    SortedKeepsElements(key, xs);
    SortedIsSorted(key, xs);
    hide Sorted, SortedBy, StrictlySortedBy;
    DedupedIsStrict(key, sorted);
    DedupedKeepsKeys(key, sorted);
    hide Deduped, HasKey;
    var r := Deduped(key, sorted);
    forall x | x in r
      ensures x in xs
    {
      assert x in sorted;
    }
  }

  /** Keeps the first of each run of equal keys. */
  function Deduped<T>(key: T -> string, xs: seq<T>): (r: seq<T>)
    ensures |r| <= |xs|
  {
    if xs == [] then []
    else
      var n := |xs| - 1;
      var done := Deduped(key, xs[..n]);
      if n > 0 && key(xs[n - 1]) == key(xs[n]) then done else done + [xs[n]]
  }

  ghost predicate StrictlySortedBy<T>(key: T -> string, xs: seq<T>) {
    forall i, j :: 0 <= i < j < |xs| ==> Less(key(xs[i]), key(xs[j]))
  }

  lemma {:induction false} DedupedLast<T>(key: T -> string, xs: seq<T>)
    requires xs != []
    ensures var r := Deduped(key, xs); r != [] && key(r[|r| - 1]) == key(xs[|xs| - 1])
  {
    if |xs| > 1 {
      DedupedLast(key, xs[..|xs| - 1]);
    }
  }

  /** Dropping repeats from a sorted list leaves a strictly sorted one. */
  lemma {:induction false} DedupedIsStrict<T>(key: T -> string, xs: seq<T>)
    requires SortedBy(key, xs)
    ensures StrictlySortedBy(key, Deduped(key, xs))
  {
    if |xs| > 1 {
      var n := |xs| - 1;
      DedupedIsStrict(key, xs[..n]);
      DedupedLast(key, xs[..n]);
      var done := Deduped(key, xs[..n]);
      if key(xs[n - 1]) != key(xs[n]) {
        StrictSnoc(key, done, xs[n]);
      }
    }
  }

  lemma StrictSnoc<T>(key: T -> string, xs: seq<T>, x: T)
    requires StrictlySortedBy(key, xs) && xs != [] && Less(key(xs[|xs| - 1]), key(x))
    ensures StrictlySortedBy(key, xs + [x])
  {
    forall i | 0 <= i < |xs|
      ensures Less(key(xs[i]), key(x))
    {
      if i < |xs| - 1 {
        LessIsTransitive(key(xs[i]), key(xs[|xs| - 1]), key(x));
      }
    }
  }

  /** Nothing is invented, and every key keeps a representative. */
  lemma {:induction false} DedupedKeepsKeys<T>(key: T -> string, xs: seq<T>)
    ensures forall x :: x in Deduped(key, xs) ==> x in xs
    ensures forall x :: x in xs ==> HasKey(key, Deduped(key, xs), key(x))
  {
    if xs != [] {
      var n := |xs| - 1;
      DedupedKeepsKeys(key, xs[..n]);
      var done, r := Deduped(key, xs[..n]), Deduped(key, xs);
      assert xs == xs[..n] + [xs[n]];
      assert HasKey(key, r, key(xs[n])) by {
        if n > 0 && key(xs[n - 1]) == key(xs[n]) {
          DedupedLast(key, xs[..n]);
          assert done[|done| - 1] in r;
        } else {
          assert xs[n] in r;
        }
      }
      forall x | x in xs[..n]
        ensures HasKey(key, r, key(x))
      {
        assert HasKey(key, done, key(x));
        assert forall y :: y in done ==> y in r;
      }
    }
  }

  function Self(s: string): string {
    s
  }

  lemma NoRepeats(xs: seq<string>)
    requires forall x :: x in multiset(xs) ==> multiset(xs)[x] == 1
    requires SortedBy(Self, xs)
    ensures StrictlySortedBy(Self, xs)
  {
    forall i, j | 0 <= i < j < |xs|
      ensures Less(xs[i], xs[j])
    {
      assert AtMost(Self(xs[i]), Self(xs[j]));
      assert xs[i] != xs[j] by {
        assert xs == xs[..j] + xs[j..];
        assert multiset(xs) == multiset(xs[..j]) + multiset(xs[j..]);
        assert multiset(xs[..j])[xs[i]] >= 1 by {
          assert xs[..j][i] == xs[i];
        }
        assert xs[i] in multiset(xs) && multiset(xs[j..])[xs[i]] == 0;
        assert xs[j..][0] == xs[j];
      }
    }
  }

  /** The elements of a set in order, each once. */
  method SortedKeys(keys: set<string>) returns (r: seq<string>)
    ensures StrictlySortedBy(Self, r)
    ensures forall s :: s in r <==> s in keys
  {
    hide SortedBy, StrictlySortedBy, Insert;
    var todo := keys;
    r := [];
    assert SortedBy(Self, r) by {
      SortedIsSorted(Self, []);
    }
    while todo != {}
      invariant todo <= keys && multiset(r) == multiset(keys - todo)
      invariant SortedBy(Self, r)
      decreases |todo|
    {
      var s :| s in todo;
      InsertKeepsSorted(Self, s, r);
      assert keys - (todo - {s}) == (keys - todo) + {s};
      r := Insert(Self, s, r);
      todo := todo - {s};
    }
    assert keys - todo == keys;
    NoRepeats(r);
    assert forall s :: s in r <==> s in multiset(r);
  }

  // ---- splitting a list in two ----

  /** `xs` is the interleaving of `a` and `b` in which `keep` says where each element comes from. */
  ghost predicate Interleaves(keep: seq<bool>, a: seq<string>, b: seq<string>, xs: seq<string>) {
    if xs == [] then keep == [] && a == [] && b == []
    else
      var n := |xs| - 1;
      |keep| == |xs| &&
      if keep[n] then a != [] && a[|a| - 1] == xs[n] && Interleaves(keep[..n], a[..|a| - 1], b, xs[..n])
      else b != [] && b[|b| - 1] == xs[n] && Interleaves(keep[..n], a, b[..|b| - 1], xs[..n])
  }

  // ---- splitting ----

  /** The pieces of `s` between occurrences of `sep`, at least one. */
  function Split(sep: char, s: string): (parts: seq<string>)
    ensures parts != [] && forall p :: p in parts ==> sep !in p
  {
    if s == [] then [[]]
    else
      var rest := Split(sep, s[1..]);
      if s[0] == sep then [[]] + rest else [[s[0]] + rest[0]] + rest[1..]
  }

  /** Components joined by a separator; the inverse of `Split` on components without it. */
  function Joined(sep: char, parts: seq<string>): string {
    if parts == [] then ""
    else if |parts| == 1 then parts[0]
    else parts[0] + [sep] + Joined(sep, parts[1..])
  }

  lemma {:induction false} SplitWithout(sep: char, s: string)
    requires sep !in s
    ensures Split(sep, s) == [s]
  {
    if s != [] {
      SplitWithout(sep, s[1..]);
      assert s == [s[0]] + s[1..];
    }
  }

  lemma {:induction false} SplitAppend(sep: char, a: string, b: string)
    ensures Split(sep, a + [sep] + b) == Split(sep, a) + Split(sep, b)
  {
    var s := a + [sep] + b;
    if a == [] {
      assert s[1..] == b;
    } else {
      assert s[1..] == a[1..] + [sep] + b;
      SplitAppend(sep, a[1..], b);
    }
  }

  lemma {:induction false} SplitJoined(sep: char, parts: seq<string>)
    requires parts != [] && forall p :: p in parts ==> sep !in p
    ensures Split(sep, Joined(sep, parts)) == parts
  {
    SplitWithout(sep, parts[0]);
    if |parts| > 1 {
      SplitJoined(sep, parts[1..]);
      SplitAppend(sep, parts[0], Joined(sep, parts[1..]));
    }
  }

  // ---- decimal numbers ----

  function Digit(d: nat): char
    requires d < 10
  {
    '0' + d as char
  }

  function Decimal(n: nat): (s: string)
    ensures s != [] && forall c :: c in s ==> '0' <= c <= '9'
  {
    if n < 10 then [Digit(n)] else Decimal(n / 10) + [Digit(n % 10)]
  }

  lemma {:induction false} DecimalIsInjective(m: nat, n: nat)
    requires Decimal(m) == Decimal(n)
    ensures m == n
  {
    var a, b := Decimal(m), Decimal(n);
    assert a[|a| - 1] == Digit(m % 10) && b[|b| - 1] == Digit(n % 10);
    assert m % 10 == n % 10;
    if m >= 10 {
      assert a[..|a| - 1] == Decimal(m / 10);
      assert n >= 10;
      assert b[..|b| - 1] == Decimal(n / 10);
      DecimalIsInjective(m / 10, n / 10);
    }
  }

  // ---- which of equal keys survive ----

  /** The first element with a key. */
  function FirstWith<T>(key: T -> string, xs: seq<T>, k: string): (r: Option<T>)
    ensures r.Some? ==> r.value in xs && key(r.value) == k
  {
    if xs == [] then None
    else if key(xs[0]) == k then Some(xs[0])
    else FirstWith(key, xs[1..], k)
  }

  lemma {:induction false} FirstOfTwo<T>(key: T -> string, a: seq<T>, b: seq<T>, k: string)
    ensures FirstWith(key, a + b, k) == if FirstWith(key, a, k).Some? then FirstWith(key, a, k) else FirstWith(key, b, k)
  {
    if a == [] {
      assert a + b == b;
    } else {
      assert (a + b)[1..] == a[1..] + b;
      FirstOfTwo(key, a[1..], b, k);
    }
  }

  lemma FirstOfOne<T>(key: T -> string, x: T, k: string)
    ensures FirstWith(key, [x], k) == if key(x) == k then Some(x) else None
  {
    assert [x][1..] == [];
  }

  /** An element goes behind all that share its key. */
  lemma {:induction false} InsertKeepsFirst<T>(key: T -> string, x: T, xs: seq<T>, k: string)
    requires SortedBy(key, xs)
    ensures FirstWith(key, Insert(key, x, xs), k) ==
            if FirstWith(key, xs, k).Some? then FirstWith(key, xs, k) else if key(x) == k then Some(x) else None
  {
    if xs != [] {
      if Less(key(x), key(xs[0])) {
        if key(x) == k {
          NoneBefore(key, xs, k);
        }
        assert ([x] + xs)[1..] == xs;
      } else {
        InsertKeepsFirst(key, x, xs[1..], k);
        assert ([xs[0]] + Insert(key, x, xs[1..]))[1..] == Insert(key, x, xs[1..]);
      }
    } else {
      assert [x][1..] == [];
    }
  }

  lemma NoneBefore<T>(key: T -> string, xs: seq<T>, k: string)
    requires SortedBy(key, xs) && xs != [] && Less(k, key(xs[0]))
    ensures FirstWith(key, xs, k) == None
  {
    forall j | 0 <= j < |xs|
      ensures key(xs[j]) != k
    {
      LessIsTotal(k, key(xs[0]));
      LessIsTotal(k, key(xs[j]));
      if Less(key(xs[0]), key(xs[j])) {
        LessIsTransitive(k, key(xs[0]), key(xs[j]));
      }
    }
  }

  lemma {:induction false} SortedKeepsFirst<T>(key: T -> string, xs: seq<T>, k: string)
    ensures FirstWith(key, Sorted(key, xs), k) == FirstWith(key, xs, k)
  {
    if xs != [] {
      hide Insert, SortedBy, FirstWith;
      var n := |xs| - 1;
      SortedKeepsFirst(key, xs[..n], k);
      SortedIsSorted(key, xs[..n]);
      InsertKeepsFirst(key, xs[n], Sorted(key, xs[..n]), k);
      FirstOfTwo(key, xs[..n], [xs[n]], k);
      FirstOfOne(key, xs[n], k);
      assert xs == xs[..n] + [xs[n]];
      assert Sorted(key, xs) == Insert(key, xs[n], Sorted(key, xs[..n]));
      hide Sorted;
    }
  }

  lemma {:induction false} DedupedKeepsFirst<T>(key: T -> string, xs: seq<T>, k: string)
    ensures FirstWith(key, Deduped(key, xs), k) == FirstWith(key, xs, k)
  {
    if xs != [] {
      var n := |xs| - 1;
      DedupedKeepsFirst(key, xs[..n], k);
      FirstOfTwo(key, xs[..n], [xs[n]], k);
      FirstOfTwo(key, Deduped(key, xs[..n]), [xs[n]], k);
      assert xs == xs[..n] + [xs[n]] && [xs[n]][1..] == [];
      if n > 0 && key(xs[n - 1]) == key(xs[n]) == k {
        FirstIsThere(key, xs[..n], n - 1);
      }
    }
  }

  lemma {:induction false} FirstIsThere<T>(key: T -> string, xs: seq<T>, i: nat)
    requires i < |xs|
    ensures FirstWith(key, xs, key(xs[i])).Some?
  {
    if i > 0 {
      FirstIsThere(key, xs[1..], i - 1);
    }
  }

  /** Sorting is stable and dropping repeats keeps the first, so of equal keys the one listed first survives. */
  lemma MergingKeepsFirst<T>(key: T -> string, xs: seq<T>, k: string)
    ensures FirstWith(key, Deduped(key, Sorted(key, xs)), k) == FirstWith(key, xs, k)
  {
    DedupedKeepsFirst(key, Sorted(key, xs), k);
    SortedKeepsFirst(key, xs, k);
  }
}

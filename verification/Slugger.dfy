/** Heading anchors: deleting a table of code points, then suffixing repeats. */
module Slugger {
  import opened Text

  // ---- membership by bisection ----

  predicate Ascending(a: seq<int>) {
    forall i, j :: 0 <= i < j < |a| ==> a[i] < a[j]
  }

  /** The closed intervals `starts[i]..ends[i]`, in order and without overlap. */
  predicate RangeTable(starts: seq<int>, ends: seq<int>) {
    && |starts| == |ends|
    && (forall i :: 0 <= i < |starts| ==> starts[i] <= ends[i])
    && (forall i, j :: 0 <= i < j < |starts| ==> ends[i] < starts[j])
  }

  function BisectRight(a: seq<int>, x: int, lo: nat, hi: nat): (index: nat)
    requires lo <= hi <= |a| && Ascending(a)
    requires (forall j :: 0 <= j < lo ==> a[j] <= x) && (forall j :: hi <= j < |a| ==> x < a[j])
    ensures lo <= index <= hi
    ensures (forall j :: 0 <= j < index ==> a[j] <= x) && (forall j :: index <= j < |a| ==> x < a[j])
    decreases hi - lo
  {
    if lo == hi then lo
    else
      var mid := (lo + hi) / 2;
      if x < a[mid] then BisectRight(a, x, lo, mid) else BisectRight(a, x, mid + 1, hi)
  }

  lemma StartsAscend(starts: seq<int>, ends: seq<int>)
    requires RangeTable(starts, ends)
    ensures Ascending(starts)
  {
    forall i, j | 0 <= i < j < |starts|
      ensures starts[i] < starts[j]
    {
      assert starts[i] <= ends[i] < starts[j];
    }
  }

  predicate IsRemoved(starts: seq<int>, ends: seq<int>, codepoint: int)
    requires RangeTable(starts, ends)
  {
    StartsAscend(starts, ends);
    var right := BisectRight(starts, codepoint, 0, |starts|);
    right >= 1 && codepoint <= ends[right - 1]
  }

  ghost predicate InTable(starts: seq<int>, ends: seq<int>, codepoint: int)
    requires |starts| == |ends|
  {
    exists i :: 0 <= i < |starts| && starts[i] <= codepoint <= ends[i]
  }

  /** One bisection decides membership in the whole table, for any ordered disjoint table. */
  lemma BisectionIsMembership(starts: seq<int>, ends: seq<int>, codepoint: int)
    requires RangeTable(starts, ends)
    ensures IsRemoved(starts, ends, codepoint) <==> InTable(starts, ends, codepoint)
  {
    StartsAscend(starts, ends);
    var right := BisectRight(starts, codepoint, 0, |starts|);
    if i :| 0 <= i < |starts| && starts[i] <= codepoint <= ends[i] {
      assert i < right;
    }
  }

  // ---- slugs ----

  /** The characters outside the table, in order. */
  function Kept(starts: seq<int>, ends: seq<int>, s: string): string
    requires RangeTable(starts, ends)
  {
    if s == [] then []
    else (if IsRemoved(starts, ends, s[0] as int) then [] else [s[0]]) + Kept(starts, ends, s[1..])
  }

  function Dashed(s: string): string {
    if s == [] then [] else [if s[0] == ' ' then '-' else s[0]] + Dashed(s[1..])
  }

  /** `lowered` is the heading text after Unicode lowercasing. */
  function Slugify(starts: seq<int>, ends: seq<int>, lowered: string): string
    requires RangeTable(starts, ends)
  {
    Dashed(Kept(starts, ends, lowered))
  }

  ghost predicate Clean(starts: seq<int>, ends: seq<int>, s: string)
    requires |starts| == |ends|
  {
    forall c :: c in s ==> c != ' ' && !InTable(starts, ends, c as int)
  }

  /** A slug holds no space and nothing from the table, as long as the table spares the hyphen. */
  lemma {:induction false} SlugsAreClean(starts: seq<int>, ends: seq<int>, lowered: string)
    requires RangeTable(starts, ends) && !InTable(starts, ends, '-' as int)
    ensures Clean(starts, ends, Slugify(starts, ends, lowered))
  {
    if lowered != [] {
      SlugsAreClean(starts, ends, lowered[1..]);
      var c, rest := lowered[0], Kept(starts, ends, lowered[1..]);
      BisectionIsMembership(starts, ends, c as int);
      var kept := Kept(starts, ends, lowered);
      if InTable(starts, ends, c as int) {
        assert kept == rest;
        hide Clean;
      } else {
        assert kept == [c] + rest && kept[1..] == rest;
        var d := if c == ' ' then '-' else c;
        assert Dashed(kept) == [d] + Dashed(rest);
        forall x | x in Dashed(kept)
          ensures x != ' ' && !InTable(starts, ends, x as int)
        {
          hide InTable, Dashed, Kept, IsRemoved;
          if x != d {
            assert x in Slugify(starts, ends, lowered[1..]);
          }
        }
      }
    }
  }

  /** `at` lists, in order, the positions of all characters outside the table. */
  ghost predicate Spared(starts: seq<int>, ends: seq<int>, s: string, at: seq<nat>)
    requires |starts| == |ends|
  {
    && (forall j, k :: 0 <= j < k < |at| ==> at[j] < at[k])
    && (forall k :: 0 <= k < |at| ==> at[k] < |s|)
    && forall i: nat :: i < |s| ==> (i in at <==> !InTable(starts, ends, s[i] as int))
  }

  /** `slug` spells the characters at those positions, each space a hyphen. */
  ghost predicate Spells(slug: string, s: string, at: seq<nat>) {
    && |slug| == |at|
    && forall k :: 0 <= k < |at| ==> at[k] < |s| && slug[k] == if s[at[k]] == ' ' then '-' else s[at[k]]
  }

  /** A slug is the heading text without the characters of the table, in order, each space a hyphen. */
  lemma {:induction false} SlugIs(starts: seq<int>, ends: seq<int>, lowered: string) returns (at: seq<nat>)
    requires RangeTable(starts, ends)
    ensures Spared(starts, ends, lowered, at) && Spells(Slugify(starts, ends, lowered), lowered, at)
  {
    if lowered == "" {
      at := [];
    } else {
      hide RangeTable, Slugify, InTable, Spared, Spells;
      var later := SlugIs(starts, ends, lowered[1..]);
      var moved: seq<nat> := seq(|later|, k requires 0 <= k < |later| => later[k] + 1);
      var gone := InTable(starts, ends, lowered[0] as int);
      at := (if gone then [] else [0]) + moved;
      TableShape(starts, ends);
      SlugStep(starts, ends, lowered);
      MovedIsSpared(starts, ends, lowered, later, moved);
      MovedSpells(Slugify(starts, ends, lowered[1..]), lowered, later, moved, gone);
    }
  }

  lemma TableShape(starts: seq<int>, ends: seq<int>)
    requires RangeTable(starts, ends)
    ensures |starts| == |ends|
  {
  }

  lemma MovedSpells(rest: string, s: string, later: seq<nat>, moved: seq<nat>, gone: bool)
    requires s != "" && Spells(rest, s[1..], later)
    requires |moved| == |later| && forall k :: 0 <= k < |moved| ==> moved[k] == later[k] + 1
    ensures Spells((if gone then [] else [if s[0] == ' ' then '-' else s[0]]) + rest, s, (if gone then [] else [0]) + moved)
  {
    assert forall k :: 0 <= k < |moved| ==> s[moved[k]] == s[1..][later[k]];
  }

  lemma SlugStep(starts: seq<int>, ends: seq<int>, lowered: string)
    requires RangeTable(starts, ends) && lowered != ""
    ensures Slugify(starts, ends, lowered) ==
            (if InTable(starts, ends, lowered[0] as int) then []
             else [if lowered[0] == ' ' then '-' else lowered[0]]) + Slugify(starts, ends, lowered[1..])
  {
    BisectionIsMembership(starts, ends, lowered[0] as int);
    hide IsRemoved, InTable;
    var c, rest := lowered[0], Kept(starts, ends, lowered[1..]);
    if IsRemoved(starts, ends, c as int) {
      assert Kept(starts, ends, lowered) == rest;
    } else {
      assert Kept(starts, ends, lowered) == [c] + rest && ([c] + rest)[1..] == rest;
      assert Dashed([c] + rest) == [if c == ' ' then '-' else c] + Dashed(rest);
    }
  }

  lemma MovedIsSpared(starts: seq<int>, ends: seq<int>, s: string, later: seq<nat>, moved: seq<nat>)
    requires |starts| == |ends| && s != "" && Spared(starts, ends, s[1..], later)
    requires |moved| == |later| && forall k :: 0 <= k < |moved| ==> moved[k] == later[k] + 1
    ensures Spared(starts, ends, s, (if InTable(starts, ends, s[0] as int) then [] else [0]) + moved)
  {
    hide InTable;
    forall i: nat | 0 < i < |s|
      ensures i in moved <==> !InTable(starts, ends, s[i] as int)
    {
      assert s[1..][i - 1] == s[i];
      if i - 1 in later {
        var k :| 0 <= k < |later| && later[k] == i - 1;
        assert moved[k] == i;
      }
    }
    assert 0 !in moved;
  }

  // ---- repeats ----

  function Suffixed(slug: string, n: nat): string {
    slug + "-" + Decimal(n)
  }

  lemma SuffixedIsInjective(slug: string, m: nat, n: nat)
    requires Suffixed(slug, m) == Suffixed(slug, n)
    ensures m == n
  {
    assert Suffixed(slug, m)[|slug| + 1..] == Decimal(m);
    assert Suffixed(slug, n)[|slug| + 1..] == Decimal(n);
    DecimalIsInjective(m, n);
  }

  predicate TakenBelow(used: set<string>, slug: string, n: nat) {
    forall k :: 1 <= k < n ==> Suffixed(slug, k) in used
  }

  /** Only so many suffixes can be taken. */
  lemma {:induction false} SuffixesFit(used: set<string>, slug: string, n: nat)
    requires n >= 1 && TakenBelow(used, slug, n)
    ensures n - 1 <= |used|
  {
    if n > 1 {
      var last := Suffixed(slug, n - 1);
      forall k | 1 <= k < n - 1
        ensures Suffixed(slug, k) in used - {last}
      {
        if Suffixed(slug, k) == last {
          SuffixedIsInjective(slug, k, n - 1);
        }
      }
      SuffixesFit(used - {last}, slug, n - 1);
      assert |used - {last}| == |used| - 1;
    }
  }

  /** The naive search: the least suffix from `n` on that is not taken. */
  function FirstFree(used: set<string>, slug: string, n: nat): (k: nat)
    requires n >= 1 && TakenBelow(used, slug, n)
    ensures k >= n && Suffixed(slug, k) !in used && TakenBelow(used, slug, k)
    decreases |used| + 1 - n
  {
    SuffixesFit(used, slug, n);
    if Suffixed(slug, n) !in used then n
    else
      SuffixesFit(used, slug, n + 1);
      FirstFree(used, slug, n + 1)
  }

  /** The bare slug when it is free, else the slug with the least free suffix counted from 1. */
  function SlugFor(used: set<string>, slug: string): (r: string)
    ensures r !in used
  {
    if slug !in used then slug else Suffixed(slug, FirstFree(used, slug, 1))
  }

  /** A free slug stays bare; a taken one gets the least number from 1 on that is free. */
  lemma SlugForIs(used: set<string>, slug: string)
    ensures slug !in used ==> SlugFor(used, slug) == slug
    ensures slug in used ==>
              exists n: nat :: n >= 1 && SlugFor(used, slug) == slug + "-" + Decimal(n) &&
                               forall k :: 1 <= k < n ==> slug + "-" + Decimal(k) in used
  {
    if slug in used {
      var n := FirstFree(used, slug, 1);
      assert SlugFor(used, slug) == slug + "-" + Decimal(n);
      forall k: nat | 1 <= k < n
        ensures slug + "-" + Decimal(k) in used
      {
        assert Suffixed(slug, k) in used;
      }
    }
  }

  function SlugsFor(used: set<string>, slugs: seq<string>): (r: seq<string>)
    ensures |r| == |slugs|
    decreases |slugs|
  {
    if slugs == [] then []
    else
      var first := SlugFor(used, slugs[0]);
      [first] + SlugsFor(used + {first}, slugs[1..])
  }

  /** No two headings of a document share an anchor. */
  lemma {:induction false} SlugsAreDistinct(used: set<string>, slugs: seq<string>)
    ensures forall i :: 0 <= i < |slugs| ==> SlugsFor(used, slugs)[i] !in used
    ensures forall i, j :: 0 <= i < j < |slugs| ==> SlugsFor(used, slugs)[i] != SlugsFor(used, slugs)[j]
    decreases |slugs|
  {
    if slugs != [] {
      SlugsAreDistinct(used + {SlugFor(used, slugs[0])}, slugs[1..]);
    }
  }

  class GithubSlugger {
    var occurrences: map<string, nat>

    /** Every suffix a counter has passed is taken, so counting on from it misses nothing. */
    ghost predicate Valid()
      reads this
    {
      forall s :: s in occurrences ==> TakenBelow(occurrences.Keys, s, occurrences[s] + 1)
    }

    constructor ()
      ensures Valid() && occurrences == map[]
    {
      occurrences := map[];
    }

    /** The counter finds what the naive search from 1 finds. */
    method Slug(original: string) returns (result: string)
      requires Valid()
      modifies this
      ensures Valid() && result == SlugFor(old(occurrences.Keys), original)
      ensures occurrences.Keys == old(occurrences.Keys) + {result}
    {
      ghost var used := occurrences.Keys;
      hide Suffixed, FirstFree;
      result := original;
      while result in occurrences
        invariant occurrences.Keys == used
        invariant forall s :: s in occurrences && s != original ==> TakenBelow(used, s, occurrences[s] + 1)
        invariant if original in used then
                    var n := occurrences[original];
                    TakenBelow(used, original, n) &&
                    (result == original || (n >= 1 && result == Suffixed(original, n))) &&
                    (result == original ==> TakenBelow(used, original, n + 1))
                  else result == original
        decreases |used| + 1 - (if original in occurrences then occurrences[original] else 0)
      {
        var n := occurrences[original] + 1;
        assert TakenBelow(used, original, n);
        SuffixesFit(used, original, n);
        occurrences := occurrences[original := n];
        result := Suffixed(original, n);
      }
      if original in used {
        LeastIsFirst(used, original, occurrences[original]);
      }
      occurrences := occurrences[result := 0];
      forall s | s in occurrences
        ensures TakenBelow(occurrences.Keys, s, occurrences[s] + 1)
      {
      }
    }

    /** All headings of a document, in order. */
    method SlugAll(slugs: seq<string>) returns (r: seq<string>)
      requires Valid()
      modifies this
      ensures Valid() && r == SlugsFor(old(occurrences.Keys), slugs)
    {
      r := [];
      ghost var used := occurrences.Keys;
      for i := 0 to |slugs|
        invariant Valid()
        invariant SlugsFor(used, slugs) == r + SlugsFor(occurrences.Keys, slugs[i..])
      {
        var next := Slug(slugs[i]);
        assert slugs[i..][1..] == slugs[i + 1..];
        r := r + [next];
      }
    }
  }

  lemma LeastIsFirst(used: set<string>, slug: string, n: nat)
    requires n >= 1 && TakenBelow(used, slug, n) && Suffixed(slug, n) !in used
    ensures FirstFree(used, slug, 1) == n
  {
    var k := FirstFree(used, slug, 1);
    assert k >= n && n >= k;
  }
}

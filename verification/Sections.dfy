/** Heading sections of a document and the deepest section of each changed line. */
module Sections {
  import opened Wrappers
  import Text
  import Slugger

  /** A heading starts at a 0-based line. */
  datatype Heading = Heading(level: nat, start: nat, anchor: string)

  /** Lines are 1-based and both ends are inclusive. */
  datatype Section = Section(id: string, start: int, end: int)

  const TOP := "top"

  /** Headings as the parser yields them: in order, each inside the document of `total` lines. */
  predicate Ordered(hs: seq<Heading>, total: nat) {
    && (forall i, j :: 0 <= i < j < |hs| ==> hs[i].start < hs[j].start)
    && (forall i :: 0 <= i < |hs| ==> hs[i].start < total)
  }

  function SectionId(path: string, anchor: string): string {
    path + "#" + anchor
  }

  // ---- ranges ----

  /** Where the first heading at or above `level` starts, from heading `from` on; else the end of the document. */
  function EndFrom(hs: seq<Heading>, level: nat, from: nat, total: nat): nat
    requires from <= |hs|
    decreases |hs| - from
  {
    if from == |hs| then total
    else if hs[from].level <= level then hs[from].start
    else EndFrom(hs, level, from + 1, total)
  }

  function SectionAt(path: string, hs: seq<Heading>, i: nat, total: nat): Section
    requires i < |hs|
  {
    Section(SectionId(path, hs[i].anchor), hs[i].start + 1, EndFrom(hs, hs[i].level, i + 1, total))
  }

  /** The sections of the first `n` headings. */
  function HeadingSections(path: string, hs: seq<Heading>, n: nat, total: nat): (r: seq<Section>)
    requires n <= |hs|
    ensures |r| == n && forall i :: 0 <= i < n ==> r[i] == SectionAt(path, hs, i, total)
  {
    if n == 0 then [] else HeadingSections(path, hs, n - 1, total) + [SectionAt(path, hs, n - 1, total)]
  }

  /** Some line before the first heading is not blank. */
  predicate HasPreamble(hs: seq<Heading>, nonblank: seq<bool>) {
    hs != [] && hs[0].start <= |nonblank| && true in nonblank[..hs[0].start]
  }

  /** `nonblank` says of each line of the document whether it holds more than white space. */
  function SectionsOf(path: string, hs: seq<Heading>, nonblank: seq<bool>): seq<Section> {
    if hs == [] then [Section(SectionId(path, TOP), 1, |nonblank|)]
    else
      (if HasPreamble(hs, nonblank) then [Section(SectionId(path, TOP), 1, hs[0].start)] else []) +
      HeadingSections(path, hs, |hs|, |nonblank|)
  }

  /** The inner loop: where the section of heading `index` ends. */
  method SectionEnd(hs: seq<Heading>, index: nat, total: nat) returns (end: nat)
    requires index < |hs|
    ensures end == EndFrom(hs, hs[index].level, index + 1, total)
  {
    end := total;
    var next := index + 1;
    while next < |hs|
      invariant index < next <= |hs| && end == total
      invariant EndFrom(hs, hs[index].level, index + 1, total) == EndFrom(hs, hs[index].level, next, total)
    {
      if hs[next].level <= hs[index].level {
        end := hs[next].start;
        break;
      }
      next := next + 1;
    }
  }

  method ExtractHeadings(path: string, hs: seq<Heading>, total: nat) returns (sections: seq<Section>)
    ensures sections == HeadingSections(path, hs, |hs|, total)
  {
    sections := [];
    for index := 0 to |hs|
      invariant sections == HeadingSections(path, hs, index, total)
    {
      var end := SectionEnd(hs, index, total);
      sections := sections + [Section(SectionId(path, hs[index].anchor), hs[index].start + 1, end)];
    }
  }

  method ExtractSections(path: string, hs: seq<Heading>, nonblank: seq<bool>) returns (sections: seq<Section>)
    requires Ordered(hs, |nonblank|)
    ensures sections == SectionsOf(path, hs, nonblank)
  {
    if hs == [] {
      return [Section(SectionId(path, TOP), 1, |nonblank|)];
    }
    sections := [];
    if true in nonblank[..hs[0].start] {
      sections := sections + [Section(SectionId(path, TOP), 1, hs[0].start)];
    }
    var rest := ExtractHeadings(path, hs, |nonblank|);
    sections := sections + rest;
  }

  // ---- nesting ----

  predicate Covers(s: Section, line: int) {
    s.start <= line <= s.end
  }

  predicate Inside(inner: Section, outer: Section) {
    outer.start <= inner.start && inner.end <= outer.end
  }

  predicate Apart(a: Section, b: Section) {
    a.end < b.start || b.end < a.start
  }

  /** `a` starts before `b`, and the two are nested or apart. */
  predicate Laminar(a: Section, b: Section) {
    a.start < b.start && (Apart(a, b) || Inside(b, a))
  }

  lemma {:induction false} EndIsBounded(hs: seq<Heading>, level: nat, from: nat, total: nat)
    requires from <= |hs| && Ordered(hs, total)
    ensures EndFrom(hs, level, from, total) <= total
    ensures from < |hs| ==> hs[from].start <= EndFrom(hs, level, from, total)
    decreases |hs| - from
  {
    if from < |hs| && hs[from].level > level {
      EndIsBounded(hs, level, from + 1, total);
    }
  }

  /** A heading that starts before the end of an earlier section ends no later than that section. */
  lemma {:induction false} InnerEndsFirst(hs: seq<Heading>, level: nat, from: nat, j: nat, total: nat)
    requires from <= j < |hs| && Ordered(hs, total) && hs[j].start < EndFrom(hs, level, from, total)
    ensures EndFrom(hs, hs[j].level, j + 1, total) <= EndFrom(hs, level, from, total)
    decreases |hs| - from
  {
    if from < j {
      InnerEndsFirst(hs, level, from + 1, j, total);
    } else {
      ShallowerEndsLater(hs, hs[j].level, level, j + 1, total);
    }
  }

  lemma {:induction false} ShallowerEndsLater(hs: seq<Heading>, deep: nat, shallow: nat, from: nat, total: nat)
    requires from <= |hs| && Ordered(hs, total) && shallow <= deep
    ensures EndFrom(hs, deep, from, total) <= EndFrom(hs, shallow, from, total)
    decreases |hs| - from
  {
    if from < |hs| && hs[from].level > shallow {
      EndIsBounded(hs, shallow, from + 1, total);
      ShallowerEndsLater(hs, deep, shallow, from + 1, total);
      if from + 1 < |hs| {
        assert hs[from].start < hs[from + 1].start;
      }
    }
  }

  lemma HeadingSectionsAreLaminar(path: string, hs: seq<Heading>, i: nat, j: nat, total: nat)
    requires Ordered(hs, total) && i < j < |hs|
    ensures Laminar(SectionAt(path, hs, i, total), SectionAt(path, hs, j, total))
  {
    hide Ordered, SectionId;
    StartsAscend(hs, total, i, j);
    if hs[j].start < EndFrom(hs, hs[i].level, i + 1, total) {
      InnerEndsFirst(hs, hs[i].level, i + 1, j, total);
    }
  }

  /** How many sections come before that of the first heading. */
  function Shift(hs: seq<Heading>, nonblank: seq<bool>): nat {
    if HasPreamble(hs, nonblank) then 1 else 0
  }

  function TopSection(path: string, hs: seq<Heading>): Section
    requires hs != []
  {
    Section(SectionId(path, TOP), 1, hs[0].start)
  }

  lemma SectionIs(path: string, hs: seq<Heading>, nonblank: seq<bool>, k: nat)
    requires hs != [] && k < |SectionsOf(path, hs, nonblank)|
    ensures |SectionsOf(path, hs, nonblank)| == |hs| + Shift(hs, nonblank)
    ensures SectionsOf(path, hs, nonblank)[k] ==
            if k < Shift(hs, nonblank) then TopSection(path, hs)
            else SectionAt(path, hs, k - Shift(hs, nonblank), |nonblank|)
  {
    hide HasPreamble, EndFrom, SectionId, HeadingSections;
  }

  lemma StartsAscend(hs: seq<Heading>, total: nat, i: nat, j: nat)
    requires Ordered(hs, total) && i < j < |hs|
    ensures hs[i].start < hs[j].start < total
  {
  }

  lemma PreambleIsNotEmpty(hs: seq<Heading>, nonblank: seq<bool>)
    requires HasPreamble(hs, nonblank)
    ensures hs[0].start >= 1
  {
  }

  lemma TopComesFirst(path: string, hs: seq<Heading>, j: nat, total: nat)
    requires Ordered(hs, total) && j < |hs| && hs[0].start >= 1
    ensures Laminar(TopSection(path, hs), SectionAt(path, hs, j, total))
  {
    if j > 0 {
      StartsAscend(hs, total, 0, j);
    }
  }

  /** Sections in document order start on different lines, and two of them are nested or apart. */
  lemma SectionsAreLaminar(path: string, hs: seq<Heading>, nonblank: seq<bool>, a: nat, b: nat)
    requires Ordered(hs, |nonblank|) && a < b < |SectionsOf(path, hs, nonblank)|
    ensures Laminar(SectionsOf(path, hs, nonblank)[a], SectionsOf(path, hs, nonblank)[b])
  {
    hide HasPreamble, Ordered, EndFrom, SectionId, SectionAt, TopSection, Laminar, HeadingSections, SectionsOf, Shift;
    SeveralSections(path, hs, nonblank);
    var shift := Shift(hs, nonblank);
    SectionIs(path, hs, nonblank, a);
    SectionIs(path, hs, nonblank, b);
    if a >= shift {
      HeadingSectionsAreLaminar(path, hs, a - shift, b - shift, |nonblank|);
    } else {
      PreambleIsNotEmpty(hs, nonblank);
      TopComesFirst(path, hs, b - shift, |nonblank|);
    }
  }

  lemma SeveralSections(path: string, hs: seq<Heading>, nonblank: seq<bool>)
    requires |SectionsOf(path, hs, nonblank)| > 1
    ensures hs != [] && |SectionsOf(path, hs, nonblank)| == |hs| + Shift(hs, nonblank)
    ensures Shift(hs, nonblank) == if HasPreamble(hs, nonblank) then 1 else 0
  {
  }

  // ---- the deepest section of a line ----

  /** Python's `max` by `(line_start, -line_end)`: the first of the greatest. */
  predicate Deeper(a: Section, b: Section) {
    a.start > b.start || (a.start == b.start && a.end < b.end)
  }

  function Deepest(sections: seq<Section>, line: int): (r: Option<Section>)
    ensures r.None? <==> forall s :: s in sections ==> !Covers(s, line)
    ensures r.Some? ==> r.value in sections && Covers(r.value, line)
    ensures r.Some? ==> forall s :: s in sections && Covers(s, line) ==> !Deeper(s, r.value)
  {
    if sections == [] then None
    else
      var n := |sections| - 1;
      var best := Deepest(sections[..n], line);
      var last := sections[n];
      assert sections == sections[..n] + [last];
      if Covers(last, line) && (best.None? || Deeper(last, best.value)) then Some(last) else best
  }

  /** The dictionary the loop builds: per identifier, the section chosen for the last line that chose it. */
  function Selected(sections: seq<Section>, lines: seq<int>): (m: map<string, Section>)
    ensures forall k :: k in m ==> m[k].id == k && m[k] in sections
  {
    if lines == [] then map[]
    else
      var n := |lines| - 1;
      var m := Selected(sections, lines[..n]);
      match Deepest(sections, lines[n])
      case None => m
      case Some(s) => m[s.id := s]
  }

  function IdOf(s: Section): string {
    s.id
  }

  /** `lines` are the changed lines in the order they are visited. */
  method DeepestSectionsForLines(sections: seq<Section>, lines: seq<int>) returns (r: seq<Section>)
    ensures Text.StrictlySortedBy(IdOf, r)
    ensures forall s: Section :: s in r <==> s.id in Selected(sections, lines) && Selected(sections, lines)[s.id] == s
  {
    var selected: map<string, Section> := map[];
    for i := 0 to |lines|
      invariant selected == Selected(sections, lines[..i])
    {
      assert lines[..i + 1][..i] == lines[..i];
      var section := Deepest(sections, lines[i]);
      if section.Some? {
        selected := selected[section.value.id := section.value];
      }
    }
    assert lines[..|lines|] == lines;
    r := ByIdentifier(selected);
  }

  /** The values of the dictionary in the order of its keys. */
  method ByIdentifier(selected: map<string, Section>) returns (r: seq<Section>)
    requires forall k :: k in selected ==> selected[k].id == k
    ensures Text.StrictlySortedBy(IdOf, r)
    ensures forall s: Section :: s in r <==> s.id in selected && selected[s.id] == s
  {
    var keys := Text.SortedKeys(selected.Keys);
    assert forall i :: 0 <= i < |keys| ==> keys[i] in keys;
    r := seq(|keys|, i requires 0 <= i < |keys| => selected[keys[i]]);
    assert Text.StrictlySortedBy(IdOf, r) by {
      assert forall i, j :: 0 <= i < j < |keys| ==> Text.Less(Text.Self(keys[i]), Text.Self(keys[j]));
    }
    forall s: Section | s.id in selected && selected[s.id] == s
      ensures s in r
    {
      var i :| 0 <= i < |keys| && keys[i] == s.id;
      assert r[i] == s;
    }
  }

  /** The chosen section is the unique innermost: it covers the line and lies inside every section that does. */
  lemma ChosenIsInnermost(path: string, hs: seq<Heading>, nonblank: seq<bool>, line: int)
    requires Ordered(hs, |nonblank|) && Deepest(SectionsOf(path, hs, nonblank), line).Some?
    ensures var s := SectionsOf(path, hs, nonblank);
            var chosen := Deepest(s, line).value;
            && Covers(chosen, line)
            && (forall other :: other in s && Covers(other, line) ==> Inside(chosen, other))
            && (forall other :: other in s && Covers(other, line) && other != chosen ==> other.start < chosen.start)
  {
    hide SectionsOf, HasPreamble, Ordered;
    var s := SectionsOf(path, hs, nonblank);
    var chosen := Deepest(s, line).value;
    assert chosen in s && Covers(chosen, line);
    assert forall other :: other in s && Covers(other, line) ==> !Deeper(other, chosen);
    hide Deepest;
    forall other | other in s && Covers(other, line)
      ensures Inside(chosen, other) && (other != chosen ==> other.start < chosen.start)
    {
      var a :| 0 <= a < |s| && s[a] == other;
      var b :| 0 <= b < |s| && s[b] == chosen;
      if a < b {
        SectionsAreLaminar(path, hs, nonblank, a, b);
      } else if b < a {
        SectionsAreLaminar(path, hs, nonblank, b, a);
      }
    }
  }

  // ---- which lines a section holds ----

  lemma {:induction false} EndLiesBefore(hs: seq<Heading>, level: nat, from: nat, total: nat, line: int)
    requires from <= |hs| && Ordered(hs, total) && line <= total
    ensures line <= EndFrom(hs, level, from, total) <==>
              forall j :: from <= j < |hs| && hs[j].start < line ==> hs[j].level > level
    decreases |hs| - from
  {
    if from < |hs| && hs[from].level > level {
      EndLiesBefore(hs, level, from + 1, total, line);
    }
  }

  /** A line belongs to the section of a heading exactly when it comes at or after the heading and every heading
      that starts between the two is deeper. */
  lemma SectionHoldsIff(path: string, hs: seq<Heading>, total: nat, i: nat, line: int)
    requires Ordered(hs, total) && i < |hs| && line <= total
    ensures Covers(SectionAt(path, hs, i, total), line) <==>
              hs[i].start < line && forall j :: i < j < |hs| && hs[j].start < line ==> hs[j].level > hs[i].level
  {
    EndLiesBefore(hs, hs[i].level, i + 1, total, line);
  }

  /** The section chosen for a line is that of the last heading at or before it; before the first heading it is
      the preamble, if some line there is not blank. */
  lemma ChosenIsLastHeading(path: string, hs: seq<Heading>, nonblank: seq<bool>, line: int)
    requires Ordered(hs, |nonblank|) && hs != [] && 1 <= line <= |nonblank|
    ensures var chosen := Deepest(SectionsOf(path, hs, nonblank), line);
            if line <= hs[0].start then
              chosen == if exists k :: 0 <= k < hs[0].start && nonblank[k] then Some(TopSection(path, hs)) else None
            else
              forall i :: 0 <= i < |hs| && hs[i].start < line && (forall j :: i < j < |hs| ==> line <= hs[j].start) ==>
                chosen == Some(SectionAt(path, hs, i, |nonblank|))
  {
    if line <= hs[0].start {
      ChosenBeforeHeadings(path, hs, nonblank, line);
    } else {
      forall i | 0 <= i < |hs| && hs[i].start < line && forall j :: i < j < |hs| ==> line <= hs[j].start
        ensures Deepest(SectionsOf(path, hs, nonblank), line) == Some(SectionAt(path, hs, i, |nonblank|))
      {
        ChosenAtHeading(path, hs, nonblank, line, i);
      }
    }
  }

  lemma PreambleIff(hs: seq<Heading>, nonblank: seq<bool>)
    requires Ordered(hs, |nonblank|) && hs != []
    ensures HasPreamble(hs, nonblank) <==> exists k :: 0 <= k < hs[0].start && nonblank[k]
  {
    var before := nonblank[..hs[0].start];
    if k :| 0 <= k < hs[0].start && nonblank[k] {
      assert before[k];
    }
  }

  lemma ChosenBeforeHeadings(path: string, hs: seq<Heading>, nonblank: seq<bool>, line: int)
    requires Ordered(hs, |nonblank|) && hs != [] && 1 <= line <= hs[0].start
    ensures Deepest(SectionsOf(path, hs, nonblank), line) ==
            if exists k :: 0 <= k < hs[0].start && nonblank[k] then Some(TopSection(path, hs)) else None
  {
    PreambleIff(hs, nonblank);
    hide SectionsOf, HasPreamble, Ordered, SectionAt, Covers, TopSection;
    var s, shift := SectionsOf(path, hs, nonblank), Shift(hs, nonblank);
    forall k | 0 <= k < |s|
      ensures Covers(s[k], line) <==> k < shift
      ensures k < shift ==> s[k] == TopSection(path, hs)
    {
      HoldsBeforeHeadings(path, hs, nonblank, line, k);
    }
    SectionCount(path, hs, nonblank);
    assert shift > 0 ==> s[0] in s && Covers(s[0], line);
    var chosen := Deepest(s, line);
    if chosen.Some? {
      var k :| 0 <= k < |s| && s[k] == chosen.value;
    }
  }

  lemma SectionCount(path: string, hs: seq<Heading>, nonblank: seq<bool>)
    requires hs != []
    ensures |SectionsOf(path, hs, nonblank)| == |hs| + Shift(hs, nonblank)
  {
  }

  lemma HoldsBeforeHeadings(path: string, hs: seq<Heading>, nonblank: seq<bool>, line: int, k: nat)
    requires Ordered(hs, |nonblank|) && hs != [] && 1 <= line <= hs[0].start && k < |SectionsOf(path, hs, nonblank)|
    ensures Covers(SectionsOf(path, hs, nonblank)[k], line) <==> k < Shift(hs, nonblank)
    ensures k < Shift(hs, nonblank) ==> SectionsOf(path, hs, nonblank)[k] == TopSection(path, hs)
  {
    SectionIs(path, hs, nonblank, k);
    hide SectionsOf, HasPreamble, EndFrom, Shift;
    if k > Shift(hs, nonblank) {
      StartsAscend(hs, |nonblank|, 0, k - Shift(hs, nonblank));
    }
  }

  lemma ChosenAtHeading(path: string, hs: seq<Heading>, nonblank: seq<bool>, line: int, i: nat)
    requires Ordered(hs, |nonblank|) && i < |hs| && hs[i].start < line <= |nonblank|
    requires forall j :: i < j < |hs| ==> line <= hs[j].start
    ensures Deepest(SectionsOf(path, hs, nonblank), line) == Some(SectionAt(path, hs, i, |nonblank|))
  {
    hide SectionsOf, HasPreamble, EndFrom, Shift, Ordered, SectionAt;
    var s, m := SectionsOf(path, hs, nonblank), i + Shift(hs, nonblank);
    SectionCount(path, hs, nonblank);
    SectionIs(path, hs, nonblank, m);
    HoldsItsLines(path, hs, |nonblank|, line, i);
    assert s[m] in s;
    var chosen := Deepest(s, line).value;
    assert !Deeper(s[m], chosen);
    hide Deepest;
    var k :| 0 <= k < |s| && s[k] == chosen;
    StartsEarlier(path, hs, nonblank, line, i, k);
  }

  lemma HoldsItsLines(path: string, hs: seq<Heading>, total: nat, line: int, i: nat)
    requires Ordered(hs, total) && i < |hs| && hs[i].start < line <= total
    requires forall j :: i < j < |hs| ==> line <= hs[j].start
    ensures Covers(SectionAt(path, hs, i, total), line)
  {
    SectionHoldsIff(path, hs, total, i, line);
  }

  lemma StartsEarlier(path: string, hs: seq<Heading>, nonblank: seq<bool>, line: int, i: nat, k: nat)
    requires Ordered(hs, |nonblank|) && i < |hs| && hs[i].start < line
    requires forall j :: i < j < |hs| ==> line <= hs[j].start
    requires k < |SectionsOf(path, hs, nonblank)| && Covers(SectionsOf(path, hs, nonblank)[k], line)
    ensures k == i + Shift(hs, nonblank) || SectionsOf(path, hs, nonblank)[k].start < SectionAt(path, hs, i, |nonblank|).start
  {
    hide SectionsOf, HasPreamble, EndFrom, Shift;
    var m := i + Shift(hs, nonblank);
    SectionIs(path, hs, nonblank, k);
    SectionIs(path, hs, nonblank, m);
    if k < m {
      SectionsAreLaminar(path, hs, nonblank, k, m);
    }
  }

  /** Line `i` chose the section, and no later line chose one with its identifier. */
  ghost predicate LastChoice(sections: seq<Section>, lines: seq<int>, s: Section, i: nat) {
    && i < |lines| && Deepest(sections, lines[i]) == Some(s)
    && forall j :: i < j < |lines| ==> Deepest(sections, lines[j]).None? || Deepest(sections, lines[j]).value.id != s.id
  }

  /** A section is returned exactly when some line chose it and no later line chose one with its identifier. */
  lemma {:induction false} SelectedIff(sections: seq<Section>, lines: seq<int>, s: Section)
    ensures s.id in Selected(sections, lines) && Selected(sections, lines)[s.id] == s <==>
              exists i: nat :: LastChoice(sections, lines, s, i)
  {
    if lines != [] {
      var n := |lines| - 1;
      var few, last := lines[..n], Deepest(sections, lines[n]);
      SelectedIff(sections, few, s);
      forall i: nat
        ensures LastChoice(sections, lines, s, i) <==>
                  if i == n then last == Some(s) else LastChoice(sections, few, s, i) && (last.None? || last.value.id != s.id)
      {
        OneMoreChoice(sections, lines, s, i);
      }
      hide Deepest, LastChoice;
      if last == Some(s) {
        assert LastChoice(sections, lines, s, n);
      }
    }
  }

  lemma OneMoreChoice(sections: seq<Section>, lines: seq<int>, s: Section, i: nat)
    requires lines != []
    ensures var n := |lines| - 1;
            var last := Deepest(sections, lines[n]);
            LastChoice(sections, lines, s, i) <==>
              if i == n then last == Some(s)
              else LastChoice(sections, lines[..n], s, i) && (last.None? || last.value.id != s.id)
  {
    hide Deepest;
  }

  // ---- coverage ----

  ghost predicate CoveredBy(sections: seq<Section>, m: map<string, Section>, line: int) {
    exists k :: k in m && Covers(m[k], line)
  }

  /** Every changed line that lies in some section lies in a returned one. */
  ghost predicate NothingLost(sections: seq<Section>, lines: seq<int>) {
    forall i :: 0 <= i < |lines| && Deepest(sections, lines[i]).Some? ==>
      CoveredBy(sections, Selected(sections, lines), lines[i])
  }

  ghost predicate DistinctIds(sections: seq<Section>) {
    forall a, b :: a in sections && b in sections && a.id == b.id ==> a == b
  }

  lemma {:induction false} ChosenStaySelected(sections: seq<Section>, lines: seq<int>, i: nat)
    requires DistinctIds(sections) && i < |lines| && Deepest(sections, lines[i]).Some?
    ensures var s := Deepest(sections, lines[i]).value;
            s.id in Selected(sections, lines) && Selected(sections, lines)[s.id] == s
  {
    var n := |lines| - 1;
    if i < n {
      ChosenStaySelected(sections, lines[..n], i);
    }
  }

  lemma DistinctIdsLoseNothing(sections: seq<Section>, lines: seq<int>)
    requires DistinctIds(sections)
    ensures NothingLost(sections, lines)
  {
    forall i | 0 <= i < |lines| && Deepest(sections, lines[i]).Some?
      ensures CoveredBy(sections, Selected(sections, lines), lines[i])
    {
      ChosenStaySelected(sections, lines, i);
    }
  }

  ghost predicate DistinctAnchors(hs: seq<Heading>) {
    forall i, j :: 0 <= i < j < |hs| ==> hs[i].anchor != hs[j].anchor
  }

  lemma SectionIdIsInjective(path: string, a: string, b: string)
    requires SectionId(path, a) == SectionId(path, b)
    ensures a == b
  {
    assert SectionId(path, a)[|path| + 1..] == a;
    assert SectionId(path, b)[|path| + 1..] == b;
  }

  /** The preamble and a heading whose anchor is "top" would share an identifier. */
  ghost predicate TopCollides(hs: seq<Heading>, nonblank: seq<bool>) {
    HasPreamble(hs, nonblank) && exists i :: 0 <= i < |hs| && hs[i].anchor == TOP
  }

  lemma SectionIdsAreDistinct(path: string, hs: seq<Heading>, nonblank: seq<bool>)
    requires DistinctAnchors(hs) && !TopCollides(hs, nonblank)
    ensures DistinctIds(SectionsOf(path, hs, nonblank))
  {
    var s := SectionsOf(path, hs, nonblank);
    var shift := Shift(hs, nonblank);
    forall a, b | 0 <= a < |s| && 0 <= b < |s| && s[a].id == s[b].id
      ensures s[a] == s[b]
    {
      if hs != [] {
        SectionIs(path, hs, nonblank, a);
        SectionIs(path, hs, nonblank, b);
        hide SectionsOf, HasPreamble;
        var x, y := if a < shift then TOP else hs[a - shift].anchor, if b < shift then TOP else hs[b - shift].anchor;
        SectionIdIsInjective(path, x, y);
      }
    }
  }

  lemma DeepestOfPreamble(path: string, hs: seq<Heading>, nonblank: seq<bool>)
    requires Ordered(hs, |nonblank|) && HasPreamble(hs, nonblank)
    ensures Deepest(SectionsOf(path, hs, nonblank), 1) == Some(TopSection(path, hs))
  {
    PreambleIsNotEmpty(hs, nonblank);
    PreambleIff(hs, nonblank);
    ChosenBeforeHeadings(path, hs, nonblank, 1);
  }

  lemma DeepestOfHeading(path: string, hs: seq<Heading>, nonblank: seq<bool>, i: nat)
    requires Ordered(hs, |nonblank|) && HasPreamble(hs, nonblank) && i < |hs|
    ensures Deepest(SectionsOf(path, hs, nonblank), hs[i].start + 1) == Some(SectionAt(path, hs, i, |nonblank|))
  {
    hide SectionsOf, HasPreamble, SectionAt, Deepest;
    ChosenAtHeading(path, hs, nonblank, hs[i].start + 1, i);
  }

  /** When they do share it, changing the first line of each loses the preamble. */
  lemma CollisionLosesThePreamble(path: string, hs: seq<Heading>, nonblank: seq<bool>, i: nat)
    requires Ordered(hs, |nonblank|) && HasPreamble(hs, nonblank) && i < |hs| && hs[i].anchor == TOP
    ensures !NothingLost(SectionsOf(path, hs, nonblank), [1, hs[i].start + 1])
    ensures Selected(SectionsOf(path, hs, nonblank), [1, hs[i].start + 1]) ==
            map[SectionId(path, TOP) := SectionAt(path, hs, i, |nonblank|)]
  {
    PreambleIsNotEmpty(hs, nonblank);
    DeepestOfPreamble(path, hs, nonblank);
    DeepestOfHeading(path, hs, nonblank, i);
    if i > 0 {
      StartsAscend(hs, |nonblank|, 0, i);
    }
    hide SectionsOf, HasPreamble, Ordered, SectionId, EndFrom, Deepest, NothingLost;
    OverwrittenIsLost(SectionsOf(path, hs, nonblank), TopSection(path, hs), SectionAt(path, hs, i, |nonblank|));
  }

  lemma OverwrittenIsLost(sections: seq<Section>, first: Section, second: Section)
    requires first.id == second.id && first.start < second.start
    requires Deepest(sections, first.start) == Some(first) && Deepest(sections, second.start) == Some(second)
    ensures !NothingLost(sections, [first.start, second.start])
    ensures Selected(sections, [first.start, second.start]) == map[second.id := second]
  {
    var lines := [first.start, second.start];
    assert lines[..1] == [first.start] && lines[..1][..0] == [];
    assert Selected(sections, lines[..1]) == map[first.id := first];
    assert Selected(sections, lines) == map[second.id := second];
    assert !CoveredBy(sections, Selected(sections, lines), lines[0]);
  }

  /** A document loses no changed line, whatever lines change, exactly when no heading takes the preamble's
      identifier. */
  lemma NothingLostIff(path: string, hs: seq<Heading>, nonblank: seq<bool>)
    requires Ordered(hs, |nonblank|) && DistinctAnchors(hs)
    ensures (forall lines :: NothingLost(SectionsOf(path, hs, nonblank), lines)) <==> !TopCollides(hs, nonblank)
  {
    var s := SectionsOf(path, hs, nonblank);
    if TopCollides(hs, nonblank) {
      var i :| 0 <= i < |hs| && hs[i].anchor == TOP;
      CollisionLosesThePreamble(path, hs, nonblank, i);
    } else {
      SectionIdsAreDistinct(path, hs, nonblank);
      forall lines
        ensures NothingLost(s, lines)
      {
        DistinctIdsLoseNothing(s, lines);
      }
    }
  }

  /** Anchors made by the slug generator are distinct, so a collision is always with the preamble. */
  lemma SluggedAnchorsAreDistinct(hs: seq<Heading>, slugs: seq<string>)
    requires |hs| == |slugs| && forall i :: 0 <= i < |hs| ==> hs[i].anchor == Slugger.SlugsFor({}, slugs)[i]
    ensures DistinctAnchors(hs)
  {
    Slugger.SlugsAreDistinct({}, slugs);
  }
}

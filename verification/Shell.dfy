/** Drafted shell lines and the words a POSIX shell reads from them. */
module Shell {
  import opened Wrappers
  import Text

  // ---- quoting ----

  /** Every `'` becomes `'\''`. */
  function QuotesEscaped(value: string): string {
    if value == [] then [] else (if value[0] == '\'' then "'\\''" else [value[0]]) + QuotesEscaped(value[1..])
  }

  function ShellQuote(value: string): string {
    "'" + QuotesEscaped(value) + "'"
  }

  predicate Control(c: char) {
    c < ' ' || '\U{7F}' <= c <= '\U{9F}'
  }

  function DisplayName(sensor: string): string {
    if sensor == [] then [] else [if Control(sensor[0]) then ' ' else sensor[0]] + DisplayName(sensor[1..])
  }

  // ---- the words of a line: XCU sections 2.2.1 and 2.2.2 of IEEE Std 1003.1 ----

  /** Characters that mean themselves outside quotes wherever they stand in a word. */
  predicate Ordinary(c: char) {
    'a' <= c <= 'z' || 'A' <= c <= 'Z' || '0' <= c <= '9' || c == '-' || c == '_' || c == '.' || c == '/'
  }

  /** The words of an unquoted stretch, `word` being the one in progress; nothing when the shell would do more
      than split: expand, redirect, run two commands or wait for a closing quote. */
  function Words(line: string, word: Option<string>): Option<seq<string>>
    decreases |line|
  {
    if line == [] then Some(if word.Some? then [word.value] else [])
    else if line[0] == ' ' then
      var rest := Words(line[1..], None);
      if word.Some? && rest.Some? then Some([word.value] + rest.value) else rest
    else if line[0] == '\'' then InQuotes(line[1..], SoFar(word))
    else if line[0] == '\\' then
      if |line| > 1 && line[1] != '\n' then Words(line[2..], Some(SoFar(word) + [line[1]])) else None
    else if Ordinary(line[0]) then Words(line[1..], Some(SoFar(word) + [line[0]]))
    else None
  }

  /** Inside single quotes every character is literal up to the next quote. */
  function InQuotes(line: string, word: string): Option<seq<string>>
    decreases |line|
  {
    if line == [] then None
    else if line[0] == '\'' then Words(line[1..], Some(word))
    else InQuotes(line[1..], word + [line[0]])
  }

  function SoFar(word: Option<string>): string {
    if word.Some? then word.value else ""
  }

  /** `'\''` inside quotes closes them, adds a quote and opens them again. */
  lemma ClosedAndReopened(tail: string, word: string)
    ensures InQuotes("'\\''" + tail, word) == InQuotes(tail, word + "'")
  {
    var line := "'\\''" + tail;
    var escape := line[1..];
    var reopen := escape[2..];
    assert InQuotes(line, word) == Words(escape, Some(word));
    assert escape[0] == '\\' && escape[1] == '\'';
    assert Words(escape, Some(word)) == Words(reopen, Some(word + ['\'']));
    assert reopen[0] == '\'' && reopen[1..] == tail;
  }

  lemma {:induction false} QuotedIsLiteral(value: string, rest: string, word: string)
    ensures InQuotes(QuotesEscaped(value) + "'" + rest, word) == Words(rest, Some(word + value))
    decreases value
  {
    hide Words;
    var line := QuotesEscaped(value) + "'" + rest;
    if value == [] {
      assert line == "'" + rest && word + value == word;
      assert line[1..] == rest;
    } else {
      var c, more := value[0], value[1..];
      var tail := QuotesEscaped(more) + "'" + rest;
      QuotedIsLiteral(more, rest, word + [c]);
      assert word + [c] + more == word + value;
      if c == '\'' {
        ClosedAndReopened(tail, word);
        assert line == "'\\''" + tail;
      } else {
        assert line == [c] + tail;
        assert line[1..] == tail;
      }
    }
  }

  /** A quoted value, whatever it holds, joins the word in progress unchanged. */
  lemma ShellQuoteIsLiteral(value: string, rest: string, word: Option<string>)
    ensures Words(ShellQuote(value) + rest, word) == Words(rest, Some(SoFar(word) + value))
  {
    var line := ShellQuote(value) + rest;
    assert line[0] == '\'' && line[1..] == QuotesEscaped(value) + "'" + rest;
    QuotedIsLiteral(value, rest, SoFar(word));
  }

  predicate Bare(word: string) {
    forall i :: 0 <= i < |word| ==> Ordinary(word[i])
  }

  lemma {:induction false} BareIsLiteral(text: string, rest: string, word: Option<string>)
    requires Bare(text) && (text != [] || word.Some?)
    ensures Words(text + rest, word) == Words(rest, Some(SoFar(word) + text))
    decreases text
  {
    if text == [] {
      assert text + rest == rest && SoFar(word) + text == SoFar(word);
    } else {
      var line, next := text + rest, Some(SoFar(word) + [text[0]]);
      assert line[0] == text[0] && line[1..] == text[1..] + rest;
      BareIsLiteral(text[1..], rest, next);
      assert SoFar(next) + text[1..] == SoFar(word) + text;
    }
  }

  // ---- lines ----

  /** An argument as it is written. */
  datatype Arg = Plain(value: string) | Quoted(value: string)

  function Written(a: Arg): string {
    if a.Plain? then a.value else ShellQuote(a.value)
  }

  function Line(args: seq<Arg>): string {
    if args == [] then ""
    else if |args| == 1 then Written(args[0])
    else Written(args[0]) + " " + Line(args[1..])
  }

  function Values(args: seq<Arg>): seq<string> {
    if args == [] then [] else [args[0].value] + Values(args[1..])
  }

  /** An argument written without quotes must need none. */
  predicate ProperArg(a: Arg) {
    a.Plain? ==> a.value != "" && Bare(a.value)
  }

  predicate Proper(args: seq<Arg>) {
    forall i :: 0 <= i < |args| ==> ProperArg(args[i])
  }

  lemma ArgIsLiteral(a: Arg, rest: string)
    requires ProperArg(a)
    ensures Words(Written(a) + rest, None) == Words(rest, Some(a.value))
  {
    assert SoFar(None) + a.value == a.value;
    if a.Plain? {
      BareIsLiteral(a.value, rest, None);
    } else {
      ShellQuoteIsLiteral(a.value, rest, None);
    }
  }

  lemma NextWord(line: string, word: string)
    ensures Words(" " + line, Some(word)) ==
            if Words(line, None).Some? then Some([word] + Words(line, None).value) else None
  {
    assert (" " + line)[1..] == line;
  }

  /** A line of proper arguments splits into exactly their values. */
  lemma {:induction false} LineSplits(args: seq<Arg>)
    requires Proper(args)
    ensures Words(Line(args), None) == Some(Values(args))
  {
    assert forall v: string :: Words("", Some(v)) == Some([v]);
    assert Words("", None) == Some([]);
    hide Words, Written;
    if args != [] {
      var first, more := args[0], args[1..];
      LineSplits(more);
      if more == [] {
        assert Written(first) + "" == Line(args) && Values(args) == [first.value];
        ArgIsLiteral(first, "");
      } else {
        assert Written(first) + (" " + Line(more)) == Line(args);
        ArgIsLiteral(first, " " + Line(more));
        NextWord(Line(more), first.value);
      }
    }
  }

  // ---- the drafted lines ----

  function Pattern(name: string): string {
    "<fix that stops " + name + " recurring>"
  }

  function Conditions(name: string): string {
    "<conditions where the fix applies, e.g. " + name + " failing on the same class>"
  }

  function FailureText(name: string): string {
    "<" + name + " failure output>"
  }

  /** The words of the drafted lines, in order; each line separates them by single spaces. */
  function TraceArgs(sensor: string): seq<Arg> {
    [Plain("do-harness"), Plain("trace"), Plain("add"), Plain("--session"), Quoted("<session>"),
     Plain("--command"), Quoted("<command that fired>"), Plain("--error-diff"),
     Quoted(FailureText(DisplayName(sensor))), Plain("--resolution-steps"), Quoted("<fix>")]
  }

  function DistillArgs(sensor: string): seq<Arg> {
    [Plain("do-harness"), Plain("distill"), Plain("--skill"), Plain("harness"), Plain("--from-trace"), Quoted("<N>"),
     Plain("--pattern"), Quoted(Pattern(DisplayName(sensor))), Plain("--description"),
     Quoted(Conditions(DisplayName(sensor)))]
  }

  const SKILL_DIR := ".agents/skills"

  const INIT_SCRIPT := "/skill-creator/scripts/init_skill.py"

  function ScaffoldArgs(sensor: string): seq<Arg> {
    [Plain("python3"), Plain(SKILL_DIR + INIT_SCRIPT), Plain(SkillName(sensor)), Plain("--path"), Plain(SKILL_DIR)]
  }

  lemma {:induction false} DisplayNameIsOneLine(sensor: string)
    ensures |DisplayName(sensor)| == |sensor|
    ensures forall i :: 0 <= i < |sensor| ==>
              !Control(DisplayName(sensor)[i]) &&
              DisplayName(sensor)[i] == if Control(sensor[i]) then ' ' else sensor[i]
  {
    if sensor != [] {
      DisplayNameIsOneLine(sensor[1..]);
    }
  }

  lemma TraceArgsAreProper(sensor: string)
    ensures Proper(TraceArgs(sensor))
  {
    hide FailureText, DisplayName, Bare;
    BareProgram();
    BareFlags();
  }

  lemma BareProgram()
    ensures Bare("do-harness") && Bare("trace") && Bare("add") && Bare("distill") && Bare("harness") && Bare("python3")
  {
  }

  lemma BareFlags()
    ensures Bare("--session") && Bare("--command") && Bare("--error-diff") && Bare("--resolution-steps")
  {
  }

  lemma BareMoreFlags()
    ensures Bare("--skill") && Bare("--from-trace") && Bare("--pattern") && Bare("--description") && Bare("--path")
  {
  }

  lemma DistillArgsAreProper(sensor: string)
    ensures Proper(DistillArgs(sensor))
  {
    hide Pattern, Conditions, DisplayName, Bare;
    BareProgram();
    BareMoreFlags();
  }

  lemma BarePaths()
    ensures Bare(SKILL_DIR) && Bare(SKILL_DIR + INIT_SCRIPT)
  {
    assert Bare(SKILL_DIR) && Bare(INIT_SCRIPT);
  }

  /** For every sensor name the drafted trace and distill lines are read as these commands: every placeholder,
      whatever quotes or spaces the name puts in it, is one literal word that holds the name as shown. */
  lemma DraftedLinesSplit(sensor: string)
    ensures var name := DisplayName(sensor);
            Words(Line(TraceArgs(sensor)), None) ==
            Some(["do-harness", "trace", "add", "--session", "<session>", "--command", "<command that fired>",
                  "--error-diff", "<" + name + " failure output>", "--resolution-steps", "<fix>"])
    ensures var name := DisplayName(sensor);
            Words(Line(DistillArgs(sensor)), None) ==
            Some(["do-harness", "distill", "--skill", "harness", "--from-trace", "<N>",
                  "--pattern", "<fix that stops " + name + " recurring>",
                  "--description", "<conditions where the fix applies, e.g. " + name + " failing on the same class>"])
  {
    TraceValues(sensor);
    DistillValues(sensor);
    hide TraceArgs, DistillArgs, Words, Line, Values, Proper;
    TraceArgsAreProper(sensor);
    LineSplits(TraceArgs(sensor));
    DistillArgsAreProper(sensor);
    LineSplits(DistillArgs(sensor));
  }

  lemma {:induction false} ValuesAre(args: seq<Arg>)
    ensures Values(args) == seq(|args|, i requires 0 <= i < |args| => args[i].value)
  {
    if args != [] {
      ValuesAre(args[1..]);
    }
  }

  lemma TraceValues(sensor: string)
    ensures Values(TraceArgs(sensor)) ==
            ["do-harness", "trace", "add", "--session", "<session>", "--command", "<command that fired>",
             "--error-diff", "<" + DisplayName(sensor) + " failure output>", "--resolution-steps", "<fix>"]
  {
    hide Values, DisplayName;
    ValuesAre(TraceArgs(sensor));
  }

  lemma DistillValues(sensor: string)
    ensures Values(DistillArgs(sensor)) ==
            ["do-harness", "distill", "--skill", "harness", "--from-trace", "<N>",
             "--pattern", "<fix that stops " + DisplayName(sensor) + " recurring>", "--description",
             "<conditions where the fix applies, e.g. " + DisplayName(sensor) + " failing on the same class>"]
  {
    hide Values, DisplayName;
    ValuesAre(DistillArgs(sensor));
  }

  // ---- skill names ----

  const MAX_SKILL_NAME := 64

  const SKILL_SUFFIX := "-steering"

  function Lowered(c: char): char {
    if 'A' <= c <= 'Z' then 'a' + (c - 'A') else c
  }

  predicate Alphanumeric(c: char) {
    'a' <= c <= 'z' || 'A' <= c <= 'Z' || '0' <= c <= '9'
  }

  function Slug(sensor: string): string {
    if sensor == [] then []
    else
      var slug, c := Slug(sensor[..|sensor| - 1]), Lowered(sensor[|sensor| - 1]);
      if Alphanumeric(c) then slug + [c]
      else if slug != [] && slug[|slug| - 1] != '-' then slug + "-"
      else slug
  }

  function Trimmed(s: string): string {
    if s != [] && s[|s| - 1] == '-' then Trimmed(s[..|s| - 1]) else s
  }

  function Truncated(s: string): string {
    if |s| > MAX_SKILL_NAME then s[..MAX_SKILL_NAME] else s
  }

  function SkillName(sensor: string): string {
    var base := Trimmed(Slug(sensor));
    Trimmed(Truncated(Trimmed((if base == "" then "sensor" else base) + SKILL_SUFFIX)))
  }

  method MakeSkillName(sensor: string) returns (name: string)
    ensures name == SkillName(sensor)
  {
    var slug := "";
    for i := 0 to |sensor|
      invariant slug == Slug(sensor[..i])
    {
      assert sensor[..i + 1][..i] == sensor[..i];
      var lower := Lowered(sensor[i]);
      if Alphanumeric(lower) {
        slug := slug + [lower];
      } else if slug != "" && slug[|slug| - 1] != '-' {
        slug := slug + "-";
      }
    }
    assert sensor[..|sensor|] == sensor;
    name := PopHyphens(slug);
    if name == "" {
      name := name + "sensor";
    }
    name := name + SKILL_SUFFIX;
    name := PopHyphens(name);
    if |name| > MAX_SKILL_NAME {
      name := name[..MAX_SKILL_NAME];
    }
    name := PopHyphens(name);
  }

  method PopHyphens(s: string) returns (r: string)
    ensures r == Trimmed(s)
  {
    r := s;
    while r != "" && r[|r| - 1] == '-'
      invariant Trimmed(r) == Trimmed(s)
      decreases |r|
    {
      r := r[..|r| - 1];
    }
  }

  predicate NameChar(c: char) {
    'a' <= c <= 'z' || '0' <= c <= '9' || c == '-'
  }

  /** Name characters, no leading hyphen and no two in a row. */
  predicate Hyphenated(s: string) {
    && (forall i :: 0 <= i < |s| ==> NameChar(s[i]))
    && (s != [] ==> s[0] != '-')
    && (forall i, j :: 0 <= i < |s| && 0 <= j < |s| && j == i + 1 ==> !(s[i] == '-' && s[j] == '-'))
  }

  predicate ValidName(s: string) {
    1 <= |s| <= MAX_SKILL_NAME && Hyphenated(s) && s[|s| - 1] != '-'
  }

  lemma {:induction false} SlugIsHyphenated(sensor: string)
    ensures Hyphenated(Slug(sensor))
  {
    if sensor != [] {
      SlugIsHyphenated(sensor[..|sensor| - 1]);
    }
  }

  lemma {:induction false} TrimmedIsPrefix(s: string)
    ensures Trimmed(s) <= s
    ensures Trimmed(s) != "" ==> Trimmed(s)[|Trimmed(s)| - 1] != '-'
    ensures s != [] && s[0] != '-' ==> Trimmed(s) != ""
  {
    if s != [] && s[|s| - 1] == '-' {
      TrimmedIsPrefix(s[..|s| - 1]);
    }
  }

  lemma PrefixIsHyphenated(p: string, s: string)
    requires p <= s && Hyphenated(s)
    ensures Hyphenated(p)
  {
  }

  lemma StemIsHyphenated(sensor: string)
    ensures var base := Trimmed(Slug(sensor)); Hyphenated((if base == "" then "sensor" else base) + SKILL_SUFFIX)
  {
    var slug := Slug(sensor);
    var base := Trimmed(slug);
    SlugIsHyphenated(sensor);
    TrimmedIsPrefix(slug);
    PrefixIsHyphenated(base, slug);
    hide Slug, Trimmed;
    SuffixKeepsHyphenated(if base == "" then "sensor" else base);
  }

  lemma SuffixKeepsHyphenated(stem: string)
    requires stem != "" && Hyphenated(stem) && stem[|stem| - 1] != '-'
    ensures Hyphenated(stem + SKILL_SUFFIX)
  {
  }

  /** Every sensor name yields a valid skill name. */
  lemma SkillNameIsValid(sensor: string)
    ensures ValidName(SkillName(sensor))
  {
    var base := Trimmed(Slug(sensor));
    var whole := (if base == "" then "sensor" else base) + SKILL_SUFFIX;
    StemIsHyphenated(sensor);
    assert whole[|whole| - 1] == 'g' && Trimmed(whole) == whole;
    hide Slug, Trimmed, Hyphenated;
    var cut := Truncated(whole);
    assert cut <= whole && cut != "" && cut[0] == whole[0];
    PrefixIsHyphenated(cut, whole);
    TrimmedIsPrefix(cut);
    PrefixIsHyphenated(Trimmed(cut), cut);
    HyphenatedStart(whole);
  }

  lemma HyphenatedStart(s: string)
    requires Hyphenated(s) && s != ""
    ensures s[0] != '-'
  {
  }

  /** The scaffold line is written without quotes and needs none: whatever the sensor name, it is read as its
      five arguments. */
  lemma ScaffoldLineSplits(sensor: string)
    ensures Words(Line(ScaffoldArgs(sensor)), None) ==
            Some(["python3", ".agents/skills" + "/skill-creator/scripts/init_skill.py", SkillName(sensor), "--path", ".agents/skills"])
  {
    ScaffoldValues(sensor);
    SkillNameIsValid(sensor);
    assert Bare(SkillName(sensor));
    assert Proper(ScaffoldArgs(sensor)) by {
      hide SkillName, Bare;
      BareProgram();
      BareMoreFlags();
      BarePaths();
    }
    hide ScaffoldArgs, Words, Line, Values;
    LineSplits(ScaffoldArgs(sensor));
  }

  lemma ScaffoldValues(sensor: string)
    ensures Values(ScaffoldArgs(sensor)) ==
            ["python3", ".agents/skills" + "/skill-creator/scripts/init_skill.py", SkillName(sensor), "--path", ".agents/skills"]
  {
    hide Values, SkillName;
    ValuesAre(ScaffoldArgs(sensor));
  }

  // ---- what a skill is called ----

  const UPPER := "ABCDEFGHIJKLMNOPQRSTUVWXYZ"

  const LOWER := "abcdefghijklmnopqrstuvwxyz"

  lemma Alphabets()
    ensures |UPPER| == 26 && forall i :: 0 <= i < 26 ==> UPPER[i] as int == 'A' as int + i
    ensures |LOWER| == 26 && forall i :: 0 <= i < 26 ==> LOWER[i] as int == 'a' as int + i
  {
  }

  lemma LoweredIs(c: char)
    ensures |UPPER| == |LOWER|
    ensures forall i :: 0 <= i < |UPPER| && UPPER[i] == c ==> Lowered(c) == LOWER[i]
    ensures c !in UPPER ==> Lowered(c) == c
  {
    Alphabets();
    hide UPPER, LOWER;
    if 'A' <= c <= 'Z' {
      assert UPPER[c as int - 'A' as int] == c;
    }
  }

  /** The longest stretches of letters and digits in a name, in lower case. */
  function Runs(sensor: string): (runs: seq<string>)
    ensures forall i :: 0 <= i < |runs| ==> runs[i] != "" && forall c :: c in runs[i] ==> Alphanumeric(c)
    ensures sensor != "" && Alphanumeric(sensor[|sensor| - 1]) ==> runs != []
  {
    if sensor == "" then []
    else
      var n := |sensor| - 1;
      var before, c := Runs(sensor[..n]), sensor[n];
      if !Alphanumeric(c) then before
      else if n > 0 && Alphanumeric(sensor[n - 1]) then
        before[..|before| - 1] + [before[|before| - 1] + [Lowered(c)]]
      else before + [[Lowered(c)]]
  }

  lemma {:induction false} JoinedSnoc(parts: seq<string>, part: string)
    requires parts != []
    ensures Text.Joined('-', parts + [part]) == Text.Joined('-', parts) + "-" + part
  {
    assert (parts + [part])[1..] == parts[1..] + [part];
    if |parts| > 1 {
      JoinedSnoc(parts[1..], part);
    }
  }

  lemma JoinedExtends(parts: seq<string>, part: string, more: string)
    ensures Text.Joined('-', parts + [part + more]) == Text.Joined('-', parts + [part]) + more
  {
    if parts != [] {
      JoinedSnoc(parts, part);
      JoinedSnoc(parts, part + more);
    }
  }

  lemma JoinedEnds(parts: seq<string>)
    requires parts != [] && forall i :: 0 <= i < |parts| ==> parts[i] != ""
    ensures var s := Text.Joined('-', parts);
            s != "" && s[|s| - 1] == parts[|parts| - 1][|parts[|parts| - 1]| - 1]
  {
    if |parts| > 1 {
      assert parts == parts[..|parts| - 1] + [parts[|parts| - 1]];
      JoinedSnoc(parts[..|parts| - 1], parts[|parts| - 1]);
    }
  }

  /** The hyphen that the loop leaves after a run that something else follows. */
  function Pending(sensor: string): string {
    if Runs(sensor) != [] && sensor != "" && !Alphanumeric(sensor[|sensor| - 1]) then "-" else ""
  }

  /** The joined runs end with a letter or digit. */
  lemma RunsEnd(sensor: string)
    ensures var s := Text.Joined('-', Runs(sensor));
            if Runs(sensor) == [] then s == "" else s != "" && Alphanumeric(s[|s| - 1])
  {
    if Runs(sensor) != [] {
      JoinedEnds(Runs(sensor));
    }
    hide Runs;
  }

  lemma RunsGrow(sensor: string)
    requires sensor != ""
    ensures var n := |sensor| - 1;
            var before, c := Text.Joined('-', Runs(sensor[..n])), sensor[n];
            Text.Joined('-', Runs(sensor)) ==
            if !Alphanumeric(c) then before
            else if n > 0 && Alphanumeric(sensor[n - 1]) then before + [Lowered(c)]
            else if Runs(sensor[..n]) == [] then [Lowered(c)]
            else before + "-" + [Lowered(c)]
    ensures Runs(sensor) == [] <==> Runs(sensor[..|sensor| - 1]) == [] && !Alphanumeric(sensor[|sensor| - 1])
  {
    var n := |sensor| - 1;
    var before, c := Runs(sensor[..n]), sensor[n];
    if Alphanumeric(c) {
      if n > 0 && Alphanumeric(sensor[n - 1]) {
        var m := |before| - 1;
        assert Runs(sensor) == before[..m] + [before[m] + [Lowered(c)]];
        hide Runs;
        JoinedExtends(before[..m], before[m], [Lowered(c)]);
        assert before == before[..m] + [before[m]];
      } else {
        assert Runs(sensor) == before + [[Lowered(c)]];
        hide Runs;
        if before != [] {
          JoinedSnoc(before, [Lowered(c)]);
        }
      }
    }
  }

  lemma {:induction false} SlugJoinsRuns(sensor: string)
    ensures Slug(sensor) == Text.Joined('-', Runs(sensor)) + Pending(sensor)
  {
    if sensor != "" {
      hide Runs, Text.Joined;
      var n := |sensor| - 1;
      SlugJoinsRuns(sensor[..n]);
      RunsEnd(sensor[..n]);
      RunsGrow(sensor);
      assert n > 0 ==> sensor[..n][n - 1] == sensor[n - 1];
      var slug, c := Slug(sensor[..n]), sensor[n];
      assert Alphanumeric(Lowered(c)) <==> Alphanumeric(c);
      assert Slug(sensor) == if Alphanumeric(c) then slug + [Lowered(c)]
                             else if slug != [] && slug[|slug| - 1] != '-' then slug + "-" else slug;
      hide Slug, Lowered;
      if Alphanumeric(c) {
        assert Pending(sensor) == "";
        hide Alphanumeric;
      }
    }
  }

  /** The base of a name is its runs joined by single hyphens. */
  lemma BaseJoinsRuns(sensor: string)
    ensures Trimmed(Slug(sensor)) == Text.Joined('-', Runs(sensor))
  {
    hide Runs, Text.Joined, Slug;
    SlugJoinsRuns(sensor);
    RunsEnd(sensor);
    var joined := Text.Joined('-', Runs(sensor));
    assert (joined + "-")[..|joined|] == joined;
  }

  /** A skill is named after the runs of its sensor, joined by hyphens, or `sensor` when there are none, with the
      suffix; a name over the limit is cut there, and if that leaves a hyphen at the end it goes too. */
  lemma SkillNameIs(sensor: string)
    ensures var base := if Runs(sensor) == [] then "sensor" else Text.Joined('-', Runs(sensor));
            var whole := base + "-steering";
            && SkillName(sensor) <= whole
            && (|whole| <= MAX_SKILL_NAME ==> SkillName(sensor) == whole)
            && (|whole| > MAX_SKILL_NAME ==>
                  |SkillName(sensor)| == if whole[MAX_SKILL_NAME - 1] == '-' then MAX_SKILL_NAME - 1 else MAX_SKILL_NAME)
  {
    var base := Trimmed(Slug(sensor));
    var whole := (if base == "" then "sensor" else base) + SKILL_SUFFIX;
    StemIsHyphenated(sensor);
    BaseJoinsRuns(sensor);
    if Runs(sensor) != [] {
      JoinedEnds(Runs(sensor));
    }
    assert whole[|whole| - 1] == 'g' && Trimmed(whole) == whole;
    hide Slug, Runs, Text.Joined;
    if |whole| > MAX_SKILL_NAME {
      TrimmedCut(whole);
    }
  }

  lemma TrimmedCut(whole: string)
    requires Hyphenated(whole) && |whole| > MAX_SKILL_NAME
    ensures Trimmed(whole[..MAX_SKILL_NAME]) ==
            whole[..if whole[MAX_SKILL_NAME - 1] == '-' then MAX_SKILL_NAME - 1 else MAX_SKILL_NAME]
  {
    var cut := whole[..MAX_SKILL_NAME];
    var m := MAX_SKILL_NAME - 1;
    if cut[m] == '-' {
      assert whole[m - 1] != '-';
      assert cut[..m] == whole[..m] && cut[..m][m - 1] == whole[m - 1];
      assert Trimmed(whole[..m]) == whole[..m];
    }
  }

  /** A name that is already a slug keeps it, so different short sensor slugs get different skills. */
  lemma SlugsKeepTheirName(slug: string)
    requires ValidName(slug) && |slug| + |SKILL_SUFFIX| <= MAX_SKILL_NAME
    ensures SkillName(slug) == slug + SKILL_SUFFIX
  {
    SlugOfSlug(slug);
    var whole := slug + SKILL_SUFFIX;
    assert whole[|whole| - 1] == 'g';
  }

  lemma {:induction false} SlugOfSlug(s: string)
    requires Hyphenated(s)
    ensures Slug(s) == s
  {
    if s != "" {
      var init := s[..|s| - 1];
      assert Hyphenated(init);
      SlugOfSlug(init);
      assert s == init + [s[|s| - 1]];
      assert init != "" ==> !(s[|s| - 2] == '-' && s[|s| - 1] == '-');
    }
  }
}

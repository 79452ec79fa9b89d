/** Workstream scopes and the keys they are stored under. */
module Scopes {
  import opened Wrappers
  import Text

  const MIN_I64 := -0x8000_0000_0000_0000
  const MAX_I64 := 0x7FFF_FFFF_FFFF_FFFF

  type I64 = x: int | MIN_I64 <= x <= MAX_I64

  datatype Scope = TaskScope(id: I64) | Branch(name: string) | Global

  const GLOBAL_KEY := "global"
  const TASK_PREFIX := "task:"
  const BRANCH_PREFIX := "branch:"

  function Signed(n: int): string {
    if n < 0 then "-" + Text.Decimal(-n) else Text.Decimal(n)
  }

  function Key(s: Scope): string {
    match s
    case TaskScope(id) => TASK_PREFIX + Signed(id)
    case Branch(name) => BRANCH_PREFIX + name
    case Global => GLOBAL_KEY
  }

  function TaskIdOf(s: Scope): Option<I64> {
    if s.TaskScope? then Some(s.id) else None
  }

  predicate AllDigits(s: string) {
    forall i :: 0 <= i < |s| ==> '0' <= s[i] <= '9'
  }

  function ValueOf(digits: string): nat
    requires AllDigits(digits)
  {
    if digits == [] then 0
    else
      var n := |digits| - 1;
      10 * ValueOf(digits[..n]) + (digits[n] as int - '0' as int)
  }

  /** Rust's `i64` parser: an optional sign, at least one digit, no overflow. */
  function ParseI64(s: string): Option<I64> {
    var signed := s != [] && (s[0] == '-' || s[0] == '+');
    var digits := if signed then s[1..] else s;
    if digits == [] || !AllDigits(digits) then None
    else
      var v: int := if signed && s[0] == '-' then 0 - ValueOf(digits) else ValueOf(digits);
      if MIN_I64 <= v <= MAX_I64 then Some(v) else None
  }

  function Parse(raw: string): Result<Scope, string> {
    if raw == GLOBAL_KEY then Ok(Global)
    else if TASK_PREFIX <= raw && ParseI64(raw[|TASK_PREFIX|..]).Some? then
      Ok(TaskScope(ParseI64(raw[|TASK_PREFIX|..]).value))
    else if BRANCH_PREFIX <= raw && raw[|BRANCH_PREFIX|..] != "" then Ok(Branch(raw[|BRANCH_PREFIX|..]))
    else Err(raw)
  }

  lemma DecimalIsDigits(n: nat)
    ensures AllDigits(Text.Decimal(n))
  {
    var s := Text.Decimal(n);
    assert forall i :: 0 <= i < |s| ==> s[i] in s;
  }

  lemma {:induction false} ValueOfDecimal(n: nat)
    ensures AllDigits(Text.Decimal(n)) && ValueOf(Text.Decimal(n)) == n
  {
    var s := Text.Decimal(n);
    DecimalIsDigits(n);
    if n >= 10 {
      ValueOfDecimal(n / 10);
      assert s[..|s| - 1] == Text.Decimal(n / 10);
    } else {
      assert s[..0] == [];
    }
  }

  lemma ParseI64Signed(n: I64)
    ensures ParseI64(Signed(n)) == Some(n)
  {
    var s := Signed(n);
    if n < 0 {
      var m: int := n;
      ValueOfDecimal(-m);
      assert s[1..] == Text.Decimal(-m);
    } else {
      ValueOfDecimal(n);
      assert '0' <= s[0] <= '9';
    }
  }

  /** A stored key parses back to its scope, except the branch with the empty name, whose key never parses. */
  lemma KeyRoundTrip(s: Scope)
    ensures Parse(Key(s)) == (if s == Branch("") then Err(Key(s)) else Ok(s))
  {
    var k := Key(s);
    match s
    case TaskScope(id) =>
      ParseI64Signed(id);
      assert k[0] == 't' && k[|TASK_PREFIX|..] == Signed(id);
    case Branch(name) =>
      assert k[0] == 'b' && k[|BRANCH_PREFIX|..] == name;
    case Global =>
  }

  /** Different workstreams never share a key. */
  lemma KeyIsInjective(a: Scope, b: Scope)
    requires Key(a) == Key(b)
    ensures a == b
  {
    KeyRoundTrip(a);
    KeyRoundTrip(b);
  }

  /** Nothing else parses: a text read as the global scope or a branch is that scope's key, and one read as a task
      is the task prefix before a number. */
  lemma ParsedIsKey(raw: string)
    ensures match Parse(raw)
            case Ok(TaskScope(id)) => exists digits :: raw == TASK_PREFIX + digits && ParseI64(digits) == Some(id)
            case Ok(s) => raw == Key(s) && s != Branch("")
            case Err(value) => value == raw && forall s :: raw == Key(s) ==> s == Branch("")
  {
    if Parse(raw).Err? {
      forall s | raw == Key(s)
        ensures s == Branch("")
      {
        KeyRoundTrip(s);
      }
    } else if Parse(raw).value.TaskScope? {
      assert raw == TASK_PREFIX + raw[|TASK_PREFIX|..];
    }
  }
}

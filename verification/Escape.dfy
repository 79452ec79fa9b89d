/** Diagnostics on one line: escaping that loses nothing. */
module Escape {
  import opened Wrappers

  /** Python strings are sequences of code points, lone surrogates included. */
  type CodePoint = x: int | 0 <= x <= 0x10FFFF

  type Chars = seq<CodePoint>

  const BACKSLASH: CodePoint := 0x5C
  const QUOTE: CodePoint := 0x27
  const NEWLINE: CodePoint := 0x0A
  const RETURN: CodePoint := 0x0D
  const TAB: CodePoint := 0x09
  const LOWER_N: CodePoint := 0x6E
  const LOWER_R: CodePoint := 0x72
  const LOWER_T: CodePoint := 0x74
  const LOWER_X: CodePoint := 0x78
  const LOWER_U: CodePoint := 0x75
  const UPPER_U: CodePoint := 0x55

  // ---- hexadecimal ----

  function HexDigit(d: nat): CodePoint
    requires d < 16
  {
    if d < 10 then 0x30 + d else 0x57 + d
  }

  /** `v` in lower-case hexadecimal, padded to `width` digits. */
  function Hex(v: nat, width: nat): (h: Chars)
    ensures |h| == width
  {
    if width == 0 then [] else Hex(v / 16, width - 1) + [HexDigit(v % 16)]
  }

  function DigitValue(c: CodePoint): Option<nat> {
    if 0x30 <= c <= 0x39 then Some(c - 0x30) else if 0x61 <= c <= 0x66 then Some(c - 0x57) else None
  }

  function HexValue(h: Chars): Option<nat> {
    if h == [] then Some(0)
    else
      var high, low := HexValue(h[..|h| - 1]), DigitValue(h[|h| - 1]);
      if high.None? || low.None? then None else Some(16 * high.value + low.value)
  }

  function Pow16(width: nat): nat {
    if width == 0 then 1 else 16 * Pow16(width - 1)
  }

  lemma {:induction false} HexRoundTrip(v: nat, width: nat)
    requires v < Pow16(width)
    ensures HexValue(Hex(v, width)) == Some(v)
  {
    if width > 0 {
      HexRoundTrip(v / 16, width - 1);
      var h := Hex(v, width);
      assert h[..|h| - 1] == Hex(v / 16, width - 1);
    }
  }

  // ---- escaping ----

  function EscapedChar(c: CodePoint): Chars {
    if c == BACKSLASH then [BACKSLASH, BACKSLASH]
    else if c == QUOTE then [BACKSLASH, QUOTE]
    else if c == NEWLINE then [BACKSLASH, LOWER_N]
    else if c == RETURN then [BACKSLASH, LOWER_R]
    else if c == TAB then [BACKSLASH, LOWER_T]
    else if c < 0x20 || c > 0x7E then
      if c <= 0xFF then [BACKSLASH, LOWER_X] + Hex(c, 2)
      else if c <= 0xFFFF then [BACKSLASH, LOWER_U] + Hex(c, 4)
      else [BACKSLASH, UPPER_U] + Hex(c, 8)
    else [c]
  }

  function Escaped(text: Chars): Chars {
    if text == [] then [] else EscapedChar(text[0]) + Escaped(text[1..])
  }

  method EscapeOne(c: CodePoint) returns (piece: Chars)
    ensures piece == EscapedChar(c)
  {
    hide Hex;
    if c == BACKSLASH {
      piece := [BACKSLASH, BACKSLASH];
    } else if c == QUOTE {
      piece := [BACKSLASH, QUOTE];
    } else if c == NEWLINE {
      piece := [BACKSLASH, LOWER_N];
    } else if c == RETURN {
      piece := [BACKSLASH, LOWER_R];
    } else if c == TAB {
      piece := [BACKSLASH, LOWER_T];
    } else if c < 0x20 || c > 0x7E {
      if c <= 0xFF {
        piece := [BACKSLASH, LOWER_X] + Hex(c, 2);
      } else if c <= 0xFFFF {
        piece := [BACKSLASH, LOWER_U] + Hex(c, 4);
      } else {
        piece := [BACKSLASH, UPPER_U] + Hex(c, 8);
      }
    } else {
      piece := [c];
    }
  }

  method EscapeText(text: Chars) returns (escaped: Chars)
    ensures escaped == Escaped(text)
  {
    hide EscapedChar;
    escaped := [];
    for i := 0 to |text|
      invariant escaped + Escaped(text[i..]) == Escaped(text)
    {
      var piece := EscapeOne(text[i]);
      assert text[i..][1..] == text[i + 1..];
      escaped := escaped + piece;
    }
  }

  // ---- reading it back ----

  /** How many hexadecimal digits follow `\x`, `\u` and `\U`. */
  function HexWidth(c: CodePoint): nat {
    if c == LOWER_X then 2 else if c == LOWER_U then 4 else if c == UPPER_U then 8 else 0
  }

  function Plain(c: CodePoint): Option<CodePoint> {
    if c == BACKSLASH || c == QUOTE then Some(c)
    else if c == LOWER_N then Some(NEWLINE)
    else if c == LOWER_R then Some(RETURN)
    else if c == LOWER_T then Some(TAB)
    else None
  }

  /** One character and how much of the text it took. */
  function UnescapedChar(s: Chars): (r: Option<(CodePoint, nat)>)
    requires s != []
    ensures r.Some? ==> 1 <= r.value.1 <= |s|
  {
    if s[0] != BACKSLASH then Some((s[0], 1))
    else if |s| < 2 then None
    else if Plain(s[1]).Some? then Some((Plain(s[1]).value, 2))
    else
      var width := HexWidth(s[1]);
      if width == 0 || |s| < 2 + width then None
      else
        var v := HexValue(s[2..2 + width]);
        if v.Some? && v.value <= 0x10FFFF then Some((v.value, 2 + width)) else None
  }

  /** A reader of the escaped form. */
  function Unescaped(s: Chars): Option<Chars>
    decreases |s|
  {
    if s == [] then Some([])
    else
      var first := UnescapedChar(s);
      if first.None? then None
      else
        var rest := Unescaped(s[first.value.1..]);
        if rest.None? then None else Some([first.value.0] + rest.value)
  }

  lemma UnescapesOne(c: CodePoint, rest: Chars)
    ensures UnescapedChar(EscapedChar(c) + rest) == Some((c, |EscapedChar(c)|))
  {
    var e, s := EscapedChar(c), EscapedChar(c) + rest;
    if |e| > 2 {
      var width := |e| - 2;
      assert Pow16(2) == 0x100 && Pow16(3) == 0x1000 && Pow16(4) == 0x10000;
      assert Pow16(5) == 0x10_0000 && Pow16(6) == 0x100_0000 && Pow16(7) == 0x1000_0000;
      assert Pow16(8) == 0x1_0000_0000;
      HexRoundTrip(c, width);
      assert s[2..2 + width] == Hex(c, width);
    }
  }

  /** Reading an escaped text back gives the text, for every text. */
  lemma {:induction false} EscapeRoundTrip(text: Chars)
    ensures Unescaped(Escaped(text)) == Some(text)
  {
    if text != [] {
      var c, rest := text[0], text[1..];
      var s := Escaped(text);
      EscapeRoundTrip(rest);
      UnescapesOne(c, Escaped(rest));
      assert s[|EscapedChar(c)|..] == Escaped(rest);
      assert text == [c] + rest;
    }
  }

  /** Distinct texts give distinct diagnostics. */
  lemma EscapeIsInjective(a: Chars, b: Chars)
    requires Escaped(a) == Escaped(b)
    ensures a == b
  {
    EscapeRoundTrip(a);
    EscapeRoundTrip(b);
  }

  predicate Printable(s: Chars) {
    forall i :: 0 <= i < |s| ==> 0x20 <= s[i] <= 0x7E
  }

  lemma {:induction false} HexIsPrintable(v: nat, width: nat)
    ensures Printable(Hex(v, width))
  {
    if width > 0 {
      HexIsPrintable(v / 16, width - 1);
    }
  }

  /** Whatever the text, the diagnostic is one line of printable ASCII. */
  lemma {:induction false} EscapeIsPrintable(text: Chars)
    ensures Printable(Escaped(text))
  {
    if text != [] {
      EscapeIsPrintable(text[1..]);
      HexIsPrintable(text[0], 2);
      HexIsPrintable(text[0], 4);
      HexIsPrintable(text[0], 8);
    }
  }

  /** What a reader of a quoted text makes of `s`, which starts behind the opening quote: the text up to the first
      quote that is not escaped, and what follows it. */
  function Quoted(s: Chars): Option<(Chars, Chars)>
    decreases |s|
  {
    if s == [] then None
    else if s[0] == QUOTE then Some(([], s[1..]))
    else
      var first := UnescapedChar(s);
      if first.None? then None
      else
        var rest := Quoted(s[first.value.1..]);
        if rest.None? then None else Some(([first.value.0] + rest.value.0, rest.value.1))
  }

  lemma StartsUnquoted(c: CodePoint)
    ensures EscapedChar(c) != [] && EscapedChar(c)[0] != QUOTE
  {
  }

  /** Between quotes an escaped text ends exactly where it was closed, whatever the text holds and whatever
      follows. */
  lemma {:induction false} QuotedReadsBack(text: Chars, rest: Chars)
    ensures Quoted(Escaped(text) + [QUOTE] + rest) == Some((text, rest))
  {
    var s := Escaped(text) + [QUOTE] + rest;
    if text == [] {
      assert s == [QUOTE] + rest && s[1..] == rest;
    } else {
      var c, e := text[0], EscapedChar(text[0]);
      var tail := Escaped(text[1..]) + [QUOTE] + rest;
      StartsUnquoted(c);
      assert s == e + tail && s[0] == e[0];
      UnescapesOne(c, tail);
      QuotedReadsBack(text[1..], rest);
      hide EscapedChar, Escaped, UnescapedChar;
      assert s[|e|..] == tail && text == [c] + text[1..];
    }
  }

  /** No shorter printable form is read as the character: what is printable stays itself, the named characters take
      two, and the others the narrowest hexadecimal form. */
  lemma ShortestForm(c: CodePoint, s: Chars)
    requires s != [] && Printable(s) && s[0] != QUOTE && UnescapedChar(s) == Some((c, |s|))
    ensures |EscapedChar(c)| <= |s|
  {
    if s[0] == BACKSLASH && Plain(s[1]).None? {
      HexIsBounded(s[2..]);
      assert s[2..2 + HexWidth(s[1])] == s[2..];
      assert Pow16(2) == 0x100 && Pow16(3) == 0x1000 && Pow16(4) == 0x10000;
    }
  }

  lemma {:induction false} HexIsBounded(h: Chars)
    ensures HexValue(h).Some? ==> HexValue(h).value < Pow16(|h|)
  {
    if h != [] {
      HexIsBounded(h[..|h| - 1]);
    }
  }
}

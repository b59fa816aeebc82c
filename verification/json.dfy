/**
  The text `JSON.stringify` produces for the constants of the language (integers and
  strings, section 7 of RFC 8259 for the quoting), together with readers that recover
  the value from the front of a text. The readers are the inverse the round-trip
  lemmas below are stated against.
*/
module Json {
  import opened Wrappers

  predicate IsDigit(c: char) {
    '0' <= c <= '9'
  }

  function DigitChar(d: nat): (c: char)
    requires d < 10
    ensures IsDigit(c)
    ensures c as int - '0' as int == d
  {
    (d + '0' as int) as char
  }

  /** Decimal text of a natural number, as JavaScript prints an integral number. */
  function NatText(n: nat): (r: string)
    ensures |r| > 0
    ensures forall i :: 0 <= i < |r| ==> IsDigit(r[i])
    ensures r[0] == '0' <==> n == 0
    decreases n
  {
    if n < 10 then [DigitChar(n)] else NatText(n / 10) + [DigitChar(n % 10)]
  }

  /** `JSON.stringify` of an integral number: an optional minus sign, then the digits. */
  function IntText(n: int): (r: string)
    ensures |r| > 0
    ensures r[0] == '-' <==> n < 0
  {
    if n < 0 then "-" + NatText(-n) else NatText(n)
  }

  /** The value of a string of decimal digits. */
  function DigitsValue(s: string): nat
    requires forall i :: 0 <= i < |s| ==> IsDigit(s[i])
  {
    if |s| == 0 then 0
    else
      var last := s[|s| - 1];
      assert IsDigit(last);
      10 * DigitsValue(s[..|s| - 1]) + (last as int - '0' as int)
  }

  lemma {:induction false} DigitsValueOfNatText(n: nat)
    ensures DigitsValue(NatText(n)) == n
    decreases n
  {
    if n >= 10 {
      var p := NatText(n / 10);
      DigitsValueOfNatText(n / 10);
      assert NatText(n) == p + [DigitChar(n % 10)];
      assert (p + [DigitChar(n % 10)])[..|p|] == p;
    }
  }

  /** Length of the longest prefix of `s` made of decimal digits. */
  function SpanDigits(s: string): (k: nat)
    ensures k <= |s|
    ensures forall i :: 0 <= i < k ==> IsDigit(s[i])
    ensures k < |s| ==> !IsDigit(s[k])
  {
    if |s| > 0 && IsDigit(s[0]) then 1 + SpanDigits(s[1..]) else 0
  }

  lemma {:induction false} SpanDigitsOfDigits(d: string, rest: string)
    requires forall i :: 0 <= i < |d| ==> IsDigit(d[i])
    requires rest == [] || !IsDigit(rest[0])
    ensures SpanDigits(d + rest) == |d|
  {
    if d != [] {
      assert (d + rest)[1..] == d[1..] + rest;
      SpanDigitsOfDigits(d[1..], rest);
    } else {
      assert d + rest == rest;
    }
  }

  /** Reads an integer literal (optional `-`, then at least one digit) from the front of `s`. */
  function ReadInt(s: string): (r: Option<(int, string)>)
    ensures r.Some? ==> |r.value.1| < |s|
  {
    if |s| > 0 && s[0] == '-' then
      var k := SpanDigits(s[1..]);
      var v: int := if k == 0 then 0 else DigitsValue(s[1..][..k]);
      if k == 0 then None else Some((-v, s[1..][k..]))
    else
      var k := SpanDigits(s);
      if k == 0 then None else Some((DigitsValue(s[..k]), s[k..]))
  }

  /** Reading back the text of an integer yields the integer, and stops where the digits stop. */
  lemma ReadIntText(n: int, rest: string)
    requires rest == [] || !IsDigit(rest[0])
    ensures ReadInt(IntText(n) + rest) == Some((n, rest))
  {
    if n < 0 {
      ReadNegative(n, rest);
    } else {
      ReadNonNegative(n, rest);
    }
  }

  lemma ReadNegative(n: int, rest: string)
    requires n < 0 && (rest == [] || !IsDigit(rest[0]))
    ensures ReadInt(IntText(n) + rest) == Some((n, rest))
  {
    var d := NatText(-n);
    ReadDigits(d, -n, rest);
    var s := IntText(n) + rest;
    assert s == "-" + (d + rest);
    assert s[0] == '-' && s[1..] == d + rest;
    assert SpanDigits(s[1..]) == |d| && s[1..][..|d|] == d && s[1..][|d|..] == rest;
  }

  lemma ReadNonNegative(n: int, rest: string)
    requires n >= 0 && (rest == [] || !IsDigit(rest[0]))
    ensures ReadInt(IntText(n) + rest) == Some((n, rest))
  {
    var d := NatText(n);
    ReadDigits(d, n, rest);
    var s := IntText(n) + rest;
    assert s == d + rest;
    assert IsDigit(s[0]);
    assert SpanDigits(s) == |d| && s[..|d|] == d && s[|d|..] == rest;
  }

  /** The digits of a number, followed by a non-digit, span exactly the digits and give the number. */
  lemma ReadDigits(d: string, n: nat, rest: string)
    requires d == NatText(n)
    requires rest == [] || !IsDigit(rest[0])
    ensures SpanDigits(d + rest) == |d|
    ensures (d + rest)[..|d|] == d && (d + rest)[|d|..] == rest
    ensures DigitsValue(d) == n
  {
    DigitsValueOfNatText(n);
    SpanDigitsOfDigits(d, rest);
    assert (d + rest)[..|d|] == d;
  }

  function HexDigit(d: nat): (c: char)
    requires d < 16
  {
    if d < 10 then DigitChar(d) else (d - 10 + 'a' as int) as char
  }

  function HexValue(c: char): Option<nat> {
    if '0' <= c <= '9' then Some(c as int - '0' as int)
    else if 'a' <= c <= 'f' then Some(c as int - 'a' as int + 10)
    else if 'A' <= c <= 'F' then Some(c as int - 'A' as int + 10)
    else None
  }

  lemma HexValueOfHexDigit(d: nat)
    requires d < 16
    ensures HexValue(HexDigit(d)) == Some(d)
  {
  }

  /** The value of four hexadecimal digits, as in a `\uXXXX` escape. */
  function Hex4(q: string): (r: Option<nat>)
    requires |q| == 4
    ensures r.Some? ==> r.value < 0x1_0000
  {
    match (HexValue(q[0]), HexValue(q[1]), HexValue(q[2]), HexValue(q[3]))
    case (Some(a), Some(b), Some(c), Some(d)) =>
      if a < 16 && b < 16 && c < 16 && d < 16 then Some(4096 * a + 256 * b + 16 * c + d) else None
    case _ => None
  }

  /**
    How `JSON.stringify` writes one character inside a string literal: the two-character
    escapes for quote, backslash and the five named controls, `\u00xx` with lower-case
    hex digits for the other controls below U+0020, and the character itself otherwise.
  */
  function EscapeChar(c: char): (r: string)
    ensures |r| > 0
  {
    if c == '\"' then "\\\""
    else if c == '\\' then "\\\\"
    else if c == '\U{8}' then "\\b"
    else if c == '\U{C}' then "\\f"
    else if c == '\n' then "\\n"
    else if c == '\r' then "\\r"
    else if c == '\t' then "\\t"
    else if c < ' ' then "\\u00" + [HexDigit(c as int / 16), HexDigit(c as int % 16)]
    else [c]
  }

  function Escape(s: string): string {
    if s == [] then [] else EscapeChar(s[0]) + Escape(s[1..])
  }

  /** `JSON.stringify` of a string value. */
  function Quote(s: string): string {
    "\"" + Escape(s) + "\""
  }

  /** Characters `JSON.stringify` copies into a string literal unchanged. */
  predicate IsPlain(c: char) {
    c >= ' ' && c != '\"' && c != '\\'
  }

  /** A string with nothing to escape is quoted by adding the two quotes only. */
  lemma {:induction false} QuotePlain(s: string)
    requires forall i :: 0 <= i < |s| ==> IsPlain(s[i])
    ensures Quote(s) == "\"" + s + "\""
  {
    EscapePlain(s);
  }

  lemma {:induction false} EscapePlain(s: string)
    requires forall i :: 0 <= i < |s| ==> IsPlain(s[i])
    ensures Escape(s) == s
  {
    if s != [] {
      EscapePlain(s[1..]);
      assert [s[0]] + s[1..] == s;
    }
  }

  /** Reads the character an escape sequence stands for; `t` starts just after the backslash. */
  function ReadEscape(t: string): (r: Option<(char, string)>)
    ensures r.Some? ==> |r.value.1| < |t|
  {
    if |t| == 0 then None
    else if t[0] == '\"' then Some(('\"', t[1..]))
    else if t[0] == '\\' then Some(('\\', t[1..]))
    else if t[0] == '/' then Some(('/', t[1..]))
    else if t[0] == 'b' then Some(('\U{8}', t[1..]))
    else if t[0] == 'f' then Some(('\U{C}', t[1..]))
    else if t[0] == 'n' then Some(('\n', t[1..]))
    else if t[0] == 'r' then Some(('\r', t[1..]))
    else if t[0] == 't' then Some(('\t', t[1..]))
    else if t[0] == 'u' && |t| >= 5 then
      match Hex4(t[1..5])
      case None => None
      case Some(v) => if 0xD800 <= v < 0xE000 then None else Some((v as char, t[5..]))
    else None
  }

  /** Reads the rest of a string literal whose opening quote is already consumed. */
  function ReadStringBody(s: string): (r: Option<(string, string)>)
    ensures r.Some? ==> |r.value.1| < |s|
    decreases |s|
  {
    if |s| == 0 then None
    else if s[0] == '\"' then Some(([], s[1..]))
    else if s[0] < ' ' then None
    else if s[0] == '\\' then
      match ReadEscape(s[1..])
      case None => None
      case Some((c, t)) => Cons(c, ReadStringBody(t))
    else Cons(s[0], ReadStringBody(s[1..]))
  }

  function Cons(c: char, r: Option<(string, string)>): Option<(string, string)> {
    match r
    case None => None
    case Some((x, rest)) => Some(([c] + x, rest))
  }

  /** Reads a string literal from the front of `s`. */
  function ReadString(s: string): (r: Option<(string, string)>)
    ensures r.Some? ==> |r.value.1| < |s|
  {
    if |s| > 0 && s[0] == '\"' then ReadStringBody(s[1..]) else None
  }

  lemma ReadEscapedChar(c: char, t: string)
    ensures ReadStringBody(EscapeChar(c) + t) == Cons(c, ReadStringBody(t))
  {
    if c == '\"' || c == '\\' || c == '\U{8}' || c == '\U{C}' || c == '\n' || c == '\r' || c == '\t' {
      ReadShortEscape(c, t);
    } else if c < ' ' {
      ReadUnicodeEscape(c, t);
    } else {
      var s := EscapeChar(c) + t;
      assert s == [c] + t;
      assert s[1..] == t;
    }
  }

  lemma ReadShortEscape(c: char, t: string)
    requires c == '\"' || c == '\\' || c == '\U{8}' || c == '\U{C}' || c == '\n' || c == '\r' || c == '\t'
    ensures ReadStringBody(EscapeChar(c) + t) == Cons(c, ReadStringBody(t))
  {
    var s := EscapeChar(c) + t;
    assert |EscapeChar(c)| == 2 && EscapeChar(c)[0] == '\\';
    assert s[0] == '\\';
    assert s[1..][1..] == t;
  }

  /** A control character without a short escape is written `\u00xx` and read back from it. */
  lemma ReadUnicodeEscape(c: char, t: string)
    requires c < ' ' && c != '\U{8}' && c != '\U{C}' && c != '\n' && c != '\r' && c != '\t'
    ensures ReadStringBody(EscapeChar(c) + t) == Cons(c, ReadStringBody(t))
  {
    var q := ['0', '0', HexDigit(c as int / 16), HexDigit(c as int % 16)];
    Hex4Control(c);
    ReadEscapeU(q, t, c as int);
    var u := ['u'] + q + t;
    assert EscapeChar(c) + t == ['\\'] + u;
    ReadBackslash(u, c, t);
  }

  lemma Hex4Control(c: char)
    requires c < ' '
    ensures Hex4(['0', '0', HexDigit(c as int / 16), HexDigit(c as int % 16)]) == Some(c as int)
  {
    HexValueOfHexDigit(c as int / 16);
    HexValueOfHexDigit(c as int % 16);
  }

  lemma ReadEscapeU(q: string, t: string, v: nat)
    requires |q| == 4 && Hex4(q) == Some(v) && v < 0xD800
    ensures ReadEscape(['u'] + q + t) == Some((v as char, t))
  {
    var u := ['u'] + q + t;
    assert u[0] == 'u' && u[1..5] == q && u[5..] == t;
  }

  lemma ReadBackslash(u: string, c: char, t: string)
    requires ReadEscape(u) == Some((c, t))
    ensures ReadStringBody(['\\'] + u) == Cons(c, ReadStringBody(t))
  {
    assert (['\\'] + u)[0] == '\\';
    assert (['\\'] + u)[1..] == u;
  }

  lemma {:induction false} ReadEscaped(s: string, rest: string)
    ensures ReadStringBody(Escape(s) + "\"" + rest) == Some((s, rest))
  {
    if s == [] {
      assert Escape(s) + "\"" + rest == "\"" + rest;
      assert ("\"" + rest)[1..] == rest;
    } else {
      ReadEscaped(s[1..], rest);
      var t := Escape(s[1..]) + "\"" + rest;
      assert Escape(s) + "\"" + rest == EscapeChar(s[0]) + t;
      ReadEscapedChar(s[0], t);
      assert [s[0]] + s[1..] == s;
    }
  }

  /** Reading back a quoted string yields the string, and stops just after the closing quote. */
  lemma ReadQuote(s: string, rest: string)
    ensures ReadString(Quote(s) + rest) == Some((s, rest))
  {
    ReadEscaped(s, rest);
    assert (Quote(s) + rest)[1..] == Escape(s) + "\"" + rest;
  }
}

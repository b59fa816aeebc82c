/**
  A reader for the operand fragment of the generated JavaScript: constants, keywords,
  names, free calls, array literals, indexing, `==`/`!=`, the arithmetic, logical and
  bitwise operators, `Math.pow` and `~`. It is the inverse the round-trip lemmas of
  `RoundTrip` are stated against: reading the text `Compile` emits for a node of the
  fragment gives the node back.
*/
module Reader {
  import opened Wrappers
  import opened Ast
  import Json

  predicate IsIdentStart(c: char) {
    'a' <= c <= 'z' || 'A' <= c <= 'Z' || c == '_' || c == '$'
  }

  predicate IsIdentChar(c: char) {
    IsIdentStart(c) || Json.IsDigit(c)
  }

  /** A JavaScript identifier of the plain ASCII kind the parser produces. */
  predicate IsIdent(n: string) {
    |n| > 0 && IsIdentStart(n[0]) && forall i :: 0 <= i < |n| ==> IsIdentChar(n[i])
  }

  /** The words `JSON.stringify` writes for the non-numeric, non-string constants. */
  predicate IsReserved(n: string) {
    n == "null" || n == "true" || n == "false"
  }

  /**
    The nodes whose text the reader recovers. Names are identifiers other than the
    constant words; comparisons (which carry no parentheses of their own) and qualified
    names and calls are outside it.
  */
  predicate InFragment(e: Expr) {
    match e
    case Constant(_) => true
    case Keyword(_) => true
    case Name(n) => IsIdent(n) && !IsReserved(n)
    case Call(f, args) => IsIdent(f) && forall i :: 0 <= i < |args| ==> InFragment(args[i])
    case ArrayLit(es) => forall i :: 0 <= i < |es| ==> InFragment(es[i])
    case Indexed(b, ix) => InFragment(b) && forall i :: 0 <= i < |ix| ==> InFragment(ix[i])
    case Binary(op, l, r) => (op.IsEquality() || op.IsArithmetic() || op == Pow) && InFragment(l) && InFragment(r)
    case BitNot(x) => InFragment(x)
    case _ => false
  }

  /** The characters that may follow an operand in the fragment's texts. */
  predicate Follows(rest: string) {
    rest == [] || rest[0] == ' ' || rest[0] == ',' || rest[0] == ')' || rest[0] == ']' || rest[0] == '['
  }

  /** Length of the longest prefix of identifier characters. */
  function SpanIdent(s: string): (k: nat)
    ensures k <= |s|
    ensures forall i :: 0 <= i < k ==> IsIdentChar(s[i])
    ensures k < |s| ==> !IsIdentChar(s[k])
  {
    if |s| > 0 && IsIdentChar(s[0]) then 1 + SpanIdent(s[1..]) else 0
  }

  /** Length of the longest prefix without a space. */
  function SpanWord(s: string): (k: nat)
    ensures k <= |s|
    ensures forall i :: 0 <= i < k ==> s[i] != ' '
    ensures k < |s| ==> s[k] == ' '
  {
    if |s| > 0 && s[0] != ' ' then 1 + SpanWord(s[1..]) else 0
  }

  /** The operator a word of the text stands for, among those the fragment emits. */
  function OpFromText(w: string): (r: Option<BinOp>)
    ensures r.Some? ==> OpText(r.value) == w
    ensures r.Some? ==> r.value.IsEquality() || r.value.IsArithmetic()
  {
    if w == "==" then Some(Eq)
    else if w == "!=" then Some(NotEq)
    else if w == "+" then Some(Add)
    else if w == "-" then Some(Sub)
    else if w == "*" then Some(Mul)
    else if w == "/" then Some(Div)
    else if w == "%" then Some(Mod)
    else if w == "&&" then Some(And)
    else if w == "||" then Some(Or)
    else if w == "&" then Some(BitAnd)
    else if w == "|" then Some(BitOr)
    else if w == "^" then Some(BitXor)
    else if w == "<<" then Some(Shl)
    else if w == ">>" then Some(Shr)
    else None
  }

  /** Expects `)` after a node that is complete otherwise. */
  function Close(x: Expr, u: string): (r: Option<(Expr, string)>)
    ensures r.Some? ==> |r.value.1| < |u|
  {
    if |u| > 0 && u[0] == ')' then Some((x, u[1..])) else None
  }

  /** Reads one operand from the front of `s`, giving the node and the text after it. */
  function Parse(s: string): (r: Option<(Expr, string)>)
    ensures r.Some? ==> |r.value.1| < |s|
    decreases |s|, 2
  {
    if |s| == 0 then None
    else if s[0] == '(' then ParseGroup(s[1..])
    else if s[0] == '\"' then
      match Json.ReadString(s)
      case None => None
      case Some((v, t)) => Some((Constant(CStr(v)), t))
    else if s[0] == '-' || Json.IsDigit(s[0]) then
      match Json.ReadInt(s)
      case None => None
      case Some((n, t)) => Some((Constant(CInt(n)), t))
    else if IsIdentStart(s[0]) then ParseWord(s)
    else None
  }

  /**
    Reads what follows an opening parenthesis: an array literal `[...]`, a `~` operand,
    or an operand followed by `)` (a keyword when the operand is a string constant),
    by `[` (indexing) or by a space, an operator and a second operand.
  */
  function ParseGroup(t: string): (r: Option<(Expr, string)>)
    ensures r.Some? ==> |r.value.1| < |t|
    decreases |t|, 3
  {
    if |t| > 0 && t[0] == '[' then
      match ParseList(t[1..], ']')
      case None => None
      case Some((es, u)) => Close(ArrayLit(es), u)
    else if |t| > 0 && t[0] == '~' then
      match Parse(t[1..])
      case None => None
      case Some((x, u)) => Close(BitNot(x), u)
    else
      match Parse(t)
      case None => None
      case Some((x, u)) => ParseTail(x, u)
  }

  /** What may follow the first operand inside parentheses: `)`, `[...])` or ` op operand)`. */
  function ParseTail(x: Expr, u: string): (r: Option<(Expr, string)>)
    ensures r.Some? ==> |r.value.1| < |u|
    decreases |u|, 5
  {
    if |u| > 0 && u[0] == ')' then
      Some((if x.Constant? && x.value.CStr? then Keyword(x.value.s) else x, u[1..]))
    else if |u| > 0 && u[0] == '[' then
      match ParseList(u[1..], ']')
      case None => None
      case Some((ix, v)) => Close(Indexed(x, ix), v)
    else if |u| > 0 && u[0] == ' ' then ParseOperator(x, u[1..])
    else None
  }

  /** An operator word, a space, the second operand and `)`. */
  function ParseOperator(x: Expr, v: string): (r: Option<(Expr, string)>)
    ensures r.Some? ==> |r.value.1| < |v|
    decreases |v|, 5
  {
    var k := SpanWord(v);
    if k == |v| then None
    else
      match OpFromText(v[..k])
      case None => None
      case Some(op) =>
        match Parse(v[k + 1..])
        case None => None
        case Some((y, w)) => Close(Binary(op, x, y), w)
  }

  /**
    Reads an identifier and what it starts: `Math.pow(l, r)`, a call `f(...)`, one of
    the constant words, or a name.
  */
  function ParseWord(s: string): (r: Option<(Expr, string)>)
    requires |s| > 0 && IsIdentStart(s[0])
    ensures r.Some? ==> |r.value.1| < |s|
    decreases |s|, 1
  {
    var k := SpanIdent(s);
    var w, t := s[..k], s[k..];
    if w == "Math" && |t| >= 5 && t[..5] == ".pow(" then ParsePow(t[5..])
    else if |t| > 0 && t[0] == '(' then
      match ParseList(t[1..], ')')
      case None => None
      case Some((args, u)) => Some((Call(w, args), u))
    else if w == "null" then Some((Constant(CNull), t))
    else if w == "true" then Some((Constant(CBool(true)), t))
    else if w == "false" then Some((Constant(CBool(false)), t))
    else Some((Name(w), t))
  }

  /** The arguments of `Math.pow(`: an operand, `", "`, an operand and `)`. */
  function ParsePow(a: string): (r: Option<(Expr, string)>)
    ensures r.Some? ==> |r.value.1| < |a|
    decreases |a|, 3
  {
    match Parse(a)
    case None => None
    case Some((l, u)) =>
      if |u| >= 2 && u[..2] == ", " then
        match Parse(u[2..])
        case None => None
        case Some((r, v)) => Close(Binary(Pow, l, r), v)
      else None
  }

  /** Reads operands separated by `", "` up to and including the closing character. */
  function ParseList(s: string, close: char): (r: Option<(seq<Expr>, string)>)
    ensures r.Some? ==> |r.value.1| < |s|
    decreases |s|, 4
  {
    if |s| > 0 && s[0] == close then Some(([], s[1..])) else ParseItems(s, close)
  }

  function ParseItems(s: string, close: char): (r: Option<(seq<Expr>, string)>)
    ensures r.Some? ==> |r.value.1| < |s|
    decreases |s|, 3
  {
    match Parse(s)
    case None => None
    case Some((x, u)) =>
      if |u| > 0 && u[0] == close then Some(([x], u[1..]))
      else if |u| >= 2 && u[..2] == ", " then
        match ParseItems(u[2..], close)
        case None => None
        case Some((xs, v)) => Some(([x] + xs, v))
      else None
  }
}

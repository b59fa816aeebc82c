/**
  The reader inverts the code generator on the operand fragment: the text `Compile`
  emits for a node, followed by any text that may follow an operand, reads back as that
  node and that text. Two different nodes of the fragment therefore never share a text.
*/
module ReaderLemmas {
  import opened Wrappers
  import opened Ast
  import opened Codegen
  import opened Reader
  import CodegenLemmas
  import Json

  // Lexical facts.

  lemma {:induction false} SpanIdentOf(w: string, rest: string)
    requires forall i :: 0 <= i < |w| ==> IsIdentChar(w[i])
    requires rest == [] || !IsIdentChar(rest[0])
    ensures SpanIdent(w + rest) == |w|
  {
    if w == [] {
      assert w + rest == rest;
    } else {
      assert (w + rest)[1..] == w[1..] + rest;
      SpanIdentOf(w[1..], rest);
    }
  }

  lemma {:induction false} SpanWordOf(w: string, rest: string)
    requires forall i :: 0 <= i < |w| ==> w[i] != ' '
    requires |rest| > 0 && rest[0] == ' '
    ensures SpanWord(w + rest) == |w|
  {
    if w == [] {
      assert w + rest == rest;
    } else {
      assert (w + rest)[1..] == w[1..] + rest;
      SpanWordOf(w[1..], rest);
    }
  }

  /** Every operator the fragment emits is one space-free word the reader maps back to it. */
  lemma OpTextWord(op: BinOp)
    requires op.IsEquality() || op.IsArithmetic()
    ensures |OpText(op)| > 0
    ensures forall i :: 0 <= i < |OpText(op)| ==> OpText(op)[i] != ' '
    ensures OpFromText(OpText(op)) == Some(op)
  {
  }

  // One step of the reader per form, stated on the text it consumes.

  lemma ParseOpen(t: string)
    ensures Parse("(" + t) == ParseGroup(t)
  {
    assert ("(" + t)[1..] == t;
  }

  lemma ParseIdentStart(s: string)
    requires |s| > 0 && IsIdentStart(s[0])
    ensures Parse(s) == ParseWord(s)
  {
    assert s[0] != '(' && s[0] != '\"' && s[0] != '-' && !Json.IsDigit(s[0]);
  }

  lemma GroupOperand(t: string, x: Expr, u: string)
    requires |t| > 0 && t[0] != '[' && t[0] != '~'
    requires Parse(t) == Some((x, u))
    ensures ParseGroup(t) == ParseTail(x, u)
  {
  }

  lemma GroupClose(t: string, x: Expr, rest: string)
    requires |t| > 0 && t[0] != '[' && t[0] != '~'
    requires Parse(t) == Some((x, ")" + rest))
    ensures ParseGroup(t) == Some((if x.Constant? && x.value.CStr? then Keyword(x.value.s) else x, rest))
  {
    GroupOperand(t, x, ")" + rest);
    assert (")" + rest)[0] == ')';
    assert (")" + rest)[1..] == rest;
  }

  lemma GroupIndex(t: string, x: Expr, u: string, ix: seq<Expr>, rest: string)
    requires |t| > 0 && t[0] != '[' && t[0] != '~'
    requires Parse(t) == Some((x, "[" + u))
    requires ParseList(u, ']') == Some((ix, ")" + rest))
    ensures ParseGroup(t) == Some((Indexed(x, ix), rest))
  {
    GroupOperand(t, x, "[" + u);
    assert ("[" + u)[0] == '[' && ("[" + u)[0] != ')';
    assert ("[" + u)[1..] == u;
    assert (")" + rest)[1..] == rest;
  }

  lemma OperatorStep(x: Expr, op: BinOp, v: string, y: Expr, rest: string)
    requires op.IsEquality() || op.IsArithmetic()
    requires Parse(v) == Some((y, ")" + rest))
    ensures ParseOperator(x, OpText(op) + (" " + v)) == Some((Binary(op, x, y), rest))
  {
    OperatorWord(op, v);
    assert Close(Binary(op, x, y), ")" + rest) == Some((Binary(op, x, y), rest)) by {
      assert (")" + rest)[1..] == rest;
    }
  }

  /** The operator word is read back as the operator, and the operand starts after one space. */
  lemma OperatorWord(op: BinOp, v: string)
    requires op.IsEquality() || op.IsArithmetic()
    ensures var s := OpText(op) + (" " + v);
      SpanWord(s) < |s| && OpFromText(s[..SpanWord(s)]) == Some(op) && s[SpanWord(s) + 1..] == v
  {
    var w := OpText(op);
    var s := w + (" " + v);
    OpTextWord(op);
    SpanWordOf(w, " " + v);
    var k := SpanWord(s);
    assert k == |w| && k != |s|;
    assert s[..k] == w;
    assert s[k + 1..] == v;
  }

  lemma GroupBinary(t: string, x: Expr, op: BinOp, v: string, y: Expr, rest: string)
    requires op.IsEquality() || op.IsArithmetic()
    requires |t| > 0 && t[0] != '[' && t[0] != '~'
    requires Parse(t) == Some((x, " " + OpText(op) + " " + v))
    requires Parse(v) == Some((y, ")" + rest))
    ensures ParseGroup(t) == Some((Binary(op, x, y), rest))
  {
    GroupOperand(t, x, " " + OpText(op) + " " + v);
    TailOperator(x, OpText(op), v);
    OperatorStep(x, op, v, y, rest);
  }

  lemma TailOperator(x: Expr, w: string, v: string)
    ensures ParseTail(x, " " + w + " " + v) == ParseOperator(x, w + (" " + v))
  {
    var u := " " + w + " " + v;
    assert u[0] == ' ';
    assert u[1..] == w + (" " + v);
  }

  lemma GroupArray(u: string, es: seq<Expr>, rest: string)
    requires ParseList(u, ']') == Some((es, ")" + rest))
    ensures ParseGroup("[" + u) == Some((ArrayLit(es), rest))
  {
    assert ("[" + u)[1..] == u;
    assert (")" + rest)[1..] == rest;
  }

  lemma GroupBitNot(u: string, x: Expr, rest: string)
    requires Parse(u) == Some((x, ")" + rest))
    ensures ParseGroup("~" + u) == Some((BitNot(x), rest))
  {
    assert ("~" + u)[1..] == u;
    assert (")" + rest)[1..] == rest;
  }

  /** A word followed by neither an identifier character nor `(` or `.` reads as a constant word or a name. */
  lemma WordAlone(w: string, rest: string)
    requires IsIdent(w) && Follows(rest)
    ensures Parse(w + rest) == Some((
      if w == "null" then Constant(CNull)
      else if w == "true" then Constant(CBool(true))
      else if w == "false" then Constant(CBool(false))
      else Name(w), rest))
  {
    SpanIdentOf(w, rest);
    ParseIdentStart(w + rest);
    assert (w + rest)[..|w|] == w;
    assert (w + rest)[|w|..] == rest;
  }

  lemma WordCall(f: string, u: string, args: seq<Expr>, rest: string)
    requires IsIdent(f)
    requires ParseList(u, ')') == Some((args, rest))
    ensures Parse(f + ("(" + u)) == Some((Call(f, args), rest))
  {
    var s := f + ("(" + u);
    SpanIdentOf(f, "(" + u);
    ParseIdentStart(s);
    assert s[..|f|] == f;
    assert s[|f|..] == "(" + u;
    assert ("(" + u)[1..] == u;
  }

  lemma PowArgs(a: string, l: Expr, b: string, r: Expr, rest: string)
    requires Parse(a) == Some((l, ", " + b))
    requires Parse(b) == Some((r, ")" + rest))
    ensures ParsePow(a) == Some((Binary(Pow, l, r), rest))
  {
    assert (", " + b)[..2] == ", ";
    assert (", " + b)[2..] == b;
    assert (")" + rest)[1..] == rest;
  }

  lemma WordPow(a: string, l: Expr, b: string, r: Expr, rest: string)
    requires Parse(a) == Some((l, ", " + b))
    requires Parse(b) == Some((r, ")" + rest))
    ensures Parse("Math.pow(" + a) == Some((Binary(Pow, l, r), rest))
  {
    PowWord(a);
    PowArgs(a, l, b, r, rest);
  }

  /** `Math.pow(` is read as the start of a power, whatever follows it. */
  lemma PowWord(a: string)
    ensures Parse("Math.pow(" + a) == ParsePow(a)
  {
    var s := "Math.pow(" + a;
    assert s == "Math" + (".pow(" + a);
    SpanIdentOf("Math", ".pow(" + a);
    ParseIdentStart(s);
    assert s[..4] == "Math";
    assert s[4..] == ".pow(" + a;
    assert (".pow(" + a)[..5] == ".pow(";
    assert (".pow(" + a)[5..] == a;
  }

  lemma ItemsLast(s: string, x: Expr, close: char, rest: string)
    requires Parse(s) == Some((x, [close] + rest))
    ensures ParseItems(s, close) == Some(([x], rest))
  {
    assert ([close] + rest)[1..] == rest;
  }

  lemma ItemsMore(s: string, x: Expr, close: char, v: string, xs: seq<Expr>, rest: string)
    requires close != ','
    requires Parse(s) == Some((x, ", " + v))
    requires ParseItems(v, close) == Some((xs, rest))
    ensures ParseItems(s, close) == Some(([x] + xs, rest))
  {
    assert (", " + v)[..2] == ", ";
    assert (", " + v)[2..] == v;
  }

  // Where the text of a node of the fragment can start.

  predicate StartsOperand(c: char) {
    c == '(' || c == '\"' || c == '-' || Json.IsDigit(c) || IsIdentStart(c)
  }

  lemma TextStart(e: Expr)
    requires Compilable(e) && InFragment(e)
    ensures |Compile(e)| > 0 && StartsOperand(Compile(e)[0])
  {
    match e
    case Constant(c) =>
      assert Compile(e) == ConstantText(c);
      ConstantStart(c);
    case Keyword(_) =>
    case Name(_) =>
    case Call(f, args) =>
      CodegenLemmas.CallText(f, args);
    case ArrayLit(es) =>
      CodegenLemmas.ArrayText(es);
    case Indexed(b, ix) =>
      CodegenLemmas.IndexedText(b, ix);
    case Binary(op, l, r) =>
      if op.IsEquality() {
        CodegenLemmas.EqualityText(op, l, r);
      } else if op == Pow {
        CodegenLemmas.PowText(l, r);
      } else {
        CodegenLemmas.ArithmeticText(op, l, r);
      }
    case BitNot(x) =>
      CodegenLemmas.BitNotText(x);
  }

  lemma ConstantStart(c: Const)
    ensures |ConstantText(c)| > 0 && StartsOperand(ConstantText(c)[0])
  {
    match c
    case CInt(i) =>
      if i >= 0 {
        var d := Json.NatText(i);
        assert ConstantText(c) == d && Json.IsDigit(d[0]);
      }
    case CStr(s) =>
      assert ConstantText(c) == Json.Quote(s);
      assert Json.Quote(s)[0] == '\"';
    case _ =>
  }

  // Regrouping the generated texts so that each step of the reader sees its prefix.

  lemma RegroupBinary(a: string, w: string, b: string, rest: string)
    ensures "(" + (a + " " + w + " " + b) + ")" + rest == "(" + (a + (" " + w + " " + (b + (")" + rest))))
  {
  }

  lemma RegroupCall(f: string, j: string, rest: string)
    ensures f + "(" + j + ")" + rest == f + ("(" + (j + [')'] + rest))
  {
  }

  lemma RegroupArray(j: string, rest: string)
    ensures "([" + j + "])" + rest == "(" + ("[" + (j + [']'] + (")" + rest)))
  {
  }

  lemma RegroupIndexed(b: string, j: string, rest: string)
    ensures "(" + b + "[" + j + "])" + rest == "(" + (b + ("[" + (j + [']'] + (")" + rest))))
  {
  }

  lemma RegroupPow(a: string, b: string, rest: string)
    ensures "(Math.pow(" + a + ", " + b + "))" + rest == "(" + ("Math.pow(" + (a + (", " + (b + (")" + (")" + rest))))))
  {
  }

  lemma RegroupBitNot(x: string, rest: string)
    ensures "(~" + x + ")" + rest == "(" + ("~" + (x + (")" + rest)))
  {
  }

  lemma RegroupParen(x: string, rest: string)
    ensures "(" + x + ")" + rest == "(" + (x + (")" + rest))
  {
  }

  lemma RegroupItem(t: string, j: string, close: char, rest: string)
    ensures t + ", " + j + [close] + rest == t + (", " + (j + [close] + rest))
  {
  }

  // The round trip, one lemma per form.

  /** Reading back the text of a node of the fragment gives the node, and stops where the text stops. */
  lemma {:induction false} RoundTrip(e: Expr, rest: string)
    requires Compilable(e) && InFragment(e) && Follows(rest)
    ensures Parse(Compile(e) + rest) == Some((e, rest))
    decreases e, 1
  {
    match e
    case Constant(c) => ConstantRoundTrip(c, rest);
    case Keyword(w) => KeywordRoundTrip(w, rest);
    case Name(n) => WordAlone(n, rest);
    case Call(f, args) => CallRoundTrip(f, args, rest);
    case ArrayLit(es) => ArrayRoundTrip(es, rest);
    case Indexed(b, ix) => IndexedRoundTrip(b, ix, rest);
    case Binary(op, l, r) =>
      if op.IsEquality() {
        EqualityRoundTrip(op, l, r, rest);
      } else if op == Pow {
        PowRoundTrip(l, r, rest);
      } else {
        ArithmeticRoundTrip(op, l, r, rest);
      }
    case BitNot(x) => BitNotRoundTrip(x, rest);
  }

  /** The same for the `compileExpression` text of a node, the form `==` and `!=` use. */
  lemma {:induction false} OperandRoundTrip(e: Expr, rest: string)
    requires Compilable(e) && InFragment(e) && Follows(rest)
    ensures Parse(CompileExpression(e) + rest) == Some((e, rest))
    decreases e, 2
  {
    var c := Compile(e);
    TextStart(e);
    if e.Constant? || e.Name? || c[0] == '(' {
      RoundTrip(e, rest);
    } else {
      assert CompileExpression(e) == "(" + c + ")";
      RoundTrip(e, ")" + rest);
      GroupClose(c + (")" + rest), e, rest);
      ParseOpen(c + (")" + rest));
      RegroupParen(c, rest);
      assert CompileExpression(e) + rest == "(" + (c + (")" + rest));
    }
  }

  lemma StringRoundTrip(v: string, rest: string)
    ensures Parse(Json.Quote(v) + rest) == Some((Constant(CStr(v)), rest))
  {
    Json.ReadQuote(v, rest);
  }

  lemma ConstantRoundTrip(c: Const, rest: string)
    requires Follows(rest)
    ensures Parse(Compile(Constant(c)) + rest) == Some((Constant(c), rest))
  {
    match c
    case CNull => WordAlone("null", rest);
    case CBool(b) =>
      if b { WordAlone("true", rest); } else { WordAlone("false", rest); }
    case CInt(i) => IntRoundTrip(i, rest);
    case CStr(v) => StringRoundTrip(v, rest);
  }

  lemma IntRoundTrip(i: int, rest: string)
    requires Follows(rest)
    ensures Parse(Json.IntText(i) + rest) == Some((Constant(CInt(i)), rest))
  {
    Json.ReadIntText(i, rest);
    var s := Json.IntText(i) + rest;
    if i >= 0 {
      assert s[0] == Json.NatText(i)[0];
    }
  }

  lemma KeywordRoundTrip(w: string, rest: string)
    requires Follows(rest)
    ensures Parse(Compile(Keyword(w)) + rest) == Some((Keyword(w), rest))
  {
    var q := Json.Quote(w);
    StringRoundTrip(w, ")" + rest);
    assert q[0] == '\"';
    GroupClose(q + (")" + rest), Constant(CStr(w)), rest);
    ParseOpen(q + (")" + rest));
    RegroupParen(q, rest);
    assert Compile(Keyword(w)) + rest == "(" + (q + (")" + rest));
  }

  lemma {:induction false} CallRoundTrip(f: string, args: seq<Expr>, rest: string)
    requires Compilable(Call(f, args)) && InFragment(Call(f, args)) && Follows(rest)
    ensures Parse(Compile(Call(f, args)) + rest) == Some((Call(f, args), rest))
    decreases Call(f, args), 0
  {
    var j := Join(CompileEach(args), ", ");
    CodegenLemmas.CallText(f, args);
    ListRoundTrip(args, ')', rest);
    WordCall(f, j + [')'] + rest, args, rest);
    RegroupCall(f, j, rest);
    assert Compile(Call(f, args)) + rest == f + ("(" + (j + [')'] + rest));
  }

  lemma {:induction false} ArrayRoundTrip(es: seq<Expr>, rest: string)
    requires Compilable(ArrayLit(es)) && InFragment(ArrayLit(es)) && Follows(rest)
    ensures Parse(Compile(ArrayLit(es)) + rest) == Some((ArrayLit(es), rest))
    decreases ArrayLit(es), 0
  {
    var j := Join(CompileEach(es), ", ");
    CodegenLemmas.ArrayText(es);
    ListRoundTrip(es, ']', ")" + rest);
    GroupArray(j + [']'] + (")" + rest), es, rest);
    ParseOpen("[" + (j + [']'] + (")" + rest)));
    RegroupArray(j, rest);
    assert Compile(ArrayLit(es)) + rest == "(" + ("[" + (j + [']'] + (")" + rest)));
  }

  lemma {:induction false} IndexedRoundTrip(b: Expr, ix: seq<Expr>, rest: string)
    requires Compilable(Indexed(b, ix)) && InFragment(Indexed(b, ix)) && Follows(rest)
    ensures Parse(Compile(Indexed(b, ix)) + rest) == Some((Indexed(b, ix), rest))
    decreases Indexed(b, ix), 0
  {
    var bt := Compile(b);
    var j := Join(CompileEach(ix), ", ");
    var u := j + [']'] + (")" + rest);
    CodegenLemmas.IndexedText(b, ix);
    TextStart(b);
    RoundTrip(b, "[" + u);
    ListRoundTrip(ix, ']', ")" + rest);
    GroupIndex(bt + ("[" + u), b, u, ix, rest);
    ParseOpen(bt + ("[" + u));
    RegroupIndexed(bt, j, rest);
    assert Compile(Indexed(b, ix)) + rest == "(" + (bt + ("[" + u));
  }

  lemma {:induction false} ArithmeticRoundTrip(op: BinOp, l: Expr, r: Expr, rest: string)
    requires op.IsArithmetic()
    requires Compilable(Binary(op, l, r)) && InFragment(Binary(op, l, r)) && Follows(rest)
    ensures Parse(Compile(Binary(op, l, r)) + rest) == Some((Binary(op, l, r), rest))
    decreases Binary(op, l, r), 0
  {
    var v := Compile(r) + (")" + rest);
    TextStart(l);
    assert (" " + OpText(op) + " " + v)[0] == ' ';
    RoundTrip(l, " " + OpText(op) + " " + v);
    RoundTrip(r, ")" + rest);
    ArithmeticOf(op, l, r, rest);
  }

  /** An arithmetic node reads back once both of its operands do. */
  lemma ArithmeticOf(op: BinOp, l: Expr, r: Expr, rest: string)
    requires op.IsArithmetic() && Compilable(l) && Compilable(r)
    requires |Compile(l)| > 0 && StartsOperand(Compile(l)[0])
    requires var v := Compile(r) + (")" + rest);
      Parse(Compile(l) + (" " + OpText(op) + " " + v)) == Some((l, " " + OpText(op) + " " + v)) &&
      Parse(v) == Some((r, ")" + rest))
    ensures Compilable(Binary(op, l, r))
    ensures Parse(Compile(Binary(op, l, r)) + rest) == Some((Binary(op, l, r), rest))
  {
    var lt, rt := Compile(l), Compile(r);
    var v := rt + (")" + rest);
    CodegenLemmas.ArithmeticText(op, l, r);
    GroupBinary(lt + (" " + OpText(op) + " " + v), l, op, v, r, rest);
    ParseOpen(lt + (" " + OpText(op) + " " + v));
    RegroupBinary(lt, OpText(op), rt, rest);
    assert Compile(Binary(op, l, r)) + rest == "(" + (lt + (" " + OpText(op) + " " + v));
  }

  lemma {:induction false} EqualityRoundTrip(op: BinOp, l: Expr, r: Expr, rest: string)
    requires op.IsEquality()
    requires Compilable(Binary(op, l, r)) && InFragment(Binary(op, l, r)) && Follows(rest)
    ensures Parse(Compile(Binary(op, l, r)) + rest) == Some((Binary(op, l, r), rest))
    decreases Binary(op, l, r), 0
  {
    var lt, rt := CompileExpression(l), CompileExpression(r);
    var v := rt + (")" + rest);
    CodegenLemmas.EqualityText(op, l, r);
    TextStart(l);
    OperandRoundTrip(l, " " + OpText(op) + " " + v);
    OperandRoundTrip(r, ")" + rest);
    GroupBinary(lt + (" " + OpText(op) + " " + v), l, op, v, r, rest);
    ParseOpen(lt + (" " + OpText(op) + " " + v));
    RegroupBinary(lt, OpText(op), rt, rest);
    assert Compile(Binary(op, l, r)) + rest == "(" + (lt + (" " + OpText(op) + " " + v));
  }

  lemma {:induction false} PowRoundTrip(l: Expr, r: Expr, rest: string)
    requires Compilable(Binary(Pow, l, r)) && InFragment(Binary(Pow, l, r)) && Follows(rest)
    ensures Parse(Compile(Binary(Pow, l, r)) + rest) == Some((Binary(Pow, l, r), rest))
    decreases Binary(Pow, l, r), 0
  {
    var lt, rt := Compile(l), Compile(r);
    var b := rt + (")" + (")" + rest));
    var a := lt + (", " + b);
    CodegenLemmas.PowText(l, r);
    RoundTrip(l, ", " + b);
    RoundTrip(r, ")" + (")" + rest));
    WordPow(a, l, b, r, ")" + rest);
    GroupClose("Math.pow(" + a, Binary(Pow, l, r), rest);
    ParseOpen("Math.pow(" + a);
    RegroupPow(lt, rt, rest);
    assert Compile(Binary(Pow, l, r)) + rest == "(" + ("Math.pow(" + a);
  }

  lemma {:induction false} BitNotRoundTrip(x: Expr, rest: string)
    requires Compilable(BitNot(x)) && InFragment(BitNot(x)) && Follows(rest)
    ensures Parse(Compile(BitNot(x)) + rest) == Some((BitNot(x), rest))
    decreases BitNot(x), 0
  {
    var xt := Compile(x);
    CodegenLemmas.BitNotText(x);
    RoundTrip(x, ")" + rest);
    GroupBitNot(xt + (")" + rest), x, rest);
    ParseOpen("~" + (xt + (")" + rest)));
    RegroupBitNot(xt, rest);
    assert Compile(BitNot(x)) + rest == "(" + ("~" + (xt + (")" + rest)));
  }

  /** A list of operands separated by `", "` and closed by `close` reads back as the list. */
  lemma {:induction false} ListRoundTrip(es: seq<Expr>, close: char, rest: string)
    requires close == ')' || close == ']'
    requires forall i :: 0 <= i < |es| ==> Compilable(es[i]) && InFragment(es[i])
    ensures ParseList(Join(CompileEach(es), ", ") + [close] + rest, close) == Some((es, rest))
    decreases es, 2
  {
    var s := Join(CompileEach(es), ", ") + [close] + rest;
    if es == [] {
      assert s == [close] + rest;
      assert s[1..] == rest;
    } else {
      TextStart(es[0]);
      ItemsRoundTrip(es, close, rest);
      assert s[0] == Compile(es[0])[0];
    }
  }

  lemma {:induction false} ItemsRoundTrip(es: seq<Expr>, close: char, rest: string)
    requires close == ')' || close == ']'
    requires |es| > 0
    requires forall i :: 0 <= i < |es| ==> Compilable(es[i]) && InFragment(es[i])
    ensures ParseItems(Join(CompileEach(es), ", ") + [close] + rest, close) == Some((es, rest))
    decreases es, 1
  {
    if |es| == 1 {
      RoundTrip(es[0], [close] + rest);
      ItemsOne(CompileEach(es), es[0], close, rest);
      assert [es[0]] == es;
    } else {
      ItemsRoundTripCons(es, close, rest);
    }
  }

  lemma {:induction false} ItemsRoundTripCons(es: seq<Expr>, close: char, rest: string)
    requires close == ')' || close == ']'
    requires |es| > 1
    requires forall i :: 0 <= i < |es| ==> Compilable(es[i]) && InFragment(es[i])
    ensures ParseItems(Join(CompileEach(es), ", ") + [close] + rest, close) == Some((es, rest))
    decreases es, 0
  {
    var v := Join(CompileEach(es[1..]), ", ") + [close] + rest;
    CommaFollows(v);
    RoundTrip(es[0], ", " + v);
    ItemsRoundTrip(es[1..], close, rest);
    ItemsConsOf(es, close, rest);
  }

  lemma CommaFollows(v: string)
    ensures Follows(", " + v)
  {
  }

  /** The list reads back once its head and its tail do. */
  lemma ItemsConsOf(es: seq<Expr>, close: char, rest: string)
    requires close == ')' || close == ']'
    requires |es| > 1 && forall i :: 0 <= i < |es| ==> Compilable(es[i])
    requires var v := Join(CompileEach(es[1..]), ", ") + [close] + rest;
      Parse(Compile(es[0]) + (", " + v)) == Some((es[0], ", " + v)) &&
      ParseItems(v, close) == Some((es[1..], rest))
    ensures ParseItems(Join(CompileEach(es), ", ") + [close] + rest, close) == Some((es, rest))
  {
    var t0, j := Compile(es[0]), Join(CompileEach(es[1..]), ", ");
    var v := j + [close] + rest;
    JoinCompileEach(es);
    ItemsMore(t0 + (", " + v), es[0], close, v, es[1..], rest);
    RegroupItem(t0, j, close, rest);
    assert [es[0]] + es[1..] == es;
  }

  lemma JoinCompileEach(es: seq<Expr>)
    requires |es| > 1 && forall i :: 0 <= i < |es| ==> Compilable(es[i])
    ensures Join(CompileEach(es), ", ") == Compile(es[0]) + ", " + Join(CompileEach(es[1..]), ", ")
  {
    CompileEachCons(es);
  }

  lemma CompileEachCons(es: seq<Expr>)
    requires |es| > 0 && forall i :: 0 <= i < |es| ==> Compilable(es[i])
    ensures CompileEach(es)[0] == Compile(es[0])
    ensures CompileEach(es)[1..] == CompileEach(es[1..])
  {
  }

  lemma ItemsOne(ts: seq<string>, x: Expr, close: char, rest: string)
    requires |ts| == 1
    requires Parse(ts[0] + ([close] + rest)) == Some((x, [close] + rest))
    ensures ParseItems(Join(ts, ", ") + [close] + rest, close) == Some(([x], rest))
  {
    assert Join(ts, ", ") == ts[0];
    ItemsLast(ts[0] + ([close] + rest), x, close, rest);
    assert Join(ts, ", ") + [close] + rest == ts[0] + ([close] + rest);
  }

  /** The code generator is injective on the fragment. */
  lemma CompileInjective(e1: Expr, e2: Expr)
    requires Compilable(e1) && InFragment(e1)
    requires Compilable(e2) && InFragment(e2)
    requires Compile(e1) == Compile(e2)
    ensures e1 == e2
  {
    RoundTrip(e1, []);
    RoundTrip(e2, []);
  }
}

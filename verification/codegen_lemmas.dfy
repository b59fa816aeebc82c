/** Properties of the generated text, per operator family and per composite form. */
module CodegenLemmas {
  import opened Wrappers
  import opened Ast
  import opened Codegen
  import Json

  // One unfolding step of `Compile` per node family. Proofs about particular shapes go
  // through these rather than unfold `Compile` on a symbolic node themselves.

  lemma ArithmeticText(op: BinOp, l: Expr, r: Expr)
    requires op.IsArithmetic() && Compilable(l) && Compilable(r)
    ensures Compilable(Binary(op, l, r))
    ensures Compile(Binary(op, l, r)) == "(" + (Compile(l) + " " + OpText(op) + " " + Compile(r)) + ")"
  {
    assert Compile(Binary(op, l, r)) == "(" + Compile(l) + " " + OpText(op) + " " + Compile(r) + ")";
    Parenthesised(Compile(l), OpText(op), Compile(r));
  }

  /** Moving the parentheses of `(a w b)` out of the concatenation. */
  lemma Parenthesised(a: string, w: string, b: string)
    ensures "(" + a + " " + w + " " + b + ")" == "(" + (a + " " + w + " " + b) + ")"
  {
  }

  lemma EqualityText(op: BinOp, l: Expr, r: Expr)
    requires op.IsEquality() && Compilable(l) && Compilable(r)
    ensures Compilable(Binary(op, l, r))
    ensures Compile(Binary(op, l, r))
         == "(" + (CompileExpression(l) + " " + OpText(op) + " " + CompileExpression(r)) + ")"
  {
    var L, R := Operand(l, Compile(l)), Operand(r, Compile(r));
    assert Compile(Binary(op, l, r)) == "(" + L + " " + OpText(op) + " " + R + ")";
    Parenthesised(L, OpText(op), R);
  }

  lemma ComparisonText(op: BinOp, l: Expr, r: Expr)
    requires op.IsComparison() && Compilable(l) && Compilable(r)
    ensures Compilable(Binary(op, l, r))
    ensures Compile(Binary(op, l, r)) == CompileExpression(l) + " " + OpText(op) + " " + CompileExpression(r)
  {
  }

  lemma PowText(l: Expr, r: Expr)
    requires Compilable(l) && Compilable(r)
    ensures Compilable(Binary(Pow, l, r))
    ensures Compile(Binary(Pow, l, r)) == "(Math.pow(" + Compile(l) + ", " + Compile(r) + "))"
  {
  }

  lemma BitNotText(x: Expr)
    requires Compilable(x)
    ensures Compilable(BitNot(x))
    ensures Compile(BitNot(x)) == "(~" + Compile(x) + ")"
  {
  }

  lemma MemberText(t: Expr, n: string)
    requires Compilable(t)
    ensures Compilable(QualifiedName(t, n))
    ensures Compile(QualifiedName(t, n)) == Compile(t) + "." + n
  {
  }

  lemma CallText(f: string, args: seq<Expr>)
    requires forall i :: 0 <= i < |args| ==> Compilable(args[i])
    ensures Compilable(Call(f, args))
    ensures Compile(Call(f, args)) == f + "(" + Join(CompileEach(args), ", ") + ")"
  {
  }

  lemma QualifiedCallText(t: Expr, args: seq<Expr>)
    requires Compilable(t) && forall i :: 0 <= i < |args| ==> Compilable(args[i])
    ensures Compilable(QualifiedCall(t, args))
    ensures Compile(QualifiedCall(t, args)) == Compile(t) + "(" + Join(CompileEach(args), "") + ")"
  {
  }

  lemma ArrayText(es: seq<Expr>)
    requires forall i :: 0 <= i < |es| ==> Compilable(es[i])
    ensures Compilable(ArrayLit(es))
    ensures Compile(ArrayLit(es)) == "([" + Join(CompileEach(es), ", ") + "])"
  {
  }

  lemma IndexedText(b: Expr, ix: seq<Expr>)
    requires Compilable(b) && forall i :: 0 <= i < |ix| ==> Compilable(ix[i])
    ensures Compilable(Indexed(b, ix))
    ensures Compile(Indexed(b, ix)) == "(" + Compile(b) + "[" + Join(CompileEach(ix), ", ") + "])"
  {
  }

  lemma AssignText(l: Expr, r: Expr)
    requires Compilable(l) && Compilable(r)
    ensures Compilable(Assign(l, r))
    ensures Compile(Assign(l, r)) == Compile(l) + " = " + AsStatement(Compile(r))
  {
  }

  lemma DefExprText(f: string, ps: seq<string>, body: Expr)
    requires Compilable(body) && !body.Composite?
    ensures Compilable(Def(f, ps, body))
    ensures Compile(Def(f, ps, body)) == "function " + f + "(" + Join(ps, ", ") + ")" + (" { return " + Compile(body) + " }")
  {
  }

  lemma DefBlock(f: string, ps: seq<string>, body: seq<Expr>)
    requires forall i :: 0 <= i < |body| ==> Compilable(body[i])
    ensures Compilable(Def(f, ps, Composite(body)))
    ensures Compile(Def(f, ps, Composite(body)))
         == "function " + f + "(" + Join(ps, ", ") + ")" + (" " + Block(CompileEach(body), true))
  {
    assert Compilable(Composite(body));
  }

  lemma WrappedText(m: string)
    ensures Wrapped("(" + m + ")")
    ensures AsStatement("(" + m + ")") == m
  {
    assert ("(" + m + ")")[1..|m| + 1] == m;
  }

  lemma {:induction false} JoinSnoc(parts: seq<string>, last: string, sep: string)
    ensures Join(parts + [last], sep) == if |parts| == 0 then last else Join(parts, sep) + sep + last
  {
    if |parts| == 0 {
      assert parts + [last] == [last];
    } else if |parts| == 1 {
      assert (parts + [last])[1..] == [last];
    } else {
      assert (parts + [last])[1..] == parts[1..] + [last];
      JoinSnoc(parts[1..], last, sep);
    }
  }

  /**
    Arithmetic, logical and bitwise operators compile to `(l op r)` on the raw operand
    texts, so at statement level the text is exactly `l op r`.
  */
  lemma StatementOfArithmetic(op: BinOp, l: Expr, r: Expr)
    requires op.IsArithmetic() && Compilable(l) && Compilable(r)
    ensures Compilable(Binary(op, l, r))
    ensures Wrapped(Compile(Binary(op, l, r)))
    ensures AsStatement(Compile(Binary(op, l, r))) == Compile(l) + " " + OpText(op) + " " + Compile(r)
  {
    ArithmeticText(op, l, r);
    WrappedText(Compile(l) + " " + OpText(op) + " " + Compile(r));
  }

  /**
    `==` and `!=` compile to `(l op r)` on the `compileExpression` texts of the operands,
    so at statement level the text is exactly `l op r`.
  */
  lemma StatementOfEquality(op: BinOp, l: Expr, r: Expr)
    requires op.IsEquality() && Compilable(l) && Compilable(r)
    ensures Compilable(Binary(op, l, r))
    ensures Wrapped(Compile(Binary(op, l, r)))
    ensures AsStatement(Compile(Binary(op, l, r)))
         == CompileExpression(l) + " " + OpText(op) + " " + CompileExpression(r)
  {
    EqualityText(op, l, r);
    WrappedText(CompileExpression(l) + " " + OpText(op) + " " + CompileExpression(r));
  }

  /**
    Comparisons get no parentheses of their own: between names or constants whose text
    does not start with `(`, the text starts with the left operand and `asStatement`
    leaves it alone.
  */
  lemma ComparisonUnwrapped(op: BinOp, l: Expr, r: Expr)
    requires op.IsComparison()
    requires l.Name? || l.Constant?
    requires r.Name? || r.Constant?
    requires |Compile(l)| > 0 && Compile(l)[0] != '('
    ensures Compilable(Binary(op, l, r))
    ensures Compile(Binary(op, l, r)) == Compile(l) + " " + OpText(op) + " " + Compile(r)
    ensures !Wrapped(Compile(Binary(op, l, r)))
    ensures AsStatement(Compile(Binary(op, l, r))) == Compile(Binary(op, l, r))
  {
    ComparisonText(op, l, r);
  }

  /**
    `asStatement` strips a leading `(` and a trailing `)` even when they do not match: a
    comparison of two parenthesized operands, assigned to a name, loses the opening
    parenthesis of the left operand and the closing one of the right operand.
  */
  lemma AsStatementUnmatchedParens(x: string, op: BinOp, l: Expr, r: Expr, L: string, R: string)
    requires op.IsComparison() && Compilable(l) && Compilable(r)
    requires !l.Name? && !l.Constant? && !r.Name? && !r.Constant?
    requires Compile(l) == "(" + L + ")" && Compile(r) == "(" + R + ")"
    ensures Compilable(Assign(Name(x), Binary(op, l, r)))
    ensures Compile(Assign(Name(x), Binary(op, l, r))) == x + " = " + (L + ") " + OpText(op) + " (" + R)
  {
    ComparisonText(op, l, r);
    var m := L + ") " + OpText(op) + " (" + R;
    assert CompileExpression(l) == "(" + L + ")" && CompileExpression(r) == "(" + R + ")";
    UnmatchedRegroup(L, OpText(op), R);
    WrappedText(m);
    assert Compilable(Name(x)) && Compile(Name(x)) == x;
    AssignText(Name(x), Binary(op, l, r));
  }

  lemma UnmatchedRegroup(L: string, w: string, R: string)
    ensures "(" + L + ")" + " " + w + " " + ("(" + R + ")") == "(" + (L + ") " + w + " (" + R) + ")"
  {
  }

  /** The same, for `x = (a + b) < (c + d)`: the text is `x = a + b) < (c + d`. */
  lemma AsStatementOfSums(x: string, a: string, b: string, c: string, d: string)
    ensures (var sums := Binary(Less, Binary(Add, Name(a), Name(b)), Binary(Add, Name(c), Name(d)));
             Compilable(Assign(Name(x), sums))
             && Compile(Assign(Name(x), sums)) == x + " = " + ((a + " + " + b) + ") < (" + (c + " + " + d)))
  {
    var ab, cd := Binary(Add, Name(a), Name(b)), Binary(Add, Name(c), Name(d));
    SumText(a, b);
    SumText(c, d);
    AsStatementUnmatchedParens(x, Less, ab, cd, a + " + " + b, c + " + " + d);
    LessBetween(a + " + " + b, c + " + " + d);
  }

  lemma LessBetween(L: string, R: string)
    ensures L + ") " + OpText(Less) + " (" + R == L + ") < (" + R
  {
    assert OpText(Less) == "<";
  }

  lemma SumText(a: string, b: string)
    ensures Compilable(Binary(Add, Name(a), Name(b)))
    ensures Compile(Binary(Add, Name(a), Name(b))) == "(" + (a + " + " + b) + ")"
  {
    assert Compilable(Name(a)) && Compile(Name(a)) == a;
    assert Compilable(Name(b)) && Compile(Name(b)) == b;
    ArithmeticText(Add, Name(a), Name(b));
    assert a + " " + "+" + " " + b == a + " + " + b;
  }

  /** A constant compiles to its JSON text: `42` and `"foo"`; a keyword adds parentheses. */
  lemma ConstantTexts()
    ensures Compile(Constant(CInt(42))) == "42"
    ensures Compile(Constant(CInt(-7))) == "-7"
    ensures Compile(Constant(CStr("foo"))) == "\"foo\""
    ensures Compile(Constant(CNull)) == "null"
    ensures Compile(Keyword("foo")) == "(\"foo\")"
  {
    Json.QuotePlain("foo");
    assert Json.NatText(42) == Json.NatText(4) + [Json.DigitChar(2)];
  }

  lemma Join2(x: string, y: string, sep: string)
    ensures Join([x, y], sep) == x + sep + y
  {
    assert [x, y][1..] == [y];
  }

  lemma CompileEach2(a: Expr, b: Expr)
    requires Compilable(a) && Compilable(b)
    ensures CompileEach([a, b]) == [Compile(a), Compile(b)]
  {
  }

  /** Free calls, array literals and indexing keep their children in order, separated by `", "`. */
  lemma ListForms(f: string, e: Expr, a: Expr, b: Expr)
    requires Compilable(e) && Compilable(a) && Compilable(b)
    ensures Compilable(Call(f, [a, b])) && Compilable(ArrayLit([a, b])) && Compilable(Indexed(e, [a, b]))
    ensures Compile(Call(f, [a, b])) == f + "(" + (Compile(a) + ", " + Compile(b)) + ")"
    ensures Compile(ArrayLit([a, b])) == "([" + (Compile(a) + ", " + Compile(b)) + "])"
    ensures Compile(Indexed(e, [a, b])) == "(" + Compile(e) + "[" + (Compile(a) + ", " + Compile(b)) + "])"
  {
    CompileEach2(a, b);
    Join2(Compile(a), Compile(b), ", ");
    CallText(f, [a, b]);
    ArrayText([a, b]);
    IndexedText(e, [a, b]);
  }

  /**
    A function header lists its parameters in order, separated by `", "`: no parameters
    give `()`, and one more parameter appends `, p` (or just `p` to an empty list).
  */
  lemma DefHeader(f: string, ps: seq<string>, p: string, body: Expr)
    requires Compilable(body) && !body.Composite?
    ensures Compilable(Def(f, [], body)) && Compilable(Def(f, ps + [p], body))
    ensures Compile(Def(f, [], body)) == "function " + f + "()" + (" { return " + Compile(body) + " }")
    ensures Compile(Def(f, ps + [p], body))
         == "function " + f + "(" + (if ps == [] then p else Join(ps, ", ") + ", " + p) + ")" + (" { return " + Compile(body) + " }")
  {
    JoinSnoc(ps, p, ", ");
    DefExprText(f, [], body);
    DefExprText(f, ps + [p], body);
  }

  /** A one-expression body is emitted as `{ return e }`: `def inc(a) a + 1 end`. */
  lemma DefIncrement(f: string, p: string)
    ensures Compilable(Def(f, [p], Binary(Add, Name(p), Constant(CInt(1)))))
    ensures Compile(Def(f, [p], Binary(Add, Name(p), Constant(CInt(1)))))
         == "function " + f + "(" + p + ")" + (" { return " + ("(" + p + " + " + "1" + ")") + " }")
  {
    var one := Constant(CInt(1));
    assert Compilable(Name(p)) && Compile(Name(p)) == p;
    SmallInts();
    ArithmeticText(Add, Name(p), one);
    assert OpText(Add) == "+";
    DefExprText(f, [p], Binary(Add, Name(p), one));
  }

  /**
    The qualified-call separator never appears: `o.m(1, 2)` and `o.m(12)` compile to the
    same text.
  */
  lemma QualifiedCallArgsRunTogether()
    ensures (var m := QualifiedName(Name("o"), "m");
             Compile(QualifiedCall(m, [Constant(CInt(1)), Constant(CInt(2))]))
             == Compile(QualifiedCall(m, [Constant(CInt(12))]))
             == "o.m(12)")
  {
    var m := QualifiedName(Name("o"), "m");
    var one, two, twelve := Constant(CInt(1)), Constant(CInt(2)), Constant(CInt(12));
    assert Compilable(Name("o")) && Compile(Name("o")) == "o";
    MemberText(Name("o"), "m");
    ArgumentsRunTogether();
    QualifiedCallText(m, [one, two]);
    QualifiedCallText(m, [twelve]);
  }

  /** The argument texts of `o.m(1, 2)` and of `o.m(12)`, joined with the empty separator. */
  lemma ArgumentsRunTogether()
    ensures Join(CompileEach([Constant(CInt(1)), Constant(CInt(2))]), "") == "12"
    ensures Join(CompileEach([Constant(CInt(12))]), "") == "12"
  {
    SmallInts();
    CompileEach2(Constant(CInt(1)), Constant(CInt(2)));
    Join2("1", "2", "");
    assert CompileEach([Constant(CInt(12))]) == ["12"];
  }

  /** The texts of the small integer constants used in the examples. */
  lemma SmallInts()
    ensures Compile(Constant(CInt(1))) == "1" && Compile(Constant(CInt(2))) == "2"
    ensures Compile(Constant(CInt(12))) == "12"
  {
    assert Json.NatText(12) == Json.NatText(1) + [Json.DigitChar(2)];
  }

  /**
    A composite gets braces exactly when it has more than one child or `useret` is set:
    a braced block starts with `{ ` and ends in ` }`, an unbraced one is empty or ends in `;`.
  */
  lemma BlockBraces(texts: seq<string>, useret: bool)
    ensures var r := Block(texts, useret);
            (|texts| > 1 || useret) <==> (|r| > 0 && r[|r| - 1] == '}')
    ensures var r := Block(texts, useret);
            (|texts| > 1 || useret) ==> |r| >= 4 && r[..2] == "{ " && r[|r| - 2..] == " }"
  {
    if |texts| == 1 && !useret {
      assert Block(texts, useret) == AsStatement(texts[0]) + ";";
    }
  }

  /** Without `useret`, a single child is emitted as its statement text followed by `;`, with no braces. */
  lemma BlockSingle(t: string)
    ensures Block([t], false) == AsStatement(t) + ";"
  {
  }

  /**
    With `useret`, every child but the last is a plain statement, and only the last one
    is preceded by `return `.
  */
  lemma BlockReturnsLast(texts: seq<string>, last: string)
    ensures Block(texts + [last], true)
         == "{ " + Join(BlockStatements(texts, false), " ") + (if |texts| > 0 then " " else "")
            + ("return " + AsStatement(last) + ";") + " }"
  {
    var all := BlockStatements(texts + [last], true);
    var pre, fin := BlockStatements(texts, false), "return " + AsStatement(last) + ";";
    LastStatementReturns(texts, last);
    JoinSnoc(pre, fin, " ");
  }

  lemma LastStatementReturns(texts: seq<string>, last: string)
    ensures BlockStatements(texts + [last], true)
         == BlockStatements(texts, false) + ["return " + AsStatement(last) + ";"]
  {
    var all := BlockStatements(texts + [last], true);
    var pre := BlockStatements(texts, false);
    assert forall i :: 0 <= i < |texts| ==> all[i] == pre[i];
  }

  /** Without `useret`, no child is preceded by `return `: the block is the plain statements. */
  lemma BlockPlain(texts: seq<string>)
    requires |texts| > 1
    ensures Block(texts, false) == "{ " + Join(seq(|texts|, i requires 0 <= i < |texts| => AsStatement(texts[i]) + ";"), " ") + " }"
  {
    var plain := seq(|texts|, i requires 0 <= i < |texts| => AsStatement(texts[i]) + ";");
    assert forall i :: 0 <= i < |texts| ==> BlockStatements(texts, false)[i] == plain[i];
    assert BlockStatements(texts, false) == plain;
  }

  lemma CompileEachSnoc(xs: seq<Expr>, x: Expr)
    requires forall i :: 0 <= i < |xs| ==> Compilable(xs[i])
    requires Compilable(x)
    ensures forall i :: 0 <= i < |xs + [x]| ==> Compilable((xs + [x])[i])
    ensures CompileEach(xs + [x]) == CompileEach(xs) + [Compile(x)]
  {
    assert forall i :: 0 <= i < |xs + [x]| ==> Compilable((xs + [x])[i]);
  }

  /** A function whose body is a composite returns the value of its last statement. */
  lemma DefCompositeBody(f: string, ps: seq<string>, xs: seq<Expr>, x: Expr)
    requires forall i :: 0 <= i < |xs| ==> Compilable(xs[i])
    requires Compilable(x)
    ensures Compilable(Def(f, ps, Composite(xs + [x])))
    ensures Compile(Def(f, ps, Composite(xs + [x])))
         == "function " + f + "(" + Join(ps, ", ") + ")" + (" " + ("{ " + Join(BlockStatements(CompileEach(xs), false), " ")
            + (if |xs| > 0 then " " else "") + ("return " + AsStatement(Compile(x)) + ";") + " }"))
  {
    CompileEachSnoc(xs, x);
    DefBlock(f, ps, xs + [x]);
    BlockReturnsLast(CompileEach(xs), Compile(x));
  }
}

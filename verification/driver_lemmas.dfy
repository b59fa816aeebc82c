/**
  Properties of the top-level compiler: the declared names are hoisted once each, in
  order of first declaration, and the output of small programs.
*/
module DriverLemmas {
  import opened Wrappers
  import opened Ast
  import opened Codegen
  import opened Driver
  import CodegenLemmas
  import Json

  /** A statement that declares the given non-empty name. */
  predicate Declares(stmts: seq<Expr>, n: string) {
    n != "" && exists i :: 0 <= i < |stmts| && DeclaredName(stmts[i]) == Some(n)
  }

  /** The hoisted names are exactly the non-empty names some statement declares, each once. */
  lemma {:induction false} HoistedNames(stmts: seq<Expr>)
    ensures NoDuplicates(Hoisted(stmts))
    ensures forall n :: n in Hoisted(stmts) <==> Declares(stmts, n)
    decreases |stmts|
  {
    if stmts != [] {
      var init, last := stmts[..|stmts| - 1], stmts[|stmts| - 1];
      HoistedNames(init);
      AddNameEffect(Hoisted(init), DeclaredName(last));
      forall n ensures n in Hoisted(stmts) <==> Declares(stmts, n) {
        if Declares(stmts, n) {
          var i :| 0 <= i < |stmts| && DeclaredName(stmts[i]) == Some(n);
          if i < |stmts| - 1 {
            assert init[i] == stmts[i];
            assert Declares(init, n);
          } else {
            assert DeclaredName(last) == Some(n);
          }
        }
        if Declares(init, n) {
          var i :| 0 <= i < |init| && DeclaredName(init[i]) == Some(n);
          assert stmts[i] == init[i];
        }
      }
    }
  }

  /**
    The names collected after the first `k` statements are a prefix of the final list:
    the list only grows at its end, so names appear in order of first declaration.
  */
  lemma {:induction false} HoistedGrows(stmts: seq<Expr>, k: nat)
    requires k <= |stmts|
    ensures Hoisted(stmts[..k]) <= Hoisted(stmts)
    decreases |stmts| - k
  {
    if k < |stmts| {
      HoistedGrows(stmts, k + 1);
      HoistedStep(stmts, k);
      AddNameEffect(Hoisted(stmts[..k]), DeclaredName(stmts[k]));
      assert stmts[..|stmts|] == stmts;
    } else {
      assert stmts[..k] == stmts;
    }
  }

  /** A name declared again later is not declared twice: the later statement adds nothing. */
  lemma RedeclarationAddsNothing(stmts: seq<Expr>, k: nat)
    requires k < |stmts| && DeclaredName(stmts[k]).Some?
    requires Declares(stmts[..k], DeclaredName(stmts[k]).value)
    ensures Hoisted(stmts[..k + 1]) == Hoisted(stmts[..k])
  {
    HoistedNames(stmts[..k]);
    HoistedStep(stmts, k);
  }

  /** The preamble is `var n;` for each name, separated by spaces, with a trailing space. */
  lemma {:induction false} PreambleDeclarations(names: seq<string>)
    ensures Preamble(names) ==
      Join(seq(|names|, i requires 0 <= i < |names| => "var " + names[i] + ";"), " ") + (if names == [] then "" else " ")
    decreases |names|
  {
    if names != [] {
      var init := names[..|names| - 1];
      var ds := seq(|names|, i requires 0 <= i < |names| => "var " + names[i] + ";");
      var di := seq(|init|, i requires 0 <= i < |init| => "var " + init[i] + ";");
      PreambleDeclarations(init);
      assert ds == di + ["var " + names[|names| - 1] + ";"];
      CodegenLemmas.JoinSnoc(di, "var " + names[|names| - 1] + ";", " ");
    }
  }

  /** No statements, no output. */
  lemma EmptyProgram()
    ensures Program([]) == ""
  {
  }

  /** Every statement's text ends in `;` or `}`, and the last character of the output is one of them. */
  lemma ProgramEnds(stmts: seq<Expr>)
    requires |stmts| > 0 && AllCompilable(stmts)
    ensures var p := Program(stmts); |p| > 0 && (p[|p| - 1] == ';' || p[|p| - 1] == '}')
  {
    BodyStep(stmts, |stmts| - 1);
    assert stmts[..|stmts|] == stmts;
  }

  /** A program of one statement. */
  lemma ProgramOfOne(x: Expr)
    requires Compilable(x)
    ensures AllCompilable([x])
    ensures Program([x]) == Preamble(AddName([], DeclaredName(x))) + Terminated(Compile(x))
  {
    assert [x][..0] == [];
    assert Hoisted([x]) == AddName([], DeclaredName(x));
    assert CompileEach([x]) == [Compile(x)];
    assert Statements([Compile(x)]) == [Terminated(Compile(x))];
  }

  /** The names of two statements, the second one's added after the first one's. */
  lemma HoistedOfTwo(x: Expr, y: Expr)
    ensures Hoisted([x, y]) == AddName(AddName([], DeclaredName(x)), DeclaredName(y))
  {
    assert [x, y][..1] == [x];
    assert [x][..0] == [];
    assert Hoisted([x]) == AddName([], DeclaredName(x));
  }

  /** The code of two statements: each terminated, a space between them. */
  lemma BodyOfTwo(x: Expr, y: Expr)
    requires Compilable(x) && Compilable(y)
    ensures AllCompilable([x, y])
    ensures Body([x, y]) == Terminated(Compile(x)) + " " + Terminated(Compile(y))
  {
    CodegenLemmas.CompileEach2(x, y);
    var tx, ty := Terminated(Compile(x)), Terminated(Compile(y));
    assert Statements([Compile(x), Compile(y)]) == [tx, ty];
    CodegenLemmas.Join2(tx, ty, " ");
  }

  /** A constant's text never starts with `(` and never ends in `;` or `}`. */
  lemma ConstantTextShape(c: Const)
    ensures var t := ConstantText(c);
      |t| > 0 && t[0] != '(' && t[|t| - 1] != ';' && t[|t| - 1] != '}'
  {
    match c
    case CInt(i) =>
      var d := Json.NatText(if i < 0 then -i else i);
      assert Json.IsDigit(d[|d| - 1]);
    case CStr(s) =>
    case _ =>
  }

  /** A constant statement is its JSON text followed by `;`. */
  lemma ConstantProgram(c: Const)
    ensures Program([Constant(c)]) == ConstantText(c) + ";"
  {
    ProgramOfOne(Constant(c));
    ConstantTextShape(c);
  }

  lemma ConstantPrograms()
    ensures Program([Constant(CInt(42))]) == "42;"
    ensures Program([Constant(CStr("foo"))]) == "\"foo\";"
  {
    CodegenLemmas.ConstantTexts();
    ConstantProgram(CInt(42));
    ConstantProgram(CStr("foo"));
  }

  /** A call of a function on a constant: no declaration, the call text and `;`. */
  lemma CallProgram(f: string, c: Const)
    ensures Program([Call(f, [Constant(c)])]) == f + "(" + ConstantText(c) + ");"
  {
    var arg := Constant(c);
    assert CompileEach([arg]) == [ConstantText(c)] by {
      assert [arg][1..] == [];
    }
    CodegenLemmas.CallText(f, [arg]);
    ProgramOfOne(Call(f, [arg]));
  }

  /** A program of two statements: the names of both, then their terminated code separated by a space. */
  lemma ProgramOfTwo(x: Expr, y: Expr)
    requires Compilable(x) && Compilable(y)
    ensures AllCompilable([x, y])
    ensures Program([x, y]) ==
      Preamble(AddName(AddName([], DeclaredName(x)), DeclaredName(y))) +
      (Terminated(Compile(x)) + " " + Terminated(Compile(y)))
  {
    BodyOfTwo(x, y);
    HoistedOfTwo(x, y);
  }

  /**
    A name, an assignment or a definition of a class or module contributes a name;
    constants, keywords and calls do not.
  */
  lemma StatementNames(n: string, l: Expr, r: Expr, c: Const, f: string, args: seq<Expr>, sup: Option<string>)
    ensures DeclaredName(Name(n)) == Some(n)
    ensures DeclaredName(ClassDef(n, sup, r)) == Some(n) && DeclaredName(ModuleDef(n, r)) == Some(n)
    ensures DeclaredName(Assign(l, r)) == DeclaredName(l)
    ensures DeclaredName(Constant(c)) == None && DeclaredName(Keyword(n)) == None
    ensures DeclaredName(Call(f, args)) == None
  {
  }

  /**
    A top-level operator statement is not passed through `asStatement`: it keeps its
    outer parentheses and gets a `;` after them.
  */
  lemma OperatorStatementKeepsParens(op: BinOp, l: Expr, r: Expr)
    requires op.IsArithmetic() && Compilable(l) && Compilable(r)
    ensures Compilable(Binary(op, l, r))
    ensures Program([Binary(op, l, r)]) == "(" + (Compile(l) + " " + OpText(op) + " " + Compile(r)) + ")" + ";"
  {
    CodegenLemmas.ArithmeticText(op, l, r);
    ProgramOfOne(Binary(op, l, r));
  }
}

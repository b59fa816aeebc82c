/**
  The node catalogue of the language (lib/expressions.js): one constructor per expression
  class, and the capabilities a node has or lacks (`compile`, `getName`, `getFunctionName`,
  `getFunctionNames`) as total functions over the closed variant.
*/
module Ast {
  import opened Wrappers

  /** A literal the parser hands to `ConstantExpression`; `nil`, `true` and `false` become constants too. */
  datatype Const = CNull | CBool(b: bool) | CInt(i: int) | CStr(s: string)

  /** The binary operator classes of the catalogue. */
  datatype BinOp =
    | Eq | NotEq
    | Less | Greater | LessEq | GreaterEq
    | Compare
    | Add | Sub | Mul | Div | Mod | Pow
    | And | Or
    | BitAnd | BitOr | BitXor | Shl | Shr
  {
    /** `==` and `!=`: wrapped in parentheses, operands through `compileExpression`. */
    predicate IsEquality() {
      this == Eq || this == NotEq
    }

    /** `<`, `>`, `<=`, `>=`: operands through `compileExpression`, no outer parentheses. */
    predicate IsComparison() {
      this == Less || this == Greater || this == LessEq || this == GreaterEq
    }

    /** Arithmetic (except power), logical and bitwise operators: raw operands inside parentheses. */
    predicate IsArithmetic() {
      !IsEquality() && !IsComparison() && this != Compare && this != Pow
    }
  }

  /** The operator as it appears in generated code. */
  function OpText(op: BinOp): string {
    match op
    case Eq => "=="
    case NotEq => "!="
    case Less => "<"
    case Greater => ">"
    case LessEq => "<="
    case GreaterEq => ">="
    case Compare => "<=>"
    case Add => "+"
    case Sub => "-"
    case Mul => "*"
    case Div => "/"
    case Mod => "%"
    case Pow => "Math.pow"   // never between operands: a power is emitted as a call
    case And => "&&"
    case Or => "||"
    case BitAnd => "&"
    case BitOr => "|"
    case BitXor => "^"
    case Shl => "<<"
    case Shr => ">>"
  }

  datatype Expr =
    | Constant(value: Const)
    | Keyword(word: string)
    | Name(name: string)
    | InstanceVar(name: string)
    | ClassVar(name: string)
    | GlobalVar(name: string)
    | QualifiedName(target: Expr, name: string)
    | Call(callee: string, args: seq<Expr>)
    | QualifiedCall(target: Expr, args: seq<Expr>)
    | ArrayLit(elems: seq<Expr>)
    | Indexed(base: Expr, indices: seq<Expr>)
    | Def(name: string, params: seq<string>, body: Expr)
    | Assign(lhs: Expr, rhs: Expr)
    | If(cond: Expr, thenBranch: Expr, elseBranch: Option<Expr>)
    | Unless(cond: Expr, thenBranch: Expr, elseBranch: Option<Expr>)
    | While(cond: Expr, body: Expr)
    | Until(cond: Expr, body: Expr)
    | Composite(exprs: seq<Expr>)
    | Binary(op: BinOp, left: Expr, right: Expr)
    | BitNot(operand: Expr)
    | ClassDef(name: string, superName: Option<string>, body: Expr)
    | ModuleDef(name: string, body: Expr)

  /**
    Whether `compile` can run on the node: the node kind defines `compile` and so does
    every child the method compiles. `if`, `unless`, `until`, instance, class and global
    variables, `<=>`, and class and module definitions have no `compile` method.
  */
  predicate Compilable(e: Expr) {
    match e
    case Constant(_) => true
    case Keyword(_) => true
    case Name(_) => true
    case QualifiedName(t, _) => Compilable(t)
    case Call(_, args) => forall i :: 0 <= i < |args| ==> Compilable(args[i])
    case QualifiedCall(t, args) => Compilable(t) && forall i :: 0 <= i < |args| ==> Compilable(args[i])
    case ArrayLit(es) => forall i :: 0 <= i < |es| ==> Compilable(es[i])
    case Indexed(b, ix) => Compilable(b) && forall i :: 0 <= i < |ix| ==> Compilable(ix[i])
    case Def(_, _, body) => Compilable(body)
    case Assign(l, r) => Compilable(l) && Compilable(r)
    case While(c, b) => Compilable(c) && Compilable(b)
    case Composite(es) => forall i :: 0 <= i < |es| ==> Compilable(es[i])
    case Binary(op, l, r) => op != Compare && Compilable(l) && Compilable(r)
    case BitNot(x) => Compilable(x)
    case _ => false
  }

  /**
    `getName`: the name a node declares or targets. Nodes without the method, and an
    assignment whose left-hand side has none, give `None`.
  */
  function DeclaredName(e: Expr): Option<string> {
    match e
    case Name(n) => Some(n)
    case InstanceVar(n) => Some(n)
    case ClassVar(n) => Some(n)
    case GlobalVar(n) => Some(n)
    case QualifiedName(_, n) => Some(n)
    case ClassDef(n, _, _) => Some(n)
    case ModuleDef(n, _) => Some(n)
    case Assign(l, _) => DeclaredName(l)
    case _ => None
  }

  /** `getFunctionName`: only a free call names the function it calls. */
  function FunctionName(e: Expr): Option<string> {
    if e.Call? then Some(e.callee) else None
  }

  function NameList(n: Option<string>): seq<string> {
    if n.Some? then [n.value] else []
  }

  /**
    `getFunctionNames` of `while` and of a composite; the other nodes lack the method,
    which every caller treats like an empty list.
  */
  function FunctionNames(e: Expr): seq<string> {
    match e
    case While(c, b) => NameList(FunctionName(c)) + NameList(FunctionName(b)) + FunctionNames(b)
    case Composite(es) => ChildFunctionNames(es)
    case _ => []
  }

  function ChildFunctionNames(es: seq<Expr>): seq<string> {
    if es == [] then []
    else NameList(FunctionName(es[0])) + FunctionNames(es[0]) + ChildFunctionNames(es[1..])
  }

  /** Whether a free call to `f` occurs anywhere inside `e` (an independent, exhaustive search). */
  predicate CallsName(e: Expr, f: string) {
    match e
    case Call(g, args) => g == f || exists i :: 0 <= i < |args| && CallsName(args[i], f)
    case QualifiedName(t, _) => CallsName(t, f)
    case QualifiedCall(t, args) => CallsName(t, f) || exists i :: 0 <= i < |args| && CallsName(args[i], f)
    case ArrayLit(es) => exists i :: 0 <= i < |es| && CallsName(es[i], f)
    case Indexed(b, ix) => CallsName(b, f) || exists i :: 0 <= i < |ix| && CallsName(ix[i], f)
    case Def(_, _, body) => CallsName(body, f)
    case Assign(l, r) => CallsName(l, f) || CallsName(r, f)
    case If(c, t, el) => CallsName(c, f) || CallsName(t, f) || (el.Some? && CallsName(el.value, f))
    case Unless(c, t, el) => CallsName(c, f) || CallsName(t, f) || (el.Some? && CallsName(el.value, f))
    case While(c, b) => CallsName(c, f) || CallsName(b, f)
    case Until(c, b) => CallsName(c, f) || CallsName(b, f)
    case Composite(es) => exists i :: 0 <= i < |es| && CallsName(es[i], f)
    case Binary(_, l, r) => CallsName(l, f) || CallsName(r, f)
    case BitNot(x) => CallsName(x, f)
    case ClassDef(_, _, body) => CallsName(body, f)
    case ModuleDef(_, body) => CallsName(body, f)
    case _ => false
  }

  /** Every function name `getFunctionNames` reports is the callee of a call inside the node. */
  lemma {:induction false} FunctionNamesAreCalled(e: Expr, f: string)
    requires f in FunctionNames(e)
    ensures CallsName(e, f)
    decreases e, 1
  {
    match e
    case While(c, b) =>
      if f in NameList(FunctionName(c)) {
        assert CallsName(c, f);
      } else if f in NameList(FunctionName(b)) {
        assert CallsName(b, f);
      } else {
        FunctionNamesAreCalled(b, f);
      }
    case Composite(es) =>
      var i := ChildReporting(es, f);
      assert CallsName(es[i], f);
    case _ =>
  }

  /** The child of a composite whose report contains `f`, and the proof that it calls `f`. */
  lemma {:induction false} ChildReporting(es: seq<Expr>, f: string) returns (i: nat)
    requires f in ChildFunctionNames(es)
    ensures i < |es| && CallsName(es[i], f)
    decreases es, 0
  {
    if f in NameList(FunctionName(es[0])) {
      i := 0;
    } else if f in FunctionNames(es[0]) {
      FunctionNamesAreCalled(es[0], f);
      i := 0;
    } else {
      var j := ChildReporting(es[1..], f);
      i := j + 1;
    }
  }

  /**
    The report is not complete: a call nested in a loop condition, an argument or an
    operand is not listed, although it is called.
  */
  lemma NestedCallNotReported()
    ensures var e := While(Binary(Less, Call("f", []), Name("n")), Name("x"));
            CallsName(e, "f") && "f" !in FunctionNames(e)
  {
    var e := While(Binary(Less, Call("f", []), Name("n")), Name("x"));
    assert CallsName(Binary(Less, Call("f", []), Name("n")), "f");
  }

  /** Every direct child of a composite that is a free call is reported. */
  lemma {:induction false} CompositeReportsDirectCalls(es: seq<Expr>, i: nat)
    requires i < |es| && es[i].Call?
    ensures es[i].callee in FunctionNames(Composite(es))
  {
    ChildReportsDirectCall(es, i);
  }

  lemma {:induction false} ChildReportsDirectCall(es: seq<Expr>, i: nat)
    requires i < |es| && es[i].Call?
    ensures es[i].callee in ChildFunctionNames(es)
  {
    if i > 0 {
      ChildReportsDirectCall(es[1..], i - 1);
    }
  }
}

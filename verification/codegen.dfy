/**
  The `compile` methods of lib/expressions.js: each node kind emits a fragment of
  JavaScript source, recursively, plus the helpers `asStatement` and `compileExpression`.
*/
module Codegen {
  import opened Wrappers
  import opened Ast
  import Json

  /** Whether a text begins with `(` and ends with `)` (not necessarily a matching pair). */
  predicate Wrapped(t: string) {
    |t| > 0 && t[0] == '(' && t[|t| - 1] == ')'
  }

  /**
    `asStatement`: drops the first and last characters of a text that starts with `(`
    and ends with `)`, and leaves every other text alone.
  */
  function AsStatement(t: string): (r: string)
    ensures Wrapped(t) ==> "(" + r + ")" == t
    ensures !Wrapped(t) ==> r == t
    ensures |r| == |t| || |r| + 2 == |t|
  {
    if Wrapped(t) then t[1..|t| - 1] else t
  }

  /** `s1 + sep + s2 + sep + ... + sn`, as the `counter`-guarded loops of the source build it. */
  function Join(parts: seq<string>, sep: string): string {
    if |parts| == 0 then ""
    else if |parts| == 1 then parts[0]
    else parts[0] + sep + Join(parts[1..], sep)
  }

  /** `JSON.stringify` of a constant. */
  function ConstantText(c: Const): string {
    match c
    case CNull => "null"
    case CBool(b) => if b then "true" else "false"
    case CInt(i) => Json.IntText(i)
    case CStr(s) => Json.Quote(s)
  }

  /**
    The rule of `compileExpression`, given a node and its compiled text: constants and
    names are left as they are, any other text is wrapped in parentheses unless its first
    character already is `(`.
  */
  function Operand(e: Expr, code: string): string {
    if e.Constant? || e.Name? then code
    else if |code| > 0 && code[0] == '(' then code
    else "(" + code + ")"
  }

  /**
    The statements of `CompositeExpression.compile(useret)`: each child's text through
    `asStatement`, followed by `;`, with `return ` before the last one when `useret` is set.
  */
  function BlockStatements(texts: seq<string>, useret: bool): seq<string> {
    seq(|texts|, i requires 0 <= i < |texts| =>
      (if useret && i == |texts| - 1 then "return " else "") + AsStatement(texts[i]) + ";")
  }

  /** `CompositeExpression.compile(useret)` given the children's texts. */
  function Block(texts: seq<string>, useret: bool): string {
    var braces := |texts| > 1 || useret;
    (if braces then "{ " else "") + Join(BlockStatements(texts, useret), " ") + (if braces then " }" else "")
  }

  /** `compile` of every node kind that has one; each family's method is a function below. */
  function Compile(e: Expr): string
    requires Compilable(e)
    decreases e, 2
  {
    match e
    case Constant(c) => ConstantText(c)
    case Keyword(w) => "(" + Json.Quote(w) + ")"
    case Name(n) => n
    case QualifiedName(_, _) => CompileMember(e)
    case Call(_, _) => CompileCall(e)
    case QualifiedCall(_, _) => CompileCall(e)
    case ArrayLit(_) => CompileCall(e)
    case Indexed(_, _) => CompileCall(e)
    case Def(_, _, _) => CompileDef(e)
    case Assign(_, _) => CompileStatement(e)
    case While(_, _) => CompileStatement(e)
    case Composite(es) => Block(CompileEach(es), false)
    case Binary(_, _, _) => CompileOperator(e)
    case BitNot(_) => CompileOperator(e)
    case _ => assert false; ""
  }

  /** `QualifiedNameExpression.compile`: `target.name`. */
  function CompileMember(e: Expr): string
    requires e.QualifiedName? && Compilable(e)
    decreases e, 1
  {
    Compile(e.target) + "." + e.name
  }

  /**
    The list forms: a free call `f(a, b)`, a qualified call (whose separator counter is
    never incremented in the source, so its arguments run together), an array literal
    `([a, b])` and an indexing `(e[a, b])`.
  */
  function CompileCall(e: Expr): string
    requires (e.Call? || e.QualifiedCall? || e.ArrayLit? || e.Indexed?) && Compilable(e)
    decreases e, 1
  {
    match e
    case Call(f, args) => f + "(" + Join(CompileEach(args), ", ") + ")"
    case QualifiedCall(t, args) => Compile(t) + "(" + Join(CompileEach(args), "") + ")"
    case ArrayLit(es) => "([" + Join(CompileEach(es), ", ") + "])"
    case Indexed(b, ix) => "(" + Compile(b) + "[" + Join(CompileEach(ix), ", ") + "])"
  }

  /**
    `DefExpression.compile`: the header, then a composite body as a block with `return`
    before its last statement, or any other body as `{ return e }`.
  */
  function CompileDef(e: Expr): string
    requires e.Def? && Compilable(e)
    decreases e, 1
  {
    assert Compilable(e.body);
    "function " + e.name + "(" + Join(e.params, ", ") + ")" +
    (match e.body
     case Composite(xs) => " " + Block(CompileEach(xs), true)
     case _ => " { return " + Compile(e.body) + " }")
  }

  /** `AssignmentExpression.compile` and `WhileExpression.compile`. */
  function CompileStatement(e: Expr): string
    requires (e.Assign? || e.While?) && Compilable(e)
    decreases e, 1
  {
    match e
    case Assign(l, r) => Compile(l) + " = " + AsStatement(Compile(r))
    case While(c, b) => "while (" + AsStatement(Compile(c)) + ") " + Compile(b)
  }

  /** The `compile` methods of the binary operator classes and of `~`. */
  function CompileOperator(e: Expr): string
    requires (e.Binary? || e.BitNot?) && Compilable(e)
    decreases e, 1
  {
    match e
    case Binary(op, l, r) =>
      if op.IsEquality() then
        "(" + Operand(l, Compile(l)) + " " + OpText(op) + " " + Operand(r, Compile(r)) + ")"
      else if op.IsComparison() then
        Operand(l, Compile(l)) + " " + OpText(op) + " " + Operand(r, Compile(r))
      else if op == Pow then
        "(Math.pow(" + Compile(l) + ", " + Compile(r) + "))"
      else
        "(" + Compile(l) + " " + OpText(op) + " " + Compile(r) + ")"
    case BitNot(x) => "(~" + Compile(x) + ")"
  }

  /** The texts of a list of children, in order. */
  function CompileEach(es: seq<Expr>): (r: seq<string>)
    requires forall i :: 0 <= i < |es| ==> Compilable(es[i])
    ensures |r| == |es|
    ensures forall i :: 0 <= i < |es| ==> r[i] == Compile(es[i])
    decreases es, 3
  {
    if es == [] then [] else [Compile(es[0])] + CompileEach(es[1..])
  }

  /** `compileExpression`: a node's text as an operand of `==`, `!=` and the comparisons. */
  function CompileExpression(e: Expr): (r: string)
    requires Compilable(e)
    ensures e.Constant? || e.Name? ==> r == Compile(e)
    ensures !(e.Constant? || e.Name?) ==> |r| > 0 && r[0] == '('
    ensures !(e.Constant? || e.Name?) ==> r == Compile(e) || r == "(" + Compile(e) + ")"
    ensures !(e.Constant? || e.Name?) ==> (r == Compile(e) <==> |Compile(e)| > 0 && Compile(e)[0] == '(')
  {
    Operand(e, Compile(e))
  }
}

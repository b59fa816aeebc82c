/**
  The `evaluate` methods of lib/expressions.js for the statement forms: constants,
  keywords, names, instance variables, assignment, `if`, `unless`, `while`, `until`
  and composites. Loops consume one unit of fuel per iteration; a run that exhausts its
  fuel fails instead of diverging. The other node kinds (arithmetic, calls, method
  dispatch, definitions, array literals, indexing and qualified names) are reported as
  unmodelled.
*/
module Interp {
  import opened Wrappers
  import opened Ast
  import opened Env

  /** The state evaluation threads through: the environment and the current receiver. */
  datatype State = State(ctx: Context, self: SelfObject)

  datatype Error =
    | Unbound(name: string)   // a name with no binding along the chain
    | NoReceiver              // an instance variable used where `$self` is undefined
    | NotAssignable           // the left-hand side has no `setValue`
    | Unmodelled              // a node kind whose evaluation is outside this model
    | OutOfFuel               // a loop ran longer than the fuel allowed

  type Outcome = Result<(Value, State), Error>

  /** `ConstantExpression.evaluate`: the literal itself. */
  function ConstValue(c: Const): Value {
    match c
    case CNull => VNull
    case CBool(b) => VBool(b)
    case CInt(i) => VInt(i)
    case CStr(s) => VStr(s)
  }

  /**
    `InstanceVariableExpression.evaluate`: `null` while the receiver has no store yet,
    otherwise the stored value, `undefined` for a name never written.
  */
  function ReadInstanceVar(self: SelfObject, n: string): Result<Value, Error> {
    match self
    case NoSelf => Err(NoReceiver)
    case SelfObj(None) => Ok(VNull)
    case SelfObj(Some(vars)) => Ok(if n in vars then vars[n] else VUndef)
  }

  /** `InstanceVariableExpression.setValue`: creates the store on first use, then writes it. */
  function WriteInstanceVar(self: SelfObject, n: string, v: Value): Result<SelfObject, Error> {
    match self
    case NoSelf => Err(NoReceiver)
    case SelfObj(None) => Ok(SelfObj(Some(map[n := v])))
    case SelfObj(Some(vars)) => Ok(SelfObj(Some(vars[n := v])))
  }

  /** `setValue` of the left-hand side of an assignment. */
  function Assign(lhs: Expr, v: Value, st: State): Result<State, Error> {
    match lhs
    case Name(n) => Ok(st.(ctx := SetLocalValue(st.ctx, n, v)))
    case InstanceVar(n) =>
      var self :- WriteInstanceVar(st.self, n, v);
      Ok(st.(self := self))
    case ClassVar(_) => Err(Unmodelled)
    case _ => Err(NotAssignable)
  }

  function Eval(e: Expr, st: State, fuel: nat): Outcome
    decreases fuel, e, 1
  {
    match e
    case Constant(c) => Ok((ConstValue(c), st))
    case Keyword(w) => Ok((VStr(w), st))
    case Name(n) =>
      var v :- GetValue(st.ctx, n).ToResult(Unbound(n));
      Ok((v, st))
    case InstanceVar(n) =>
      var v :- ReadInstanceVar(st.self, n);
      Ok((v, st))
    case Assign(l, r) =>
      var (v, st1) :- Eval(r, st, fuel);
      var st2 :- Assign(l, v, st1);
      Ok((v, st2))
    case If(c, t, el) =>
      var (v, st1) :- Eval(c, st, fuel);
      if IsFalse(v) then
        if el.Some? then Eval(el.value, st1, fuel) else Ok((VNull, st1))
      else Eval(t, st1, fuel)
    case Unless(c, t, el) =>
      var (v, st1) :- Eval(c, st, fuel);
      if !IsFalse(v) then
        if el.Some? then Eval(el.value, st1, fuel) else Ok((VNull, st1))
      else Eval(t, st1, fuel)
    case While(c, b) => Loop(c, b, false, st, fuel)
    case Until(c, b) => Loop(c, b, true, st, fuel)
    case Composite(es) => EvalSeq(es, st, fuel)
    case _ => Err(Unmodelled)
  }

  /**
    `while` (stop once the condition is false) and `until` (stop once it is true): the
    value is `null` when the loop stops; each iteration costs one unit of fuel.
  */
  function Loop(c: Expr, b: Expr, until: bool, st: State, fuel: nat): Outcome
    decreases fuel, if until then Until(c, b) else While(c, b), 0
  {
    if fuel == 0 then Err(OutOfFuel)
    else
      var (v, st1) :- Eval(c, st, fuel);
      if IsFalse(v) != until then Ok((VNull, st1))
      else
        var (_, st2) :- Eval(b, st1, fuel);
        Loop(c, b, until, st2, fuel - 1)
  }

  /** `CompositeExpression.evaluate`: each child in order; the value of the last, `null` when empty. */
  function EvalSeq(es: seq<Expr>, st: State, fuel: nat): Outcome
    decreases fuel, es, 0
  {
    if es == [] then Ok((VNull, st))
    else
      var (v, st1) :- Eval(es[0], st, fuel);
      if |es| == 1 then Ok((v, st1)) else EvalSeq(es[1..], st1, fuel)
  }
}

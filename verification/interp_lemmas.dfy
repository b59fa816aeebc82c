/**
  Properties of the environment and of the evaluator: lookup finds the innermost
  binding, assignment writes the innermost frame only, `unless` is `if` with its branches
  exchanged, loops yield `null`, a composite yields its last value, and more fuel never
  changes an outcome that did not run out of it.
*/
module InterpLemmas {
  import opened Wrappers
  import opened Ast
  import opened Env
  import opened Interp

  // ---------------------------------------------------------------- values

  /** JavaScript's own truthiness, the reference `IsFalse` departs from. */
  predicate JsTruthy(v: Value) {
    match v
    case VNull => false
    case VUndef => false
    case VBool(b) => b
    case VInt(i) => i != 0
    case VStr(s) => s != ""
    case VObj(_) => true
  }

  /** `isFalse` agrees with JavaScript's falsiness except on `0` and `""`, which it takes as true. */
  lemma FalsityDiffersFromJs(v: Value)
    ensures IsFalse(v) == !JsTruthy(v) <==> v != VInt(0) && v != VStr("")
    ensures IsFalse(v) ==> !JsTruthy(v)
  {
  }

  // ---------------------------------------------------------------- environments

  /** The chain of frames, innermost first. */
  function Frames(ctx: Context): (r: seq<Frame>)
    ensures |r| > 0 && r[0] == ctx.vars
  {
    if ctx.Top? then [ctx.vars] else [ctx.vars] + Frames(ctx.parent)
  }

  /** Lookup succeeds exactly when some frame binds the name, and then yields the first such binding. */
  lemma LookupIsInnermost(ctx: Context, n: string)
    ensures GetValue(ctx, n).None? <==> forall i :: 0 <= i < |Frames(ctx)| ==> n !in Frames(ctx)[i]
    ensures GetValue(ctx, n).Some? ==>
      exists i :: 0 <= i < |Frames(ctx)| && n in Frames(ctx)[i] && GetValue(ctx, n).value == Frames(ctx)[i][n] &&
        forall j :: 0 <= j < i ==> n !in Frames(ctx)[j]
  {
    LookupFails(ctx, n);
    if GetValue(ctx, n).Some? {
      var i := InnermostBinding(ctx, n);
    }
  }

  lemma {:induction false} LookupFails(ctx: Context, n: string)
    ensures GetValue(ctx, n).None? <==> forall i :: 0 <= i < |Frames(ctx)| ==> n !in Frames(ctx)[i]
  {
    var F := Frames(ctx);
    if n in ctx.vars {
      assert n in F[0];
    } else if ctx.Top? {
      assert F == [ctx.vars];
    } else {
      LookupFails(ctx.parent, n);
      var P := Frames(ctx.parent);
      assert F == [ctx.vars] + P;
      assert GetValue(ctx, n) == GetValue(ctx.parent, n);
      if GetValue(ctx.parent, n).Some? {
        var k :| 0 <= k < |P| && n in P[k];
        assert n in F[k + 1];
      } else {
        assert GetValue(ctx.parent, n).None?;
        assert forall k :: 0 <= k < |Frames(ctx.parent)| ==> n !in Frames(ctx.parent)[k];
        forall i | 0 <= i < |F| ensures n !in F[i] {
          if i > 0 {
            assert F[i] == P[i - 1];
          } else {
            assert F[0] == ctx.vars;
          }
        }
      }
    }
  }

  /** The position of the innermost frame that binds the name, when lookup succeeds. */
  lemma {:induction false} InnermostBinding(ctx: Context, n: string) returns (i: nat)
    requires GetValue(ctx, n).Some?
    ensures i < |Frames(ctx)| && n in Frames(ctx)[i] && GetValue(ctx, n).value == Frames(ctx)[i][n]
    ensures forall j :: 0 <= j < i ==> n !in Frames(ctx)[j]
  {
    var F := Frames(ctx);
    if n in ctx.vars {
      i := 0;
    } else {
      var P := Frames(ctx.parent);
      assert F == [ctx.vars] + P;
      var k := InnermostBinding(ctx.parent, n);
      i := k + 1;
      assert F[i] == P[k];
      forall j | 0 <= j < i ensures n !in F[j] {
        if j > 0 {
          assert F[j] == P[j - 1];
        }
      }
    }
  }

  /** A fresh frame sees everything its parent sees. */
  lemma CreateContextInherits(parent: Context, n: string)
    ensures GetValue(CreateContext(parent), n) == GetValue(parent, n)
  {
  }

  /**
    `setLocalValue` binds the name in the innermost frame; every other name reads as
    before, and the enclosing frames are untouched, so a binding of the same name there
    is shadowed rather than overwritten.
  */
  lemma SetLocalEffect(ctx: Context, n: string, v: Value, m: string)
    ensures GetValue(SetLocalValue(ctx, n, v), n) == Some(v)
    ensures m != n ==> GetValue(SetLocalValue(ctx, n, v), m) == GetValue(ctx, m)
    ensures ctx.Child? ==> Frames(SetLocalValue(ctx, n, v))[1..] == Frames(ctx)[1..]
  {
  }

  // ---------------------------------------------------------------- instance variables

  /** Before the first write the store does not exist, and every instance variable reads `null`. */
  lemma UnwrittenInstanceVarIsNull(n: string, st: State, fuel: nat)
    requires st.self == SelfObj(None)
    ensures Eval(InstanceVar(n), st, fuel) == Ok((VNull, st))
  {
  }

  /**
    Writing an instance variable makes it read back the value written; any other
    variable keeps its value, except that once the store exists a variable never written
    reads `undefined` where it read `null` before.
  */
  lemma InstanceVarWriteRead(self: SelfObject, n: string, v: Value, m: string)
    requires self.SelfObj?
    ensures WriteInstanceVar(self, n, v).Ok?
    ensures ReadInstanceVar(WriteInstanceVar(self, n, v).value, n) == Ok(v)
    ensures m != n && self.store.Some? ==> ReadInstanceVar(WriteInstanceVar(self, n, v).value, m) == ReadInstanceVar(self, m)
    ensures m != n && self.store.None? ==>
      ReadInstanceVar(self, m) == Ok(VNull) && ReadInstanceVar(WriteInstanceVar(self, n, v).value, m) == Ok(VUndef)
  {
  }

  /** Without a receiver, instance variables can be neither read nor written. */
  lemma NoReceiverNoInstanceVars(n: string, r: Expr, st: State, fuel: nat)
    requires st.self == NoSelf
    requires Eval(r, st, fuel).Ok? && Eval(r, st, fuel).value.1.self == NoSelf
    ensures Eval(InstanceVar(n), st, fuel) == Err(NoReceiver)
    ensures Eval(Assign(InstanceVar(n), r), st, fuel) == Err(NoReceiver)
  {
  }

  // ---------------------------------------------------------------- statements

  /** Reading a constant, keyword, name or instance variable does not change the state. */
  lemma ReadsLeaveState(e: Expr, st: State, fuel: nat)
    requires e.Constant? || e.Keyword? || e.Name? || e.InstanceVar?
    requires Eval(e, st, fuel).Ok?
    ensures Eval(e, st, fuel).value.1 == st
  {
  }

  /** A name with no binding anywhere along the chain is an error, not `undefined`. */
  lemma UnboundName(n: string, st: State, fuel: nat)
    ensures Eval(Name(n), st, fuel).Err? <==> forall i :: 0 <= i < |Frames(st.ctx)| ==> n !in Frames(st.ctx)[i]
    ensures Eval(Name(n), st, fuel).Err? ==> Eval(Name(n), st, fuel).error == Unbound(n)
  {
    LookupIsInnermost(st.ctx, n);
  }

  /**
    An assignment to a name yields the assigned value and binds it in the innermost
    frame of the environment the right-hand side left behind; nothing else changes.
  */
  lemma AssignName(n: string, r: Expr, st: State, fuel: nat, m: string)
    requires Eval(r, st, fuel).Ok?
    ensures var (v, st1) := Eval(r, st, fuel).value;
      var a := Eval(Assign(Name(n), r), st, fuel);
      a.Ok? && a.value.0 == v && a.value.1.self == st1.self &&
      GetValue(a.value.1.ctx, n) == Some(v) &&
      (m != n ==> GetValue(a.value.1.ctx, m) == GetValue(st1.ctx, m)) &&
      (st1.ctx.Child? ==> Frames(a.value.1.ctx)[1..] == Frames(st1.ctx)[1..])
  {
    var (v, st1) := Eval(r, st, fuel).value;
    SetLocalEffect(st1.ctx, n, v, m);
  }

  /** Only names and the two kinds of variable can be assigned to. */
  lemma AssignNeedsTarget(l: Expr, r: Expr, st: State, fuel: nat)
    requires !(l.Name? || l.InstanceVar? || l.ClassVar?)
    requires Eval(r, st, fuel).Ok?
    ensures Eval(Assign(l, r), st, fuel) == Err(NotAssignable)
  {
  }

  /** The `else` branch that is missing yields `null`. */
  function OrNull(el: Option<Expr>): Expr {
    if el.Some? then el.value else Constant(CNull)
  }

  /** An `if` without `else` behaves as one whose `else` is `null`. */
  lemma IfWithoutElse(c: Expr, t: Expr, st: State, fuel: nat)
    ensures Eval(If(c, t, None), st, fuel) == Eval(If(c, t, Some(Constant(CNull))), st, fuel)
  {
  }

  /** `unless c t else u` is `if c u else t`; without `else`, the missing branch is `null`. */
  lemma UnlessIsIfSwapped(c: Expr, t: Expr, el: Option<Expr>, st: State, fuel: nat)
    ensures Eval(Unless(c, t, el), st, fuel) == Eval(If(c, OrNull(el), Some(t)), st, fuel)
  {
  }

  /** Whatever a loop yields when it stops is `null`. */
  lemma {:induction false} LoopYieldsNull(c: Expr, b: Expr, until: bool, st: State, fuel: nat)
    requires Loop(c, b, until, st, fuel).Ok?
    ensures Loop(c, b, until, st, fuel).value.0 == VNull
    decreases fuel
  {
    var (v, st1) := Eval(c, st, fuel).value;
    if IsFalse(v) == until {
      var (_, st2) := Eval(b, st1, fuel).value;
      LoopYieldsNull(c, b, until, st2, fuel - 1);
    }
  }

  lemma WhileUntilYieldNull(c: Expr, b: Expr, st: State, fuel: nat)
    ensures Eval(While(c, b), st, fuel).Ok? ==> Eval(While(c, b), st, fuel).value.0 == VNull
    ensures Eval(Until(c, b), st, fuel).Ok? ==> Eval(Until(c, b), st, fuel).value.0 == VNull
  {
    if Eval(While(c, b), st, fuel).Ok? { LoopYieldsNull(c, b, false, st, fuel); }
    if Eval(Until(c, b), st, fuel).Ok? { LoopYieldsNull(c, b, true, st, fuel); }
  }

  /**
    A `while` whose condition is false (an `until` whose condition is true) on entry
    runs its body zero times: the state is the one the condition left.
  */
  lemma LoopStopsAtOnce(c: Expr, b: Expr, until: bool, st: State, fuel: nat)
    requires fuel > 0 && Eval(c, st, fuel).Ok?
    requires IsFalse(Eval(c, st, fuel).value.0) != until
    ensures Loop(c, b, until, st, fuel) == Ok((VNull, Eval(c, st, fuel).value.1))
  {
  }

  /** A composite yields `null` when empty, and otherwise the value of its last statement. */
  lemma {:induction false} CompositeLast(es: seq<Expr>, x: Expr, st: State, fuel: nat)
    ensures EvalSeq([], st, fuel) == Ok((VNull, st))
    ensures EvalSeq(es + [x], st, fuel) ==
      match EvalSeq(es, st, fuel)
      case Err(err) => Err(err)
      case Ok((_, st1)) => Eval(x, st1, fuel)
    decreases |es|
  {
    if es == [] {
      assert es + [x] == [x];
      SingleStatement(x, st, fuel);
    } else {
      var xs := es + [x];
      assert xs[0] == es[0] && |xs| > 1;
      assert xs[1..] == es[1..] + [x];
      match Eval(es[0], st, fuel)
      case Err(err) =>
        assert EvalSeq(xs, st, fuel) == Err(err);
        assert EvalSeq(es, st, fuel) == Err(err);
      case Ok((v, st1)) =>
        assert EvalSeq(xs, st, fuel) == EvalSeq(es[1..] + [x], st1, fuel);
        if |es| > 1 {
          assert EvalSeq(es, st, fuel) == EvalSeq(es[1..], st1, fuel);
          CompositeLast(es[1..], x, st1, fuel);
        } else {
          assert es[1..] + [x] == [x];
          assert EvalSeq(es, st, fuel) == Ok((v, st1));
          SingleStatement(x, st1, fuel);
        }
    }
  }

  /** A composite of one statement is that statement. */
  lemma SingleStatement(x: Expr, st: State, fuel: nat)
    ensures EvalSeq([x], st, fuel) == Eval(x, st, fuel)
  {
    assert [x][0] == x;
    match Eval(x, st, fuel)
    case Err(_) =>
    case Ok((v, st1)) =>
  }

  // ---------------------------------------------------------------- fuel

  /**
    Fuel only bounds loops: an outcome other than running out of fuel is the same with
    any larger amount.
  */
  lemma {:induction false} EvalMoreFuel(e: Expr, st: State, f: nat, g: nat)
    requires f <= g && Eval(e, st, f) != Err(OutOfFuel)
    ensures Eval(e, st, g) == Eval(e, st, f)
    decreases f, e, 1
  {
    match e
    case Assign(l, r) =>
      EvalMoreFuel(r, st, f, g);
    case If(c, t, el) =>
      EvalMoreFuel(c, st, f, g);
      if Eval(c, st, f).Ok? {
        var (v, st1) := Eval(c, st, f).value;
        if IsFalse(v) {
          if el.Some? { EvalMoreFuel(el.value, st1, f, g); }
        } else {
          EvalMoreFuel(t, st1, f, g);
        }
      }
    case Unless(c, t, el) =>
      EvalMoreFuel(c, st, f, g);
      if Eval(c, st, f).Ok? {
        var (v, st1) := Eval(c, st, f).value;
        if !IsFalse(v) {
          if el.Some? { EvalMoreFuel(el.value, st1, f, g); }
        } else {
          EvalMoreFuel(t, st1, f, g);
        }
      }
    case While(c, b) => LoopMoreFuel(c, b, false, st, f, g);
    case Until(c, b) => LoopMoreFuel(c, b, true, st, f, g);
    case Composite(es) => SeqMoreFuel(es, st, f, g);
    case _ =>
  }

  lemma {:induction false} LoopMoreFuel(c: Expr, b: Expr, until: bool, st: State, f: nat, g: nat)
    requires f <= g && Loop(c, b, until, st, f) != Err(OutOfFuel)
    ensures Loop(c, b, until, st, g) == Loop(c, b, until, st, f)
    decreases f, if until then Until(c, b) else While(c, b), 0
  {
    assert f > 0;
    LoopUnfold(c, b, until, st, f);
    LoopUnfold(c, b, until, st, g);
    EvalMoreFuel(c, st, f, g);
    if Eval(c, st, f).Ok? {
      var (v, st1) := Eval(c, st, f).value;
      if IsFalse(v) == until {
        EvalMoreFuel(b, st1, f, g);
        if Eval(b, st1, f).Ok? {
          var (_, st2) := Eval(b, st1, f).value;
          LoopMoreFuel(c, b, until, st2, f - 1, g - 1);
        }
      }
    }
  }

  /** One iteration of a loop with fuel left: the condition, then either the exit or the body and the rest. */
  lemma LoopUnfold(c: Expr, b: Expr, until: bool, st: State, fuel: nat)
    requires fuel > 0
    ensures Loop(c, b, until, st, fuel) ==
      match Eval(c, st, fuel)
      case Err(err) => Err(err)
      case Ok((v, st1)) =>
        if IsFalse(v) != until then Ok((VNull, st1))
        else match Eval(b, st1, fuel)
          case Err(err) => Err(err)
          case Ok((_, st2)) => Loop(c, b, until, st2, fuel - 1)
  {
  }

  lemma {:induction false} SeqMoreFuel(es: seq<Expr>, st: State, f: nat, g: nat)
    requires f <= g && EvalSeq(es, st, f) != Err(OutOfFuel)
    ensures EvalSeq(es, st, g) == EvalSeq(es, st, f)
    decreases f, es, 0
  {
    if es != [] {
      EvalMoreFuel(es[0], st, f, g);
      if Eval(es[0], st, f).Ok? && |es| > 1 {
        var (_, st1) := Eval(es[0], st, f).value;
        SeqMoreFuel(es[1..], st1, f, g);
      }
    }
  }
}

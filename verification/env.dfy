/**
  Run-time values and the lexical environment the evaluator works in. Values are the
  JavaScript values a program of the fragment can produce; an environment is a chain of
  frames, each mapping names to values, with a reference to its parent. The environment
  module itself (`./contexts`) is not part of this model: its operations are stated here
  as the rest of the code uses them.
*/
module Env {
  import opened Wrappers

  /** An object reference stands for any object (class, module, instance, array or function). */
  datatype Value = VNull | VUndef | VBool(b: bool) | VInt(i: int) | VStr(s: string) | VObj(ref: nat)

  /** `isFalse`: only `null`, `false` and `undefined` are false; `0` and `""` count as true. */
  predicate IsFalse(v: Value) {
    v == VNull || v == VBool(false) || v == VUndef
  }

  type Frame = map<string, Value>

  /** A frame and, unless it is the outermost one, the frame it was created in. */
  datatype Context = Top(vars: Frame) | Child(vars: Frame, parent: Context)

  /** `createContext(parent)`: a fresh, empty frame whose parent is the given context. */
  function CreateContext(parent: Context): (r: Context)
    ensures r.Child? && r.vars == map[] && r.parent == parent
  {
    Child(map[], parent)
  }

  /** `getValue`: the innermost binding of the name along the chain, if any. */
  function GetValue(ctx: Context, n: string): Option<Value> {
    if n in ctx.vars then Some(ctx.vars[n])
    else if ctx.Child? then GetValue(ctx.parent, n)
    else None
  }

  /** `setLocalValue`: binds the name in the innermost frame, never in a parent. */
  function SetLocalValue(ctx: Context, n: string, v: Value): (r: Context)
    ensures r.Child? == ctx.Child?
    ensures r.Child? ==> r.parent == ctx.parent
    ensures r.vars == ctx.vars[n := v]
  {
    ctx.(vars := ctx.vars[n := v])
  }

  /**
    The receiver of the code being evaluated (`$self`): none at the top level, or an
    object whose instance-variable store (`$vars`) is created on the first write.
  */
  datatype SelfObject = NoSelf | SelfObj(store: Option<Frame>)
}

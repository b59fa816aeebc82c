/**
  The object model of lib/expressions.js: `Class` with its own method table and an
  optional superclass, `ClassClass` (the per-class metaclass whose table starts out
  holding `new`), `Module` with a flat table, and `ModuleClass` (the module's metaclass,
  whose table is always empty).

  Every class and module ever created lives in an arena; its index is its identity. A
  superclass is resolved before the class that names it is created, so it always has a
  smaller index, which is what makes the lookup walk terminate.
*/
module Objects {
  import opened Wrappers

  /**
    A method-table entry: the metaclass's built-in `new`, or a function defined by the
    program, identified by an opaque number (its body is not part of this model).
  */
  datatype Method = New | Defined(id: nat)

  /** A method table: a JavaScript object used as a dictionary from names to functions. */
  type Table = map<string, Method>

  datatype Entry =
    | ClassEntry(name: string, superclass: Option<nat>, methods: Table, classMethods: Table)
    | ModuleEntry(name: string, methods: Table)

  type Arena = seq<Entry>

  /** Every superclass reference points to an entry created earlier. */
  predicate Wf(a: Arena) {
    forall id :: 0 <= id < |a| && a[id].ClassEntry? && a[id].superclass.Some? ==> a[id].superclass.value < id
  }

  /** The entry of a table under a name, `undefined` being `None`. */
  function Get(t: Table, n: string): Option<Method> {
    if n in t then Some(t[n]) else None
  }

  /**
    `getInstanceMethod` of a class or module: the entry's own method if there is one,
    otherwise, for a class with a superclass, the superclass's lookup, otherwise nothing.
  */
  function InstanceMethod(a: Arena, id: nat, n: string): Option<Method>
    requires Wf(a) && id < |a|
    decreases id
  {
    match a[id]
    case ModuleEntry(_, methods) => Get(methods, n)
    case ClassEntry(_, sup, methods, _) =>
      if n in methods then Some(methods[n])
      else if sup.Some? then InstanceMethod(a, sup.value, n)
      else None
  }

  /** The lookup chain of a class: itself, then its superclass, and so on to the root. */
  function Ancestors(a: Arena, id: nat): (r: seq<nat>)
    requires Wf(a) && id < |a|
    ensures |r| > 0 && r[0] == id
    ensures forall k :: 0 <= k < |r| ==> r[k] <= id
    ensures forall i, j :: 0 <= i < j < |r| ==> r[j] < r[i]
    decreases id
  {
    if a[id].ClassEntry? && a[id].superclass.Some? then [id] + Ancestors(a, a[id].superclass.value)
    else [id]
  }

  /** `setInstanceMethod` on a class or a module. */
  function SetInstanceMethod(a: Arena, id: nat, n: string, m: Method): (r: Arena)
    requires id < |a|
    ensures |r| == |a|
  {
    a[id := a[id].(methods := a[id].methods[n := m])]
  }

  /** `new Class(name, superclass)`: a fresh class whose metaclass table holds `new`. */
  function DefineClass(a: Arena, name: string, sup: Option<nat>): (r: (Arena, nat))
    requires sup.Some? ==> sup.value < |a|
    ensures r.1 == |a| && |r.0| == |a| + 1 && r.0[..|a|] == a
  {
    (a + [ClassEntry(name, sup, map[], map["new" := New])], |a|)
  }

  /** `new Module(name)`: a fresh module with an empty table. */
  function DefineModule(a: Arena, name: string): (r: (Arena, nat))
    ensures r.1 == |a| && |r.0| == |a| + 1 && r.0[..|a|] == a
  {
    (a + [ModuleEntry(name, map[])], |a|)
  }

  /** `getClassMethod`: the metaclass's table, with no inheritance. */
  function ClassMethod(a: Arena, id: nat, n: string): Option<Method>
    requires id < |a| && a[id].ClassEntry?
  {
    Get(a[id].classMethods, n)
  }

  /** `setClassMethod`: writes the metaclass's table only. */
  function SetClassMethod(a: Arena, id: nat, n: string, m: Method): (r: Arena)
    requires id < |a| && a[id].ClassEntry?
    ensures |r| == |a|
  {
    a[id := a[id].(classMethods := a[id].classMethods[n := m])]
  }

  /** What a qualified name is looked up on: an instance, a class object or a module object. */
  datatype Receiver = Instance(cls: nat) | ClassObject(id: nat) | ModuleObject(id: nat)

  predicate ValidReceiver(a: Arena, r: Receiver) {
    match r
    case Instance(c) => c < |a|
    case ClassObject(id) => id < |a| && a[id].ClassEntry?
    case ModuleObject(id) => id < |a| && a[id].ModuleEntry?
  }

  /**
    `obj.$class.getInstanceMethod(name)`: an instance asks its class, a class object its
    metaclass, and a module object its `ModuleClass`, whose table nothing ever fills.
  */
  function Resolve(a: Arena, r: Receiver, n: string): Option<Method>
    requires Wf(a) && ValidReceiver(a, r)
  {
    match r
    case Instance(c) => InstanceMethod(a, c, n)
    case ClassObject(id) => ClassMethod(a, id, n)
    case ModuleObject(_) => None
  }

  /**
    The metaclass's `new`: a fresh instance of the class, and the `initialize` method it
    runs on it, found by the ordinary (inherited) lookup, if any.
  */
  function Construct(a: Arena, cls: nat): (r: (Receiver, Option<Method>))
    requires Wf(a) && cls < |a|
    ensures r.0.Instance? && r.0.cls == cls
  {
    (Instance(cls), InstanceMethod(a, cls, "initialize"))
  }
}

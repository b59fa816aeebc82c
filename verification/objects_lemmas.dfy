/**
  Method resolution, stated against an independent description (the first entry along
  the superclass chain that has the name), and what each update of a table leaves alone.
*/
module ObjectLemmas {
  import opened Wrappers
  import opened Objects

  /** The entry's own method under a name, ignoring any superclass. */
  function OwnMethod(a: Arena, id: nat, n: string): Option<Method>
    requires id < |a|
  {
    Get(a[id].methods, n)
  }

  /** The own method of the first entry of a chain that has one. */
  function FirstOwn(a: Arena, chain: seq<nat>, n: string): Option<Method>
    requires forall k :: 0 <= k < |chain| ==> chain[k] < |a|
  {
    if chain == [] then None
    else if OwnMethod(a, chain[0], n).Some? then OwnMethod(a, chain[0], n)
    else FirstOwn(a, chain[1..], n)
  }

  /** Lookup walks the chain of the class and stops at the first entry that defines the name. */
  lemma {:induction false} LookupWalksChain(a: Arena, id: nat, n: string)
    requires Wf(a) && id < |a|
    ensures InstanceMethod(a, id, n) == FirstOwn(a, Ancestors(a, id), n)
    decreases id
  {
    var chain := Ancestors(a, id);
    if a[id].ClassEntry? && a[id].superclass.Some? {
      var sup := a[id].superclass.value;
      LookupWalksChain(a, sup, n);
      assert chain[1..] == Ancestors(a, sup);
    }
  }

  lemma {:induction false} FirstOwnIsFirst(a: Arena, chain: seq<nat>, n: string, m: Method)
    requires forall k :: 0 <= k < |chain| ==> chain[k] < |a|
    ensures FirstOwn(a, chain, n) == Some(m) <==>
            exists k :: 0 <= k < |chain| && OwnMethod(a, chain[k], n) == Some(m)
                        && forall j :: 0 <= j < k ==> OwnMethod(a, chain[j], n) == None
  {
    if chain != [] {
      FirstOwnIsFirst(a, chain[1..], n, m);
      if OwnMethod(a, chain[0], n).Some? {
        if FirstOwn(a, chain, n) != Some(m) {
          forall k | 0 <= k < |chain| && OwnMethod(a, chain[k], n) == Some(m)
            ensures exists j :: 0 <= j < k && OwnMethod(a, chain[j], n) != None
          {
            assert k != 0;
            assert OwnMethod(a, chain[0], n) != None;
          }
        }
      } else {
        if FirstOwn(a, chain, n) == Some(m) {
          var k :| 0 <= k < |chain[1..]| && OwnMethod(a, chain[1..][k], n) == Some(m)
                   && forall j :: 0 <= j < k ==> OwnMethod(a, chain[1..][j], n) == None;
          assert OwnMethod(a, chain[k + 1], n) == Some(m);
          assert forall j :: 0 <= j < k + 1 ==> OwnMethod(a, chain[j], n) == None by {
            forall j | 0 <= j < k + 1 ensures OwnMethod(a, chain[j], n) == None {
              if j > 0 { assert chain[j] == chain[1..][j - 1]; }
            }
          }
        } else {
          forall k | 0 <= k < |chain| && OwnMethod(a, chain[k], n) == Some(m)
            ensures exists j :: 0 <= j < k && OwnMethod(a, chain[j], n) != None
          {
            assert k > 0 && chain[k] == chain[1..][k - 1];
            var j :| 0 <= j < k - 1 && OwnMethod(a, chain[1..][j], n) != None;
            assert chain[1..][j] == chain[j + 1];
          }
        }
      }
    }
  }

  /**
    `getInstanceMethod(n)` gives `m` exactly when some entry of the chain has `m` under `n`
    and no entry before it has anything under `n`.
  */
  lemma LookupIsFirstDefinition(a: Arena, id: nat, n: string, m: Method)
    requires Wf(a) && id < |a|
    ensures var chain := Ancestors(a, id);
            InstanceMethod(a, id, n) == Some(m) <==>
            exists k :: 0 <= k < |chain| && OwnMethod(a, chain[k], n) == Some(m)
                        && forall j :: 0 <= j < k ==> OwnMethod(a, chain[j], n) == None
  {
    LookupWalksChain(a, id, n);
    FirstOwnIsFirst(a, Ancestors(a, id), n, m);
  }

  /** The class's own entry wins; without one, a class with no superclass answers nothing. */
  lemma OwnEntryFirst(a: Arena, id: nat, n: string)
    requires Wf(a) && id < |a|
    ensures OwnMethod(a, id, n).Some? ==> InstanceMethod(a, id, n) == OwnMethod(a, id, n)
    ensures OwnMethod(a, id, n).None? && a[id].ClassEntry? && a[id].superclass.Some?
            ==> InstanceMethod(a, id, n) == InstanceMethod(a, a[id].superclass.value, n)
    ensures OwnMethod(a, id, n).None? && (a[id].ModuleEntry? || a[id].superclass.None?)
            ==> InstanceMethod(a, id, n) == None
  {
  }

  // Updates preserve the arena's well-formedness.

  lemma SetInstanceMethodWf(a: Arena, id: nat, n: string, m: Method)
    requires Wf(a) && id < |a|
    ensures Wf(SetInstanceMethod(a, id, n, m))
    ensures Ancestors(SetInstanceMethod(a, id, n, m), id) == Ancestors(a, id)
  {
    var b := SetInstanceMethod(a, id, n, m);
    assert forall x :: 0 <= x < |a| ==>
      (b[x].ClassEntry? == a[x].ClassEntry? && (a[x].ClassEntry? ==> b[x].superclass == a[x].superclass));
    AncestorsOfSameShape(a, b, id);
  }

  lemma SetClassMethodWf(a: Arena, id: nat, n: string, m: Method)
    requires Wf(a) && id < |a| && a[id].ClassEntry?
    ensures Wf(SetClassMethod(a, id, n, m))
  {
    var b := SetClassMethod(a, id, n, m);
    assert forall x :: 0 <= x < |a| ==>
      (b[x].ClassEntry? == a[x].ClassEntry? && (a[x].ClassEntry? ==> b[x].superclass == a[x].superclass));
  }

  lemma DefineWf(a: Arena, name: string, sup: Option<nat>)
    requires Wf(a) && (sup.Some? ==> sup.value < |a|)
    ensures Wf(DefineClass(a, name, sup).0)
    ensures Wf(DefineModule(a, name).0)
  {
    var b := DefineClass(a, name, sup).0;
    assert forall x :: 0 <= x < |a| ==> b[x] == a[x];
    var c := DefineModule(a, name).0;
    assert forall x :: 0 <= x < |a| ==> c[x] == a[x];
  }

  /** Two arenas with the same superclass links have the same chains. */
  predicate SameShape(a: Arena, b: Arena) {
    |a| == |b| &&
    forall x :: 0 <= x < |a| ==>
      (b[x].ClassEntry? == a[x].ClassEntry? && (a[x].ClassEntry? ==> b[x].superclass == a[x].superclass))
  }

  lemma {:induction false} AncestorsOfSameShape(a: Arena, b: Arena, id: nat)
    requires Wf(a) && Wf(b) && SameShape(a, b) && id < |a|
    ensures Ancestors(b, id) == Ancestors(a, id)
    decreases id
  {
    if a[id].ClassEntry? && a[id].superclass.Some? {
      AncestorsOfSameShape(a, b, a[id].superclass.value);
    }
  }

  // What `setInstanceMethod` changes and what it leaves alone.

  /** After `setInstanceMethod(n, m)` the class itself answers `m` for `n`. */
  lemma SetThenGet(a: Arena, id: nat, n: string, m: Method)
    requires Wf(a) && id < |a|
    ensures Wf(SetInstanceMethod(a, id, n, m))
    ensures InstanceMethod(SetInstanceMethod(a, id, n, m), id, n) == Some(m)
  {
    SetInstanceMethodWf(a, id, n, m);
  }

  /** Lookups of every other name, on every class, are unchanged. */
  lemma {:induction false} SetLeavesOtherNames(a: Arena, id: nat, n: string, m: Method, x: nat, k: string)
    requires Wf(a) && id < |a| && x < |a| && k != n
    ensures Wf(SetInstanceMethod(a, id, n, m))
    ensures InstanceMethod(SetInstanceMethod(a, id, n, m), x, k) == InstanceMethod(a, x, k)
    decreases x
  {
    SetInstanceMethodWf(a, id, n, m);
    var b := SetInstanceMethod(a, id, n, m);
    assert Get(b[x].methods, k) == Get(a[x].methods, k);
    if a[x].ClassEntry? && a[x].superclass.Some? {
      SetLeavesOtherNames(a, id, n, m, a[x].superclass.value, k);
    }
  }

  /** A class whose chain does not pass through the updated entry sees no change at all. */
  lemma {:induction false} SetLeavesUnrelated(a: Arena, id: nat, n: string, m: Method, x: nat, k: string)
    requires Wf(a) && id < |a| && x < |a|
    requires id !in Ancestors(a, x)
    ensures Wf(SetInstanceMethod(a, id, n, m))
    ensures InstanceMethod(SetInstanceMethod(a, id, n, m), x, k) == InstanceMethod(a, x, k)
    decreases x
  {
    SetInstanceMethodWf(a, id, n, m);
    var b := SetInstanceMethod(a, id, n, m);
    assert x != id;
    assert b[x] == a[x];
    if a[x].ClassEntry? && a[x].superclass.Some? {
      var sup := a[x].superclass.value;
      assert Ancestors(a, x) == [x] + Ancestors(a, sup);
      SetLeavesUnrelated(a, id, n, m, sup, k);
    }
  }

  /** Setting a method on a subclass leaves every ancestor's lookup unchanged. */
  lemma SetOnSubclassLeavesAncestors(a: Arena, id: nat, n: string, m: Method, anc: nat, k: string)
    requires Wf(a) && id < |a|
    requires anc in Ancestors(a, id) && anc != id
    ensures Wf(SetInstanceMethod(a, id, n, m))
    ensures InstanceMethod(SetInstanceMethod(a, id, n, m), anc, k) == InstanceMethod(a, anc, k)
  {
    assert anc < id;
    assert id !in Ancestors(a, anc);
    SetLeavesUnrelated(a, id, n, m, anc, k);
  }

  /** A descendant that does not redefine the name, anywhere between it and the updated class, inherits the new method. */
  lemma SetReachesDescendants(a: Arena, id: nat, n: string, m: Method, x: nat, pos: nat)
    requires Wf(a) && id < |a| && x < |a|
    requires pos < |Ancestors(a, x)| && Ancestors(a, x)[pos] == id
    requires forall j :: 0 <= j < pos ==> OwnMethod(a, Ancestors(a, x)[j], n) == None
    ensures Wf(SetInstanceMethod(a, id, n, m))
    ensures InstanceMethod(SetInstanceMethod(a, id, n, m), x, n) == Some(m)
  {
    var b := SetInstanceMethod(a, id, n, m);
    SetInstanceMethodWf(a, id, n, m);
    AncestorsOfSameShape(a, b, x);
    var chain := Ancestors(a, x);
    assert forall j :: 0 <= j < pos ==> chain[j] != id;
    assert forall j :: 0 <= j < pos ==> OwnMethod(b, chain[j], n) == OwnMethod(a, chain[j], n);
    assert OwnMethod(b, chain[pos], n) == Some(m);
    LookupIsFirstDefinition(b, x, n, m);
  }

  /** `setInstanceMethod` does not touch any metaclass table. */
  lemma SetKeepsClassMethods(a: Arena, id: nat, n: string, m: Method, x: nat, k: string)
    requires x < |a| && a[x].ClassEntry? && id < |a|
    ensures SetInstanceMethod(a, id, n, m)[x].ClassEntry?
    ensures ClassMethod(SetInstanceMethod(a, id, n, m), x, k) == ClassMethod(a, x, k)
  {
  }

  // The metaclass table.

  /** `setClassMethod` is seen by `getClassMethod` of that class, and by nothing else. */
  lemma {:induction false} SetClassMethodEffect(a: Arena, id: nat, n: string, m: Method, x: nat, k: string)
    requires Wf(a) && id < |a| && a[id].ClassEntry? && x < |a|
    ensures Wf(SetClassMethod(a, id, n, m))
    ensures ClassMethod(SetClassMethod(a, id, n, m), id, n) == Some(m)
    ensures a[x].ClassEntry? && (x != id || k != n)
            ==> ClassMethod(SetClassMethod(a, id, n, m), x, k) == ClassMethod(a, x, k)
    ensures InstanceMethod(SetClassMethod(a, id, n, m), x, k) == InstanceMethod(a, x, k)
    decreases x
  {
    SetClassMethodWf(a, id, n, m);
    var b := SetClassMethod(a, id, n, m);
    assert b[x].methods == a[x].methods;
    if a[x].ClassEntry? && a[x].superclass.Some? {
      SetClassMethodEffect(a, id, n, m, a[x].superclass.value, k);
    }
  }

  /** Creating a class or a module changes no lookup on an earlier class or module. */
  lemma {:induction false} DefineKeepsOld(a: Arena, b: Arena, x: nat, k: string)
    requires Wf(a) && Wf(b) && |a| < |b| && b[..|a|] == a && x < |a|
    ensures InstanceMethod(b, x, k) == InstanceMethod(a, x, k)
    decreases x
  {
    assert b[x] == a[x];
    if a[x].ClassEntry? && a[x].superclass.Some? {
      DefineKeepsOld(a, b, a[x].superclass.value, k);
    }
  }

  /**
    A new class answers `new` as a class method, and inherits every instance method of
    its superclass and has none without one.
  */
  lemma DefineClassEffect(a: Arena, name: string, sup: Option<nat>, k: string)
    requires Wf(a) && (sup.Some? ==> sup.value < |a|)
    ensures Wf(DefineClass(a, name, sup).0)
    ensures var (b, id) := DefineClass(a, name, sup);
            ClassMethod(b, id, "new") == Some(New)
            && InstanceMethod(b, id, k) == (if sup.Some? then InstanceMethod(a, sup.value, k) else None)
  {
    DefineWf(a, name, sup);
    var (b, id) := DefineClass(a, name, sup);
    if sup.Some? {
      DefineKeepsOld(a, b, sup.value, k);
    }
  }

  /** A new module has an empty table. */
  lemma DefineModuleEffect(a: Arena, name: string, k: string)
    requires Wf(a)
    ensures Wf(DefineModule(a, name).0)
    ensures var (b, id) := DefineModule(a, name); InstanceMethod(b, id, k) == None
  {
    DefineWf(a, name, None);
  }

  /** `new` stays in the metaclass table unless `setClassMethod("new", ...)` replaces it. */
  lemma NewPersists(a: Arena, id: nat, x: nat, n: string, m: Method)
    requires Wf(a) && id < |a| && a[id].ClassEntry? && x < |a|
    requires ClassMethod(a, id, "new") == Some(New)
    ensures ClassMethod(SetInstanceMethod(a, x, n, m), id, "new") == Some(New)
    ensures a[x].ClassEntry? && n != "new" ==> ClassMethod(SetClassMethod(a, x, n, m), id, "new") == Some(New)
  {
  }

  /** An instance resolves through its class; a module object resolves nothing. */
  lemma ResolveByReceiver(a: Arena, r: Receiver, n: string)
    requires Wf(a) && ValidReceiver(a, r)
    ensures r.Instance? ==> Resolve(a, r, n) == FirstOwn(a, Ancestors(a, r.cls), n)
    ensures r.ModuleObject? ==> Resolve(a, r, n) == None
  {
    if r.Instance? {
      LookupWalksChain(a, r.cls, n);
    }
  }

  /** `new` runs the `initialize` the class inherits when it defines none of its own. */
  lemma ConstructInheritsInitialize(a: Arena, cls: nat)
    requires Wf(a) && cls < |a| && a[cls].ClassEntry? && a[cls].superclass.Some?
    requires "initialize" !in a[cls].methods
    ensures Construct(a, cls).1 == InstanceMethod(a, a[cls].superclass.value, "initialize")
  {
  }
}

# CrysJS core in Dafny

CrysJS is a small Ruby-like language implemented in JavaScript. A program is parsed into a
tree of expression nodes (lib/expressions.js). The nodes can be evaluated directly, or
compiled to JavaScript text by the top-level `compile` of lib/crysjs.js. This project
models four parts of that core:

- **Node catalogue** (`Ast`, ast.dfy). One `Expr` constructor per expression class, with
  the capabilities each class has or lacks, as total functions:
  - `Compilable`: whether it has `compile`;
  - `DeclaredName`: `getName`;
  - `FunctionName` and `FunctionNames`: `getFunctionName` and `getFunctionNames`.
- **Code generator** (`Codegen`, codegen.dfy; `Json`, json.dfy).
  - `Compile` gives the text each node's `compile` method produces.
  - `asStatement` and `compileExpression` are modelled, as is the part of `JSON.stringify`
    that constants use.
  - The code generator has a partner, a reader for the generated text (`Reader`,
    reader.dfy). `ReaderLemmas` proves that the reader gives back the tree for the operand
    fragment of the language, which makes `Compile` injective on that fragment.
  - Two quirks are reproduced as written, with lemmas that exhibit them:
    - the argument separator of a qualified call is never emitted;
    - `asStatement` strips an outer `(`…`)` pair even when the two do not match each other.
- **Compile driver** (`Driver`, driver.dfy).
  - `CompileProgram` is the statement loop of `compile`, with its separator and `;` rule;
    `Declarations` is the loop that writes the `var` preamble of hoisted names.
  - `Program` is the functional definition that `CompileProgram` is proved to compute.
- **Object model** (`Objects`, objects.dfy).
  - The entities are classes with their metaclasses, and modules.
  - All of them live in an arena: a sequence of entries, where the index is the identity.
  - A superclass always has a smaller index than its subclass. This makes the lookup walk
    up the superclass chain terminate.
- **Evaluator fragment** (`Env`, env.dfy; `Interp`, interp.dfy).
  - Values are an abstract `null | undefined | bool | int | string | object`.
  - Environments are chains of frames.
  - `evaluate` is modelled for constants, keywords, names, instance variables, assignment,
    `if`, `unless`, `while`, `until` and composites.
  - Loops run on a fuel budget.

The parser (`./parsers`) and the environment module (`./contexts`) are not part of this
model.
- The statements a program consists of are an input sequence.
- The environment operations (`createContext`, `getValue`, `setLocalValue`) are defined in
  `Env` as the rest of the code uses them.

Statements that cannot be compiled:
- Where a node lacks `compile`, the JavaScript code fails with a TypeError.
- `Codegen.Compile` requires `Compilable`.
- The driver models the failure: `CompileProgram` returns `None` exactly when some
  statement is not compilable.

Choices the model makes itself:
- `getValue` lives in `./contexts`, which is not part of this model. The model treats a
  name with no binding along the chain as an evaluation error (`Unbound`).
- lib/crysjs.js has no runtime-library alias and no `requirePath` handling, so the model
  has neither.
- test/compile.js:18-40 expects `a = 1; b = a;` with no `var` preamble. The code at
  lib/crysjs.js:37-46 emits `var a; var b; a = 1; b = a;`, and the model does the same.

## Model

| member | source | states |
|---|---|---|
| Codegen.AsStatement | lib/expressions.js:25-30 | the text loses its first and last character exactly when it starts with `(` and ends with `)`, and is otherwise returned unchanged; so the length drops by 2 or by 0 |
| Codegen.CompileExpression | lib/expressions.js:13-23 | a constant's or name's text is left as compiled; every other node's text begins with `(`: it is the compiled text itself exactly when that already starts with `(`, and otherwise that text wrapped once |
| CodegenLemmas.StatementOfArithmetic | lib/expressions.js:732-860 | arithmetic, logical and bitwise nodes compile wrapped in parentheses, and `asStatement` of them is exactly `l op r` |
| CodegenLemmas.StatementOfEquality | lib/expressions.js:659-677 | `==` and `!=` compile wrapped, with their operands through `compileExpression`, and `asStatement` removes exactly that wrapping |
| CodegenLemmas.ComparisonUnwrapped | lib/expressions.js:679-707 | `<`, `>`, `<=`, `>=` on names and constants compile to `l op r` with no outer parentheses, which `asStatement` leaves alone |
| CodegenLemmas.AsStatementUnmatchedParens | lib/expressions.js:25-30 | assigning a comparison of two parenthesized operands strips the left operand's `(` and the right operand's `)`, leaving unbalanced text |
| CodegenLemmas.AsStatementOfSums | lib/expressions.js:523-525 | `x = (a + b) < (c + d)` compiles to `x = a + b) < (c + d` |
| CodegenLemmas.ConstantTexts | lib/expressions.js:639-657 | `42` compiles to `42`, `-7` to `-7`, `"foo"` to `"foo"` in quotes, `nil` to `null`, and the keyword `foo` to `("foo")` |
| CodegenLemmas.ListForms | lib/expressions.js:268-342 | a call, an array literal and an indexing keep their two children in order, separated by `", "`: `f(a, b)`, `([a, b])`, `(e[a, b])` |
| CodegenLemmas.DefHeader | lib/expressions.js:212-231 | for any parameter list, a function header lists the parameters in order: no parameters give `()`, and adding a parameter `p` at the end appends `, p` (or gives `(p)` alone); a non-composite body is emitted as `{ return e }` |
| CodegenLemmas.DefIncrement | lib/expressions.js:212-231 | `def f(p) p + 1 end` compiles to `function f(p) { return (p + 1) }` |
| CodegenLemmas.QualifiedCallArgsRunTogether | lib/expressions.js:378-392 | the separator counter is never incremented: `o.m(1, 2)` and `o.m(12)` compile to the same text, `o.m(12)` |
| CodegenLemmas.BlockBraces | lib/expressions.js:479-499 | a composite's text ends in `}` exactly when it has more than one child or `useret` is set, and then starts with `{ ` and ends with ` }` |
| CodegenLemmas.BlockSingle | lib/expressions.js:479-499 | without `useret`, a single child is its statement text and `;`, with no braces |
| CodegenLemmas.BlockReturnsLast | lib/expressions.js:479-499 | with `useret`, only the last child is preceded by `return `; the others are plain statements |
| CodegenLemmas.BlockPlain | lib/expressions.js:479-499 | without `useret`, no child is preceded by `return ` and each is `asStatement` of its text followed by `;` |
| CodegenLemmas.DefCompositeBody | lib/expressions.js:226-227 | a function whose body is a composite is emitted as a braced block that returns its last statement |
| Json.ReadQuote | lib/expressions.js:654-656 | the JSON text of any string reads back as that string, and the reader stops right after the closing quote |
| Json.ReadIntText | lib/expressions.js:654-656 | the JSON text of any integer reads back as that integer, with the rest of the input untouched |
| Json.QuotePlain | lib/expressions.js:654-656 | a string with no quote, backslash or control character is quoted verbatim |
| ReaderLemmas.RoundTrip | lib/expressions.js:268-870 | for every compilable node of the operand fragment (constants, keywords, names, calls, arrays, indexing, arithmetic, equality, power, bitwise not), reading the compiled text back, followed by any delimiter, gives the node and the rest of the input |
| ReaderLemmas.OperandRoundTrip | lib/expressions.js:13-23 | the `compileExpression` text of a node in the fragment reads back as the node too |
| ReaderLemmas.CompileInjective | lib/expressions.js:268-870 | two different nodes of the operand fragment never compile to the same text |
| Ast.FunctionNamesAreCalled | lib/expressions.js:439-513 | every name `getFunctionNames` reports is the callee of a call that really occurs inside the node |
| Ast.NestedCallNotReported | lib/expressions.js:439-452 | the report is incomplete: a call inside a loop condition's operand is called but not reported |
| Ast.CompositeReportsDirectCalls | lib/expressions.js:501-513 | every direct child of a composite that is a free call has its callee reported |
| Driver.AddNameEffect | lib/crysjs.js:4-12 | `addName` appends at most one name, keeps the old list as a prefix, contains a name exactly when it was already there or is the new non-empty name, and never creates a duplicate |
| Driver.Terminated | lib/crysjs.js:32-35 | a statement's output text ends in `;` or `}`, and is the code unchanged exactly when the code already ends in one of them, otherwise the code and `;` |
| Driver.AppendStatement | lib/crysjs.js:27-35 | one loop iteration: a space unless nothing was written yet, then the statement's code terminated by `;` unless it ends in `;` or `}` |
| Driver.CompileProgram | lib/crysjs.js:19-47 | the output exists exactly when every statement can be compiled, and is then the preamble of hoisted names followed by the statements' terminated code separated by single spaces |
| DriverLemmas.HoistedNames | lib/crysjs.js:14-17 | the hoisted names have no duplicates and are exactly the non-empty names some statement declares |
| DriverLemmas.HoistedGrows | lib/crysjs.js:26-38 | the names collected after any prefix of the statements are a prefix of the final list, so names appear in order of first declaration |
| DriverLemmas.RedeclarationAddsNothing | lib/crysjs.js:8-9 | a statement declaring a name declared earlier adds nothing to the list |
| DriverLemmas.PreambleDeclarations | lib/crysjs.js:40-46 | the preamble is `var n;` for each name in order, separated by spaces, with one trailing space when there is any name |
| DriverLemmas.EmptyProgram | lib/crysjs.js:40-46 | no statements give the empty text |
| DriverLemmas.ProgramEnds | lib/crysjs.js:32-35 | a non-empty program's output ends in `;` or `}` |
| DriverLemmas.ConstantPrograms | test/compile.js:10-16 | the program `42` compiles to `42;` and `"foo"` to `"foo";` |
| DriverLemmas.ConstantProgram | lib/crysjs.js:30-35 | a constant statement declares nothing and its output is its JSON text followed by `;` |
| DriverLemmas.CallProgram | test/compile.js:42-44 | a call of a function on a constant compiles to `f(c);` with no preamble |
| DriverLemmas.ProgramOfTwo | lib/crysjs.js:26-46 | two statements give the preamble of their names, the first's before the second's, then both terminated texts separated by one space |
| DriverLemmas.OperatorStatementKeepsParens | lib/crysjs.js:30-35 | a top-level arithmetic statement is not passed through `asStatement`: it keeps its outer parentheses and gets `;` after them |
| Objects.Ancestors | lib/expressions.js:81-88 | the lookup chain starts at the class itself and its identities strictly decrease |
| Objects.DefineClass | lib/expressions.js:72-77 | a new class gets the next identity and leaves every existing entry as it was |
| ObjectLemmas.LookupWalksChain | lib/expressions.js:81-88 | `getInstanceMethod` gives the first own entry met along the superclass chain |
| ObjectLemmas.LookupIsFirstDefinition | lib/expressions.js:81-88 | the lookup gives `m` exactly when some class on the chain defines `m` and no class before it on the chain defines the name |
| ObjectLemmas.SetThenGet | lib/expressions.js:90-92 | after `setInstanceMethod(n, m)`, looking up `n` on that class gives `m` |
| ObjectLemmas.SetLeavesOtherNames | lib/expressions.js:90-92 | setting a method changes the lookup of no other name, on any class |
| ObjectLemmas.SetLeavesUnrelated | lib/expressions.js:90-92 | a class whose chain does not pass through the updated class sees no change |
| ObjectLemmas.SetOnSubclassLeavesAncestors | lib/expressions.js:90-92 | setting a method on a subclass leaves every ancestor's lookup unchanged |
| ObjectLemmas.SetReachesDescendants | lib/expressions.js:84-85 | a descendant with no definition of the name between it and the updated class inherits the new method |
| ObjectLemmas.SetKeepsClassMethods | lib/expressions.js:90-100 | `setInstanceMethod` leaves every metaclass table unchanged |
| ObjectLemmas.SetClassMethodEffect | lib/expressions.js:94-100 | `setClassMethod` is seen by `getClassMethod` of that class only, and changes no instance-method lookup |
| ObjectLemmas.DefineKeepsOld | lib/expressions.js:133-136 | creating a class or module changes no lookup on an existing one |
| ObjectLemmas.DefineClassEffect | lib/expressions.js:40-53 | a new class's metaclass holds `new`, and its lookups are its superclass's, or nothing without a superclass |
| ObjectLemmas.DefineModuleEffect | lib/expressions.js:103-113 | a new module defines nothing |
| ObjectLemmas.NewPersists | lib/expressions.js:40-62 | `new` stays in a metaclass table through every update except `setClassMethod("new", …)` |
| ObjectLemmas.ResolveByReceiver | lib/expressions.js:543-551 | an instance resolves a method through its class's chain; a module object, whose metaclass table is never filled, resolves nothing |
| ObjectLemmas.ConstructInheritsInitialize | lib/expressions.js:42-52 | `new` runs the `initialize` the class inherits when it defines none of its own |
| ObjectLemmas.SetInstanceMethodWf | lib/expressions.js:90-92 | setting a method keeps every superclass reference pointing to an earlier entry, and leaves the class's chain unchanged |
| InterpLemmas.FalsityDiffersFromJs | lib/expressions.js:32-34 | `isFalse` agrees with JavaScript falsiness except on `0` and `""`, which it takes as true |
| InterpLemmas.LookupIsInnermost | lib/expressions.js:618-626 | name lookup fails exactly when no frame binds the name, and otherwise yields the binding of the innermost frame that has one |
| InterpLemmas.CreateContextInherits | lib/expressions.js:137 | a fresh child context sees exactly its parent's bindings |
| InterpLemmas.SetLocalEffect | lib/expressions.js:634-636 | after `setLocalValue`, the name reads the new value, every other name reads as before, and no outer frame changes |
| InterpLemmas.UnboundName | lib/expressions.js:618-626 | evaluating a name fails with an unbound-name error exactly when no frame binds it |
| InterpLemmas.AssignName | lib/expressions.js:517-521 | an assignment to a name yields the value and binds it in the innermost frame; other names and the outer frames keep their values |
| InterpLemmas.AssignNeedsTarget | lib/expressions.js:517-521 | assigning to a node without `setValue` is an error |
| InterpLemmas.UnwrittenInstanceVarIsNull | lib/expressions.js:579-584 | before the receiver's store exists, every instance variable reads `null` |
| InterpLemmas.InstanceVarWriteRead | lib/expressions.js:588-593 | a written instance variable reads back the value; other variables keep theirs, except that after the first write an unwritten one reads `undefined` instead of `null` |
| InterpLemmas.NoReceiverNoInstanceVars | lib/expressions.js:578-593 | without a receiver, instance variables can be neither read nor written |
| InterpLemmas.ReadsLeaveState | lib/expressions.js:618-626 | reading a constant, keyword, name or instance variable leaves the state unchanged |
| InterpLemmas.IfWithoutElse | lib/expressions.js:395-407 | an `if` without `else` behaves as one whose `else` is `null` |
| InterpLemmas.UnlessIsIfSwapped | lib/expressions.js:409-421 | `unless c t else u` behaves as `if c u else t`, a missing branch being `null` |
| InterpLemmas.LoopYieldsNull | lib/expressions.js:423-466 | a `while` or `until` loop that stops yields `null` |
| InterpLemmas.WhileUntilYieldNull | lib/expressions.js:423-466 | a `while` or `until` node that completes yields `null` |
| InterpLemmas.LoopStopsAtOnce | lib/expressions.js:425-429 | a `while` whose condition is false on entry runs its body zero times and leaves the state the condition left |
| InterpLemmas.CompositeLast | lib/expressions.js:469-477 | a composite yields `null` when empty, and otherwise runs its statements in order and yields the last one's value |
| InterpLemmas.SingleStatement | lib/expressions.js:469-477 | a composite of one statement behaves as that statement |
| InterpLemmas.EvalMoreFuel | lib/expressions.js:423-466 | an evaluation that did not run out of fuel gives the same outcome with any larger budget |

## Left out

- Evaluation of arithmetic, comparison, `<=>`, bitwise and power nodes (lib/expressions.js:659-870), which depends on JavaScript coercion, loose `==` and IEEE-754 doubles. `Interp.Eval` reports these as `Unmodelled`.
- The host-namespace bridge (lib/expressions.js:159-194, 345-356): it reads the ambient `global`/`window` object and calls host functions. The `Expr` type has no constructors for those nodes.
- Function values and dispatch through `apply`/`this`: `Def` and `defnamed` evaluation, `Call` and `QualifiedCall` evaluation, and the primitive method table (lib/expressions.js:4-11, 36-38, 197-210, 240-253, 257-266, 359-376). In the method tables a method is an opaque identity (`Objects.Method`).
- Auto-invocation of a function value by a bare name (lib/expressions.js:622-623). A function is an opaque `VObj`, so a name yields the value it is bound to.
- Evaluation of array literals, indexing and qualified names (lib/expressions.js:290-297, 320-328, 544-551): `Interp.Eval` gives `Unmodelled`, because arrays and property access need JavaScript objects that the value model does not have.
- Class-variable evaluation and assignment (lib/expressions.js:596-612): `Interp.Eval` gives `Unmodelled`, because the class-variable store lives on a metaclass object that the evaluator's state does not carry. Global variables have no `evaluate` in the source and also give `Unmodelled`.
- `ClassExpression` and `ModuleExpression` evaluation (lib/expressions.js:130-156). Their effect on the object model is covered by `Objects.DefineClass` and `Objects.DefineModule`, but the evaluator does not create classes.
- Names inherited from `Object.prototype` are not modelled. A JavaScript method table is an object, and looking up `constructor` or `toString` in it would find the inherited entry; here the tables hold only the entries that were set.
- Interp.ReadInstanceVar: the instance-variable store is an object literal (lib/expressions.js:583-593), so in the source reading an unwritten `constructor` or `toString` finds the inherited entry. The model gives `undefined` for every unwritten name. The variable frames of `./contexts` are not part of this model; `Env` frames are maps and hold only the names that were set.
- Codegen.ConstantText: an integer constant is unbounded and printed with all its digits. In the source it is a JavaScript double, so `JSON.stringify` rounds integers beyond 2^53 (2^53+1 prints as `9007199254740992`) and uses exponent form from 10^21 (`1e+21`). The model does not reproduce either.
- The `JSON.stringify` model covers strings, integers, `true`, `false` and `null`. It has no floating-point numbers, and it treats every character as a code point, so lone surrogates are not escaped.
- `Reader.Parse` reads only the operand fragment: constants, keywords, names, free calls, arrays, indexing, arithmetic, logical, bitwise, equality, power and bitwise not. Comparisons, qualified names and calls, and statements are not read back. The reader would need a grammar for unparenthesized comparison and assignment text, and a qualified call's arguments run together.
- The object arena is a sequence indexed by identity rather than a map. The model allows a module in the superclass position (`Objects.DefineClass` takes any earlier entry), which the source would also accept.
- `Interp.Loop`: `while` and `until` run on a fuel budget, one unit per iteration. `OutOfFuel` is the outcome of a loop that would run forever, of any loop given fuel 0 (before its condition is evaluated), and of a finite loop given no more units than the iterations it runs (the test that ends the loop needs one unit too). `InterpLemmas.EvalMoreFuel` shows that more fuel never changes an outcome that did not run out.
- The dead `defnamed` export (lib/expressions.js:888) returns `undefined` and is not modelled.
- test/compile.js:18-40 expects output without the `var` preamble. This contradicts lib/crysjs.js:37-46, which the model follows, so there are no lemmas for those cases.
- The parser (`./parsers`) and the environment module (`./contexts`): the statement sequence is an input, and the environment is modelled in `Env`.
- Objects.Construct: states only that the result is an instance of the class. The `initialize` it runs is stated by `ObjectLemmas.ConstructInheritsInitialize`. The call of `initialize` with the constructor's arguments is not modelled, because method bodies are opaque.

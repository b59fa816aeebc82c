/**
  The top-level `compile(text)` of lib/crysjs.js, over the statements the parser reads
  from the text: each statement's code, separated by single spaces and terminated by
  `;` unless it already ends in `;` or `}`, preceded by one `var name; ` declaration for
  every distinct non-empty name the statements declare, in order of first appearance.
*/
module Driver {
  import opened Wrappers
  import opened Ast
  import opened Codegen
  import CodegenLemmas

  predicate AllCompilable(stmts: seq<Expr>) {
    forall i :: 0 <= i < |stmts| ==> Compilable(stmts[i])
  }

  predicate NoDuplicates(names: seq<string>) {
    forall i, j :: 0 <= i < j < |names| ==> names[i] != names[j]
  }

  /** `addName`: a missing or empty name, or one already listed, leaves the list as it is. */
  function AddName(names: seq<string>, name: Option<string>): seq<string> {
    if name.None? || name.value == "" || name.value in names then names else names + [name.value]
  }

  /**
    `addName` only ever appends, at most one name, exactly the non-empty name it is given
    when that name is new, and so never introduces a duplicate.
  */
  lemma AddNameEffect(names: seq<string>, name: Option<string>)
    ensures names <= AddName(names, name) && |AddName(names, name)| <= |names| + 1
    ensures forall x :: x in AddName(names, name) <==> x in names || (name == Some(x) && x != "")
    ensures NoDuplicates(names) ==> NoDuplicates(AddName(names, name))
  {
  }

  /** The names the loop has collected after the given statements (`addNames` on each). */
  function Hoisted(stmts: seq<Expr>): seq<string>
    decreases |stmts|
  {
    if stmts == [] then [] else AddName(Hoisted(stmts[..|stmts| - 1]), DeclaredName(stmts[|stmts| - 1]))
  }

  /** A statement's code as it appears in the output: with `;` unless it ends in `;` or `}`. */
  function Terminated(text: string): (r: string)
    ensures |r| > 0 && (r[|r| - 1] == ';' || r[|r| - 1] == '}')
    ensures r == text || r == text + ";"
    ensures r == text <==> |text| > 0 && (text[|text| - 1] == ';' || text[|text| - 1] == '}')
  {
    if |text| > 0 && (text[|text| - 1] == ';' || text[|text| - 1] == '}') then text else text + ";"
  }

  function Statements(texts: seq<string>): (r: seq<string>)
    ensures |r| == |texts|
    ensures forall i :: 0 <= i < |texts| ==> r[i] == Terminated(texts[i])
  {
    seq(|texts|, i requires 0 <= i < |texts| => Terminated(texts[i]))
  }

  /** The declarations put in front of the code, `var name; ` for each name. */
  function Preamble(names: seq<string>): string
    decreases |names|
  {
    if names == [] then "" else Preamble(names[..|names| - 1]) + "var " + names[|names| - 1] + "; "
  }

  /** What `compile` returns for statements that all have a `compile` method. */
  function Program(stmts: seq<Expr>): string
    requires forall i :: 0 <= i < |stmts| ==> Compilable(stmts[i])
  {
    Preamble(Hoisted(stmts)) + Body(stmts)
  }

  /**
    The accumulating loop of `compile`: appends a space unless the result is empty, the
    statement's code, and `;` when the result's last character is neither `;` nor `}`.
    A statement without a `compile` method stops the run with an error (`None`).
  */
  method CompileProgram(stmts: seq<Expr>) returns (out: Option<string>)
    ensures out.Some? <==> forall i :: 0 <= i < |stmts| ==> Compilable(stmts[i])
    ensures out.Some? ==> out.value == Program(stmts)
  {
    var result := "";
    var names: seq<string> := [];
    var k := 0;
    while k < |stmts|
      invariant 0 <= k <= |stmts|
      invariant forall i :: 0 <= i < k ==> Compilable(stmts[i])
      invariant names == Hoisted(stmts[..k])
      invariant result == Body(stmts[..k])
    {
      if !Compilable(stmts[k]) {
        return None;
      }
      var text := Compile(stmts[k]);
      result := AppendStatement(result, text);
      BodyStep(stmts, k);
      names := AddName(names, DeclaredName(stmts[k]));
      HoistedStep(stmts, k);
      k := k + 1;
    }
    assert stmts[..k] == stmts;
    var decls := Declarations(names);
    return Some(decls + result);
  }

  /** The `var name; ` lines written in front of the code, one per hoisted name, in order. */
  method Declarations(names: seq<string>) returns (decls: string)
    ensures decls == Preamble(names)
  {
    decls := "";
    for j := 0 to |names|
      invariant decls == Preamble(names[..j])
    {
      assert names[..j + 1][..j] == names[..j];
      decls := decls + "var " + names[j] + "; ";
    }
    assert names[..|names|] == names;
  }

  /**
    One iteration's text: a space unless nothing was written yet, the statement's code,
    and `;` when the last character so far is neither `;` nor `}`.
  */
  method AppendStatement(result: string, text: string) returns (r: string)
    ensures r == (if |result| > 0 then result + " " else result) + Terminated(text)
  {
    r := result;
    if |r| > 0 {
      r := r + " ";
    }
    ghost var lead := r;
    r := r + text;
    if |r| == 0 || (r[|r| - 1] != ';' && r[|r| - 1] != '}') {
      r := r + ";";
    }
    TerminateStep(lead, text);
  }

  /** The statements' code, terminated and separated by spaces. */
  function Body(stmts: seq<Expr>): string
    requires forall i :: 0 <= i < |stmts| ==> Compilable(stmts[i])
  {
    Join(Statements(CompileEach(stmts)), " ")
  }

  /** The last-character test on the whole result decides as `Terminated` does on the statement alone. */
  lemma TerminateStep(lead: string, text: string)
    requires lead == [] || lead[|lead| - 1] == ' '
    ensures var s := lead + text;
      s + (if |s| == 0 || (s[|s| - 1] != ';' && s[|s| - 1] != '}') then ";" else "") == lead + Terminated(text)
  {
    var s := lead + text;
    if |text| > 0 {
      assert s[|s| - 1] == text[|text| - 1];
    } else {
      assert s == lead;
    }
  }

  /** One more statement adds a space (unless it is the first) and its terminated code. */
  lemma BodyStep(stmts: seq<Expr>, k: nat)
    requires k < |stmts| && forall i :: 0 <= i <= k ==> Compilable(stmts[i])
    ensures AllCompilable(stmts[..k + 1])
    ensures var pre := Body(stmts[..k]);
      Body(stmts[..k + 1]) == (if |pre| > 0 then pre + " " else pre) + Terminated(Compile(stmts[k]))
  {
    var xs, x := stmts[..k], stmts[k];
    assert stmts[..k + 1] == xs + [x];
    CodegenLemmas.CompileEachSnoc(xs, x);
    var ts := Statements(CompileEach(xs));
    assert Statements(CompileEach(xs + [x])) == ts + [Terminated(Compile(x))];
    CodegenLemmas.JoinSnoc(ts, Terminated(Compile(x)), " ");
    if |ts| > 0 {
      JoinNonEmpty(ts);
    }
  }

  lemma HoistedStep(stmts: seq<Expr>, k: nat)
    requires k < |stmts|
    ensures Hoisted(stmts[..k + 1]) == AddName(Hoisted(stmts[..k]), DeclaredName(stmts[k]))
  {
    assert stmts[..k + 1][..k] == stmts[..k];
  }

  /** Joining terminated statements never gives the empty text. */
  lemma JoinNonEmpty(ts: seq<string>)
    requires |ts| > 0 && forall i :: 0 <= i < |ts| ==> |ts[i]| > 0
    ensures |Join(ts, " ")| > 0
  {
  }
}

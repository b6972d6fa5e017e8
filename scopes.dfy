/** The evaluator's scope stack: a sequence of frames, outermost first, each
    mapping a name to the expression it was defined as (unevaluated). */
module Scopes {
  import opened Syntax

  datatype Option<T> = None | Some(value: T)

  type Frame = map<string, Expr>

  type Frames = seq<Frame>

  /** A new evaluator's stack: one empty frame. */
  const Initial: Frames := [map[]]

  /** Frame i holds the binding of name that lookup reaches first: no frame
      inside it binds the name. */
  ghost predicate Innermost(defs: Frames, name: string, i: int) {
    0 <= i < |defs| && name in defs[i] &&
    forall j :: i < j < |defs| ==> name !in defs[j]
  }

  /** `get_definition`: the binding of name in the innermost frame that has one. */
  function Lookup(defs: Frames, name: string): (r: Option<Expr>)
    ensures r.None? <==> forall i :: 0 <= i < |defs| ==> name !in defs[i]
  {
    if |defs| == 0 then None
    else if name in defs[|defs| - 1] then Some(defs[|defs| - 1][name])
    else
      var init := defs[..|defs| - 1];
      assert forall i :: 0 <= i < |init| ==> init[i] == defs[i];
      Lookup(init, name)
  }

  /** The innermost frame. */
  function Top(defs: Frames): Frame
    requires |defs| > 0
  {
    defs[|defs| - 1]
  }

  /** The insertion `Define` performs: into the innermost frame, overwriting
      that frame's binding of name only; nothing happens on an empty stack. */
  function Insert(defs: Frames, name: string, e: Expr): (r: Frames)
    ensures |r| == |defs|
    ensures |defs| == 0 ==> r == defs
    ensures forall i :: 0 <= i < |defs| - 1 ==> r[i] == defs[i]
    ensures |defs| > 0 ==> name in Top(r) && Top(r)[name] == e
    ensures |defs| > 0 ==> forall k :: k in Top(r) ==> k == name || k in Top(defs)
    ensures |defs| > 0 ==> forall k :: k in Top(defs) && k != name ==>
      k in Top(r) && Top(r)[k] == Top(defs)[k]
  {
    if |defs| == 0 then defs
    else defs[..|defs| - 1] + [defs[|defs| - 1][name := e]]
  }

  /** `increase_scope`: a new empty innermost frame, which `decrease_scope`
      removes again. */
  function PushFrame(defs: Frames): (r: Frames)
    ensures |r| == |defs| + 1 && r[..|defs|] == defs && r[|defs|] == map[]
    ensures PopFrame(r) == defs
  {
    defs + [map[]]
  }

  /** `decrease_scope`: drop the innermost frame, if there is one. */
  function PopFrame(defs: Frames): (r: Frames)
    ensures |defs| > 0 ==> r + [Top(defs)] == defs
    ensures |defs| == 0 ==> r == defs
  {
    if |defs| == 0 then defs else defs[..|defs| - 1]
  }

  /** Lookup finds the binding in the innermost frame that binds the name. */
  lemma {:induction false} LookupFindsInnermost(defs: Frames, name: string, i: int)
    requires Innermost(defs, name, i)
    ensures Lookup(defs, name) == Some(defs[i][name])
  {
    if i < |defs| - 1 {
      var init := defs[..|defs| - 1];
      assert Innermost(init, name, i);
      LookupFindsInnermost(init, name, i);
    }
  }

  /** Lookup fails exactly when no frame binds the name, and a binding it
      returns comes from the innermost frame that binds it. */
  lemma {:induction false} LookupSound(defs: Frames, name: string)
    ensures Lookup(defs, name).None? <==> forall i :: 0 <= i < |defs| ==> name !in defs[i]
    ensures Lookup(defs, name).Some? ==>
      exists i :: Innermost(defs, name, i) && defs[i][name] == Lookup(defs, name).value
  {
    if |defs| > 0 {
      var last, init := |defs| - 1, defs[..|defs| - 1];
      if name in defs[last] {
        assert Innermost(defs, name, last);
      } else {
        LookupSound(init, name);
        if Lookup(init, name).Some? {
          var i :| Innermost(init, name, i) && init[i][name] == Lookup(init, name).value;
          assert Innermost(defs, name, i);
        }
        assert forall i :: 0 <= i < last ==> init[i] == defs[i];
      }
    }
  }

  /** After `Define` on a non-empty stack, the name resolves to the new
      expression, and every other name resolves as before. */
  lemma {:induction false} LookupAfterInsert(defs: Frames, name: string, e: Expr, other: string)
    requires |defs| > 0
    ensures Lookup(Insert(defs, name, e), name) == Some(e)
    ensures other != name ==> Lookup(Insert(defs, name, e), other) == Lookup(defs, other)
  {
    var r := Insert(defs, name, e);
    assert r[..|r| - 1] == defs[..|defs| - 1];
  }

  /** A later definition of a name in the same frame overwrites the earlier one. */
  lemma RedefinitionOverwrites(defs: Frames, name: string, e1: Expr, e2: Expr)
    ensures Insert(Insert(defs, name, e1), name, e2) == Insert(defs, name, e2)
  {
    if |defs| > 0 {
      var r1, r2 := Insert(Insert(defs, name, e1), name, e2), Insert(defs, name, e2);
      assert r1[|r1| - 1] == r2[|r2| - 1];
    }
  }

  /** A frame pushed, defined into and popped again leaves every lookup as it was. */
  lemma {:induction false} ScopedDefinitionIsForgotten(defs: Frames, name: string, e: Expr, other: string)
    ensures Lookup(PopFrame(Insert(PushFrame(defs), name, e)), other) == Lookup(defs, other)
    ensures Lookup(Insert(PushFrame(defs), name, e), name) == Some(e)
  {
    var pushed := PushFrame(defs);
    var r := Insert(pushed, name, e);
    assert r[..|defs|] == defs;
    assert PopFrame(r) == defs;
  }

  /** A fresh stack binds nothing. */
  lemma InitialBindsNothing(name: string)
    ensures Lookup(Initial, name) == None
  {
  }
}

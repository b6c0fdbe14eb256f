/** Variable scope bookkeeping while parsing typed variable lists such as
    `?a ?b - block ?c` (src/plasp/pddl/expressions/Variable.cpp).

    A scope is the ordered list of variables declared so far. Declaring a
    variable appends it marked dirty; a following `- type` gives that type to
    every dirty variable of the scope and clears their flags. The tokenizer is
    abstracted away: each declaration arrives as a name and an optional type. */
module Variables {

  import opened Wrappers

  /** A parsed type: a primitive type or an `either` of primitive types. */
  datatype VariableType = PrimitiveType(name: string) | EitherType(alternatives: seq<string>)

  datatype Variable = Variable(name: string, isDirty: bool, varType: Option<VariableType>)

  type Scope = seq<Variable>

  /** One `?name` of a declaration list, with the type that follows it, if any. */
  datatype Declaration = Declaration(name: string, typeAnnotation: Option<VariableType>)

  datatype ParserError =
    | AlreadyDeclared(name: string)
    | UndeclaredVariable(name: string)
    | UndeclaredType

  /** What the typing requirement check after a declaration list did. */
  datatype TypingCheck = Skipped | RequirementChecked

  /** A freshly constructed variable. */
  function NewVariable(): (v: Variable)
    ensures !v.isDirty && v.varType.None?
  {
    Variable("", false, None)
  }

  function Names(scope: Scope): seq<string>
  {
    seq(|scope|, k requires 0 <= k < |scope| => scope[k].name)
  }

  function DeclaredNames(ds: seq<Declaration>): seq<string>
  {
    seq(|ds|, k requires 0 <= k < |ds| => ds[k].name)
  }

  predicate DistinctNames(scope: Scope)
  {
    forall i, j :: 0 <= i < j < |scope| ==> scope[i].name != scope[j].name
  }

  /** The first variable of `scope`, at `from` or later, named `name`. */
  function FindFrom(scope: Scope, name: string, from: nat): (r: Option<nat>)
    requires from <= |scope|
    decreases |scope| - from
    ensures r.Some? ==> from <= r.value < |scope| && scope[r.value].name == name
    ensures r.Some? ==> forall j :: from <= j < r.value ==> scope[j].name != name
    ensures r.None? ==> forall j :: from <= j < |scope| ==> scope[j].name != name
  {
    if from == |scope| then None
    else if scope[from].name == name then Some(from)
    else FindFrom(scope, name, from + 1)
  }

  /** `parseDeclaration`: rejects a name already in the scope, otherwise
      appends a dirty, untyped variable of that name. */
  function ParseDeclaration(scope: Scope, name: string): (r: Result<Scope, ParserError>)
    ensures r.Failure? <==> exists i :: 0 <= i < |scope| && scope[i].name == name
    ensures r.Failure? ==> r.error == AlreadyDeclared(name)
    ensures r.Success? ==> r.value == scope + [Variable(name, true, None)]
    ensures r.Success? && DistinctNames(scope) ==> DistinctNames(r.value)
  {
    if FindFrom(scope, name, 0).Some? then Failure(AlreadyDeclared(name))
    else Success(scope + [NewVariable().(name := name, isDirty := true)])
  }

  /** The effect of a type on one variable: a dirty variable receives it and
      is no longer dirty; any other variable is left alone. */
  function Settle(v: Variable, annotation: Option<VariableType>): Variable
  {
    if v.isDirty && annotation.Some? then v.(isDirty := false, varType := annotation) else v
  }

  /** The `setType` step of `parseTypedDeclaration`. */
  method ApplyType(scope: Scope, t: VariableType) returns (r: Scope)
    ensures |r| == |scope|
    ensures forall i :: 0 <= i < |scope| ==> r[i].name == scope[i].name && !r[i].isDirty
    ensures forall i :: 0 <= i < |scope| && scope[i].isDirty ==> r[i].varType == Some(t)
    ensures forall i :: 0 <= i < |scope| && !scope[i].isDirty ==> r[i] == scope[i]
  {
    r := [];
    var i := 0;
    while i < |scope|
      invariant 0 <= i <= |scope| && |r| == i
      invariant forall k :: 0 <= k < i ==> r[k] == Settle(scope[k], Some(t))
    {
      var v := scope[i];
      if v.isDirty {
        v := v.(varType := Some(t), isDirty := false);
      }
      r := r + [v];
      i := i + 1;
    }
  }

  /** `parseTypedDeclaration`: declares the variable, then, if a type follows,
      applies it to every dirty variable. */
  method ParseTypedDeclaration(scope: Scope, d: Declaration) returns (r: Result<Scope, ParserError>)
    ensures r.Failure? <==> exists i :: 0 <= i < |scope| && scope[i].name == d.name
    ensures r.Failure? ==> r.error == AlreadyDeclared(d.name)
    ensures r.Success? ==> |r.value| == |scope| + 1
    ensures r.Success? ==> forall i :: 0 <= i < |scope| ==> r.value[i] == Settle(scope[i], d.typeAnnotation)
    ensures r.Success? ==> r.value[|scope|] == Settle(Variable(d.name, true, None), d.typeAnnotation)
    ensures r.Success? && d.typeAnnotation.None? ==> r.value == scope + [Variable(d.name, true, None)]
    ensures r.Success? && d.typeAnnotation.Some? ==>
              && r.value[|scope|].varType == d.typeAnnotation
              && forall i :: 0 <= i < |r.value| ==> !r.value[i].isDirty
  {
    var declared := ParseDeclaration(scope, d.name);
    if declared.Failure? {
      return declared;
    }
    match d.typeAnnotation
    case None =>
      r := declared;
    case Some(t) =>
      var typed := ApplyType(declared.value, t);
      r := Success(typed);
  }

  /** The first type annotation of a declaration list, if any. */
  function FirstAnnotation(ds: seq<Declaration>): Option<VariableType>
  {
    if |ds| == 0 then None
    else if ds[0].typeAnnotation.Some? then ds[0].typeAnnotation
    else FirstAnnotation(ds[1..])
  }

  lemma {:induction false} FirstAnnotationSnoc(ds: seq<Declaration>, d: Declaration)
    ensures FirstAnnotation(ds + [d])
            == if FirstAnnotation(ds).Some? then FirstAnnotation(ds) else d.typeAnnotation
  {
    if |ds| > 0 {
      assert (ds + [d])[1..] == ds[1..] + [d];
      FirstAnnotationSnoc(ds[1..], d);
    }
  }

  lemma SettleTwice(v: Variable, first: Option<VariableType>, second: Option<VariableType>)
    ensures Settle(Settle(v, first), second) == Settle(v, if first.Some? then first else second)
  {
  }

  /** The typing requirement check at the end of `parseTypedDeclarations`. */
  function CheckTyping(scope: Scope, typingRequired: bool): (r: Result<TypingCheck, ParserError>)
    ensures |scope| == 0 ==> r == Success(Skipped)
    ensures |scope| > 0 && scope[|scope| - 1].varType.Some? ==> r == Success(RequirementChecked)
    ensures |scope| > 0 && scope[|scope| - 1].varType.None? ==>
              (r.Failure? <==> typingRequired) && (r.Failure? ==> r.error == UndeclaredType)
  {
    if |scope| == 0 then Success(Skipped)
    else if scope[|scope| - 1].varType.Some? then Success(RequirementChecked)
    else if typingRequired then Failure(UndeclaredType)
    else Success(Skipped)
  }

  /** The scope after the first `i` declarations of `ds`: earlier dirty
      variables carry the first type written so far, and each new variable the
      first type written at or after it. */
  predicate Layout(scope: Scope, ds: seq<Declaration>, i: nat, current: Scope)
    requires i <= |ds|
  {
    && |current| == |scope| + i
    && (forall k :: 0 <= k < |scope| ==> current[k] == Settle(scope[k], FirstAnnotation(ds[..i])))
    && (forall k :: 0 <= k < i ==>
          current[|scope| + k] == Settle(Variable(ds[k].name, true, None), FirstAnnotation(ds[k..i])))
  }

  /** The scope after declaring all of `ds`, written out directly: the old
      variables settled by the first type of the list, then each new variable
      settled by the first type written at or after it. */
  function DeclaredScope(scope: Scope, ds: seq<Declaration>): Scope
  {
    seq(|scope| + |ds|, k requires 0 <= k < |scope| + |ds| =>
      if k < |scope| then Settle(scope[k], FirstAnnotation(ds))
      else Settle(Variable(ds[k - |scope|].name, true, None), FirstAnnotation(ds[k - |scope|..])))
  }

  /** When the last declaration of a non-empty list carries a type, the final
      check only records the requirement and cannot fail. */
  lemma TypedLastDeclaration(scope: Scope, ds: seq<Declaration>, typingRequired: bool)
    requires |ds| > 0 && ds[|ds| - 1].typeAnnotation.Some?
    ensures CheckTyping(DeclaredScope(scope, ds), typingRequired) == Success(RequirementChecked)
  {
    var last := |ds| - 1;
    assert ds[last..] == [ds[last]];
    assert FirstAnnotation([ds[last]]) == ds[last].typeAnnotation;
    assert DeclaredScope(scope, ds)[|scope| + last]
           == Settle(Variable(ds[last].name, true, None), FirstAnnotation(ds[last..]));
    assert DeclaredScope(scope, ds)[|scope| + last].varType == ds[last].typeAnnotation;
  }

  /** When the last declaration carries no type, the final check fails
      exactly when typing is required. */
  lemma UntypedLastDeclaration(scope: Scope, ds: seq<Declaration>, typingRequired: bool)
    requires |ds| > 0 && ds[|ds| - 1].typeAnnotation.None?
    ensures CheckTyping(DeclaredScope(scope, ds), typingRequired).Failure? <==> typingRequired
  {
    var last := |ds| - 1;
    assert ds[last..] == [ds[last]];
    assert FirstAnnotation([ds[last]]) == None;
    assert DeclaredScope(scope, ds)[|scope| + last]
           == Settle(Variable(ds[last].name, true, None), FirstAnnotation(ds[last..]));
    assert DeclaredScope(scope, ds)[|scope| + last].varType == None;
  }

  lemma LayoutStep(scope: Scope, ds: seq<Declaration>, i: nat, current: Scope, next: Scope)
    requires i < |ds| && Layout(scope, ds, i, current)
    requires |next| == |current| + 1
    requires forall k :: 0 <= k < |current| ==> next[k] == Settle(current[k], ds[i].typeAnnotation)
    requires next[|current|] == Settle(Variable(ds[i].name, true, None), ds[i].typeAnnotation)
    ensures Layout(scope, ds, i + 1, next)
  {
    LayoutStepScope(scope, ds, i, current, next);
    LayoutStepDeclared(scope, ds, i, current, next);
  }

  lemma LayoutStepScope(scope: Scope, ds: seq<Declaration>, i: nat, current: Scope, next: Scope)
    requires i < |ds| && |current| == |scope| + i
    requires forall k :: 0 <= k < |scope| ==> current[k] == Settle(scope[k], FirstAnnotation(ds[..i]))
    requires |next| == |current| + 1
    requires forall k :: 0 <= k < |current| ==> next[k] == Settle(current[k], ds[i].typeAnnotation)
    ensures forall k :: 0 <= k < |scope| ==> next[k] == Settle(scope[k], FirstAnnotation(ds[..i + 1]))
  {
    assert ds[..i + 1] == ds[..i] + [ds[i]];
    FirstAnnotationSnoc(ds[..i], ds[i]);
    forall k | 0 <= k < |scope|
      ensures next[k] == Settle(scope[k], FirstAnnotation(ds[..i + 1]))
    {
      SettleTwice(scope[k], FirstAnnotation(ds[..i]), ds[i].typeAnnotation);
    }
  }

  lemma LayoutStepDeclared(scope: Scope, ds: seq<Declaration>, i: nat, current: Scope, next: Scope)
    requires i < |ds| && |current| == |scope| + i
    requires forall k :: 0 <= k < i ==>
               current[|scope| + k] == Settle(Variable(ds[k].name, true, None), FirstAnnotation(ds[k..i]))
    requires |next| == |current| + 1
    requires forall k :: 0 <= k < |current| ==> next[k] == Settle(current[k], ds[i].typeAnnotation)
    requires next[|current|] == Settle(Variable(ds[i].name, true, None), ds[i].typeAnnotation)
    ensures forall k :: 0 <= k < i + 1 ==>
              next[|scope| + k] == Settle(Variable(ds[k].name, true, None), FirstAnnotation(ds[k..i + 1]))
  {
    forall k | 0 <= k < i + 1
      ensures next[|scope| + k] == Settle(Variable(ds[k].name, true, None), FirstAnnotation(ds[k..i + 1]))
    {
      if k < i {
        assert ds[k..i + 1] == ds[k..i] + [ds[i]];
        FirstAnnotationSnoc(ds[k..i], ds[i]);
        SettleTwice(Variable(ds[k].name, true, None), FirstAnnotation(ds[k..i]), ds[i].typeAnnotation);
      } else {
        assert ds[k..i + 1] == [ds[i]];
        assert FirstAnnotation([ds[i]]) == ds[i].typeAnnotation;
      }
    }
  }

  lemma LayoutNames(scope: Scope, ds: seq<Declaration>, current: Scope)
    requires |current| == |scope| + |ds|
    requires forall k :: 0 <= k < |scope| ==> current[k].name == scope[k].name
    requires forall k :: 0 <= k < |ds| ==> current[|scope| + k].name == ds[k].name
    ensures Names(current) == Names(scope) + DeclaredNames(ds)
  {
    var names := Names(current);
    var expected := Names(scope) + DeclaredNames(ds);
    forall k | 0 <= k < |names|
      ensures names[k] == expected[k]
    {
      if k >= |scope| {
        assert current[|scope| + (k - |scope|)].name == ds[k - |scope|].name;
      }
    }
  }

  lemma LayoutComplete(scope: Scope, ds: seq<Declaration>, current: Scope)
    requires Layout(scope, ds, |ds|, current)
    ensures Names(current) == Names(scope) + DeclaredNames(ds)
    ensures forall k :: 0 <= k < |scope| ==> current[k] == Settle(scope[k], FirstAnnotation(ds))
    ensures forall k :: 0 <= k < |ds| ==>
              current[|scope| + k] == Settle(Variable(ds[k].name, true, None), FirstAnnotation(ds[k..]))
  {
    assert ds[..|ds|] == ds;
    forall k | 0 <= k < |ds|
      ensures current[|scope| + k] == Settle(Variable(ds[k].name, true, None), FirstAnnotation(ds[k..]))
    {
      assert ds[k..|ds|] == ds[k..];
    }
    LayoutNames(scope, ds, current);
  }

  /** The names a layout after `i` declarations holds. */
  lemma LayoutPrefixNames(scope: Scope, ds: seq<Declaration>, i: nat, current: Scope)
    requires i <= |ds| && Layout(scope, ds, i, current)
    ensures Names(current) == Names(scope) + DeclaredNames(ds[..i])
  {
    forall k | 0 <= k < i
      ensures current[|scope| + k].name == ds[..i][k].name
    {
      assert current[|scope| + k] == Settle(Variable(ds[k].name, true, None), FirstAnnotation(ds[k..i]));
    }
    LayoutNames(scope, ds[..i], current);
  }

  /** No declared name repeats a name of the scope or of an earlier declaration. */
  predicate FreshNames(scope: Scope, ds: seq<Declaration>)
  {
    forall k :: 0 <= k < |ds| ==> ds[k].name !in Names(scope) + DeclaredNames(ds[..k])
  }

  lemma FreshNamesStep(scope: Scope, ds: seq<Declaration>, i: nat)
    requires i < |ds| && FreshNames(scope, ds[..i])
    requires ds[i].name !in Names(scope) + DeclaredNames(ds[..i])
    ensures FreshNames(scope, ds[..i + 1])
  {
    var prefix := ds[..i + 1];
    forall k | 0 <= k < |prefix|
      ensures prefix[k].name !in Names(scope) + DeclaredNames(prefix[..k])
    {
      assert prefix[..k] == ds[..k];
      if k < i {
        assert ds[..i][..k] == ds[..k];
        assert ds[..i][k] == ds[k];
      }
    }
  }

  lemma ClashNotFresh(scope: Scope, ds: seq<Declaration>, i: nat, current: Scope)
    requires i < |ds| && Names(current) == Names(scope) + DeclaredNames(ds[..i])
    requires exists j :: 0 <= j < |current| && current[j].name == ds[i].name
    ensures !FreshNames(scope, ds)
  {
    var j :| 0 <= j < |current| && current[j].name == ds[i].name;
    assert Names(current)[j] == ds[i].name;
  }

  /** One successful declaration keeps every invariant of the declaration loop. */
  lemma DeclarationStep(scope: Scope, ds: seq<Declaration>, i: nat, current: Scope, next: Scope)
    requires i < |ds| && Layout(scope, ds, i, current) && FreshNames(scope, ds[..i])
    requires DistinctNames(scope) ==> DistinctNames(current)
    requires forall j :: 0 <= j < |current| ==> current[j].name != ds[i].name
    requires |next| == |current| + 1
    requires forall k :: 0 <= k < |current| ==> next[k] == Settle(current[k], ds[i].typeAnnotation)
    requires next[|current|] == Settle(Variable(ds[i].name, true, None), ds[i].typeAnnotation)
    ensures Layout(scope, ds, i + 1, next) && FreshNames(scope, ds[..i + 1])
    ensures DistinctNames(scope) ==> DistinctNames(next)
  {
    LayoutStep(scope, ds, i, current, next);
    LayoutPrefixNames(scope, ds, i, current);
    assert ds[i].name !in Names(current);
    FreshNamesStep(scope, ds, i);
    if DistinctNames(scope) {
      AppendKeepsDistinct(current, next, ds[i].name);
    }
  }

  /** A declaration that clashes with the scope built so far shows the list is not fresh. */
  lemma DeclarationClash(scope: Scope, ds: seq<Declaration>, i: nat, current: Scope)
    requires i < |ds| && Layout(scope, ds, i, current)
    requires exists j :: 0 <= j < |current| && current[j].name == ds[i].name
    ensures !FreshNames(scope, ds)
  {
    LayoutPrefixNames(scope, ds, i, current);
    ClashNotFresh(scope, ds, i, current);
  }

  lemma AppendKeepsDistinct(current: Scope, next: Scope, name: string)
    requires DistinctNames(current)
    requires |next| == |current| + 1 && next[|current|].name == name
    requires forall k :: 0 <= k < |current| ==> next[k].name == current[k].name && current[k].name != name
    ensures DistinctNames(next)
  {
  }

  /** `parseTypedDeclarations`: declares every variable of the list in order,
      then checks the typing requirement. Each new variable ends up with the
      first type written at or after it and stays dirty when there is none;
      an earlier dirty variable of the scope gets the first type of the list. */
  method ParseTypedDeclarations(scope: Scope, ds: seq<Declaration>, typingRequired: bool)
    returns (r: Result<(Scope, TypingCheck), ParserError>)
    ensures r.Success? ==> Names(r.value.0) == Names(scope) + DeclaredNames(ds)
    ensures r.Success? && DistinctNames(scope) ==> DistinctNames(r.value.0)
    ensures r.Success? ==> forall k :: 0 <= k < |scope| ==>
              r.value.0[k] == Settle(scope[k], FirstAnnotation(ds))
    ensures r.Success? ==> forall k :: 0 <= k < |ds| ==>
              r.value.0[|scope| + k] == Settle(Variable(ds[k].name, true, None), FirstAnnotation(ds[k..]))
    ensures r.Success? ==> r.value.0 == DeclaredScope(scope, ds)
    ensures r.Success? ==> Success(r.value.1) == CheckTyping(r.value.0, typingRequired)
    ensures FreshNames(scope, ds) ==> (r.Success? <==> CheckTyping(DeclaredScope(scope, ds), typingRequired).Success?)
    ensures r.Failure? && r.error.AlreadyDeclared? <==> !FreshNames(scope, ds)
    ensures r.Failure? && r.error.UndeclaredType? ==> typingRequired
    ensures r.Failure? ==> r.error.AlreadyDeclared? || r.error.UndeclaredType?
  {
    var current := scope;
    var i := 0;
    assert ds[..0] == [];
    while i < |ds|
      invariant 0 <= i <= |ds|
      invariant Layout(scope, ds, i, current)
      invariant DistinctNames(scope) ==> DistinctNames(current)
      invariant FreshNames(scope, ds[..i])
    {
      var next := ParseTypedDeclaration(current, ds[i]);
      if next.Failure? {
        DeclarationClash(scope, ds, i, current);
        return Failure(next.error);
      }
      DeclarationStep(scope, ds, i, current, next.value);
      current := next.value;
      i := i + 1;
    }
    LayoutComplete(scope, ds, current);
    assert ds[..|ds|] == ds;
    assert current == DeclaredScope(scope, ds);
    var check := CheckTyping(current, typingRequired);
    if check.Failure? {
      return Failure(check.error);
    }
    return Success((current, check.value));
  }

  /** `parseAndFind`: the first variable of the scope with the given name; an
      unknown name is an error. */
  function ParseAndFind(scope: Scope, name: string): (r: Result<nat, ParserError>)
    ensures r.Success? ==> r.value < |scope| && scope[r.value].name == name
    ensures r.Success? ==> forall j :: 0 <= j < r.value ==> scope[j].name != name
    ensures r.Failure? <==> forall j :: 0 <= j < |scope| ==> scope[j].name != name
    ensures r.Failure? ==> r.error == UndeclaredVariable(name)
  {
    match FindFrom(scope, name, 0)
    case Some(i) => Success(i)
    case None => Failure(UndeclaredVariable(name))
  }
}

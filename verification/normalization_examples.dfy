/** Worked examples of the decomposition, stated for every free-variable
    collector and every starting table. */
module NormalizationExamples {

  import opened Wrappers
  import opened PddlAst
  import opened Normalization

  function Unary(predicateName: string, x: VariableDeclaration): AtomicFormula
  {
    AtomicFormula(predicateName, [VariableTerm(x)])
  }

  /** `(and (p ?x) (or (q ?x) (not (r ?x))))`: the top-level `and` keeps its
      shape, but its `or` argument is still moved into one declaration. */
  lemma ConjunctionWithDisjunction(x: VariableDeclaration, freeVariables: FreeVariables, table: DerivedPredicates)
    ensures
      var disjunction := Or([Atom(Unary("q", x)), Not(Atom(Unary("r", x)))]);
      NormalizeTopLevel(And([Atom(Unary("p", x)), disjunction]), freeVariables, table)
      == Success(Step(
           AndPrecondition([Positive(PredicateAtom(Unary("p", x))),
                            Positive(DerivedPredicate(|table|, freeVariables(disjunction)))]),
           table + [Declaration(|table|, freeVariables(disjunction), [],
                                OrBody([Positive(PredicateAtom(Unary("q", x))),
                                        Negative(PredicateAtom(Unary("r", x)))]))]))
  {
    var disjunction := Or([Atom(Unary("q", x)), Not(Atom(Unary("r", x)))]);
    var disjuncts := disjunction.arguments;
    var args := [Atom(Unary("p", x)), disjunction];
    var i := |table|;
    assert args[1..] == [disjunction];
    assert disjuncts[1..] == [Not(Atom(Unary("r", x)))];
    AllDecomposableElementwise(disjuncts);
    assert Decomposable(disjunction);
    AllDecomposableElementwise(args);
    assert ExpectedLiterals(disjuncts, freeVariables, i + 1)
        == [Positive(PredicateAtom(Unary("q", x))), Negative(PredicateAtom(Unary("r", x)))];
    assert ExpectedTables(disjuncts, freeVariables, i + 1) == [];
    assert ConjunctTable(args[0], freeVariables, i) == [];
    assert ConjunctLiterals(args[1..], freeVariables, i)
        == [Positive(DerivedPredicate(i, freeVariables(disjunction)))];
    assert ConjunctTables(args[1..], freeVariables, i) == ExpectedTable(disjunction, freeVariables, i);
    var r := NormalizeTopLevel(And(args), freeVariables, table);
    assert r.Success?;
    assert r.value.value == AndPrecondition(ConjunctLiterals(args, freeVariables, i));
    assert ConjunctLiterals(args, freeVariables, i)
        == [Positive(PredicateAtom(Unary("p", x))), Positive(DerivedPredicate(i, freeVariables(disjunction)))];
    assert r.value.table == table + ConjunctTables(args, freeVariables, i);
    assert ConjunctTables(args, freeVariables, i) == ExpectedTable(disjunction, freeVariables, i);
    assert ExpectedTable(disjunction, freeVariables, i)
        == [Declaration(i, freeVariables(disjunction), [],
                        OrBody([Positive(PredicateAtom(Unary("q", x))), Negative(PredicateAtom(Unary("r", x)))]))];
  }

  /** `(not (exists (?x) (and (p ?x) (not (q ?x)))))`: the `exists` gets one
      declaration and its `and` body, being nested, gets a second one. */
  lemma NegatedExists(x: VariableDeclaration, freeVariables: FreeVariables, table: DerivedPredicates)
    ensures
      var body := And([Atom(Unary("p", x)), Not(Atom(Unary("q", x)))]);
      var quantified := Exists([x], body);
      NormalizeTopLevel(Not(quantified), freeVariables, table)
      == Success(Step(
           LiteralPrecondition(Negative(DerivedPredicate(|table|, freeVariables(quantified)))),
           table + [Declaration(|table|, freeVariables(quantified), [x],
                                LiteralBody(Positive(DerivedPredicate(|table| + 1, freeVariables(body))))),
                    Declaration(|table| + 1, freeVariables(body), [],
                                AndBody([Positive(PredicateAtom(Unary("p", x))),
                                         Negative(PredicateAtom(Unary("q", x)))]))]))
  {
    var body := And([Atom(Unary("p", x)), Not(Atom(Unary("q", x)))]);
    var quantified := Exists([x], body);
    var i := |table|;
    ExistsBody(x, freeVariables, i + 1);
    QuantifiedTable(x, freeVariables, i);
    var r := NormalizeTopLevel(Not(quantified), freeVariables, table);
    assert r.Success?;
    assert ConjunctLiteral(Not(quantified), freeVariables, i) == Negative(DerivedPredicate(i, freeVariables(quantified)));
  }

  /** The `and` body of the example, normalized in a nested position. */
  lemma ExistsBody(x: VariableDeclaration, freeVariables: FreeVariables, index: nat)
    ensures var body := And([Atom(Unary("p", x)), Not(Atom(Unary("q", x)))]);
      && Decomposable(body)
      && NestedLiteral(body, freeVariables, index) == Positive(DerivedPredicate(index, freeVariables(body)))
      && ExpectedTable(body, freeVariables, index)
         == [Declaration(index, freeVariables(body), [],
                         AndBody([Positive(PredicateAtom(Unary("p", x))), Negative(PredicateAtom(Unary("q", x)))]))]
  {
    var body := And([Atom(Unary("p", x)), Not(Atom(Unary("q", x)))]);
    var conjuncts := body.arguments;
    assert conjuncts[1..] == [Not(Atom(Unary("q", x)))];
    AllDecomposableElementwise(conjuncts);
    assert ExpectedLiterals(conjuncts, freeVariables, index + 1)
        == [Positive(PredicateAtom(Unary("p", x))), Negative(PredicateAtom(Unary("q", x)))];
    assert ExpectedTables(conjuncts, freeVariables, index + 1) == [];
  }

  /** The declarations of the example's `exists`, given those of its body. */
  lemma QuantifiedTable(x: VariableDeclaration, freeVariables: FreeVariables, index: nat)
    requires var body := And([Atom(Unary("p", x)), Not(Atom(Unary("q", x)))]);
      && NestedLiteral(body, freeVariables, index + 1) == Positive(DerivedPredicate(index + 1, freeVariables(body)))
      && ExpectedTable(body, freeVariables, index + 1)
         == [Declaration(index + 1, freeVariables(body), [],
                         AndBody([Positive(PredicateAtom(Unary("p", x))), Negative(PredicateAtom(Unary("q", x)))]))]
    ensures var body := And([Atom(Unary("p", x)), Not(Atom(Unary("q", x)))]);
      var quantified := Exists([x], body);
      ExpectedTable(quantified, freeVariables, index)
      == [Declaration(index, freeVariables(quantified), [x],
                      LiteralBody(Positive(DerivedPredicate(index + 1, freeVariables(body))))),
          Declaration(index + 1, freeVariables(body), [],
                      AndBody([Positive(PredicateAtom(Unary("p", x))), Negative(PredicateAtom(Unary("q", x)))]))]
  {
  }

  /** A double negation of an atomic formula is rejected, at top level and
      nested alike. */
  lemma DoubleNegationRejected(f: AtomicFormula, freeVariables: FreeVariables, table: DerivedPredicates)
    ensures NormalizeTopLevel(Not(Not(Atom(f))), freeVariables, table) == Failure(NotInNormalForm(MultipleNegation))
    ensures NormalizeNested(Not(Not(Atom(f))), freeVariables, table) == Failure(NotInNormalForm(MultipleNegation))
  {
  }

  /** `forall` and `imply` are rejected at top level, inside a top-level `and`,
      and nested. */
  lemma UnreducedConnectivesRejected(ps: seq<VariableDeclaration>, a: Precondition, b: Precondition,
                                     freeVariables: FreeVariables, table: DerivedPredicates)
    ensures NormalizeTopLevel(ForAll(ps, a), freeVariables, table) == Failure(NotInNormalForm(ForAllConnective))
    ensures NormalizeTopLevel(Imply(a, b), freeVariables, table) == Failure(NotInNormalForm(ImplyConnective))
    ensures NormalizeTopLevel(And([ForAll(ps, a)]), freeVariables, table) == Failure(NotInNormalForm(ForAllConnective))
    ensures NormalizeNested(Imply(a, b), freeVariables, table) == Failure(NotInNormalForm(ImplyConnective))
  {
  }
}

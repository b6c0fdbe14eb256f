/** Derived-predicate decomposition of a reduced precondition
    (lib/pddlparse/src/pddlparse/detail/normalization/Precondition.cpp).

    Every nested `and`, `or`, `exists`, and every nested `not` over something
    other than an atomic formula, is moved into a freshly numbered
    derived-predicate declaration appended to a shared table and replaced by a
    reference to it. A top-level `not` (also as an argument of a top-level
    `and`) stays in place and negates the reference made for its argument.
    The table is threaded through the recursion and returned.

    The contracts relate the threaded implementation to a reference definition
    that needs neither the table nor error handling: `Extracted` counts the
    declarations, `NestedLiteral` gives the literal a subtree is replaced by, and
    `ExpectedTable` lists the declarations in the order they are appended. */
module Normalization {

  import opened Wrappers
  import opened Decimal
  import opened PddlAst

  const DerivedPredicatePrefix: string := "derived-predicate-"

  /** The name of the `number`-th derived predicate (counting from 1). */
  function DerivedPredicateName(number: nat): string
  {
    DerivedPredicatePrefix + NatToDecimal(number)
  }

  lemma DerivedPredicateNameInjective(m: nat, n: nat)
    ensures DerivedPredicateName(m) == DerivedPredicateName(n) ==> m == n
  {
    if DerivedPredicateName(m) == DerivedPredicateName(n) {
      var k := |DerivedPredicatePrefix|;
      assert NatToDecimal(m) == DerivedPredicateName(m)[k..];
      assert NatToDecimal(n) == DerivedPredicateName(n)[k..];
      NatToDecimalInjective(m, n);
    }
  }

  // ---------------------------------------------------------------------------
  // Reference definition
  // ---------------------------------------------------------------------------

  /** `not` directly over an atomic formula: the one negation a literal allows. */
  predicate NegatedAtom(p: Precondition)
  {
    p.Not? && p.argument.Atom?
  }

  /** The preconditions the decomposition accepts: no `forall`, no `imply`, and
      no `not` over a negated atomic formula anywhere. */
  predicate Decomposable(p: Precondition)
    decreases Size(p), 0
  {
    match p
    case Atom(_) => true
    case Not(a) => a.Atom? || (Decomposable(a) && !NegatedAtom(a))
    case And(args) => AllDecomposable(args)
    case Or(args) => AllDecomposable(args)
    case Exists(_, a) => Decomposable(a)
    case ForAll(_, _) => false
    case Imply(_, _) => false
  }

  predicate AllDecomposable(ps: seq<Precondition>)
    decreases SizeAll(ps), 1
  {
    |ps| == 0 || (Decomposable(ps[0]) && AllDecomposable(ps[1..]))
  }

  lemma {:induction false} AllDecomposableElementwise(ps: seq<Precondition>)
    ensures AllDecomposable(ps) <==> forall i :: 0 <= i < |ps| ==> Decomposable(ps[i])
  {
    if |ps| > 0 {
      AllDecomposableElementwise(ps[1..]);
      assert forall i :: 1 <= i < |ps| ==> ps[i] == ps[1..][i - 1];
    }
  }

  /** The offending connective the decomposition of `p` reports, if any: the
      first one met in the order the arguments are visited. A `not` over a
      non-atomic argument reports the argument's offense first, and a
      multiple negation only when its argument is itself a negated atom. */
  function Offense(p: Precondition): Option<Offending>
    decreases Size(p), 0
  {
    match p
    case Atom(_) => None
    case Not(a) =>
      if a.Atom? then None
      else if Offense(a).Some? then Offense(a)
      else if NegatedAtom(a) then Some(MultipleNegation)
      else None
    case And(args) => OffenseAll(args)
    case Or(args) => OffenseAll(args)
    case Exists(_, a) => Offense(a)
    case ForAll(_, _) => Some(ForAllConnective)
    case Imply(_, _) => Some(ImplyConnective)
  }

  /** The offense of the first argument that has one. */
  function OffenseAll(ps: seq<Precondition>): Option<Offending>
    decreases SizeAll(ps), 1
  {
    if |ps| == 0 then None
    else if Offense(ps[0]).Some? then Offense(ps[0])
    else OffenseAll(ps[1..])
  }

  /** A precondition is decomposable exactly when it has no offense. */
  lemma {:induction false} OffenseDecomposable(p: Precondition)
    decreases Size(p), 1
    ensures Decomposable(p) <==> Offense(p).None?
  {
    match p
    case Atom(_) =>
    case Not(a) => OffenseDecomposable(a);
    case And(args) => OffenseAllDecomposable(args);
    case Or(args) => OffenseAllDecomposable(args);
    case Exists(_, a) => OffenseDecomposable(a);
    case ForAll(_, _) =>
    case Imply(_, _) =>
  }

  lemma {:induction false} OffenseAllDecomposable(ps: seq<Precondition>)
    decreases SizeAll(ps), 2
    ensures AllDecomposable(ps) <==> OffenseAll(ps).None?
  {
    if |ps| > 0 {
      OffenseDecomposable(ps[0]);
      OffenseAllDecomposable(ps[1..]);
    }
  }

  /** Number of declarations the nested normalization of `p` appends. */
  function Extracted(p: Precondition): nat
    decreases Size(p), 0
  {
    match p
    case Atom(_) => 0
    case Not(a) => if a.Atom? then 0 else 1 + Extracted(a)
    case And(args) => 1 + ExtractedAll(args)
    case Or(args) => 1 + ExtractedAll(args)
    case Exists(_, a) => 1 + Extracted(a)
    case ForAll(_, _) => 0
    case Imply(_, _) => 0
  }

  function ExtractedAll(ps: seq<Precondition>): nat
    decreases SizeAll(ps), 1
  {
    if |ps| == 0 then 0 else Extracted(ps[0]) + ExtractedAll(ps[1..])
  }

  /** The literal that stands for `p` once it has been normalized in a nested
      position, when its own declaration (if any) gets table index `index`. */
  function NestedLiteral(p: Precondition, freeVariables: FreeVariables, index: nat): Literal
  {
    if p.Atom? then Positive(PredicateAtom(p.formula))
    else if NegatedAtom(p) then Negative(PredicateAtom(p.argument.formula))
    else Positive(DerivedPredicate(index, freeVariables(p)))
  }

  /** A finished declaration at table index `index`. */
  function Declaration(index: nat, parameters: seq<VariableDeclaration>,
                       existentialParameters: seq<VariableDeclaration>, body: DerivedBody): DerivedPredicateDeclaration
  {
    DerivedPredicateDeclaration(DerivedPredicateName(index + 1), parameters, existentialParameters, Some(body))
  }

  /** The declarations the nested normalization of `p` appends, in order, when
      the first of them gets table index `index`: a node's own declaration
      comes before those of its subterms (pre-order). */
  function ExpectedTable(p: Precondition, freeVariables: FreeVariables, index: nat): (r: DerivedPredicates)
    decreases Size(p), 0
    ensures |r| == Extracted(p)
  {
    match p
    case Not(a) =>
      if a.Atom? then []
      else
        [Declaration(index, freeVariables(p), [], LiteralBody(Negative(NestedLiteral(a, freeVariables, index + 1).atom)))]
        + ExpectedTable(a, freeVariables, index + 1)
    case And(args) =>
      [Declaration(index, freeVariables(p), [], AndBody(ExpectedLiterals(args, freeVariables, index + 1)))]
      + ExpectedTables(args, freeVariables, index + 1)
    case Or(args) =>
      [Declaration(index, freeVariables(p), [], OrBody(ExpectedLiterals(args, freeVariables, index + 1)))]
      + ExpectedTables(args, freeVariables, index + 1)
    case Exists(parameters, a) =>
      [Declaration(index, freeVariables(p), parameters, LiteralBody(NestedLiteral(a, freeVariables, index + 1)))]
      + ExpectedTable(a, freeVariables, index + 1)
    case _ => []
  }

  function ExpectedTables(ps: seq<Precondition>, freeVariables: FreeVariables, index: nat): (r: DerivedPredicates)
    decreases SizeAll(ps), 1
    ensures |r| == ExtractedAll(ps)
  {
    if |ps| == 0 then []
    else ExpectedTable(ps[0], freeVariables, index) + ExpectedTables(ps[1..], freeVariables, index + Extracted(ps[0]))
  }

  /** The literals a nested `and`/`or` body consists of, one per argument. */
  function ExpectedLiterals(ps: seq<Precondition>, freeVariables: FreeVariables, index: nat): (r: seq<Literal>)
    ensures |r| == |ps|
  {
    if |ps| == 0 then []
    else [NestedLiteral(ps[0], freeVariables, index)] + ExpectedLiterals(ps[1..], freeVariables, index + Extracted(ps[0]))
  }

  /** The literal a top-level conjunct becomes: a `not` is kept as a negated
      literal over the nested normalization of its argument. */
  function ConjunctLiteral(q: Precondition, freeVariables: FreeVariables, index: nat): Literal
  {
    if q.Not? then Negative(NestedLiteral(q.argument, freeVariables, index).atom)
    else NestedLiteral(q, freeVariables, index)
  }

  function ConjunctTable(q: Precondition, freeVariables: FreeVariables, index: nat): DerivedPredicates
  {
    if q.Not? then ExpectedTable(q.argument, freeVariables, index)
    else ExpectedTable(q, freeVariables, index)
  }

  function ConjunctLiterals(ps: seq<Precondition>, freeVariables: FreeVariables, index: nat): (r: seq<Literal>)
    ensures |r| == |ps|
  {
    if |ps| == 0 then []
    else [ConjunctLiteral(ps[0], freeVariables, index)]
         + ConjunctLiterals(ps[1..], freeVariables, index + |ConjunctTable(ps[0], freeVariables, index)|)
  }

  function ConjunctTables(ps: seq<Precondition>, freeVariables: FreeVariables, index: nat): DerivedPredicates
  {
    if |ps| == 0 then []
    else ConjunctTable(ps[0], freeVariables, index)
         + ConjunctTables(ps[1..], freeVariables, index + |ConjunctTable(ps[0], freeVariables, index)|)
  }

  /** The normalized form of a top-level precondition. */
  function ExpectedPrecondition(p: Precondition, freeVariables: FreeVariables, index: nat): NormalizedPrecondition
  {
    match p
    case And(args) => AndPrecondition(ConjunctLiterals(args, freeVariables, index))
    case _ => LiteralPrecondition(ConjunctLiteral(p, freeVariables, index))
  }

  /** The declarations the top-level normalization of `p` appends. */
  function ExpectedTopLevelTable(p: Precondition, freeVariables: FreeVariables, index: nat): DerivedPredicates
  {
    match p
    case And(args) => ConjunctTables(args, freeVariables, index)
    case _ => ConjunctTable(p, freeVariables, index)
  }

  // ---------------------------------------------------------------------------
  // Implementation
  // ---------------------------------------------------------------------------

  /** Appends a declaration named after the new table size, with the given
      parameters, and returns a reference passing those parameters as arguments. */
  function AddDerivedPredicate(parameters: seq<VariableDeclaration>, table: DerivedPredicates): (r: Step<NormalizedAtom>)
    ensures |r.table| == |table| + 1 && table <= r.table
    ensures r.table[|table|].name == DerivedPredicateName(|r.table|)
    ensures r.table[|table|].parameters == parameters
    ensures r.table[|table|].existentialParameters == [] && r.table[|table|].precondition == None
    ensures r.value == DerivedPredicate(|table|, parameters)
  {
    var declaration := DerivedPredicateDeclaration(DerivedPredicateName(|table| + 1), parameters, [], None);
    Step(DerivedPredicate(|table|, parameters), table + [declaration])
  }

  function SetExistentialParameters(table: DerivedPredicates, index: nat, parameters: seq<VariableDeclaration>): DerivedPredicates
    requires index < |table|
  {
    table[index := table[index].(existentialParameters := parameters)]
  }

  function SetPrecondition(table: DerivedPredicates, index: nat, body: DerivedBody): DerivedPredicates
    requires index < |table|
  {
    table[index := table[index].(precondition := Some(body))]
  }

  lemma ReplaceAfterPrefix(table: DerivedPredicates, d: DerivedPredicateDeclaration, rest: DerivedPredicates,
                           d': DerivedPredicateDeclaration)
    ensures (table + [d] + rest)[|table| := d'] == table + [d'] + rest
  {
  }

  /** Normalizes `p` in a nested position (`normalizeNestedImpl`, dispatching
      on the kind of node). */
  function NormalizeNested(p: Precondition, freeVariables: FreeVariables, table: DerivedPredicates)
    : (r: Result<Step<Literal>, NormalizationError>)
    decreases Size(p), 2
    ensures r.Success? <==> Decomposable(p)
    ensures r.Failure? ==> Offense(p) == Some(r.error.kind)
    ensures r.Success? ==> r.value.value == NestedLiteral(p, freeVariables, |table|)
    ensures r.Success? ==> r.value.table == table + ExpectedTable(p, freeVariables, |table|)
  {
    match p
    case Atom(formula) => Success(Step(Positive(PredicateAtom(formula)), table))
    case Not(a) => NormalizeNestedNot(a, freeVariables, table)
    case And(args) => NormalizeNestedJunction(Conjunction, args, freeVariables, table)
    case Or(args) => NormalizeNestedJunction(Disjunction, args, freeVariables, table)
    case Exists(parameters, a) => NormalizeNestedExists(parameters, a, freeVariables, table)
    case ForAll(_, _) => Failure(NotInNormalForm(ForAllConnective))
    case Imply(_, _) => Failure(NotInNormalForm(ImplyConnective))
  }

  /** A nested `not`: over an atomic formula it is a negated literal; otherwise
      it gets a declaration whose body negates the normalized argument, which
      must not itself be a negated literal. */
  function NormalizeNestedNot(a: Precondition, freeVariables: FreeVariables, table: DerivedPredicates)
    : (r: Result<Step<Literal>, NormalizationError>)
    decreases Size(Not(a)), 1
    ensures r.Success? <==> Decomposable(Not(a))
    ensures r.Failure? ==> Offense(Not(a)) == Some(r.error.kind)
    ensures r.Success? ==> r.value.value == NestedLiteral(Not(a), freeVariables, |table|)
    ensures r.Success? ==> r.value.table == table + ExpectedTable(Not(a), freeVariables, |table|)
  {
    if a.Atom? then Success(Step(Negative(PredicateAtom(a.formula)), table))
    else
      var added := AddDerivedPredicate(freeVariables(Not(a)), table);
      var inner :- NormalizeNested(a, freeVariables, added.table);
      OffenseDecomposable(a);
      if inner.value.Negative? then Failure(NotInNormalForm(MultipleNegation))
      else
        NotFilled(a, freeVariables, table, inner.table, inner.value);
        Success(Step(Positive(added.value), SetPrecondition(inner.table, |table|, LiteralBody(Negative(inner.value.atom)))))
  }

  /** Filling in the body of the `not` declaration gives the expected table. */
  lemma NotFilled(a: Precondition, freeVariables: FreeVariables, table: DerivedPredicates,
                  innerTable: DerivedPredicates, literal: Literal)
    requires !a.Atom? && literal == NestedLiteral(a, freeVariables, |table| + 1)
    requires innerTable == table + [DerivedPredicateDeclaration(DerivedPredicateName(|table| + 1),
                                                                freeVariables(Not(a)), [], None)]
                          + ExpectedTable(a, freeVariables, |table| + 1)
    ensures SetPrecondition(innerTable, |table|, LiteralBody(Negative(literal.atom)))
            == table + ExpectedTable(Not(a), freeVariables, |table|)
  {
    var d := DerivedPredicateDeclaration(DerivedPredicateName(|table| + 1), freeVariables(Not(a)), [], None);
    var filled := Declaration(|table|, freeVariables(Not(a)), [], LiteralBody(Negative(literal.atom)));
    var child := ExpectedTable(a, freeVariables, |table| + 1);
    assert ExpectedTable(Not(a), freeVariables, |table|) == [filled] + child;
    ReplaceAfterPrefix(table, d, child, filled);
    AppendAssociative(table, [filled], child);
  }

  datatype Junction = Conjunction | Disjunction

  function JunctionNode(junction: Junction, args: seq<Precondition>): Precondition
  {
    match junction
    case Conjunction => And(args)
    case Disjunction => Or(args)
  }

  /** A nested `and` or `or`: one declaration whose body has one literal per
      argument, each the nested normalization of that argument. */
  function NormalizeNestedJunction(junction: Junction, args: seq<Precondition>, freeVariables: FreeVariables,
                                   table: DerivedPredicates)
    : (r: Result<Step<Literal>, NormalizationError>)
    decreases Size(JunctionNode(junction, args)), 1
    ensures r.Success? <==> Decomposable(JunctionNode(junction, args))
    ensures r.Failure? ==> Offense(JunctionNode(junction, args)) == Some(r.error.kind)
    ensures r.Success? ==> r.value.value == NestedLiteral(JunctionNode(junction, args), freeVariables, |table|)
    ensures r.Success? ==> r.value.table == table + ExpectedTable(JunctionNode(junction, args), freeVariables, |table|)
  {
    var added := AddDerivedPredicate(freeVariables(JunctionNode(junction, args)), table);
    var inner :- NormalizeNestedArguments(args, freeVariables, added.table);
    JunctionFilled(junction, args, freeVariables, table, inner.table, inner.value);
    Success(Step(Positive(added.value), SetPrecondition(inner.table, |table|, JunctionBody(junction, inner.value))))
  }

  function JunctionBody(junction: Junction, literals: seq<Literal>): DerivedBody
  {
    match junction
    case Conjunction => AndBody(literals)
    case Disjunction => OrBody(literals)
  }

  /** Filling in the body of the `and`/`or` declaration gives the expected table. */
  lemma JunctionFilled(junction: Junction, args: seq<Precondition>, freeVariables: FreeVariables,
                       table: DerivedPredicates, innerTable: DerivedPredicates, literals: seq<Literal>)
    requires literals == ExpectedLiterals(args, freeVariables, |table| + 1)
    requires innerTable == table + [DerivedPredicateDeclaration(DerivedPredicateName(|table| + 1),
                                                                freeVariables(JunctionNode(junction, args)), [], None)]
                          + ExpectedTables(args, freeVariables, |table| + 1)
    ensures SetPrecondition(innerTable, |table|, JunctionBody(junction, literals))
            == table + ExpectedTable(JunctionNode(junction, args), freeVariables, |table|)
  {
    var node := JunctionNode(junction, args);
    var d := DerivedPredicateDeclaration(DerivedPredicateName(|table| + 1), freeVariables(node), [], None);
    var filled := Declaration(|table|, freeVariables(node), [], JunctionBody(junction, literals));
    JunctionShape(junction, args, freeVariables, |table|, literals);
    FillHead(table, d, ExpectedTables(args, freeVariables, |table| + 1), innerTable,
             JunctionBody(junction, literals), filled);
  }

  lemma JunctionShape(junction: Junction, args: seq<Precondition>, freeVariables: FreeVariables, index: nat,
                      literals: seq<Literal>)
    requires literals == ExpectedLiterals(args, freeVariables, index + 1)
    ensures ExpectedTable(JunctionNode(junction, args), freeVariables, index)
            == [Declaration(index, freeVariables(JunctionNode(junction, args)), [], JunctionBody(junction, literals))]
               + ExpectedTables(args, freeVariables, index + 1)
  {
    match junction
    case Conjunction =>
    case Disjunction =>
  }

  /** Giving the placeholder after `table` its body turns it into `filled`. */
  lemma FillHead(table: DerivedPredicates, d: DerivedPredicateDeclaration, children: DerivedPredicates,
                 innerTable: DerivedPredicates, body: DerivedBody, filled: DerivedPredicateDeclaration)
    requires innerTable == table + [d] + children
    requires d.(precondition := Some(body)) == filled
    ensures SetPrecondition(innerTable, |table|, body) == table + ([filled] + children)
  {
    assert innerTable[|table|] == d;
    ReplaceAfterPrefix(table, d, children, filled);
    AppendAssociative(table, [filled], children);
  }

  /** A nested `exists`: one declaration whose existential parameters are the
      quantifier's and whose body is the nested normalization of its argument. */
  function NormalizeNestedExists(parameters: seq<VariableDeclaration>, a: Precondition, freeVariables: FreeVariables,
                                 table: DerivedPredicates)
    : (r: Result<Step<Literal>, NormalizationError>)
    decreases Size(Exists(parameters, a)), 1
    ensures r.Success? <==> Decomposable(a)
    ensures r.Failure? ==> Offense(Exists(parameters, a)) == Some(r.error.kind)
    ensures r.Success? ==> r.value.value == NestedLiteral(Exists(parameters, a), freeVariables, |table|)
    ensures r.Success? ==> r.value.table == table + ExpectedTable(Exists(parameters, a), freeVariables, |table|)
  {
    var added := AddDerivedPredicate(freeVariables(Exists(parameters, a)), table);
    var declared := SetExistentialParameters(added.table, |table|, parameters);
    ExistsDeclared(parameters, a, freeVariables, table);
    var inner :- NormalizeNested(a, freeVariables, declared);
    ExistsFilled(parameters, a, freeVariables, table, inner.table, inner.value);
    Success(Step(Positive(added.value), SetPrecondition(inner.table, |table|, LiteralBody(inner.value))))
  }

  /** The `exists` declaration before its body is filled in. */
  lemma ExistsDeclared(parameters: seq<VariableDeclaration>, a: Precondition, freeVariables: FreeVariables,
                       table: DerivedPredicates)
    ensures SetExistentialParameters(AddDerivedPredicate(freeVariables(Exists(parameters, a)), table).table,
                                     |table|, parameters)
            == table + [DerivedPredicateDeclaration(DerivedPredicateName(|table| + 1),
                                                    freeVariables(Exists(parameters, a)), parameters, None)]
  {
  }

  /** Filling in the body of the `exists` declaration gives the expected table. */
  lemma ExistsFilled(parameters: seq<VariableDeclaration>, a: Precondition, freeVariables: FreeVariables,
                     table: DerivedPredicates, innerTable: DerivedPredicates, literal: Literal)
    requires literal == NestedLiteral(a, freeVariables, |table| + 1)
    requires innerTable == table + [DerivedPredicateDeclaration(DerivedPredicateName(|table| + 1),
                                                                freeVariables(Exists(parameters, a)), parameters, None)]
                          + ExpectedTable(a, freeVariables, |table| + 1)
    ensures SetPrecondition(innerTable, |table|, LiteralBody(literal))
            == table + ExpectedTable(Exists(parameters, a), freeVariables, |table|)
  {
    var d := DerivedPredicateDeclaration(DerivedPredicateName(|table| + 1),
                                         freeVariables(Exists(parameters, a)), parameters, None);
    var filled := Declaration(|table|, freeVariables(Exists(parameters, a)), parameters, LiteralBody(literal));
    var child := ExpectedTable(a, freeVariables, |table| + 1);
    assert ExpectedTable(Exists(parameters, a), freeVariables, |table|) == [filled] + child;
    FillHead(table, d, child, innerTable, LiteralBody(literal), filled);
  }

  /** Normalizes the arguments of a nested `and`/`or` from left to right. */
  function NormalizeNestedArguments(ps: seq<Precondition>, freeVariables: FreeVariables, table: DerivedPredicates)
    : (r: Result<Step<seq<Literal>>, NormalizationError>)
    decreases SizeAll(ps), 3
    ensures r.Success? <==> AllDecomposable(ps)
    ensures r.Failure? ==> OffenseAll(ps) == Some(r.error.kind)
    ensures r.Success? ==> r.value.value == ExpectedLiterals(ps, freeVariables, |table|)
    ensures r.Success? ==> r.value.table == table + ExpectedTables(ps, freeVariables, |table|)
  {
    if |ps| == 0 then Success(Step([], table))
    else
      var first :- NormalizeNested(ps[0], freeVariables, table);
      OffenseDecomposable(ps[0]);
      var rest :- NormalizeNestedArguments(ps[1..], freeVariables, first.table);
      ArgumentsAppended(ps, freeVariables, table, first.table, rest.table);
      Success(Step([first.value] + rest.value, rest.table))
  }

  lemma ArgumentsAppended(ps: seq<Precondition>, freeVariables: FreeVariables, table: DerivedPredicates,
                          firstTable: DerivedPredicates, restTable: DerivedPredicates)
    requires |ps| > 0
    requires firstTable == table + ExpectedTable(ps[0], freeVariables, |table|)
    requires restTable == firstTable + ExpectedTables(ps[1..], freeVariables, |firstTable|)
    ensures restTable == table + ExpectedTables(ps, freeVariables, |table|)
    ensures ExpectedLiterals(ps, freeVariables, |table|)
            == [NestedLiteral(ps[0], freeVariables, |table|)] + ExpectedLiterals(ps[1..], freeVariables, |firstTable|)
  {
    var head := ExpectedTable(ps[0], freeVariables, |table|);
    Thread(table, head, ExpectedTables(ps[1..], freeVariables, |firstTable|), firstTable, restTable);
    ExpectedCons(ps, freeVariables, |table|, |firstTable|);
  }

  lemma ExpectedCons(ps: seq<Precondition>, freeVariables: FreeVariables, index: nat, mid: nat)
    requires |ps| > 0 && mid == index + Extracted(ps[0])
    ensures ExpectedTables(ps, freeVariables, index)
            == ExpectedTable(ps[0], freeVariables, index) + ExpectedTables(ps[1..], freeVariables, mid)
    ensures ExpectedLiterals(ps, freeVariables, index)
            == [NestedLiteral(ps[0], freeVariables, index)] + ExpectedLiterals(ps[1..], freeVariables, mid)
  {
  }

  lemma ConjunctsAppended(ps: seq<Precondition>, freeVariables: FreeVariables, table: DerivedPredicates,
                          firstTable: DerivedPredicates, restTable: DerivedPredicates)
    requires |ps| > 0
    requires firstTable == table + ConjunctTable(ps[0], freeVariables, |table|)
    requires restTable == firstTable + ConjunctTables(ps[1..], freeVariables, |firstTable|)
    ensures restTable == table + ConjunctTables(ps, freeVariables, |table|)
    ensures ConjunctLiterals(ps, freeVariables, |table|)
            == [ConjunctLiteral(ps[0], freeVariables, |table|)] + ConjunctLiterals(ps[1..], freeVariables, |firstTable|)
  {
    var head := ConjunctTable(ps[0], freeVariables, |table|);
    Thread(table, head, ConjunctTables(ps[1..], freeVariables, |firstTable|), firstTable, restTable);
    ConjunctCons(ps, freeVariables, |table|, |firstTable|);
  }

  lemma ConjunctCons(ps: seq<Precondition>, freeVariables: FreeVariables, index: nat, mid: nat)
    requires |ps| > 0 && mid == index + |ConjunctTable(ps[0], freeVariables, index)|
    ensures ConjunctTables(ps, freeVariables, index)
            == ConjunctTable(ps[0], freeVariables, index) + ConjunctTables(ps[1..], freeVariables, mid)
    ensures ConjunctLiterals(ps, freeVariables, index)
            == [ConjunctLiteral(ps[0], freeVariables, index)] + ConjunctLiterals(ps[1..], freeVariables, mid)
  {
  }

  /** Appending `head` and then `tail` to a table appends `head + tail`. */
  lemma Thread<T>(table: seq<T>, head: seq<T>, tail: seq<T>, first: seq<T>, rest: seq<T>)
    requires first == table + head && rest == first + tail
    ensures rest == table + (head + tail) && |first| == |table| + |head|
  {
  }

  lemma AppendAssociative<T>(a: seq<T>, b: seq<T>, c: seq<T>)
    ensures (a + b) + c == a + (b + c)
  {
  }

  /** Normalizes a top-level `not` over `a` (`normalizeImpl` for `not`): no
      declaration is made for the `not` itself. */
  function NormalizeTopLevelNot(a: Precondition, freeVariables: FreeVariables, table: DerivedPredicates)
    : (r: Result<Step<Literal>, NormalizationError>)
    ensures r.Success? <==> Decomposable(Not(a))
    ensures r.Failure? ==> Offense(Not(a)) == Some(r.error.kind)
    ensures r.Success? ==> r.value.value.Negative?
    ensures r.Success? ==> r.value.value == ConjunctLiteral(Not(a), freeVariables, |table|)
    ensures r.Success? ==> r.value.table == table + ExpectedTable(a, freeVariables, |table|)
  {
    if a.Atom? then Success(Step(Negative(PredicateAtom(a.formula)), table))
    else
      var nested :- NormalizeNested(a, freeVariables, table);
      OffenseDecomposable(a);
      if nested.value.Negative? then Failure(NotInNormalForm(MultipleNegation))
      else Success(Step(Negative(nested.value.atom), nested.table))
  }

  /** Normalizes one argument of a top-level `and`: atomic formulas and `not`s
      are handled as at top level, everything else as nested. */
  function NormalizeConjunct(q: Precondition, freeVariables: FreeVariables, table: DerivedPredicates)
    : (r: Result<Step<Literal>, NormalizationError>)
    ensures r.Success? <==> Decomposable(q)
    ensures r.Failure? ==> Offense(q) == Some(r.error.kind)
    ensures r.Success? ==> r.value.value == ConjunctLiteral(q, freeVariables, |table|)
    ensures r.Success? ==> r.value.table == table + ConjunctTable(q, freeVariables, |table|)
  {
    match q
    case Atom(formula) => Success(Step(Positive(PredicateAtom(formula)), table))
    case Not(a) => NormalizeTopLevelNot(a, freeVariables, table)
    case _ => NormalizeNested(q, freeVariables, table)
  }

  function NormalizeConjuncts(ps: seq<Precondition>, freeVariables: FreeVariables, table: DerivedPredicates)
    : (r: Result<Step<seq<Literal>>, NormalizationError>)
    ensures r.Success? <==> AllDecomposable(ps)
    ensures r.Failure? ==> OffenseAll(ps) == Some(r.error.kind)
    ensures r.Success? ==> r.value.value == ConjunctLiterals(ps, freeVariables, |table|)
    ensures r.Success? ==> r.value.table == table + ConjunctTables(ps, freeVariables, |table|)
  {
    if |ps| == 0 then Success(Step([], table))
    else
      var first :- NormalizeConjunct(ps[0], freeVariables, table);
      OffenseDecomposable(ps[0]);
      var rest :- NormalizeConjuncts(ps[1..], freeVariables, first.table);
      ConjunctsAppended(ps, freeVariables, table, first.table, rest.table);
      Success(Step([first.value] + rest.value, rest.table))
  }

  /** Normalizes a reduced precondition (`normalizeImpl`): a top-level `and`
      keeps its shape, `or` and `exists` become one reference. */
  function NormalizeTopLevel(p: Precondition, freeVariables: FreeVariables, table: DerivedPredicates)
    : (r: Result<Step<NormalizedPrecondition>, NormalizationError>)
    ensures r.Success? <==> Decomposable(p)
    ensures r.Failure? ==> Offense(p) == Some(r.error.kind)
    ensures r.Success? ==> r.value.value == ExpectedPrecondition(p, freeVariables, |table|)
    ensures r.Success? ==> r.value.table == table + ExpectedTopLevelTable(p, freeVariables, |table|)
  {
    match p
    case Atom(formula) => Success(Step(LiteralPrecondition(Positive(PredicateAtom(formula))), table))
    case Not(a) =>
      var n :- NormalizeTopLevelNot(a, freeVariables, table);
      Success(Step(LiteralPrecondition(n.value), n.table))
    case And(args) =>
      var n :- NormalizeConjuncts(args, freeVariables, table);
      Success(Step(AndPrecondition(n.value), n.table))
    case Or(_) =>
      var n :- NormalizeNested(p, freeVariables, table);
      Success(Step(LiteralPrecondition(n.value), n.table))
    case Exists(_, _) =>
      var n :- NormalizeNested(p, freeVariables, table);
      Success(Step(LiteralPrecondition(n.value), n.table))
    case ForAll(_, _) => Failure(NotInNormalForm(ForAllConnective))
    case Imply(_, _) => Failure(NotInNormalForm(ImplyConnective))
  }

  /** `normalize`: reduces the precondition, then normalizes the result. The
      old table is kept as a prefix of the new one. */
  function Normalize(p: Precondition, reduce: Reduction, freeVariables: FreeVariables, table: DerivedPredicates)
    : (r: Result<Step<NormalizedPrecondition>, NormalizationError>)
    ensures r.Success? <==> Decomposable(reduce(p))
    ensures r.Failure? ==> Offense(reduce(p)) == Some(r.error.kind)
    ensures r.Success? ==> table <= r.value.table
    ensures r.Success? ==> r.value.table == table + ExpectedTopLevelTable(reduce(p), freeVariables, |table|)
    ensures r.Success? ==> r.value.value == ExpectedPrecondition(reduce(p), freeVariables, |table|)
  {
    NormalizeTopLevel(reduce(p), freeVariables, table)
  }
}

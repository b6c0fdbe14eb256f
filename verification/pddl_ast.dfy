/** The precondition trees the decomposition consumes, and the restricted
    normalized trees and derived-predicate declarations it produces. */
module PddlAst {

  import opened Wrappers

  /** A variable declaration. Declarations are identified by `id`, not by name:
      two declarations of `?x` in different scopes are different variables. */
  datatype VariableDeclaration = VariableDeclaration(id: nat, name: string)

  datatype Term = ConstantTerm(name: string) | VariableTerm(declaration: VariableDeclaration)

  /** A predicate applied to its arguments. */
  datatype AtomicFormula = AtomicFormula(predicateName: string, arguments: seq<Term>)

  /** A precondition after reduction. `ForAll` and `Imply` are still part of the
      type because the decomposition has to reject them when they survive. */
  datatype Precondition =
    | Atom(formula: AtomicFormula)
    | Not(argument: Precondition)
    | And(arguments: seq<Precondition>)
    | Or(arguments: seq<Precondition>)
    | Exists(parameters: seq<VariableDeclaration>, argument: Precondition)
    | ForAll(parameters: seq<VariableDeclaration>, argument: Precondition)
    | Imply(antecedent: Precondition, consequent: Precondition)

  /** Number of nodes; the termination measure of every traversal. */
  function Size(p: Precondition): (n: nat)
    ensures 1 <= n
  {
    match p
    case Atom(_) => 1
    case Not(a) => 1 + Size(a)
    case And(args) => 1 + SizeAll(args)
    case Or(args) => 1 + SizeAll(args)
    case Exists(_, a) => 1 + Size(a)
    case ForAll(_, a) => 1 + Size(a)
    case Imply(a, b) => 1 + Size(a) + Size(b)
  }

  function SizeAll(ps: seq<Precondition>): nat
  {
    if |ps| == 0 then 0 else Size(ps[0]) + SizeAll(ps[1..])
  }

  /** A normalized atomic formula: an ordinary predicate, or a reference to the
      derived predicate at index `declaration` of the declaration table. */
  datatype NormalizedAtom =
    | PredicateAtom(formula: AtomicFormula)
    | DerivedPredicate(declaration: nat, arguments: seq<VariableDeclaration>)

  /** A literal: an atomic formula or its single negation. */
  datatype Literal = Positive(atom: NormalizedAtom) | Negative(atom: NormalizedAtom)

  /** The body of a derived predicate. */
  datatype DerivedBody =
    | LiteralBody(literal: Literal)
    | AndBody(literals: seq<Literal>)
    | OrBody(literals: seq<Literal>)

  /** A synthesized predicate. `precondition` is `None` between the moment the
      declaration is appended and the moment its body has been normalized. */
  datatype DerivedPredicateDeclaration = DerivedPredicateDeclaration(
    name: string,
    parameters: seq<VariableDeclaration>,
    existentialParameters: seq<VariableDeclaration>,
    precondition: Option<DerivedBody>)

  type DerivedPredicates = seq<DerivedPredicateDeclaration>

  /** A normalized top-level precondition: a literal or a conjunction of literals. */
  datatype NormalizedPrecondition =
    | LiteralPrecondition(literal: Literal)
    | AndPrecondition(literals: seq<Literal>)

  /** The connective that shows a precondition was not in normal form. */
  datatype Offending = ForAllConnective | ImplyConnective | MultipleNegation

  datatype NormalizationError = NotInNormalForm(kind: Offending)

  /** A value together with the declaration table after producing it. */
  datatype Step<+T> = Step(value: T, table: DerivedPredicates)

  /** The free-variable collector, whose body is not part of this model. */
  type FreeVariables = Precondition -> seq<VariableDeclaration>

  /** The reduction pass, whose body is not part of this model. */
  type Reduction = Precondition -> Precondition
}

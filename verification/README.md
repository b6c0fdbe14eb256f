# plasp core in Dafny

This project models four pieces of the plasp PDDL front end and proves properties of them.

- **Derived-predicate decomposition.** A reduced PDDL precondition is brought into normal form.
  - The result is an atomic literal, a negated atomic literal, or a conjunction of such literals.
  - Each nested `and`, `or` and `exists` is moved into a numbered derived-predicate declaration. So is each nested `not` over something other than an atomic formula. A top-level `not`, also as an argument of a top-level `and`, stays in place and negates the reference made for its argument.
  - Each declaration is appended to a table that the whole run shares. The moved subtree is replaced by a reference to the declaration.
- **Variable scopes.** A typed parameter list such as `?a ?b - block ?c` is parsed into the scope of declared variables. Pending ("dirty") variables receive the next type written. Lookups find a variable by name.
- **Section discovery.** The header of every `(define (...` block is examined. The model records where the single domain and the optional problem start, decides what `parse` runs, and normalizes both parts.
- **Input buffer.** The tokenizer concatenates several inputs into one character buffer. It keeps a delimiter per input, holding the input's start offset and name, and a cursor.

Files:

- `wrappers.dfy`: `Option` and `Result`.
- `decimal.dfy`: decimal rendering of numbers, used for derived-predicate names.
- `pddl_ast.dfy`: the input precondition tree, the normalized tree and the derived-predicate table.
- `normalization.dfy`: decomposition code and its reference definition.
- `normalization_properties.dfy`: soundness of the resulting table.
- `normalization_examples.dfy`: worked examples.
- `variables.dfy`: variable scopes.
- `descriptions.dfy`: section discovery.
- `tokenize.dfy`: the input buffer.

The decomposition is specified twice:

- **Implementation.** It threads the table through the recursion and can fail, as the source does.
- **Reference definition.** It needs neither a table nor errors:
  - `Decomposable` says when normalization succeeds.
  - `NestedLiteral` gives the literal that replaces a subtree.
  - `ExpectedTable` lists the declarations a subtree produces, in the order they are appended.

Every implementation function's contract equates its result with the reference definition. The reference is then shown to produce a sound, acyclic table with distinct names.

Two parts of the source are parameters of the model:

- The reduction step that runs before decomposition (`reduce`).
- The free-variable collector (`collectFreeVariables`).

Each is a function-typed argument, so every property holds for all of them.

Two consequences of the code are stated as worked examples:

- Inside a top-level `and`, an `or` argument goes through `handleNested` to the nested normalization and gets its own declaration (Precondition.cpp:234-242).
- A nested `exists` normalizes its body with the nested normalization (Precondition.cpp:93), so an `and` body gets its own declaration.

## Model

| member | source | states |
|---|---|---|
| Normalization.AddDerivedPredicate | lib/pddlparse/src/pddlparse/detail/normalization/Precondition.cpp:35-52 | appends exactly one declaration named `derived-predicate-<new table size>` with the given parameters, no existential parameters and no body yet; it keeps the old table as a prefix and returns a reference to the new entry that passes those parameters |
| Normalization.DerivedPredicateNameInjective | lib/pddlparse/src/pddlparse/detail/normalization/Precondition.cpp:37 | different numbers give different derived-predicate names |
| Decimal.DecimalRoundTrip | lib/pddlparse/src/pddlparse/detail/normalization/Precondition.cpp:37 | the decimal number in a derived-predicate name reads back as the number it was made from |
| Normalization.NormalizeNested | lib/pddlparse/src/pddlparse/detail/normalization/Precondition.cpp:56-180 | nested normalization succeeds exactly when the subtree is decomposable, i.e. it has no `forall`, no `imply` and no negation over a negated literal; a failure reports the first offending connective (`forall`, `imply` or multiple negation) in visiting order; the literal and the declarations it appends are the ones the reference definition prescribes |
| Normalization.NormalizeNestedNot | lib/pddlparse/src/pddlparse/detail/normalization/Precondition.cpp:117-146 | a nested `not` over an atomic formula becomes a negated literal with no declaration; otherwise it makes one declaration whose body negates the normalized argument; a failure reports the argument's own offense if it has one, and otherwise a multiple negation, which happens exactly when the argument is a negated atomic formula |
| Normalization.NormalizeNestedJunction | lib/pddlparse/src/pddlparse/detail/normalization/Precondition.cpp:56-79 | a nested `and`/`or` makes one declaration, over the free variables, whose conjunction/disjunction body holds the arguments' literals in order; the arguments' own declarations follow it in the table |
| Normalization.NormalizeNestedExists | lib/pddlparse/src/pddlparse/detail/normalization/Precondition.cpp:83-97 | a nested `exists` makes one declaration whose existential parameters are the quantifier's and whose body is the literal of its argument; it succeeds exactly when the argument is decomposable, and otherwise reports the argument's offense |
| Normalization.NormalizeNestedArguments | lib/pddlparse/src/pddlparse/detail/normalization/Precondition.cpp:68-73 | the arguments are normalized left to right; each argument's declarations are appended after those of the arguments before it; a failure reports the offense of the first argument that has one |
| Normalization.NormalizeTopLevelNot | lib/pddlparse/src/pddlparse/detail/normalization/Precondition.cpp:192-211 | a top-level `not` always yields a negated literal and makes no declaration for itself; a `not` over a non-atomic argument references the argument's declaration; a failure reports the argument's offense, or a multiple negation when the argument is a negated atomic formula |
| Normalization.NormalizeConjunct | lib/pddlparse/src/pddlparse/detail/normalization/Precondition.cpp:222-242 | an argument of the top-level `and` is kept as a literal when it is an atomic formula or a `not`, and is otherwise replaced by a reference to a new declaration |
| Normalization.NormalizeConjuncts | lib/pddlparse/src/pddlparse/detail/normalization/Precondition.cpp:216-248 | the top-level `and` keeps one literal per argument, in order; it succeeds exactly when every argument is decomposable, and otherwise reports the offense of the first argument that has one |
| Normalization.NormalizeTopLevel | lib/pddlparse/src/pddlparse/detail/normalization/Precondition.cpp:184-276 | a reduced precondition normalizes exactly when it is decomposable; the result is the reference normal form; `or` and `exists` at top level become a single reference; a failure reports the first offending connective, so a top-level `forall` or `imply` is reported as such |
| Normalization.Normalize | lib/pddlparse/src/pddlparse/detail/normalization/Precondition.cpp:280-290 | normalization after reduction succeeds exactly when the reduced tree is decomposable, keeps the existing table as a prefix, appends exactly the reference declarations of the reduced tree in pre-order, and yields the reference normal form; a failure reports the reduced tree's first offending connective |
| Normalization.OffenseDecomposable | lib/pddlparse/src/pddlparse/detail/normalization/Precondition.cpp:101-146 | a precondition is rejected exactly when it contains an offending connective: a `forall`, an `imply`, or a `not` over a non-atomic argument that normalizes to a negated literal |
| Normalization.OffenseAllDecomposable | lib/pddlparse/src/pddlparse/detail/normalization/Precondition.cpp:68-73 | an argument list is rejected exactly when one of its arguments has an offense |
| Normalization.AllDecomposableElementwise | lib/pddlparse/src/pddlparse/detail/normalization/Precondition.cpp:68-73 | an argument list is accepted exactly when each argument is |
| NormalizationProperties.ExpectedTableSound | lib/pddlparse/src/pddlparse/detail/normalization/Precondition.cpp:56-173 | wherever a subtree's declarations sit in a table, each has its body, carries its own number in its name, and refers only to later entries with exactly their parameters; the subtree's literal refers into them |
| NormalizationProperties.ExpectedTablesSound | lib/pddlparse/src/pddlparse/detail/normalization/Precondition.cpp:68-73 | the same for the declarations of an argument list and its literals |
| NormalizationProperties.ConjunctTablesSound | lib/pddlparse/src/pddlparse/detail/normalization/Precondition.cpp:216-248 | the same for the arguments of a top-level `and` |
| NormalizationProperties.ExpectedTopLevelSound | lib/pddlparse/src/pddlparse/detail/normalization/Precondition.cpp:184-276 | the same for a whole top-level normalization |
| NormalizationProperties.NormalizeKeepsTableValid | lib/pddlparse/src/pddlparse/detail/normalization/Precondition.cpp:280-290 | from a valid table, a successful run leaves a valid table in which every appended declaration has a body; every reference in the output names one of the new declarations and passes exactly its parameters; bodies refer only to later entries, so references have no cycles |
| NormalizationProperties.ValidTableNamesDistinct | lib/pddlparse/src/pddlparse/detail/normalization/Precondition.cpp:37 | the names in a valid table are pairwise distinct |
| NormalizationProperties.NormalizeNamesDistinct | lib/pddlparse/src/pddlparse/detail/normalization/Precondition.cpp:35-52 | after a run that starts from a valid table (the empty one, for instance), all derived-predicate names are pairwise distinct |
| NormalizationExamples.ConjunctionWithDisjunction | lib/pddlparse/src/pddlparse/detail/normalization/Precondition.cpp:216-248 | `(and (p ?x) (or (q ?x) (not (r ?x))))` keeps its `and`; its `or` argument still becomes exactly one declaration |
| NormalizationExamples.NegatedExists | lib/pddlparse/src/pddlparse/detail/normalization/Precondition.cpp:192-211 | `(not (exists (?x) (and (p ?x) (not (q ?x)))))` produces two declarations, one for the `exists` and one for its nested `and`, and a negated reference to the first |
| NormalizationExamples.DoubleNegationRejected | lib/pddlparse/src/pddlparse/detail/normalization/Precondition.cpp:136-138 | a `not` over a `not` of an atomic formula is rejected at top level and nested |
| NormalizationExamples.UnreducedConnectivesRejected | lib/pddlparse/src/pddlparse/detail/normalization/Precondition.cpp:101-113 | `forall` and `imply` are rejected wherever they occur |
| Variables.NewVariable | src/plasp/pddl/expressions/Variable.cpp:28-32 | a new variable is neither dirty nor typed |
| Variables.FindFrom | src/plasp/pddl/expressions/Variable.cpp:49-53 | finds the first variable with the name, or reports that none has it |
| Variables.ParseDeclaration | src/plasp/pddl/expressions/Variable.cpp:36-62 | fails with "already declared" exactly when the name is in the scope; otherwise appends a dirty, untyped variable and keeps the names distinct |
| Variables.ApplyType | src/plasp/pddl/expressions/Variable.cpp:82-95 | every dirty variable receives the type and stops being dirty; other variables are unchanged, and no variable is dirty afterwards |
| Variables.ParseTypedDeclaration | src/plasp/pddl/expressions/Variable.cpp:66-107 | fails on a name already in scope; otherwise appends the new variable; with no type following, the scope is otherwise unchanged and the new variable stays dirty and untyped; when a type follows, every dirty variable (the new one included) gets that type and no variable is left dirty |
| Variables.CheckTyping | src/plasp/pddl/expressions/Variable.cpp:122-133 | an empty scope is not checked; a typed last variable checks the typing requirement; an untyped last variable fails exactly when typing is required |
| Variables.ParseTypedDeclarations | src/plasp/pddl/expressions/Variable.cpp:111-134 | the scope gains the declared names in order; each new variable gets the first type written at or after it, or stays dirty; pending variables already in the scope get the list's first type; it fails with "already declared" exactly when a name repeats an earlier one; the final scope is the closed form `DeclaredScope`; with fresh names it succeeds exactly when the typing check on that scope succeeds |
| Variables.TypedLastDeclaration | src/plasp/pddl/expressions/Variable.cpp:122-130 | when the last declaration of the list carries a type, the final check only records the typing requirement and cannot fail |
| Variables.UntypedLastDeclaration | src/plasp/pddl/expressions/Variable.cpp:122-133 | when the last declaration carries no type, the final check fails exactly when typing is required |
| Variables.ParseAndFind | src/plasp/pddl/expressions/Variable.cpp:138-160 | returns the first variable with the name; fails with "undeclared" exactly when none has it |
| Descriptions.NewDescription | src/plasp/pddl/Description.cpp:22-28 | initially no domain or problem position is recorded (both -1) and there is no problem |
| Descriptions.FindSectionsFrom | src/plasp/pddl/Description.cpp:159-196 | each step keeps the positions -1 or real, and a problem exists exactly when a problem position is recorded |
| Descriptions.FindSectionsSpec | src/plasp/pddl/Description.cpp:153-197 | accepts exactly the header sequences with at most one domain, at most one problem and no other kind; records the start of each block (or -1); a problem exists exactly when a problem header was seen |
| Descriptions.FindSectionsFromSpec | src/plasp/pddl/Description.cpp:159-196 | the same, from any intermediate state of the loop |
| Descriptions.ParseAsWrittenChecksMissingProblem | src/plasp/pddl/Description.cpp:127-149 | a description with only a domain makes `parse` as written check the consistency of a problem that does not exist |
| Descriptions.ParseAsWritten | src/plasp/pddl/Description.cpp:127-149 | `parse` as written: the description found is consistent, and the step list always ends with the problem's consistency check |
| Descriptions.ParseAsWrittenAgrees | src/plasp/pddl/Description.cpp:127-149 | `parse` as written and the corrected schedule fail on the same inputs with the same error and find the same description; their steps are the same except for the trailing problem check that the code as written runs when no problem exists |
| Descriptions.ParseAsWrittenSpec | src/plasp/pddl/Description.cpp:127-149 | `parse` as written succeeds exactly when the sections are acceptable and a domain is among them, and fails with "no domain" otherwise when the sections are acceptable; it parses the domain at its block first, parses the problem second exactly when there is one, and always ends with the problem check |
| Descriptions.Parse | src/plasp/pddl/Description.cpp:136-146 | the corrected schedule never parses or checks a problem unless one exists |
| Descriptions.ParseSpec | src/plasp/pddl/Description.cpp:127-146 | the corrected `parse` succeeds exactly when the sections are acceptable and a domain is among them; it parses the domain at its block first, then the problem at its block exactly when there is one, and otherwise never touches a problem |
| Descriptions.Normalize | src/plasp/pddl/Description.cpp:209-215 | the domain is always normalized, the problem only when it exists; the problem's presence and the positions do not change |
| Tokenize.EmptyStream | lib/tokenize/src/tokenize/Stream.cpp:14-17 | a new buffer has no content and no delimiters |
| Tokenize.Read | lib/tokenize/src/tokenize/Stream.cpp:28-49 | appends exactly one delimiter, holding the buffer length before the read and the input's name; keeps the old buffer as a prefix followed by the input's characters; leaves the cursor alone; keeps delimiter offsets ordered and within the buffer |
| Tokenize.Seek | lib/tokenize/src/tokenize/Stream.cpp:72-75 | sets the cursor to exactly the given position and changes nothing else |
| Tokenize.Reset | lib/tokenize/src/tokenize/Stream.cpp:65-68 | sets the cursor to 0 and changes nothing else |
| Tokenize.SeekPosition | lib/tokenize/src/tokenize/Stream.cpp:65-82 | `position` reports what `seek` set; `reset` is `seek(0)`; only the last seek matters; seeking to the current position changes nothing |
| Tokenize.ReadAllLayout | lib/tokenize/src/tokenize/Stream.cpp:28-49 | after reading several inputs in order, the buffer is the old buffer followed by their concatenation; the old delimiters are kept; input `i` gets a delimiter with its name at the total length read before it; the cursor and validity are kept |
| Tokenize.ReadAllFromEmpty | lib/tokenize/src/tokenize/Stream.cpp:28-49 | read into a new buffer, input `i` starts at the total length of the inputs before it, and the delimiters are ordered and within the buffer |

## Findings

| source | as written | input that shows it | evidently intended | confidence | as-written member | corrected member |
|---|---|---|---|---|---|---|
| src/plasp/pddl/Description.cpp:148,201-205 | `parse` always ends with `checkConsistency`, which calls `checkConsistency` on the problem pointer whether or not a problem was found | a description with a `(define (domain ...))` block and no problem block | check the problem only when there is one, as `normalize` does at lines 213-214 | medium, not executed; the null dereference is undefined behaviour whose visible effect depends on `Problem::checkConsistency`, which is not part of this model | Descriptions.ParseAsWritten, Descriptions.ParseAsWrittenChecksMissingProblem | Descriptions.Parse, Descriptions.ParseSpec |

## Left out

- Reduction (`reduce`) and free-variable collection (`collectFreeVariables`): these live in other files and are parameters of the model, so the results hold for every such function.
- Normalization of atomic formulas (`normalize` on `ast::AtomicFormula`): its body is not part of this model. The model assumes it carries the predicate and its arguments over unchanged, and uses the same formula.
- Normalization.Normalize: the model does not state which tree the reduction step produces. The contract is stated in terms of whatever `reduce` returns.
- Ownership and pointers of the AST (`std::move`, `unique_ptr`): trees are values here. A declaration is appended before its body is normalized and is filled in afterwards, which fixes the pre-order numbering that the contracts state.
- Exceptions become `Failure` values. The error messages are represented only by the error kind and the offending name. A `Failure` carries no table, so the model does not state what the caller's table holds after a throw; in the source it keeps the declarations appended before the throw, such as the placeholder a nested `not` appends at Precondition.cpp:128 before the multiple-negation throw at line 138.
- Variables.ParseTypedDeclaration: type parsing (`Either::parse`, `PrimitiveType::parseAndFind`) is not modelled. A declaration arrives with its type already parsed, and an unknown type cannot be expressed.
- Variables.CheckTyping: `checkRequirement` itself (which may add the requirement or reject it) is outside this model. The model records that it was called.
- Tokenizer calls inside the parsing functions (`skipWhiteSpace`, `expect`, `parseIdentifier`, `testAndSkip`, `removeComments`, `location`): the input is abstracted to the declarations or section headers they would produce.
- Descriptions.FindSectionsFrom: the per-section `findSections` of `Domain` and `Problem` and the whitespace skipping between blocks are not modelled. A header that is not a well-formed `(define (` is a tokenizer error and is not represented.
- `Domain::parse`, `Problem::parse`, `checkConsistency` and `normalize` of the domain and problem are not part of this model. `Parse` returns the ordered steps it would run, and `Normalize` records which parts were normalized.
- `Description::fromFile`, `fromStream`, `fromFiles`, `Stream::read(path)` with its file check, `istream` seek/tell and the exception fallback inside `read`, and `setlocale`: these are file-system and stream I/O.
- Tokenize.Read: it states that the whole input is appended. That holds when the input's size can be determined (Stream.cpp:35-42), and for a first read of an input whose size cannot be determined, which reaches the fallback at lines 44-48. The model does not cover a later read of an input whose size cannot be determined. There `tellg` returns -1 without throwing, so the buffer is resized one character shorter and the copy at line 42 writes past its end.
- The initial cursor of a buffer is declared in Stream.h, which is not part of this model. `EmptyStream` starts it at 0.
- `Seek` accepts any natural number, as `seek` does not check it against the buffer length. `StreamPosition` wrap-around is not modelled.

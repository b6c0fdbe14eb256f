/** Properties of the derived-predicate table produced by `Normalization`:
    every reference names an existing declaration and passes exactly its
    parameters, a declaration's body only refers to later declarations (so the
    references form no cycle), every declaration a run appends has a body,
    and all names in one table are pairwise distinct. */
module NormalizationProperties {

  import opened Wrappers
  import opened PddlAst
  import opened Normalization

  /** A reference is sound in `table` when it names a declaration at index
      `from` or later and passes that declaration's parameters as arguments. */
  predicate SoundAtom(a: NormalizedAtom, table: DerivedPredicates, from: nat)
  {
    a.DerivedPredicate? ==>
      from <= a.declaration < |table| && table[a.declaration].parameters == a.arguments
  }

  predicate SoundLiterals(ls: seq<Literal>, table: DerivedPredicates, from: nat)
  {
    forall i :: 0 <= i < |ls| ==> SoundAtom(ls[i].atom, table, from)
  }

  predicate SoundBody(b: DerivedBody, table: DerivedPredicates, from: nat)
  {
    match b
    case LiteralBody(l) => SoundAtom(l.atom, table, from)
    case AndBody(ls) => SoundLiterals(ls, table, from)
    case OrBody(ls) => SoundLiterals(ls, table, from)
  }

  predicate SoundPrecondition(p: NormalizedPrecondition, table: DerivedPredicates, from: nat)
  {
    match p
    case LiteralPrecondition(l) => SoundAtom(l.atom, table, from)
    case AndPrecondition(ls) => SoundLiterals(ls, table, from)
  }

  /** Entry `i` carries the `i + 1`-th generated name and, once it has a body,
      that body only refers soundly to entries after `i`. */
  predicate ValidEntry(table: DerivedPredicates, i: nat)
    requires i < |table|
  {
    && table[i].name == DerivedPredicateName(i + 1)
    && (table[i].precondition.Some? ==> SoundBody(table[i].precondition.value, table, i + 1))
  }

  predicate ValidTable(table: DerivedPredicates)
  {
    forall i :: 0 <= i < |table| ==> ValidEntry(table, i)
  }

  /** Entries `lo` up to `hi` are valid and have their body. */
  predicate FinishedEntries(table: DerivedPredicates, lo: nat, hi: nat)
    requires lo <= hi <= |table|
  {
    forall i :: lo <= i < hi ==> ValidEntry(table, i) && table[i].precondition.Some?
  }

  lemma SplitSlice(table: DerivedPredicates, lo: nat, mid: nat, hi: nat, x: DerivedPredicates, y: DerivedPredicates)
    requires lo <= mid <= hi <= |table|
    requires |x| == mid - lo
    requires table[lo..hi] == x + y
    ensures table[lo..mid] == x && table[mid..hi] == y
  {
    assert table[lo..mid] == (x + y)[..mid - lo];
    assert table[mid..hi] == (x + y)[mid - lo..];
  }

  lemma SoundLiteralsCons(l: Literal, ls: seq<Literal>, table: DerivedPredicates, from: nat)
    requires SoundAtom(l.atom, table, from) && SoundLiterals(ls, table, from)
    ensures SoundLiterals([l] + ls, table, from)
  {
    forall i | 0 <= i < |[l] + ls|
      ensures SoundAtom(([l] + ls)[i].atom, table, from)
    {
      if i > 0 {
        assert ([l] + ls)[i] == ls[i - 1];
      }
    }
  }

  /** A node's own declaration, followed by its finished subterm declarations,
      finishes the whole block once the body refers soundly past the node. */
  lemma HeadFinished(table: DerivedPredicates, index: nat, hi: nat, body: DerivedBody)
    requires index < hi <= |table|
    requires table[index].name == DerivedPredicateName(index + 1)
    requires table[index].precondition == Some(body) && SoundBody(body, table, index + 1)
    requires FinishedEntries(table, index + 1, hi)
    ensures FinishedEntries(table, index, hi)
  {
    assert ValidEntry(table, index);
  }

  /** Wherever the declarations of `p` sit in a table, they are finished and
      valid there, and the literal standing for `p` refers soundly into them. */
  lemma {:induction false} ExpectedTableSound(p: Precondition, freeVariables: FreeVariables, index: nat,
                                              table: DerivedPredicates)
    requires Decomposable(p)
    requires index + Extracted(p) <= |table|
    requires table[index..index + Extracted(p)] == ExpectedTable(p, freeVariables, index)
    ensures FinishedEntries(table, index, index + Extracted(p))
    ensures SoundAtom(NestedLiteral(p, freeVariables, index).atom, table, index)
    decreases Size(p), 2
  {
    match p
    case Atom(_) =>
    case Not(a) =>
      if !a.Atom? {
        NotTableSound(a, freeVariables, index, table);
      }
    case And(args) => JunctionTableSound(p, freeVariables, index, table);
    case Or(args) => JunctionTableSound(p, freeVariables, index, table);
    case Exists(_, a) => ExistsTableSound(p, freeVariables, index, table);
  }

  lemma {:induction false} NotTableSound(a: Precondition, freeVariables: FreeVariables, index: nat,
                                         table: DerivedPredicates)
    requires !a.Atom? && Decomposable(Not(a))
    requires index + Extracted(Not(a)) <= |table|
    requires table[index..index + Extracted(Not(a))] == ExpectedTable(Not(a), freeVariables, index)
    ensures FinishedEntries(table, index, index + Extracted(Not(a)))
    ensures SoundAtom(NestedLiteral(Not(a), freeVariables, index).atom, table, index)
    decreases Size(Not(a)), 1
  {
    var e := ExpectedTable(Not(a), freeVariables, index);
    var hi := index + Extracted(Not(a));
    assert table[index] == e[0];
    SplitSlice(table, index, index + 1, hi, [e[0]], ExpectedTable(a, freeVariables, index + 1));
    ExpectedTableSound(a, freeVariables, index + 1, table);
    HeadFinished(table, index, hi, e[0].precondition.value);
  }

  lemma {:induction false} JunctionTableSound(p: Precondition, freeVariables: FreeVariables, index: nat,
                                              table: DerivedPredicates)
    requires (p.And? || p.Or?) && Decomposable(p)
    requires index + Extracted(p) <= |table|
    requires table[index..index + Extracted(p)] == ExpectedTable(p, freeVariables, index)
    ensures FinishedEntries(table, index, index + Extracted(p))
    ensures SoundAtom(NestedLiteral(p, freeVariables, index).atom, table, index)
    decreases Size(p), 1
  {
    var e := ExpectedTable(p, freeVariables, index);
    var hi := index + Extracted(p);
    assert table[index] == e[0];
    SplitSlice(table, index, index + 1, hi, [e[0]], ExpectedTables(p.arguments, freeVariables, index + 1));
    ExpectedTablesSound(p.arguments, freeVariables, index + 1, table);
    HeadFinished(table, index, hi, e[0].precondition.value);
  }

  lemma {:induction false} ExistsTableSound(p: Precondition, freeVariables: FreeVariables, index: nat,
                                            table: DerivedPredicates)
    requires p.Exists? && Decomposable(p)
    requires index + Extracted(p) <= |table|
    requires table[index..index + Extracted(p)] == ExpectedTable(p, freeVariables, index)
    ensures FinishedEntries(table, index, index + Extracted(p))
    ensures SoundAtom(NestedLiteral(p, freeVariables, index).atom, table, index)
    decreases Size(p), 1
  {
    var e := ExpectedTable(p, freeVariables, index);
    var hi := index + Extracted(p);
    assert table[index] == e[0];
    SplitSlice(table, index, index + 1, hi, [e[0]], ExpectedTable(p.argument, freeVariables, index + 1));
    ExpectedTableSound(p.argument, freeVariables, index + 1, table);
    HeadFinished(table, index, hi, e[0].precondition.value);
  }

  lemma {:induction false} ExpectedTablesSound(ps: seq<Precondition>, freeVariables: FreeVariables, index: nat,
                                               table: DerivedPredicates)
    requires AllDecomposable(ps)
    requires index + ExtractedAll(ps) <= |table|
    requires table[index..index + ExtractedAll(ps)] == ExpectedTables(ps, freeVariables, index)
    ensures FinishedEntries(table, index, index + ExtractedAll(ps))
    ensures SoundLiterals(ExpectedLiterals(ps, freeVariables, index), table, index)
    decreases SizeAll(ps), 3
  {
    if |ps| > 0 {
      var mid := index + Extracted(ps[0]);
      SplitSlice(table, index, mid, index + ExtractedAll(ps),
                 ExpectedTable(ps[0], freeVariables, index), ExpectedTables(ps[1..], freeVariables, mid));
      ExpectedTableSound(ps[0], freeVariables, index, table);
      ExpectedTablesSound(ps[1..], freeVariables, mid, table);
      SoundLiteralsCons(NestedLiteral(ps[0], freeVariables, index), ExpectedLiterals(ps[1..], freeVariables, mid),
                        table, index);
    }
  }

  lemma ConjunctTableSound(q: Precondition, freeVariables: FreeVariables, index: nat, table: DerivedPredicates)
    requires Decomposable(q)
    requires index + |ConjunctTable(q, freeVariables, index)| <= |table|
    requires table[index..index + |ConjunctTable(q, freeVariables, index)|] == ConjunctTable(q, freeVariables, index)
    ensures FinishedEntries(table, index, index + |ConjunctTable(q, freeVariables, index)|)
    ensures SoundAtom(ConjunctLiteral(q, freeVariables, index).atom, table, index)
  {
    if q.Not? {
      if !q.argument.Atom? {
        ExpectedTableSound(q.argument, freeVariables, index, table);
      }
    } else {
      ExpectedTableSound(q, freeVariables, index, table);
    }
  }

  lemma {:induction false} ConjunctTablesSound(ps: seq<Precondition>, freeVariables: FreeVariables, index: nat,
                                               table: DerivedPredicates)
    requires AllDecomposable(ps)
    requires index + |ConjunctTables(ps, freeVariables, index)| <= |table|
    requires table[index..index + |ConjunctTables(ps, freeVariables, index)|] == ConjunctTables(ps, freeVariables, index)
    ensures FinishedEntries(table, index, index + |ConjunctTables(ps, freeVariables, index)|)
    ensures SoundLiterals(ConjunctLiterals(ps, freeVariables, index), table, index)
  {
    if |ps| > 0 {
      var q := ps[0];
      var first := ConjunctTable(q, freeVariables, index);
      var mid := index + |first|;
      ConjunctCons(ps, freeVariables, index, mid);
      SplitSlice(table, index, mid, index + |ConjunctTables(ps, freeVariables, index)|,
                 first, ConjunctTables(ps[1..], freeVariables, mid));
      ConjunctTableSound(q, freeVariables, index, table);
      ConjunctTablesSound(ps[1..], freeVariables, mid, table);
      SoundLiteralsCons(ConjunctLiteral(q, freeVariables, index), ConjunctLiterals(ps[1..], freeVariables, mid),
                        table, index);
    }
  }

  /** The declarations and the precondition of a top-level normalization are
      sound wherever the declarations sit in a table. */
  lemma ExpectedTopLevelSound(p: Precondition, freeVariables: FreeVariables, index: nat, table: DerivedPredicates)
    requires Decomposable(p)
    requires index + |ExpectedTopLevelTable(p, freeVariables, index)| <= |table|
    requires table[index..index + |ExpectedTopLevelTable(p, freeVariables, index)|]
             == ExpectedTopLevelTable(p, freeVariables, index)
    ensures FinishedEntries(table, index, index + |ExpectedTopLevelTable(p, freeVariables, index)|)
    ensures SoundPrecondition(ExpectedPrecondition(p, freeVariables, index), table, index)
  {
    if p.And? {
      ConjunctTablesSound(p.arguments, freeVariables, index, table);
    } else {
      ConjunctTableSound(p, freeVariables, index, table);
    }
  }

  lemma SoundBodyExtends(b: DerivedBody, table: DerivedPredicates, table': DerivedPredicates, from: nat)
    requires table <= table'
    requires SoundBody(b, table, from)
    ensures SoundBody(b, table', from)
  {
  }

  /** Decomposition safety: a successful normalization keeps a valid table
      valid, gives every declaration it appends a body, and produces a
      precondition whose references all name one of those new declarations
      and pass exactly its parameters. */
  lemma NormalizeKeepsTableValid(p: Precondition, reduce: Reduction, freeVariables: FreeVariables,
                                 table: DerivedPredicates)
    requires ValidTable(table)
    ensures var r := Normalize(p, reduce, freeVariables, table);
            r.Success? ==>
              && ValidTable(r.value.table)
              && (forall i :: |table| <= i < |r.value.table| ==> r.value.table[i].precondition.Some?)
              && SoundPrecondition(r.value.value, r.value.table, |table|)
  {
    var r := Normalize(p, reduce, freeVariables, table);
    if r.Success? {
      var t := r.value.table;
      var q := reduce(p);
      var added := ExpectedTopLevelTable(q, freeVariables, |table|);
      assert t == table + added;
      assert t[|table|..|table| + |added|] == added;
      ExpectedTopLevelSound(q, freeVariables, |table|, t);
      forall i | 0 <= i < |t|
        ensures ValidEntry(t, i)
      {
        if i < |table| {
          assert ValidEntry(table, i);
          assert t[i] == table[i];
          if t[i].precondition.Some? {
            SoundBodyExtends(t[i].precondition.value, table, t, i + 1);
          }
        }
      }
    }
  }

  /** All names in a valid table are pairwise distinct. */
  lemma ValidTableNamesDistinct(table: DerivedPredicates)
    requires ValidTable(table)
    ensures forall i, j :: 0 <= i < |table| && 0 <= j < |table| && i != j ==> table[i].name != table[j].name
  {
    forall i, j | 0 <= i < |table| && 0 <= j < |table| && i != j
      ensures table[i].name != table[j].name
    {
      assert ValidEntry(table, i) && ValidEntry(table, j);
      DerivedPredicateNameInjective(i + 1, j + 1);
    }
  }

  /** A run starting from a valid table (the empty one, for instance) ends with
      a table whose names are pairwise distinct. */
  lemma NormalizeNamesDistinct(p: Precondition, reduce: Reduction, freeVariables: FreeVariables,
                               table: DerivedPredicates)
    requires ValidTable(table)
    ensures var r := Normalize(p, reduce, freeVariables, table);
            r.Success? ==>
              forall i, j :: 0 <= i < |r.value.table| && 0 <= j < |r.value.table| && i != j ==>
                r.value.table[i].name != r.value.table[j].name
  {
    NormalizeKeepsTableValid(p, reduce, freeVariables, table);
    var r := Normalize(p, reduce, freeVariables, table);
    if r.Success? {
      ValidTableNamesDistinct(r.value.table);
    }
  }
}

/** Locating the domain and the problem in a PDDL description
    (src/plasp/pddl/Description.cpp).

    The input is abstracted to the sequence of `(define (<kind> ...` headers,
    each with the input position where its block starts. The domain and the
    problem parsers themselves are not part of this model; `Parse` returns the
    positions they are started at, in order. */
module Descriptions {

  import opened Wrappers

  datatype SectionKind = DomainSection | ProblemSection | OtherSection(identifier: string)

  /** A `(define (<kind> ...` block starting at `position`. */
  datatype SectionHeader = SectionHeader(kind: SectionKind, position: nat)

  datatype Problem = Problem(normalized: bool)

  /** Positions are -1 while no block of that kind has been seen. */
  datatype Description = Description(
    domainPosition: int,
    domainNormalized: bool,
    problemPosition: int,
    problem: Option<Problem>)

  datatype DescriptionError =
    | TwoDomains
    | TwoProblems
    | UnknownSection(identifier: string)
    | NoDomain

  const NoPosition: int := -1

  predicate ContainsProblem(d: Description)
  {
    d.problem.Some?
  }

  /** Positions are -1 or a real position, and a problem object exists
      exactly when a problem position has been recorded. */
  predicate Consistent(d: Description)
  {
    && d.domainPosition >= NoPosition
    && d.problemPosition >= NoPosition
    && (ContainsProblem(d) <==> d.problemPosition != NoPosition)
  }

  /** The constructor: nothing recorded yet. */
  function NewDescription(): (d: Description)
    ensures d.domainPosition == NoPosition && d.problemPosition == NoPosition
    ensures !ContainsProblem(d) && Consistent(d)
  {
    Description(NoPosition, false, NoPosition, None)
  }

  /** The loop of `findSections`, from state `d` over the remaining headers. */
  function FindSectionsFrom(d: Description, headers: seq<SectionHeader>): (r: Result<Description, DescriptionError>)
    ensures r.Success? && Consistent(d) ==> Consistent(r.value)
    decreases |headers|
  {
    if |headers| == 0 then Success(d)
    else
      var h := headers[0];
      match h.kind
      case DomainSection =>
        if d.domainPosition != NoPosition then Failure(TwoDomains)
        else FindSectionsFrom(d.(domainPosition := h.position), headers[1..])
      case ProblemSection =>
        if d.problemPosition != NoPosition then Failure(TwoProblems)
        else FindSectionsFrom(d.(problem := Some(Problem(false)), problemPosition := h.position), headers[1..])
      case OtherSection(identifier) => Failure(UnknownSection(identifier))
  }

  function FindSections(headers: seq<SectionHeader>): Result<Description, DescriptionError>
  {
    FindSectionsFrom(NewDescription(), headers)
  }

  // Reference description of the accepted header sequences.

  function Count(headers: seq<SectionHeader>, kind: SectionKind): nat
  {
    if |headers| == 0 then 0
    else (if headers[0].kind == kind then 1 else 0) + Count(headers[1..], kind)
  }

  /** The position of the first header of `kind`, or -1. */
  function FirstPosition(headers: seq<SectionHeader>, kind: SectionKind): int
  {
    if |headers| == 0 then NoPosition
    else if headers[0].kind == kind then headers[0].position
    else FirstPosition(headers[1..], kind)
  }

  predicate OnlyKnownSections(headers: seq<SectionHeader>)
  {
    forall i :: 0 <= i < |headers| ==> !headers[i].kind.OtherSection?
  }

  lemma {:induction false} FindSectionsFromSpec(d: Description, headers: seq<SectionHeader>)
    requires Consistent(d)
    decreases |headers|
    ensures var r := FindSectionsFrom(d, headers);
      && (r.Success? <==>
            && OnlyKnownSections(headers)
            && Count(headers, DomainSection) <= (if d.domainPosition == NoPosition then 1 else 0)
            && Count(headers, ProblemSection) <= (if d.problemPosition == NoPosition then 1 else 0))
      && (r.Success? ==>
            && r.value.domainPosition
               == (if d.domainPosition == NoPosition then FirstPosition(headers, DomainSection) else d.domainPosition)
            && r.value.problemPosition
               == (if d.problemPosition == NoPosition then FirstPosition(headers, ProblemSection) else d.problemPosition))
  {
    if |headers| > 0 {
      var h := headers[0];
      var rest := headers[1..];
      assert forall i :: 1 <= i < |headers| ==> headers[i] == rest[i - 1];
      match h.kind
      case DomainSection =>
        if d.domainPosition == NoPosition {
          FindSectionsFromSpec(d.(domainPosition := h.position), rest);
        }
      case ProblemSection =>
        if d.problemPosition == NoPosition {
          FindSectionsFromSpec(d.(problem := Some(Problem(false)), problemPosition := h.position), rest);
        }
      case OtherSection(_) =>
        assert headers[0].kind.OtherSection?;
    }
  }

  lemma CountZeroFirstPosition(headers: seq<SectionHeader>, kind: SectionKind)
    ensures Count(headers, kind) == 0 <==> FirstPosition(headers, kind) == NoPosition
  {
  }

  /** `findSections` accepts exactly the header sequences with at most one
      domain, at most one problem and nothing else; it records the start of
      each block found (or -1), and creates a problem exactly when it saw one. */
  lemma FindSectionsSpec(headers: seq<SectionHeader>)
    ensures var r := FindSections(headers);
      && (r.Success? <==>
            OnlyKnownSections(headers) && Count(headers, DomainSection) <= 1 && Count(headers, ProblemSection) <= 1)
      && (r.Success? ==>
            && r.value.domainPosition == FirstPosition(headers, DomainSection)
            && r.value.problemPosition == FirstPosition(headers, ProblemSection)
            && (ContainsProblem(r.value) <==> Count(headers, ProblemSection) == 1))
  {
    FindSectionsFromSpec(NewDescription(), headers);
    CountZeroFirstPosition(headers, ProblemSection);
  }

  /** What `parse` does once the sections are found, in order: the domain
      and problem parsers started at a position, and the consistency checks. */
  datatype ParseStep =
    | ParseDomainAt(position: nat)
    | ParseProblemAt(position: nat)
    | CheckDomain
    | CheckProblem

  /** Every step that works on the problem happens only when there is one. */
  predicate ProblemStepsSafe(d: Description, steps: seq<ParseStep>)
  {
    forall i :: 0 <= i < |steps| && (steps[i].ParseProblemAt? || steps[i].CheckProblem?) ==> ContainsProblem(d)
  }

  /** The control logic of `parse` as written: the final consistency check
      visits the problem whether or not there is one. */
  function ParseAsWritten(headers: seq<SectionHeader>): (r: Result<(Description, seq<ParseStep>), DescriptionError>)
    ensures r.Success? ==> Consistent(r.value.0) && |r.value.1| >= 2 && r.value.1[|r.value.1| - 1] == CheckProblem
  {
    var d :- FindSections(headers);
    if d.domainPosition == NoPosition then Failure(NoDomain)
    else
      var domainStep := [ParseDomainAt(d.domainPosition as nat)];
      var problemSteps := if d.problemPosition != NoPosition then [ParseProblemAt(d.problemPosition as nat)] else [];
      Success((d, domainStep + problemSteps + [CheckDomain, CheckProblem]))
  }

  /** A description with a domain and no problem makes the as-written `parse`
      check the consistency of a problem that does not exist. */
  lemma ParseAsWrittenChecksMissingProblem()
    ensures var r := ParseAsWritten([SectionHeader(DomainSection, 0)]);
      r.Success? && !ContainsProblem(r.value.0) && !ProblemStepsSafe(r.value.0, r.value.1)
  {
  }

  /** The control logic of `parse`: fails without a domain, parses the domain,
      then the problem if one was recorded, and checks the consistency of
      what was parsed. */
  function Parse(headers: seq<SectionHeader>): (r: Result<(Description, seq<ParseStep>), DescriptionError>)
    ensures r.Success? ==> Consistent(r.value.0) && ProblemStepsSafe(r.value.0, r.value.1)
  {
    var d :- FindSections(headers);
    if d.domainPosition == NoPosition then Failure(NoDomain)
    else if d.problemPosition != NoPosition then
      Success((d, [ParseDomainAt(d.domainPosition as nat), ParseProblemAt(d.problemPosition as nat), CheckDomain, CheckProblem]))
    else
      Success((d, [ParseDomainAt(d.domainPosition as nat), CheckDomain]))
  }

  /** `parse` succeeds exactly when the headers are acceptable and one of them
      is a domain; it starts the domain parser at the domain block first, then
      the problem parser at the problem block exactly when there is a problem,
      and touches no problem otherwise. */
  lemma ParseSpec(headers: seq<SectionHeader>)
    ensures var r := Parse(headers);
      && (r.Success? <==>
            && OnlyKnownSections(headers)
            && Count(headers, DomainSection) == 1
            && Count(headers, ProblemSection) <= 1)
      && (r.Failure? && FindSections(headers).Success? ==> r.error == NoDomain)
      && (r.Success? ==>
            && r.value.1[0].ParseDomainAt?
            && r.value.1[0].position == FirstPosition(headers, DomainSection)
            && (Count(headers, ProblemSection) == 1 ==>
                  r.value.1[1].ParseProblemAt? && r.value.1[1].position == FirstPosition(headers, ProblemSection))
            && (Count(headers, ProblemSection) == 0 ==>
                  forall i :: 0 <= i < |r.value.1| ==> !r.value.1[i].ParseProblemAt? && !r.value.1[i].CheckProblem?))
  {
    FindSectionsSpec(headers);
    CountZeroFirstPosition(headers, DomainSection);
    CountZeroFirstPosition(headers, ProblemSection);
  }

  /** `parse` as written agrees with the corrected schedule on when it fails,
      on the error, on the description and on every step up to the
      consistency checks; the only difference is the trailing problem check
      it runs when no problem exists. With `ParseSpec`, this carries the
      control logic (no domain fails, domain first, problem parsed exactly
      when recorded) over to the code as written. */
  lemma ParseAsWrittenAgrees(headers: seq<SectionHeader>)
    ensures var written := ParseAsWritten(headers);
      var corrected := Parse(headers);
      && (written.Success? <==> corrected.Success?)
      && (written.Failure? ==> written.error == corrected.error)
      && (written.Success? ==>
            && written.value.0 == corrected.value.0
            && written.value.1
               == corrected.value.1 + (if ContainsProblem(corrected.value.0) then [] else [CheckProblem]))
  {
  }

  /** The control logic of `parse` as written: it succeeds exactly when the
      headers are acceptable and one is a domain, fails with `NoDomain` when
      the headers are acceptable but no domain is among them, parses the
      domain first and the problem second exactly when there is one, and
      ends with the problem check in every case. */
  lemma ParseAsWrittenSpec(headers: seq<SectionHeader>)
    ensures var r := ParseAsWritten(headers);
      && (r.Success? <==>
            && OnlyKnownSections(headers)
            && Count(headers, DomainSection) == 1
            && Count(headers, ProblemSection) <= 1)
      && (r.Failure? && FindSections(headers).Success? ==> r.error == NoDomain)
      && (r.Success? ==>
            && r.value.1[0].ParseDomainAt?
            && r.value.1[0].position == FirstPosition(headers, DomainSection)
            && (Count(headers, ProblemSection) == 1 <==> r.value.1[1].ParseProblemAt?)
            && (Count(headers, ProblemSection) == 1 ==> r.value.1[1].position == FirstPosition(headers, ProblemSection))
            && r.value.1[|r.value.1| - 1] == CheckProblem)
  {
    ParseSpec(headers);
    ParseAsWrittenAgrees(headers);
    var r := ParseAsWritten(headers);
    if r.Success? {
      var c := Parse(headers);
      assert r.value.1[..|c.value.1|] == c.value.1;
    }
  }

  /** `normalize`: normalizes the domain, and the problem only if there is one. */
  function Normalize(d: Description): (r: Description)
    ensures ContainsProblem(r) == ContainsProblem(d)
    ensures r.domainNormalized
    ensures ContainsProblem(r) ==> r.problem.value.normalized
    ensures r.domainPosition == d.domainPosition && r.problemPosition == d.problemPosition
  {
    var problem := match d.problem
      case None => None
      case Some(p) => Some(p.(normalized := true));
    d.(domainNormalized := true, problem := problem)
  }
}

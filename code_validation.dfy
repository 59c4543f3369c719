/**
 Membership of a coded value in a value set: `validateCode(system, code,
 display, ValueSet)` and its two wrappers for a Coding and a
 CodeableConcept.

 The reference definition is `Candidates`: the concepts the two passes may
 return, in the order they are tried. `ValidateCodeMatchesCandidates` proves
 that the result is OK with the first candidate carrying the code, or the
 "Unknown code" error when there is none.
 */
module CodeValidation {
  import opened FhirModel
  import opened ConceptSearch

  /** The message of the error a failed lookup returns. */
  function UnknownCodeMessage(code: JString, system: JString): string
  {
    "Unknown code[" + Show(code) + "] in system[" + Show(system) + "]"
  }

  /** `new ValidationResult(IssueSeverity.ERROR, "Unknown code[...] in system[...]")` */
  function UnknownCode(code: JString, system: JString): (r: ValidationResult)
    ensures !IsOk(r) && r.severity == Some(Error)
    ensures r.message == Some(UnknownCodeMessage(code, system))
  {
    ValidationResult(Some(Error), Some(UnknownCodeMessage(code, system)), None)
  }

  /** Whether the inline pass runs: the query system is null or equals the
      inline code system's system. */
  predicate InlineApplies(system: JString, vs: ValueSet)
  {
    system.None? || system == InlineCodeSystemOf(vs).system
  }

  /** The concept the compose pass builds from an include entry: its code and
      display, and no children. */
  function ReferenceConcept(ref: ConceptReference): (c: Concept)
    ensures c.code == ref.code && c.display == ref.display && c.children == []
  {
    Concept(ref.code, ref.display, [])
  }

  /** The inner compose loop over one include's entries. */
  function SearchReferences(code: JString, refs: seq<ConceptReference>): (r: Option<ValidationResult>)
    ensures r.Some? ==> IsOk(r.value) && r.value.definition.value.code == code
    ensures r.Some? ==> r.value.severity.None? && r.value.message.None?
  {
    if refs == [] then None
    else
      var retVal := ValidateCodeSystem(code, ReferenceConcept(refs[0]));
      if retVal.Some? && IsOk(retVal.value) then retVal
      else SearchReferences(code, refs[1..])
  }

  /** The outer compose loop: only includes whose system null-safely equals
      the query system are consulted. */
  function SearchIncludes(system: JString, code: JString, incs: seq<Include>): (r: Option<ValidationResult>)
    ensures r.Some? ==> IsOk(r.value) && r.value.definition.value.code == code
    ensures r.Some? ==> r.value.severity.None? && r.value.message.None?
  {
    if incs == [] then None
    else
      var inner := if system == incs[0].system then SearchReferences(code, incs[0].concepts) else None;
      if inner.Some? then inner else SearchIncludes(system, code, incs[1..])
  }

  /** validateCode(theSystem, theCode, theDisplay, theVs): the inline tree
      first (when the system allows it), then the compose-includes, then the
      "Unknown code" error. The result is never null. */
  function ValidateCode(system: JString, code: JString, display: JString, vs: ValueSet): (r: ValidationResult)
    ensures IsOk(r) ==> r.definition.value.code == code && r.severity.None? && r.message.None?
    ensures !IsOk(r) ==> r == UnknownCode(code, system)
  {
    var inline :=
      if InlineApplies(system, vs) then SearchConcepts(code, InlineCodeSystemOf(vs).concepts) else None;
    if inline.Some? && IsOk(inline.value) then inline.value
    else
      var composed := SearchIncludes(system, code, vs.includes);
      if composed.Some? then composed.value
      else UnknownCode(code, system)
  }

  /** The concepts an include entry list contributes, in order. */
  function ReferenceConcepts(refs: seq<ConceptReference>): (s: seq<Concept>)
    ensures |s| == |refs|
    ensures forall j :: 0 <= j < |refs| ==> s[j] == ReferenceConcept(refs[j])
  {
    if refs == [] then [] else [ReferenceConcept(refs[0])] + ReferenceConcepts(refs[1..])
  }

  /** The concepts the compose pass may return, in the order it tries them:
      the entries of every include whose system equals the query system. */
  function IncludeCandidates(system: JString, incs: seq<Include>): seq<Concept>
  {
    if incs == [] then []
    else
      (if system == incs[0].system then ReferenceConcepts(incs[0].concepts) else [])
      + IncludeCandidates(system, incs[1..])
  }

  /** Every concept validateCode may return, in the order it is tried: the
      inline tree in pre-order when the inline pass applies, then the
      matching includes' entries in declaration order. */
  function Candidates(system: JString, vs: ValueSet): seq<Concept>
  {
    (if InlineApplies(system, vs) then PreOrderForest(InlineCodeSystemOf(vs).concepts) else [])
    + IncludeCandidates(system, vs.includes)
  }

  /** The result the reference definition predicts. */
  function Expected(system: JString, code: JString, found: Option<Concept>): ValidationResult
  {
    match found
    case Some(n) => OkResult(n)
    case None => UnknownCode(code, system)
  }

  lemma {:induction false} SearchReferencesIsFirst(code: JString, refs: seq<ConceptReference>)
    ensures SearchReferences(code, refs) == AsResult(FirstWithCode(ReferenceConcepts(refs), code))
  {
    if refs != [] {
      var head := ReferenceConcept(refs[0]);
      SearchReferencesIsFirst(code, refs[1..]);
      assert ReferenceConcepts(refs) == [head] + ReferenceConcepts(refs[1..]);
      assert [head][1..] == [];
      assert FirstIndexWithCode([head][1..], code) == None;
      FirstWithCodeAppend([head], ReferenceConcepts(refs[1..]), code);
      if code == head.code {
        assert ValidateCodeSystem(code, head) == Some(OkResult(head));
        assert FirstWithCode([head], code) == Some(head);
      } else {
        assert ValidateCodeSystem(code, head) == SearchConcepts(code, []);
        assert FirstWithCode([head], code) == None;
      }
    }
  }

  lemma {:induction false} SearchIncludesIsFirst(system: JString, code: JString, incs: seq<Include>)
    ensures SearchIncludes(system, code, incs) == AsResult(FirstWithCode(IncludeCandidates(system, incs), code))
  {
    if incs != [] {
      SearchIncludesIsFirst(system, code, incs[1..]);
      var head := if system == incs[0].system then ReferenceConcepts(incs[0].concepts) else [];
      if system == incs[0].system {
        SearchReferencesIsFirst(code, incs[0].concepts);
      }
      FirstWithCodeAppend(head, IncludeCandidates(system, incs[1..]), code);
    }
  }

  /** validateCode returns OK carrying the first candidate whose code equals
      the query (inline tree in pre-order, then matching includes in order),
      and the "Unknown code" error when no candidate has it. The display is
      never consulted. */
  lemma ValidateCodeMatchesCandidates(system: JString, code: JString, display: JString, vs: ValueSet)
    ensures ValidateCode(system, code, display, vs) == Expected(system, code, FirstWithCode(Candidates(system, vs), code))
  {
    var inlineList :=
      if InlineApplies(system, vs) then PreOrderForest(InlineCodeSystemOf(vs).concepts) else [];
    SearchConceptsIsFirstInPreOrder(code, InlineCodeSystemOf(vs).concepts);
    SearchIncludesIsFirst(system, code, vs.includes);
    FirstWithCodeAppend(inlineList, IncludeCandidates(system, vs.includes), code);
  }

  /** A mismatched display never turns an OK into a failure, nor the reverse:
      neither pass reads it. */
  lemma DisplayNeverConsulted(system: JString, code: JString, d1: JString, d2: JString, vs: ValueSet)
    ensures ValidateCode(system, code, d1, vs) == ValidateCode(system, code, d2, vs)
  {
  }

  /** A concrete query system that differs from the inline code system's
      skips the inline tree entirely, even when the code is in it: only the
      includes with that system decide. */
  lemma MismatchedSystemSkipsInlineTree(system: JString, code: JString, display: JString, vs: ValueSet)
    requires system.Some? && system != InlineCodeSystemOf(vs).system
    ensures ValidateCode(system, code, display, vs)
         == Expected(system, code, FirstWithCode(IncludeCandidates(system, vs.includes), code))
  {
    assert !InlineApplies(system, vs);
    ValidateCodeMatchesCandidates(system, code, display, vs);
    assert Candidates(system, vs) == IncludeCandidates(system, vs.includes);
  }

  /** A null query system consults only the includes whose system is null:
      when every include names a system, only the inline tree can answer. */
  lemma NullSystemSkipsNamedIncludes(code: JString, display: JString, vs: ValueSet)
    requires forall j :: 0 <= j < |vs.includes| ==> vs.includes[j].system.Some?
    ensures ValidateCode(None, code, display, vs)
         == Expected(None, code, FirstWithCode(PreOrderForest(InlineCodeSystemOf(vs).concepts), code))
  {
    assert InlineApplies(None, vs);
    ValidateCodeMatchesCandidates(None, code, display, vs);
    NoCandidatesFromNamedIncludes(vs.includes);
    assert Candidates(None, vs) == PreOrderForest(InlineCodeSystemOf(vs).concepts);
  }

  lemma {:induction false} NoCandidatesFromNamedIncludes(incs: seq<Include>)
    requires forall j :: 0 <= j < |incs| ==> incs[j].system.Some?
    ensures IncludeCandidates(None, incs) == []
  {
    if incs != [] {
      NoCandidatesFromNamedIncludes(incs[1..]);
    }
  }

  /** validateCode(Coding, ValueSet): the coding's system, code and display
      passed to validateCode. */
  function ValidateCoding(coding: Coding, vs: ValueSet): (r: ValidationResult)
    ensures r == ValidateCode(coding.system, coding.code, coding.display, vs)
  {
    ValidateCode(coding.system, coding.code, coding.display, vs)
  }

  /** The result of a CodeableConcept that no coding validates: no severity,
      no message, no concept. */
  function NoMatch(): (r: ValidationResult)
    ensures !IsOk(r) && r.severity.None? && r.message.None?
  {
    ValidationResult(None, None, None)
  }

  /** The loop of validateCode(CodeableConcept, ValueSet) over a coding list. */
  function ValidateCodings(codings: seq<Coding>, vs: ValueSet): (r: ValidationResult)
    ensures !IsOk(r) ==> r == NoMatch()
  {
    if codings == [] then NoMatch()
    else
      var retVal := ValidateCoding(codings[0], vs);
      if IsOk(retVal) then retVal else ValidateCodings(codings[1..], vs)
  }

  /** validateCode(CodeableConcept, ValueSet) */
  function ValidateCodeableConcept(cc: CodeableConcept, vs: ValueSet): (r: ValidationResult)
    ensures !IsOk(r) ==> r == NoMatch()
  {
    ValidateCodings(cc.codings, vs)
  }

  /** Coding `i` validates and no coding before it does. */
  predicate FirstOkCoding(codings: seq<Coding>, vs: ValueSet, i: nat)
    requires i < |codings|
  {
    && IsOk(ValidateCoding(codings[i], vs))
    && forall j :: 0 <= j < i ==> !IsOk(ValidateCoding(codings[j], vs))
  }

  /** The CodeableConcept result is the OK result of the first coding, in
      coding order, that validates; when none does (an empty coding list
      included) it is the empty result. */
  lemma {:induction false} CodeableConceptTakesFirstOkCoding(codings: seq<Coding>, vs: ValueSet)
    ensures (exists i :: 0 <= i < |codings| && IsOk(ValidateCoding(codings[i], vs)))
            <==> IsOk(ValidateCodeableConcept(CodeableConcept(codings), vs))
    ensures forall i | 0 <= i < |codings| && FirstOkCoding(codings, vs, i) ::
              ValidateCodeableConcept(CodeableConcept(codings), vs) == ValidateCoding(codings[i], vs)
  {
    if codings != [] {
      CodeableConceptTakesFirstOkCoding(codings[1..], vs);
      if !IsOk(ValidateCoding(codings[0], vs)) {
        forall i | 0 < i < |codings| && IsOk(ValidateCoding(codings[i], vs))
          ensures IsOk(ValidateCoding(codings[1..][i - 1], vs))
        {
          assert codings[1..][i - 1] == codings[i];
        }
        forall i | 0 <= i < |codings| - 1 && IsOk(ValidateCoding(codings[1..][i], vs))
          ensures IsOk(ValidateCoding(codings[i + 1], vs))
        {
          assert codings[1..][i] == codings[i + 1];
        }
        forall i | 0 < i < |codings| && IsOk(ValidateCoding(codings[i], vs))
            && (forall j :: 0 <= j < i ==> !IsOk(ValidateCoding(codings[j], vs)))
          ensures ValidateCodings(codings[1..], vs) == ValidateCoding(codings[i], vs)
        {
          assert codings[1..][i - 1] == codings[i];
          forall j | 0 <= j < i - 1 ensures !IsOk(ValidateCoding(codings[1..][j], vs)) {
            assert codings[1..][j] == codings[j + 1];
          }
        }
      }
    }
  }
}

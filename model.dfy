/**
 The in-memory data model of the DSTU2.1 terminology classes that
 HapiWorkerContext reads: concepts, value sets with their inline code system
 and compose-includes, codings, validation results, expansion outcomes and
 the optional validation-support backend.

 A Java `String` reference may be null; it is modelled as `JString`, an
 `Option<string>` whose `None` is null. Equality of two `JString`s is exactly
 the null-safe `StringUtils.equals` (two nulls are equal, null equals no
 string).
 */
module FhirModel {

  datatype Option<+T> = None | Some(value: T)

  /** A Java String reference: `None` is null. */
  type JString = Option<string>

  /** How Java's string concatenation renders a possibly-null String. */
  function Show(s: JString): string
  {
    match s
    case None => "null"
    case Some(v) => v
  }

  /** OperationOutcome.IssueSeverity */
  datatype IssueSeverity = Fatal | Error | Warning | Information

  /** ValueSet.ConceptDefinitionComponent: a node of a concept hierarchy. */
  datatype Concept = Concept(code: JString, display: JString, children: seq<Concept>)

  /** ValueSet.ValueSetCodeSystemComponent: the code system a value set defines inline. */
  datatype InlineCodeSystem = InlineCodeSystem(system: JString, concepts: seq<Concept>)

  /** ValueSet.ConceptReferenceComponent: one explicitly enumerated code of an include. */
  datatype ConceptReference = ConceptReference(code: JString, display: JString)

  /** ValueSet.ConceptSetComponent: one compose-include rule. */
  datatype Include = Include(system: JString, concepts: seq<ConceptReference>)

  /** A ValueSet: an optional inline code system and the compose-include list. */
  datatype ValueSet = ValueSet(codeSystem: Option<InlineCodeSystem>, includes: seq<Include>)

  /** The inline code system as `getCodeSystem()` hands it out: an absent one
      reads as an empty code system whose system is null. */
  function InlineCodeSystemOf(vs: ValueSet): (cs: InlineCodeSystem)
    ensures vs.codeSystem.None? ==> cs.system.None? && cs.concepts == []
    ensures vs.codeSystem.Some? ==> cs == vs.codeSystem.value
  {
    match vs.codeSystem
    case None => InlineCodeSystem(None, [])
    case Some(cs) => cs
  }

  datatype Coding = Coding(system: JString, code: JString, display: JString)

  datatype CodeableConcept = CodeableConcept(codings: seq<Coding>)

  /** IWorkerContext.ValidationResult: every part may be null. */
  datatype ValidationResult = ValidationResult(
    severity: Option<IssueSeverity>,
    message: JString,
    definition: Option<Concept>)

  /** `isOk()`: the result carries a concept definition. */
  predicate IsOk(r: ValidationResult)
  {
    r.definition.Some?
  }

  /** `new ValidationResult(concept)` */
  function OkResult(c: Concept): (r: ValidationResult)
    ensures IsOk(r) && r.definition.value == c
    ensures r.severity.None? && r.message.None?
  {
    ValidationResult(None, None, Some(c))
  }

  /** IValidationSupport.CodeValidationResult, as the backend answers. */
  datatype CodeValidationResult = CodeValidationResult(
    severity: Option<IssueSeverity>,
    message: JString,
    definition: Option<Concept>)

  /** One entry of a value-set expansion. */
  datatype ExpansionEntry = ExpansionEntry(system: JString, code: JString, display: JString)

  /** ValueSet.ValueSetExpansionComponent */
  datatype ValueSetExpansion = ValueSetExpansion(contains: seq<ExpansionEntry>)

  /** ValueSetExpander.ValueSetExpansionOutcome: an expansion, an error, or both. */
  datatype ValueSetExpansionOutcome = ValueSetExpansionOutcome(
    expansion: Option<ValueSetExpansion>,
    error: JString)

  /** A resource as fetched by URI; its content is opaque to this model. */
  datatype Resource = Resource(resourceType: string, url: JString)
}

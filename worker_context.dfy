/**
 The HapiWorkerContext facade: an object holding an optional validation
 support backend, fixed at construction, and answering the IWorkerContext
 capabilities in one of three postures:
 - delegated with a graceful null: with no backend, fetches answer null and
   `supportsSystem` answers false;
 - implemented: value-set membership (module CodeValidation), the expansion
   wrapper, the sorted resource-type names;
 - unsupported: every other capability throws UnsupportedOperationException.
 */
module Worker {
  import opened FhirModel
  import opened StringOrder

  /** IValidationSupport: the backend, an oracle this model does not look
      inside. Each field is one of its queries. */
  datatype ValidationSupport = ValidationSupport(
    fetchCodeSystem: JString -> Option<ValueSet>,
    fetchResource: (string, JString) -> Option<Resource>,
    isCodeSystemSupported: JString -> bool,
    validateCode: (JString, JString, JString) -> Option<CodeValidationResult>,
    expandValueSet: Include -> Option<ValueSetExpansion>)

  /** What calling a facade operation yields: a value, or the
      UnsupportedOperationException it throws. */
  datatype Outcome<+T> = Returned(value: T) | UnsupportedOperation

  /** The capabilities whose implementation is a bare
      `throw new UnsupportedOperationException()`. */
  datatype UnsupportedCapability =
    | GetNarrativeGenerator(prefix: JString, basePath: JString)
    | GetParserByType(parserType: string)
    | GetParserByName(parserName: JString)
    | HasResource(resourceClass: string, uri: JString)
    | NewJsonParser
    | NewValidator
    | NewXmlParser
    | ValidateCodeInInclude(system: JString, code: JString, display: JString, conceptSet: Include)
    | FindMapsForSource(url: JString)
    | ExpandVSCached(source: ValueSet, cacheOk: bool)
    | GetAbbreviation(name: JString)

  /** Calling any capability the facade does not support throws, whatever
      its arguments; it never returns a default. */
  function CallUnsupported(capability: UnsupportedCapability): (r: Outcome<()>)
    ensures r.UnsupportedOperation?
  {
    UnsupportedOperation
  }

  class HapiWorkerContext {
    /** myValidationSupport: `None` is a null backend. */
    const validationSupport: Option<ValidationSupport>

    constructor (validationSupport: Option<ValidationSupport>)
      ensures this.validationSupport == validationSupport
    {
      this.validationSupport := validationSupport;
    }

    /** fetchCodeSystem: null without a backend, else the backend's answer. */
    function FetchCodeSystem(system: JString): (r: Option<ValueSet>)
      ensures validationSupport.None? ==> r.None?
      ensures validationSupport.Some? ==> r == validationSupport.value.fetchCodeSystem(system)
    {
      match validationSupport
      case None => None
      case Some(backend) => backend.fetchCodeSystem(system)
    }

    /** fetchResource: null without a backend, else the backend's answer. */
    function FetchResource(resourceClass: string, uri: JString): (r: Option<Resource>)
      ensures validationSupport.None? ==> r.None?
      ensures validationSupport.Some? ==> r == validationSupport.value.fetchResource(resourceClass, uri)
    {
      match validationSupport
      case None => None
      case Some(backend) => backend.fetchResource(resourceClass, uri)
    }

    /** supportsSystem: false without a backend, else the backend's answer. */
    function SupportsSystem(system: JString): (r: bool)
      ensures validationSupport.None? ==> !r
      ensures validationSupport.Some? ==> r == validationSupport.value.isCodeSystemSupported(system)
    {
      match validationSupport
      case None => false
      case Some(backend) => backend.isCodeSystemSupported(system)
    }

    /** validateCode(system, code, display) with no value set: the backend's
        answer, null when it has none, otherwise re-wrapped field by field.
        The source dereferences the backend without a null check. */
    function ValidateCodeWithBackend(system: JString, code: JString, display: JString): (r: Option<ValidationResult>)
      requires validationSupport.Some?
      ensures r.None? <==> validationSupport.value.validateCode(system, code, display).None?
      ensures r.Some? ==>
                var answer := validationSupport.value.validateCode(system, code, display).value;
                && r.value.severity == answer.severity
                && r.value.message == answer.message
                && r.value.definition == answer.definition
      ensures r.Some? ==> (IsOk(r.value) <==> validationSupport.value.validateCode(system, code, display).value.definition.Some?)
    {
      match validationSupport.value.validateCode(system, code, display)
      case None => None
      case Some(result) => Some(ValidationResult(result.severity, result.message, result.definition))
    }

    /** expandVS(ConceptSetComponent): forwarded to the backend, which the
        source dereferences without a null check; a null expansion from the
        backend is passed back as null. */
    function ExpandInclude(conceptSet: Include): (r: Option<ValueSetExpansion>)
      requires validationSupport.Some?
      ensures r == validationSupport.value.expandValueSet(conceptSet)
    {
      validationSupport.value.expandValueSet(conceptSet)
    }

    /** expand(ValueSet): the expander's outcome, or null when that outcome
        carries an error. `expander` stands for the ValueSetExpanderSimple
        that getExpander() builds over this context. */
    function Expand(expander: ValueSet -> ValueSetExpansionOutcome, source: ValueSet): (r: Option<ValueSetExpansionOutcome>)
      ensures r.None? <==> expander(source).error.Some?
      ensures r.Some? ==> r.value == expander(source) && r.value.error.None?
    {
      var outcome := expander(source);
      if outcome.error.Some? then None else Some(outcome)
    }

    /** getResourceNames: the name of every ResourceType constant, collected
        in declaration order, then sorted ascending. `resourceTypeNames` is
        `ResourceType.values()` by name. */
    method GetResourceNames(resourceTypeNames: seq<string>) returns (result: seq<string>)
      ensures Sorted(result)
      ensures multiset(result) == multiset(resourceTypeNames)
    {
      result := [];
      for i := 0 to |resourceTypeNames|
        invariant result == resourceTypeNames[..i]
      {
        result := result + [resourceTypeNames[i]];
      }
      assert resourceTypeNames[..|resourceTypeNames|] == resourceTypeNames;
      result := SortStrings(result);
    }
  }
}

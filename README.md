# HapiWorkerContext terminology validation, modelled in Dafny

This project models the terminology-validation core of HAPI FHIR's DSTU2.1
`HapiWorkerContext`. That core decides whether a coded value (a system,
code and display, a `Coding`, or a `CodeableConcept`) belongs to a FHIR
`ValueSet`. It also models the facade around an optional
`IValidationSupport` backend:

- the fetches answer null, and `supportsSystem` answers false, when no backend is configured;
- the bare `validateCode` and `expandVS` forward to the backend;
- `expand` turns an expander outcome that carries an error into null;
- `getResourceNames` returns the resource-type names, sorted;
- every other capability throws `UnsupportedOperationException`.

Files and modules:

- `model.dfy`, module `FhirModel`: concepts, the inline code system, compose-includes, value sets, codings, validation results, expansion outcomes. A Java `String` that may be null is a `JString` (`Option<string>`). Equality of two `JString`s is `StringUtils.equals`.
- `concept_search.dfy`, module `ConceptSearch`: the recursive search `validateCodeSystem`. Its reference definition is the first node with the code in the tree's pre-order listing.
- `code_validation.dfy`, module `CodeValidation`: `validateCode` against a value set, plus its `Coding` and `CodeableConcept` wrappers. The reference definition is the ordered list of candidate concepts the two passes may return.
- `string_order.dfy`, module `StringOrder`: `String.compareTo` order, and a sort that stands for `Collections.sort`.
- `worker_context.dfy`, module `Worker`: the class `HapiWorkerContext`, with the backend as a `const` field set by the constructor, and the unsupported capabilities.

Assumptions, stated here because the classes involved are not part of this model:

- `ValidationResult.isOk()` is taken to mean "carries a concept definition".
- `new ValidationResult(concept)` is taken to leave severity and message null.
- `getCodeSystem()` on a value set without an inline code system is taken to give an empty one whose system is null (`FhirModel.InlineCodeSystemOf`).

Three behaviours of the code that a reader may not expect; the model follows the code:

- The bare `validateCode(system, code, display)` returns null when the backend has no answer. It does not return an error.
- An include with a null system is matched only by a query whose system is also null. It does not mean "any system".
- When no coding of a `CodeableConcept` validates, the result is `ValidationResult(null, null)`: no severity, no message and no concept.

## Model

| member | source | states |
|---|---|---|
| `ConceptSearch.ValidateCodeSystem` | hapi-fhir-structures-dstu2.1/src/main/java/org/hl7/fhir/dstu21/hapi/validation/HapiWorkerContext.java:149-161 | a non-null result is OK, carries a concept whose code equals the query, and has no severity or message |
| `ConceptSearch.SearchConcepts` | hapi-fhir-structures-dstu2.1/src/main/java/org/hl7/fhir/dstu21/hapi/validation/HapiWorkerContext.java:153-159 | the child loop's non-null result is OK with a concept carrying the queried code |
| `ConceptSearch.SearchIsFirstInPreOrder` | hapi-fhir-structures-dstu2.1/src/main/java/org/hl7/fhir/dstu21/hapi/validation/HapiWorkerContext.java:149-161 | the search returns OK with exactly the first node, in pre-order (node, then children in order), whose code equals the query, and null when there is none |
| `ConceptSearch.SearchConceptsIsFirstInPreOrder` | hapi-fhir-structures-dstu2.1/src/main/java/org/hl7/fhir/dstu21/hapi/validation/HapiWorkerContext.java:153-158 | the loop over a list of subtrees returns the first pre-order hit of the whole forest |
| `ConceptSearch.FirstIndexWithCode` | hapi-fhir-structures-dstu2.1/src/main/java/org/hl7/fhir/dstu21/hapi/validation/HapiWorkerContext.java:149-158 | the reference first-match definition behind the search loops: the index found holds the exact code and no earlier entry does; none is found exactly when no entry has the code |
| `ConceptSearch.FirstWithCodeAppend` | hapi-fhir-structures-dstu2.1/src/main/java/org/hl7/fhir/dstu21/hapi/validation/HapiWorkerContext.java:153-158 | first-match over a concatenation takes the first part's hit, else the second part's |
| `ConceptSearch.FoundAtAnyDepth` | hapi-fhir-structures-dstu2.1/src/main/java/org/hl7/fhir/dstu21/hapi/validation/HapiWorkerContext.java:149-158 | a node with the code at any depth makes the search succeed, and the returned concept is a node of the tree |
| `ConceptSearch.AbsentExactlyWhenNoNodeHasCode` | hapi-fhir-structures-dstu2.1/src/main/java/org/hl7/fhir/dstu21/hapi/validation/HapiWorkerContext.java:153-160 | the search answers null (never an error) exactly when no node of the subtree has the code |
| `FhirModel.InlineCodeSystemOf` | hapi-fhir-structures-dstu2.1/src/main/java/org/hl7/fhir/dstu21/hapi/validation/HapiWorkerContext.java:124-125 | an absent inline code system reads as system null with no concepts |
| `CodeValidation.UnknownCode` | hapi-fhir-structures-dstu2.1/src/main/java/org/hl7/fhir/dstu21/hapi/validation/HapiWorkerContext.java:146 | the fall-through result has severity ERROR, no concept, and the message `Unknown code[<code>] in system[<system>]`, with null rendered as `null` |
| `CodeValidation.SearchReferences` | hapi-fhir-structures-dstu2.1/src/main/java/org/hl7/fhir/dstu21/hapi/validation/HapiWorkerContext.java:135-143 | a hit over an include's entries is OK with a concept carrying the queried code |
| `CodeValidation.SearchIncludes` | hapi-fhir-structures-dstu2.1/src/main/java/org/hl7/fhir/dstu21/hapi/validation/HapiWorkerContext.java:133-145 | a hit over the includes is OK with a concept carrying the queried code |
| `CodeValidation.SearchReferencesIsFirst` | hapi-fhir-structures-dstu2.1/src/main/java/org/hl7/fhir/dstu21/hapi/validation/HapiWorkerContext.java:135-143 | the entry loop returns the first entry with the code, as a fresh concept with that entry's code and display and no children |
| `CodeValidation.SearchIncludesIsFirst` | hapi-fhir-structures-dstu2.1/src/main/java/org/hl7/fhir/dstu21/hapi/validation/HapiWorkerContext.java:133-145 | the include loop returns the first hit among the entries of the includes whose system null-safely equals the query, in declaration order |
| `CodeValidation.ValidateCode` | hapi-fhir-structures-dstu2.1/src/main/java/org/hl7/fhir/dstu21/hapi/validation/HapiWorkerContext.java:122-147 | the result is never null; an OK result carries the queried code; any other result is exactly the "Unknown code" ERROR |
| `CodeValidation.ValidateCodeMatchesCandidates` | hapi-fhir-structures-dstu2.1/src/main/java/org/hl7/fhir/dstu21/hapi/validation/HapiWorkerContext.java:122-147 | validateCode is OK with the first candidate carrying the code (the inline tree in pre-order when the system is null or equal to the inline system, then the matching includes' entries in order), else the ERROR; display plays no part |
| `CodeValidation.DisplayNeverConsulted` | hapi-fhir-structures-dstu2.1/src/main/java/org/hl7/fhir/dstu21/hapi/validation/HapiWorkerContext.java:123-145 | two displays give the same result, so a mismatched display never causes a failure |
| `CodeValidation.MismatchedSystemSkipsInlineTree` | hapi-fhir-structures-dstu2.1/src/main/java/org/hl7/fhir/dstu21/hapi/validation/HapiWorkerContext.java:124-131 | a concrete system that differs from the inline system skips the inline tree even when the code is in it; only the includes decide |
| `CodeValidation.NullSystemSkipsNamedIncludes` | hapi-fhir-structures-dstu2.1/src/main/java/org/hl7/fhir/dstu21/hapi/validation/HapiWorkerContext.java:133-134 | a null query system never matches an include that names a system; with only such includes, the inline tree alone decides |
| `CodeValidation.ValidateCoding` | hapi-fhir-structures-dstu2.1/src/main/java/org/hl7/fhir/dstu21/hapi/validation/HapiWorkerContext.java:188-194 | equals validateCode on the coding's system, code and display |
| `CodeValidation.ValidateCodings` | hapi-fhir-structures-dstu2.1/src/main/java/org/hl7/fhir/dstu21/hapi/validation/HapiWorkerContext.java:198-205 | a result that is not OK is the empty result (no severity, message or concept) |
| `CodeValidation.ValidateCodeableConcept` | hapi-fhir-structures-dstu2.1/src/main/java/org/hl7/fhir/dstu21/hapi/validation/HapiWorkerContext.java:196-206 | a result that is not OK is the empty result, never an error |
| `CodeValidation.CodeableConceptTakesFirstOkCoding` | hapi-fhir-structures-dstu2.1/src/main/java/org/hl7/fhir/dstu21/hapi/validation/HapiWorkerContext.java:196-206 | the result is OK exactly when some coding validates, and then it is the result of the first such coding in coding order; an empty coding list gives the empty result |
| `StringOrder.SortStrings` | hapi-fhir-structures-dstu2.1/src/main/java/org/hl7/fhir/dstu21/hapi/validation/HapiWorkerContext.java:214 | the sorted list is ascending in `String.compareTo` order and a permutation of its input |
| `StringOrder.SortedPermutationIsUnique` | hapi-fhir-structures-dstu2.1/src/main/java/org/hl7/fhir/dstu21/hapi/validation/HapiWorkerContext.java:214 | two ascending permutations of the same list are equal, so any correct sort gives the same list |
| `StringOrder.StrLeTotal` | hapi-fhir-structures-dstu2.1/src/main/java/org/hl7/fhir/dstu21/hapi/validation/HapiWorkerContext.java:214 | `compareTo` order is total |
| `StringOrder.StrLeTransitive` | hapi-fhir-structures-dstu2.1/src/main/java/org/hl7/fhir/dstu21/hapi/validation/HapiWorkerContext.java:214 | `compareTo` order is transitive |
| `StringOrder.StrLeAntisymmetric` | hapi-fhir-structures-dstu2.1/src/main/java/org/hl7/fhir/dstu21/hapi/validation/HapiWorkerContext.java:214 | strings ordered both ways are equal |
| `Worker.CallUnsupported` | hapi-fhir-structures-dstu2.1/src/main/java/org/hl7/fhir/dstu21/hapi/validation/HapiWorkerContext.java:64-97 | each stub capability throws UnsupportedOperationException for every argument and never returns a value: narrative generator, parsers, hasResource, newValidator, validateCode against a ConceptSetComponent (117-120), findMapsForSource and expandVS(ValueSet, boolean) (178-186), getAbbreviation (218-221) |
| `Worker.HapiWorkerContext.constructor` | hapi-fhir-structures-dstu2.1/src/main/java/org/hl7/fhir/dstu21/hapi/validation/HapiWorkerContext.java:36-39 | the backend (possibly null) is fixed at construction |
| `Worker.HapiWorkerContext.FetchCodeSystem` | hapi-fhir-structures-dstu2.1/src/main/java/org/hl7/fhir/dstu21/hapi/validation/HapiWorkerContext.java:46-53 | null without a backend; otherwise the backend's answer unchanged |
| `Worker.HapiWorkerContext.FetchResource` | hapi-fhir-structures-dstu2.1/src/main/java/org/hl7/fhir/dstu21/hapi/validation/HapiWorkerContext.java:55-62 | null without a backend; otherwise the backend's answer unchanged |
| `Worker.HapiWorkerContext.SupportsSystem` | hapi-fhir-structures-dstu2.1/src/main/java/org/hl7/fhir/dstu21/hapi/validation/HapiWorkerContext.java:99-106 | false without a backend; otherwise the backend's answer |
| `Worker.HapiWorkerContext.ValidateCodeWithBackend` | hapi-fhir-structures-dstu2.1/src/main/java/org/hl7/fhir/dstu21/hapi/validation/HapiWorkerContext.java:108-115 | requires a backend (the source dereferences it unchecked); null exactly when the backend's answer is null, else a copy of its severity, message and concept, OK exactly when the backend gave a concept |
| `Worker.HapiWorkerContext.ExpandInclude` | hapi-fhir-structures-dstu2.1/src/main/java/org/hl7/fhir/dstu21/hapi/validation/HapiWorkerContext.java:41-44 | requires a backend (dereferenced unchecked); the backend's expansion of the include, passed back unchanged, null included |
| `Worker.HapiWorkerContext.Expand` | hapi-fhir-structures-dstu2.1/src/main/java/org/hl7/fhir/dstu21/hapi/validation/HapiWorkerContext.java:163-176 | null exactly when the expander's outcome carries an error; otherwise that outcome unchanged |
| `Worker.HapiWorkerContext.GetResourceNames` | hapi-fhir-structures-dstu2.1/src/main/java/org/hl7/fhir/dstu21/hapi/validation/HapiWorkerContext.java:208-216 | the result is ascending and a permutation of the resource-type names |

## Left out

- hapi-fhir-jpaserver-base/src/main/java/ca/uhn/fhir/jpa/provider/JpaSystemProviderDstu2.java is not part of this model. It only copies DAO maps and delegates to the persistence layer.
- The value-set expansion algorithm (`ValueSetExpanderSimple`) is not part of this model. `Worker.HapiWorkerContext.Expand` takes the expander as an abstract function, and `getExpander` is that parameter.
- Worker.HapiWorkerContext.Expand: the expander's outcome is taken to be non-null. A null outcome makes the source throw `NullPointerException` when it reads the outcome's error, and the model has no such case.
- Worker.HapiWorkerContext.ValidateCodeWithBackend: requires a backend. With a null backend the source throws `NullPointerException` when it calls it, and the model does not represent that exception.
- Worker.HapiWorkerContext.ExpandInclude: requires a backend. With a null backend the source throws `NullPointerException` when it calls it, and the model does not represent that exception.
- Worker.HapiWorkerContext.Expand: an exception thrown by the expander, which the source rethrows as `InternalErrorException`, is not modelled. The expander is taken to be total.
- `FhirContext` (`myCtx`) is not modelled, because it only passes through to the backend. The backend's internals are not modelled either: `IValidationSupport` is a record of functions that the model treats as an oracle.
- `ResourceType.values()` is not part of this model. Worker.HapiWorkerContext.GetResourceNames takes the enum constants' names, in declaration order, as a parameter.
- Worker.HapiWorkerContext.GetResourceNames: `Collections.sort` sorts the `ArrayList` in place with a library algorithm. The model states only the result, computed by an insertion sort on a sequence. `StringOrder.SortedPermutationIsUnique` shows that any correct sort gives the same list.
- StringOrder.StrLe compares Dafny characters (Unicode scalar values), whereas `String.compareTo` compares UTF-16 code units. The two orders differ only for characters outside the Basic Multilingual Plane.
- Worker.CallUnsupported models the unsupported stubs as one function over an enumeration of the stub capabilities. The stubs' own return types (parsers, narrative generators, validators, concept maps) are not modelled.
- `ValidationResult` and `CodeValidationResult` carry only severity, message and concept definition. Any other fields of those classes are not modelled.
- Concurrency is not modelled: every operation is a read-only query.

/**
 The recursive concept-tree search `validateCodeSystem`: a depth-first,
 pre-order walk of one concept and its descendants, matching the code by
 null-safe exact string equality.

 Its reference definition is the pre-order listing of the tree (`PreOrder`)
 and the first node of that listing that carries the code (`FirstWithCode`);
 `SearchIsFirstInPreOrder` connects the two.
 */
module ConceptSearch {
  import opened FhirModel

  /** validateCodeSystem(theCode, theConcept): the node itself when its code
      matches, otherwise the first OK result among its children's subtrees,
      otherwise null (`None`). */
  function ValidateCodeSystem(code: JString, c: Concept): (r: Option<ValidationResult>)
    ensures r.Some? ==> IsOk(r.value) && r.value.definition.value.code == code
    ensures r.Some? ==> r.value.severity.None? && r.value.message.None?
    decreases c
  {
    if code == c.code then Some(OkResult(c))
    else SearchConcepts(code, c.children)
  }

  /** The loop `for (next : concepts) { retVal = validateCodeSystem(code, next);
      if (retVal != null && retVal.isOk()) return retVal; }`, with null when
      it runs out. The same loop is the inline pass of validateCode. */
  function SearchConcepts(code: JString, cs: seq<Concept>): (r: Option<ValidationResult>)
    ensures r.Some? ==> IsOk(r.value) && r.value.definition.value.code == code
    ensures r.Some? ==> r.value.severity.None? && r.value.message.None?
    decreases cs
  {
    if cs == [] then None
    else
      var retVal := ValidateCodeSystem(code, cs[0]);
      if retVal.Some? && IsOk(retVal.value) then retVal
      else SearchConcepts(code, cs[1..])
  }

  /** The nodes of a concept tree in pre-order: the node, then each child's
      subtree in order. */
  function PreOrder(c: Concept): (s: seq<Concept>)
    ensures |s| > 0 && s[0] == c
    decreases c
  {
    [c] + PreOrderForest(c.children)
  }

  /** The pre-order listing of a forest: each tree's listing, in order. */
  function PreOrderForest(cs: seq<Concept>): seq<Concept>
    decreases cs
  {
    if cs == [] then [] else PreOrder(cs[0]) + PreOrderForest(cs[1..])
  }

  /** The index of the first concept in `s` whose code equals `code`. */
  function FirstIndexWithCode(s: seq<Concept>, code: JString): (r: Option<nat>)
    ensures r.Some? ==> r.value < |s| && s[r.value].code == code
    ensures r.Some? ==> forall j :: 0 <= j < r.value ==> s[j].code != code
    ensures r.None? <==> forall j :: 0 <= j < |s| ==> s[j].code != code
  {
    if s == [] then None
    else if s[0].code == code then Some(0)
    else match FirstIndexWithCode(s[1..], code)
      case None => None
      case Some(k) => Some(k + 1)
  }

  /** The first concept in `s` whose code equals `code`, if any. */
  function FirstWithCode(s: seq<Concept>, code: JString): (r: Option<Concept>)
    ensures r.Some? ==> r.value in s && r.value.code == code
    ensures r.None? <==> forall j :: 0 <= j < |s| ==> s[j].code != code
  {
    match FirstIndexWithCode(s, code)
    case None => None
    case Some(k) => Some(s[k])
  }

  /** The validation result that a search hit (or miss) turns into. */
  function AsResult(found: Option<Concept>): (r: Option<ValidationResult>)
    ensures r.Some? <==> found.Some?
    ensures found.Some? ==> r.value == OkResult(found.value)
  {
    match found
    case None => None
    case Some(c) => Some(OkResult(c))
  }

  /** Searching a concatenation finds the hit in the first part when there is
      one, and otherwise searches the second part. */
  lemma {:induction false} FirstWithCodeAppend(a: seq<Concept>, b: seq<Concept>, code: JString)
    ensures FirstWithCode(a + b, code)
         == if FirstWithCode(a, code).Some? then FirstWithCode(a, code) else FirstWithCode(b, code)
  {
    if a == [] {
      assert a + b == b;
    } else {
      assert (a + b)[0] == a[0];
      assert (a + b)[1..] == a[1..] + b;
      if a[0].code != code {
        FirstWithCodeAppend(a[1..], b, code);
        FirstIndexShift(a, code);
        FirstIndexShift(a + b, code);
      }
    }
  }

  /** Skipping a non-matching head: the first hit of `s` is the first hit of `s[1..]`. */
  lemma FirstIndexShift(s: seq<Concept>, code: JString)
    requires |s| > 0 && s[0].code != code
    ensures FirstWithCode(s, code) == FirstWithCode(s[1..], code)
  {
  }

  /** validateCodeSystem returns OK carrying exactly the first node, in
      pre-order, whose code equals the query, and null when no node of the
      subtree has that code. */
  lemma {:induction false} SearchIsFirstInPreOrder(code: JString, c: Concept)
    ensures ValidateCodeSystem(code, c) == AsResult(FirstWithCode(PreOrder(c), code))
    decreases c
  {
    if code != c.code {
      SearchConceptsIsFirstInPreOrder(code, c.children);
      FirstWithCodeAppend([c], PreOrderForest(c.children), code);
      FirstIndexShift(PreOrder(c), code);
    }
  }

  /** The child loop returns the first pre-order hit of the whole forest. */
  lemma {:induction false} SearchConceptsIsFirstInPreOrder(code: JString, cs: seq<Concept>)
    ensures SearchConcepts(code, cs) == AsResult(FirstWithCode(PreOrderForest(cs), code))
    decreases cs
  {
    if cs != [] {
      SearchIsFirstInPreOrder(code, cs[0]);
      SearchConceptsIsFirstInPreOrder(code, cs[1..]);
      FirstWithCodeAppend(PreOrder(cs[0]), PreOrderForest(cs[1..]), code);
    }
  }

  /** A node anywhere in the tree, at any depth, with the queried code makes
      the search succeed, and the node it returns is a node of the tree
      (not a copy) carrying that very code. */
  lemma FoundAtAnyDepth(code: JString, c: Concept, n: Concept)
    requires n in PreOrder(c) && n.code == code
    ensures ValidateCodeSystem(code, c).Some?
    ensures ValidateCodeSystem(code, c).value.definition.value in PreOrder(c)
  {
    SearchIsFirstInPreOrder(code, c);
  }

  /** The search answers null, never an error, exactly when no node of the
      subtree has the queried code. */
  lemma AbsentExactlyWhenNoNodeHasCode(code: JString, c: Concept)
    ensures ValidateCodeSystem(code, c).None?
        <==> forall j :: 0 <= j < |PreOrder(c)| ==> PreOrder(c)[j].code != code
  {
    SearchIsFirstInPreOrder(code, c);
  }
}

/** DelegasmProcessor: for every class annotated with `@Delegasm`, read the
    requested delegate types from the annotation, match them against the
    interfaces the class implements, name one field per match, and hand the
    result to the file generator, which describes the abstract base class
    `Delegasm_<SimpleName>`. */
module DelegasmProcessor {
  import opened Wrappers
  import opened NullUtils
  import opened Pairs
  import opened LangModel
  import opened JavaStrings
  import FileGenUtils

  /** The canonical name of the annotation the processor looks for. */
  const DelegasmAnnotation := "gg.rohan.delegasm.Delegasm"

  /** `s` with only the entries `p` accepts, in order (a stream filter). */
  function Filter<T(!new)>(s: seq<T>, p: T -> bool): (r: seq<T>)
    ensures |r| <= |s|
    ensures forall x :: x in r <==> x in s && p(x)
  {
    if |s| == 0 then [] else (if p(s[0]) then [s[0]] else []) + Filter(s[1..], p)
  }

  /** Filtering distributes over concatenation: the order of `s` is kept. */
  lemma {:induction false} FilterAppend<T(!new)>(a: seq<T>, b: seq<T>, p: T -> bool)
    ensures Filter(a + b, p) == Filter(a, p) + Filter(b, p)
  {
    if |a| > 0 {
      assert (a + b)[1..] == a[1..] + b;
      FilterAppend(a[1..], b, p);
    } else {
      assert a + b == b;
    }
  }

  /** Two accepted entries at different positions leave at least two. */
  lemma {:induction false} FilterKeepsTwo<T(!new)>(s: seq<T>, p: T -> bool, i: nat, j: nat)
    requires i < j < |s| && p(s[i]) && p(s[j])
    ensures |Filter(s, p)| >= 2
  {
    if i > 0 {
      FilterKeepsTwo(s[1..], p, i - 1, j - 1);
    } else {
      assert s[j] in s[1..];
    }
  }

  // ---------------------------------------------------------------------
  // Finding the annotated classes and their request

  /** `getAnnotatedClasses`: of the annotated elements, the classes; an
      interface, enum, record or annotation type is passed over. */
  function AnnotatedClasses(annotated: set<TypeElement>): (classes: set<TypeElement>)
    ensures classes <= annotated
    ensures forall e :: e in annotated && e.kind != Class ==> e !in classes
    ensures forall e :: e in annotated && e.kind == Class ==> e in classes
  {
    set e | e in annotated && e.kind == Class
  }

  /** `findDelegasmAnnotation`: the first mirror of the `@Delegasm` type. */
  function FindDelegasmAnnotation(mirrors: seq<AnnotationMirror>): (r: Option<AnnotationMirror>)
    ensures r.None? <==> forall k :: 0 <= k < |mirrors| ==> mirrors[k].annotationType != DelegasmAnnotation
    ensures r.Some? ==>
      (exists k :: 0 <= k < |mirrors| && mirrors[k] == r.value
        && r.value.annotationType == DelegasmAnnotation
        && forall j :: 0 <= j < k ==> mirrors[j].annotationType != DelegasmAnnotation)
  {
    if |mirrors| == 0 then None
    else if mirrors[0].annotationType == DelegasmAnnotation then Some(mirrors[0])
    else
      var r := FindDelegasmAnnotation(mirrors[1..]);
      assert forall k :: 1 <= k < |mirrors| ==> mirrors[k] == mirrors[1..][k - 1];
      if r.Some? then
        var k :| 0 <= k < |mirrors[1..]| && mirrors[1..][k] == r.value
          && forall j :: 0 <= j < k ==> mirrors[1..][j].annotationType != DelegasmAnnotation;
        assert mirrors[k + 1] == r.value;
        r
      else r
  }

  /** The value of element `name` of an annotation, or null when the
      annotation does not give it explicitly. */
  function Lookup(values: map<string, AnnotationValue>, name: string): Option<AnnotationValue> {
    if name in values then Some(values[name]) else None
  }

  /** `extractSingleElement`: a class literal gives its element (null for
      `void.class`, and null from `asElement` for a primitive); any other
      kind of value falls to the visitor's default, null. */
  function ExtractSingleElement(v: AnnotationValue): (e: ElementRef)
    ensures e.Some? <==> v.TypeValue? && v.mirror.DeclaredType?
    ensures e.Some? ==> e.value == v.mirror.element
  {
    match v
    case TypeValue(t) => if t.VoidType? then None else AsElement(t)
    case _ => None
  }

  /** The visitor of `extractMultiElements`: a class literal gives a
      singleton list (null for `void.class`), an array the concatenation of
      its entries' lists, anything else null. An entry of an array whose own
      list is null makes `.stream()` throw. */
  function VisitMulti(v: AnnotationValue): (r: Result<Option<seq<ElementRef>>>)
    ensures r.Err? ==> r.error == NullInMulti
    decreases v, 1
  {
    match v
    case TypeValue(t) => Ok(if t.VoidType? then None else Some([AsElement(t)]))
    case ArrayValue(vs) =>
      (match VisitArray(vs)
       case Err(e) => Err(e)
       case Ok(es) => Ok(Some(es)))
    case OtherValue(_) => Ok(None)
  }

  /** `visitArray`: the entries' lists, flattened in array order. */
  function VisitArray(vs: seq<AnnotationValue>): (r: Result<seq<ElementRef>>)
    ensures r.Err? ==> r.error == NullInMulti
    decreases vs, 0
  {
    if |vs| == 0 then Ok([])
    else
      match VisitMulti(vs[0])
      case Err(e) => Err(e)
      case Ok(None) => Err(NullInMulti)
      case Ok(Some(first)) =>
        match VisitArray(vs[1..])
        case Err(e) => Err(e)
        case Ok(rest) => Ok(first + rest)
  }

  /** The request `extractDelegationElements` computes from the annotation's
      values. */
  function DelegationRequest(values: map<string, AnnotationValue>): Result<seq<ElementRef>> {
    var valueField, multiField := Lookup(values, "value"), Lookup(values, "multi");
    if !Xor(valueField, multiField) then Err(ValueMultiNotExclusive)
    else
      var single := if valueField.Some? && ExtractSingleElement(valueField.value).Some?
                    then [ExtractSingleElement(valueField.value)] else [];
      if multiField.None? then Ok(single)
      else
        match VisitMulti(multiField.value)
        case Err(e) => Err(e)
        case Ok(None) => Ok(single)
        case Ok(Some(es)) => Ok(single + es)
  }

  /** `extractDelegationElements`: the request, collected into a list. */
  method ExtractDelegationElements(values: map<string, AnnotationValue>) returns (r: Result<seq<ElementRef>>)
    ensures r == DelegationRequest(values)
  {
    var valueField := Lookup(values, "value");
    var multiField := Lookup(values, "multi");
    if !Xor(valueField, multiField) {
      return Err(ValueMultiNotExclusive);
    }
    var elements: seq<ElementRef> := [];
    if valueField.Some? {
      var element := ExtractSingleElement(valueField.value);
      if element.Some? {
        elements := elements + [element];
      }
    }
    assert elements == (if valueField.Some? && ExtractSingleElement(valueField.value).Some?
                        then [ExtractSingleElement(valueField.value)] else []);
    if multiField.Some? {
      var multiElements := VisitMulti(multiField.value);
      if multiElements.Err? {
        return Err(multiElements.error);
      }
      if multiElements.value.Some? {
        elements := elements + multiElements.value.value;
      }
    }
    return Ok(elements);
  }

  /** Extraction fails with the exclusive-or error exactly when both or
      neither of `value` and `multi` are given. */
  lemma RequestNeedsExactlyOne(values: map<string, AnnotationValue>)
    ensures DelegationRequest(values) == Err(ValueMultiNotExclusive)
        <==> (("value" in values) == ("multi" in values))
  {
    assert Lookup(values, "value").Some? <==> "value" in values;
    assert Lookup(values, "multi").Some? <==> "multi" in values;
  }

  /** A single `value` class literal gives one element when it is a declared
      type and none when it is `void.class` (or a primitive). */
  lemma SingleValueRequest(values: map<string, AnnotationValue>, t: TypeMirror)
    requires "value" in values && "multi" !in values && values["value"] == TypeValue(t)
    ensures DelegationRequest(values) == Ok(if t.DeclaredType? then [Some(t.element)] else [])
  {
    assert Lookup(values, "value") == Some(TypeValue(t));
    assert Lookup(values, "multi") == None;
    assert DelegationRequest(values).value == (if t.DeclaredType? then [Some(t.element)] else []);
  }

  /** A single class literal given as `multi` gives no element for
      `void.class` and exactly one (possibly null) otherwise. */
  lemma SingleMultiRequest(values: map<string, AnnotationValue>, t: TypeMirror)
    requires "multi" in values && "value" !in values && values["multi"] == TypeValue(t)
    ensures DelegationRequest(values) == Ok(if t.VoidType? then [] else [AsElement(t)])
  {
    assert Lookup(values, "multi") == Some(TypeValue(t));
    assert Lookup(values, "value") == None;
    assert DelegationRequest(values).value == (if t.VoidType? then [] else [AsElement(t)]);
  }

  /** An array of non-void class literals visits to their elements, in array
      order. */
  lemma {:induction false} VisitArrayOfLiterals(vs: seq<AnnotationValue>)
    requires forall k :: 0 <= k < |vs| ==> vs[k].TypeValue? && !vs[k].mirror.VoidType?
    ensures VisitArray(vs).Ok? && |VisitArray(vs).value| == |vs|
    ensures forall k :: 0 <= k < |vs| ==> VisitArray(vs).value[k] == AsElement(vs[k].mirror)
  {
    if |vs| > 0 {
      VisitArrayOfLiterals(vs[1..]);
      assert VisitMulti(vs[0]) == Ok(Some([AsElement(vs[0].mirror)]));
      var rest := VisitArray(vs[1..]).value;
      assert VisitArray(vs) == Ok([AsElement(vs[0].mirror)] + rest);
      forall k | 1 <= k < |vs| ensures VisitArray(vs).value[k] == AsElement(vs[k].mirror) {
        assert vs[1..][k - 1] == vs[k];
      }
    }
  }

  /** A `multi` array of non-void class literals requests their elements,
      flattened in array order. */
  lemma MultiArrayRequest(values: map<string, AnnotationValue>, vs: seq<AnnotationValue>)
    requires "multi" in values && "value" !in values && values["multi"] == ArrayValue(vs)
    requires forall k :: 0 <= k < |vs| ==> vs[k].TypeValue? && !vs[k].mirror.VoidType?
    ensures DelegationRequest(values).Ok? && |DelegationRequest(values).value| == |vs|
    ensures forall k :: 0 <= k < |vs| ==> DelegationRequest(values).value[k] == AsElement(vs[k].mirror)
  {
    VisitArrayOfLiterals(vs);
    var es := VisitArray(vs).value;
    assert VisitMulti(ArrayValue(vs)) == Ok(Some(es));
    assert Lookup(values, "multi") == Some(ArrayValue(vs));
    assert Lookup(values, "value") == None;
    assert DelegationRequest(values) == Ok([] + es);
    assert [] + es == es;
  }

  /** A `void.class` inside a `multi` array is not skipped: visiting it gives
      null, on which `visitArray` throws. */
  lemma {:induction false} VoidInsideArrayThrows(vs: seq<AnnotationValue>, k: nat)
    requires k < |vs| && vs[k] == TypeValue(VoidType)
    ensures VisitArray(vs) == Err(NullInMulti)
  {
    if k > 0 && VisitMulti(vs[0]).Ok? && VisitMulti(vs[0]).value.Some? {
      VoidInsideArrayThrows(vs[1..], k - 1);
    }
  }

  // ---------------------------------------------------------------------
  // Matching the request against the implemented interfaces

  /** The mirrors of kind DECLARED, in order. */
  function DeclaredOnly(ts: seq<TypeMirror>): (ds: seq<Declared>)
    ensures forall t :: t in ds <==> t in ts && t.DeclaredType?
  {
    if |ts| == 0 then []
    else if ts[0].DeclaredType? then
      var d: Declared := ts[0];
      [d] + DeclaredOnly(ts[1..])
    else DeclaredOnly(ts[1..])
  }

  /** The candidate interfaces: each directly implemented interface, followed
      by its direct supertypes of kind DECLARED, in implements-clause order. */
  function Candidates(host: Host, interfaces: seq<Declared>): seq<Declared> {
    if |interfaces| == 0 then []
    else [interfaces[0]] + DeclaredOnly(host.directSupertypes(interfaces[0])) + Candidates(host, interfaces[1..])
  }

  /** Concatenating implements clauses concatenates their candidates. */
  lemma {:induction false} CandidatesAppend(host: Host, a: seq<Declared>, b: seq<Declared>)
    ensures Candidates(host, a + b) == Candidates(host, a) + Candidates(host, b)
  {
    if |a| > 0 {
      assert (a + b)[1..] == a[1..] + b;
      CandidatesAppend(host, a[1..], b);
    } else {
      assert a + b == b;
    }
  }

  /** A candidate is a direct interface or a declared direct supertype of one. */
  lemma {:induction false} CandidateMembership(host: Host, interfaces: seq<Declared>, t: Declared)
    ensures t in Candidates(host, interfaces)
        <==> exists k :: 0 <= k < |interfaces| &&
               (t == interfaces[k] || t in host.directSupertypes(interfaces[k]))
  {
    if |interfaces| > 0 {
      CandidateMembership(host, interfaces[1..], t);
      assert forall k :: 1 <= k < |interfaces| ==> interfaces[k] == interfaces[1..][k - 1];
      if exists k :: 0 <= k < |interfaces| && (t == interfaces[k] || t in host.directSupertypes(interfaces[k])) {
        var k :| 0 <= k < |interfaces| && (t == interfaces[k] || t in host.directSupertypes(interfaces[k]));
        if k > 0 {
          assert interfaces[1..][k - 1] == interfaces[k];
        }
      }
    }
  }

  /** Whether a candidate's element was requested. */
  function IsRequested(delegations: seq<ElementRef>): Declared -> bool {
    (t: Declared) => Some(t.element) in delegations
  }

  /** The stream of `validateAndExtractDelegationTypes`: the candidates whose
      element was requested, in implements-clause order. */
  function ResolvedTypes(host: Host, element: TypeElement, delegations: seq<ElementRef>): seq<Declared> {
    Filter(Candidates(host, element.interfaces), IsRequested(delegations))
  }

  /** A type is resolved exactly when it is a candidate and its element was
      requested; and the resolved list of an implements clause `a + b` is
      that of `a` followed by that of `b`, whatever the request order. */
  lemma ResolvedTypesCharacterized(host: Host, element: TypeElement, delegations: seq<ElementRef>,
                                   a: seq<Declared>, b: seq<Declared>, t: Declared)
    requires element.interfaces == a + b
    ensures t in ResolvedTypes(host, element, delegations)
        <==> Some(t.element) in delegations &&
             exists k :: 0 <= k < |element.interfaces| &&
               (t == element.interfaces[k] || t in host.directSupertypes(element.interfaces[k]))
    ensures ResolvedTypes(host, element, delegations)
         == Filter(Candidates(host, a), IsRequested(delegations))
          + Filter(Candidates(host, b), IsRequested(delegations))
  {
    CandidateMembership(host, element.interfaces, t);
    CandidatesAppend(host, a, b);
    FilterAppend(Candidates(host, a), Candidates(host, b), IsRequested(delegations));
  }

  /** The elements of a list of declared types. */
  function ElementsOf(types: seq<Declared>): (es: seq<ElementRef>)
    ensures |es| == |types|
    ensures forall k :: 0 <= k < |types| ==> es[k] == Some(types[k].element)
  {
    seq(|types|, k requires 0 <= k < |types| => Some(types[k].element))
  }

  /** `validateAndExtractDelegationTypes` as written: the resolved types are
      accepted when there are as many of them as requested elements. */
  function ValidateAsWritten(host: Host, data: Pair<TypeElement, seq<ElementRef>>)
    : (r: Result<Pair<TypeElement, seq<Declared>>>)
    ensures r.Ok? <==> |ResolvedTypes(host, data.first, data.second)| == |data.second|
    ensures r.Err? ==> r.error == DelegationMismatch
    ensures r.Ok? ==> r.value == Pairs.Of(data.first, ResolvedTypes(host, data.first, data.second))
  {
    var types := ResolvedTypes(host, GetFirst(data), GetSecond(data));
    if |types| != |GetSecond(data)| then Err(DelegationMismatch)
    else Ok(Pairs.Of(GetFirst(data), types))
  }

  /** As written, a single request that no candidate implements is rejected. */
  lemma AsWrittenRejectsUnimplemented(host: Host, element: TypeElement, a: ElementId)
    requires forall t :: t in Candidates(host, element.interfaces) ==> t.element != a
    ensures ValidateAsWritten(host, Pair(element, [Some(a)])).Err?
  {
    FilterNone(Candidates(host, element.interfaces), IsRequested([Some(a)]));
  }

  /** As written, a single request matched twice (directly and as a
      supertype of another direct interface) is rejected. */
  lemma AsWrittenRejectsDoubleMatch(host: Host, element: TypeElement, a: ElementId, i: nat, j: nat)
    requires var cs := Candidates(host, element.interfaces);
      i < j < |cs| && cs[i].element == a && cs[j].element == a
    ensures ValidateAsWritten(host, Pair(element, [Some(a)])).Err?
  {
    FilterKeepsTwo(Candidates(host, element.interfaces), IsRequested([Some(a)]), i, j);
  }

  /** As written, a type requested twice but matched only once is rejected. */
  lemma AsWrittenRejectsDoubleRequest(host: Host, element: TypeElement, a: ElementId, i: nat)
    requires var cs := Candidates(host, element.interfaces);
      i < |cs| && cs[i].element == a && forall j :: 0 <= j < |cs| && j != i ==> cs[j].element != a
    ensures ValidateAsWritten(host, Pair(element, [Some(a), Some(a)])).Err?
  {
    var cs := Candidates(host, element.interfaces);
    var types := ResolvedTypes(host, element, [Some(a), Some(a)]);
    if |types| >= 2 {
      assert types[0] in types && types[1] in types;
      assert types[0] == cs[i] && types[1] == cs[i];
      assert types == Filter(cs, IsRequested([Some(a), Some(a)]));
      OnlyOneSurvives(cs, IsRequested([Some(a), Some(a)]), i);
    }
  }

  /** When one position only is accepted, the filter keeps one entry. */
  lemma {:induction false} OnlyOneSurvives<T(!new)>(s: seq<T>, p: T -> bool, i: nat)
    requires i < |s| && forall j :: 0 <= j < |s| && j != i ==> !p(s[j])
    ensures |Filter(s, p)| <= 1
  {
    if i == 0 {
      FilterNone(s[1..], p);
    } else {
      OnlyOneSurvives(s[1..], p, i - 1);
    }
  }

  /** Nothing accepted, nothing kept. */
  lemma {:induction false} FilterNone<T(!new)>(s: seq<T>, p: T -> bool)
    requires forall j :: 0 <= j < |s| ==> !p(s[j])
    ensures Filter(s, p) == []
  {
    if |s| > 0 {
      FilterNone(s[1..], p);
    }
  }

  /** The resolution check: every requested element is matched exactly as
      many times as it is requested. Accepted requests are those the count
      check accepts and whose matches are the requested elements. */
  function ValidateDelegationTypesCorrected(host: Host, data: Pair<TypeElement, seq<ElementRef>>)
    : (r: Result<Pair<TypeElement, seq<Declared>>>)
    ensures r.Ok? <==> multiset(ElementsOf(ResolvedTypes(host, data.first, data.second))) == multiset(data.second)
    ensures r.Err? ==> r.error == DelegationMismatch
    ensures r.Ok? ==> r.value == Pairs.Of(data.first, ResolvedTypes(host, data.first, data.second))
  {
    var types := ResolvedTypes(host, GetFirst(data), GetSecond(data));
    if multiset(ElementsOf(types)) != multiset(GetSecond(data)) then Err(DelegationMismatch)
    else Ok(Pairs.Of(GetFirst(data), types))
  }

  /** Whatever the corrected check accepts, the count check accepts with the
      same result. */
  lemma ValidationRefinesCountCheck(host: Host, data: Pair<TypeElement, seq<ElementRef>>)
    requires ValidateDelegationTypesCorrected(host, data).Ok?
    ensures ValidateAsWritten(host, data) == ValidateDelegationTypesCorrected(host, data)
  {
    var types := ResolvedTypes(host, data.first, data.second);
    assert |multiset(ElementsOf(types))| == |ElementsOf(types)| == |types|;
    assert |multiset(data.second)| == |data.second|;
  }

  /** A requested element that no candidate implements is rejected, as is a
      null entry. */
  lemma ValidationRejectsUnimplemented(host: Host, data: Pair<TypeElement, seq<ElementRef>>, x: ElementRef)
    requires x in data.second
    requires forall t :: t in Candidates(host, data.first.interfaces) ==> Some(t.element) != x
    ensures ValidateDelegationTypesCorrected(host, data) == Err(DelegationMismatch)
  {
    var es := ElementsOf(ResolvedTypes(host, data.first, data.second));
    assert x !in es;
    assert multiset(es)[x] == 0 < multiset(data.second)[x];
  }

  /** The count check accepts a request naming an interface that is not
      implemented at all, as soon as another requested interface is matched
      twice: class implements A and B, B extends A, request {A, C}. */
  lemma AsWrittenAcceptsUnimplemented()
    ensures var a: Declared, b: Declared, c: ElementId := DeclaredType(1, []), DeclaredType(2, []), 3;
      var host := Host(t => if t == b then [a] else [], e => [], e => []);
      var element := TypeElement(10, Class, "p.X", "X", [a, b], []);
      var data := Pair(element, [Some(1), Some(c)]);
      && ValidateAsWritten(host, data) == Ok(Pair(element, [a, a]))
      && ValidateDelegationTypesCorrected(host, data) == Err(DelegationMismatch)
  {
    var a: Declared, b: Declared, c: ElementId := DeclaredType(1, []), DeclaredType(2, []), 3;
    var host := Host(t => if t == b then [a] else [], e => [], e => []);
    var element := TypeElement(10, Class, "p.X", "X", [a, b], []);
    var data := Pair(element, [Some(1), Some(c)]);
    var requested := IsRequested(data.second);
    assert host.directSupertypes(a) == [] && host.directSupertypes(b) == [a];
    assert DeclaredOnly([a]) == [a] by { assert [a][1..] == []; }
    assert Candidates(host, [b]) == [b, a] by { assert [b][1..] == []; }
    assert Candidates(host, [a, b]) == [a, b, a] by { assert [a, b][1..] == [b]; }
    assert requested(a) && !requested(b);
    assert Filter([a], requested) == [a] by { assert [a][1..] == []; }
    assert Filter([b, a], requested) == [a] by { assert [b, a][1..] == [a]; }
    assert Filter([a, b, a], requested) == [a, a] by { assert [a, b, a][1..] == [b, a]; }
    assert ResolvedTypes(host, element, data.second) == [a, a];
    assert multiset(ElementsOf([a, a]))[Some(c)] == 0;
  }

  /** The resolved list follows the implements clause, not the request:
      class implements A, B; request {B, A}; resolved [A, B]. */
  lemma ImplementsClauseOrderWins()
    ensures var a: Declared, b: Declared := DeclaredType(1, []), DeclaredType(2, []);
      var host := Host(t => [], e => [], e => []);
      var element := TypeElement(10, Class, "p.X", "X", [a, b], []);
      ValidateDelegationTypesCorrected(host, Pair(element, [Some(2), Some(1)])) == Ok(Pair(element, [a, b]))
  {
    var a: Declared, b: Declared := DeclaredType(1, []), DeclaredType(2, []);
    var host := Host(t => [], e => [], e => []);
    var element := TypeElement(10, Class, "p.X", "X", [a, b], []);
    var requested := IsRequested([Some(2), Some(1)]);
    assert Candidates(host, [b]) == [b] by { assert [b][1..] == []; }
    assert Candidates(host, [a, b]) == [a, b] by { assert [a, b][1..] == [b]; }
    assert requested(a) && requested(b);
    assert Filter([b], requested) == [b] by { assert [b][1..] == []; }
    assert Filter([a, b], requested) == [a, b] by { assert [a, b][1..] == [b]; }
    assert ResolvedTypes(host, element, [Some(2), Some(1)]) == [a, b];
    assert ElementsOf([a, b]) == [Some(1), Some(2)];
    assert multiset([Some(1), Some(2)]) == multiset([Some(2), Some(1)]);
  }

  // ---------------------------------------------------------------------
  // Naming

  /** The field holding the `i`-th resolved type: `"delegasmic" + i`. */
  function FieldName(i: nat): string {
    "delegasmic" + Decimal(i)
  }

  /** Field names of different positions differ, and are Java names. */
  lemma FieldNames(i: nat, j: nat)
    ensures i != j ==> FieldName(i) != FieldName(j)
    ensures FileGenUtils.IsJavaName(FieldName(i))
  {
    if i != j {
      DecimalInjective(i, j);
      assert FieldName(i)[10..] == Decimal(i);
      assert FieldName(j)[10..] == Decimal(j);
    }
  }

  /** The descriptors `generateDelegationClass` builds: each resolved type
      paired with the field name of its position. */
  function NamedTypes(types: seq<Declared>): seq<FileGenUtils.Descriptor> {
    seq(|types|, i requires 0 <= i < |types| => Pairs.Of(types[i], FieldName(i)))
  }

  /** The descriptors keep the resolved types in order and carry pairwise
      different Java names. */
  lemma NamedTypesDistinct(types: seq<Declared>)
    ensures var named := NamedTypes(types);
      && |named| == |types|
      && (forall i :: 0 <= i < |named| ==> GetFirst(named[i]) == types[i] && GetSecond(named[i]) == FieldName(i))
      && (forall i :: 0 <= i < |named| ==> FileGenUtils.IsJavaName(GetSecond(named[i])))
      && (forall i, j :: 0 <= i < j < |named| ==> GetSecond(named[i]) != GetSecond(named[j]))
  {
    forall i, j | 0 <= i < |types| && 0 <= j < |types| ensures i != j ==> FieldName(i) != FieldName(j) {
      FieldNames(i, j);
    }
  }

  /** The generated class's name. */
  function ClassName(simpleName: string): (name: string)
    ensures |name| == 9 + |simpleName|
    ensures name[..9] == "Delegasm_" && name[9..] == simpleName
  {
    "Delegasm_" + simpleName
  }

  /** The qualified name javac gives a top-level class of package `pkg`
      (the empty string for the unnamed package). */
  function QualifiedName(pkg: string, simpleName: string): string {
    if pkg == "" then simpleName else pkg + "." + simpleName
  }

  /** The package as written: `qualifiedName.replace("." + simpleName, "")`. */
  function PackageNameAsWritten(qualifiedName: string, simpleName: string): string {
    RemoveAll(qualifiedName, "." + simpleName)
  }

  /** When `"." + simpleName` occurs in the qualified name only at its end,
      the replacement gives back the package. */
  lemma PackageNameAsWrittenSoleOccurrence(pkg: string, simpleName: string)
    requires pkg != ""
    requires forall i :: 0 <= i < |pkg| ==> !OccursAt(pkg + ("." + simpleName), "." + simpleName, i)
    ensures PackageNameAsWritten(QualifiedName(pkg, simpleName), simpleName) == pkg
  {
    assert QualifiedName(pkg, simpleName) == pkg + ("." + simpleName);
    RemoveSoleTrailingOccurrence(pkg, "." + simpleName);
  }

  /** The replacement misplaces the class when `"." + simpleName` occurs
      elsewhere, or not at all: class `Foo` of the unnamed package gets
      package `Foo`, and class `A` of package `x.Ab` gets package `xb`. */
  lemma PackageNameAsWrittenMisplaces()
    ensures PackageNameAsWritten(QualifiedName("", "Foo"), "Foo") == "Foo"
    ensures PackageNameAsWritten(QualifiedName("x.Ab", "A"), "A") == "xb"
  {
    var t := ".A";
    assert QualifiedName("x.Ab", "A") == "x.Ab.A" by {
      assert "x.Ab" + "." + "A" == "x.Ab.A";
    }
    assert RemoveAll(".A", t) == "" by { assert ".A"[..2] == t; assert ".A"[2..] == ""; }
    assert RemoveAll("b.A", t) == "b" by {
      assert "b.A"[..2][0] != t[0]; assert "b.A"[1..] == ".A"; assert "b.A"[0] == 'b'; assert ['b'] + "" == "b";
    }
    assert RemoveAll(".Ab.A", t) == "b" by { assert ".Ab.A"[..2] == t; assert ".Ab.A"[2..] == "b.A"; }
    assert "x.Ab.A"[..2][0] != t[0];
    assert "x.Ab.A"[1..] == ".Ab.A";
  }

  /** The package: the qualified name without its trailing `"." + simpleName`
      (the empty string when the two names coincide). */
  function PackageNameCorrected(qualifiedName: string, simpleName: string): string {
    if qualifiedName == simpleName then ""
    else if |qualifiedName| > |simpleName| && qualifiedName[|qualifiedName| - |simpleName| - 1..] == "." + simpleName
    then qualifiedName[..|qualifiedName| - |simpleName| - 1]
    else qualifiedName
  }

  /** The package of a top-level class is recovered from its qualified name,
      for every package, the unnamed one included. */
  lemma PackageNameRecoversPackage(pkg: string, simpleName: string)
    ensures PackageNameCorrected(QualifiedName(pkg, simpleName), simpleName) == pkg
  {
    var q := QualifiedName(pkg, simpleName);
    if pkg != "" {
      assert q == pkg + ("." + simpleName);
      assert q[|q| - |simpleName| - 1..] == "." + simpleName;
      assert q[..|q| - |simpleName| - 1] == pkg;
    }
  }

  /** Wherever the replacement gives the right package, the corrected
      derivation gives the same one. */
  lemma PackageNameAgreesWithReplacement(pkg: string, simpleName: string)
    requires pkg != ""
    requires forall i :: 0 <= i < |pkg| ==> !OccursAt(pkg + ("." + simpleName), "." + simpleName, i)
    ensures PackageNameCorrected(QualifiedName(pkg, simpleName), simpleName)
         == PackageNameAsWritten(QualifiedName(pkg, simpleName), simpleName)
  {
    PackageNameRecoversPackage(pkg, simpleName);
    PackageNameAsWrittenSoleOccurrence(pkg, simpleName);
  }

  // ---------------------------------------------------------------------
  // Generation

  /** What `generateDelegationClass` produces for a resolved class when the
      generated class goes to package `packageName`. */
  function DelegationFileIn(host: Host, packageName: string, data: Pair<TypeElement, seq<Declared>>)
    : Result<FileGenUtils.JavaFile>
  {
    FileGenUtils.GeneratedJavaFile(host, packageName, ClassName(GetFirst(data).simpleName), NamedTypes(GetSecond(data)))
  }

  /** What `generateDelegationClass` produces, in the package its string
      replacement derives. */
  function DelegationFile(host: Host, data: Pair<TypeElement, seq<Declared>>): Result<FileGenUtils.JavaFile> {
    var element := GetFirst(data);
    DelegationFileIn(host, PackageNameAsWritten(element.qualifiedName, element.simpleName), data)
  }

  /** Positional names are distinct, so generation never meets a repeated
      map key, whatever the package. */
  lemma DelegationFileSucceeds(host: Host, packageName: string, data: Pair<TypeElement, seq<Declared>>)
    ensures DelegationFileIn(host, packageName, data).Ok?
  {
    NamedTypesDistinct(data.second);
    FileGenUtils.DistinctNamesDistinctDescriptors(host, NamedTypes(data.second));
  }

  /** `generateDelegationClass`: name the fields, then generate the file. */
  method GenerateDelegationClass(host: Host, data: Pair<TypeElement, seq<Declared>>)
    returns (r: Result<FileGenUtils.JavaFile>)
    ensures r == DelegationFile(host, data)
  {
    var element := GetFirst(data);
    var types := GetSecond(data);
    var namedTypes: seq<FileGenUtils.Descriptor> := [];
    var i := 0;
    while i < |types|
      invariant 0 <= i <= |types|
      invariant namedTypes == NamedTypes(types[..i])
    {
      namedTypes := namedTypes + [Pairs.Of(types[i], "delegasmic" + Decimal(i))];
      i := i + 1;
    }
    assert types[..i] == types;
    r := FileGenUtils.GenerateJavaFile(host, PackageNameAsWritten(element.qualifiedName, element.simpleName),
                                       ClassName(element.simpleName), namedTypes);
  }

  /** `extractAnnotationData`: the class paired with its request; a class
      without `@Delegasm` is reported by its simple name, and a malformed
      request by the reason `extractDelegationElements` gives. */
  function ExtractAnnotationData(element: TypeElement): (r: Result<Pair<TypeElement, seq<ElementRef>>>)
    ensures FindDelegasmAnnotation(element.annotationMirrors).None? ==> r == Err(AnnotationNotFound(element.simpleName))
    ensures FindDelegasmAnnotation(element.annotationMirrors).Some? ==>
      var request := DelegationRequest(FindDelegasmAnnotation(element.annotationMirrors).value.elementValues);
      && (r.Ok? <==> request.Ok?)
      && (r.Ok? ==> r.value == Pair(element, request.value))
      && (r.Err? ==> r.error in {ValueMultiNotExclusive, NullInMulti})
  {
    match FindDelegasmAnnotation(element.annotationMirrors)
    case None => Err(AnnotationNotFound(element.simpleName))
    case Some(mirror) =>
      match DelegationRequest(mirror.elementValues)
      case Err(e) => Err(e)
      case Ok(delegations) => Ok(Pairs.Of(element, delegations))
  }

  /** The whole treatment of one annotated class, as `process` chains it:
      it never fails on a repeated map key, and the file it produces holds
      `Delegasm_<SimpleName>` in the package the string replacement
      derives. */
  function Generate(host: Host, element: TypeElement): (r: Result<FileGenUtils.JavaFile>)
    ensures r.Err? ==> r.error != DuplicateKey
    ensures r.Ok? ==> r.value.packageName == PackageNameAsWritten(element.qualifiedName, element.simpleName)
    ensures r.Ok? ==> r.value.typeSpec.name == ClassName(element.simpleName)
  {
    var data :- ExtractAnnotationData(element);
    var resolved :- ValidateAsWritten(host, data);
    DelegationFileSucceeds(host, PackageNameAsWritten(element.qualifiedName, element.simpleName), resolved);
    DelegationFile(host, resolved)
  }

  /** A generated file has one field per requested element, named by
      position, each typed by a candidate interface whose element was
      requested; its class is `Delegasm_<SimpleName>` in the package the
      string replacement derives; and generation fails only on the
      annotation, passing its error on, or on the count check. */
  lemma GeneratedFileShape(host: Host, element: TypeElement)
    ensures Generate(host, element) != Err(DuplicateKey)
    ensures ExtractAnnotationData(element).Err? ==> Generate(host, element) == Err(ExtractAnnotationData(element).error)
    ensures Generate(host, element).Ok? <==>
      ExtractAnnotationData(element).Ok? && ValidateAsWritten(host, ExtractAnnotationData(element).value).Ok?
    ensures Generate(host, element).Ok? ==>
      var delegations := ExtractAnnotationData(element).value.second;
      var spec := Generate(host, element).value.typeSpec;
      && Generate(host, element).value.packageName == PackageNameAsWritten(element.qualifiedName, element.simpleName)
      && spec.name == "Delegasm_" + element.simpleName
      && spec.modifiers == {Abstract}
      && |spec.fields| == |spec.superinterfaces| == |delegations|
      && forall i :: 0 <= i < |spec.fields| ==>
           && spec.fields[i].name == FieldName(i)
           && spec.fields[i].fieldType in Candidates(host, element.interfaces)
           && Some(spec.fields[i].fieldType.element) in delegations
  {
    var data := ExtractAnnotationData(element);
    if data.Ok? {
      var validated := ValidateAsWritten(host, data.value);
      if validated.Ok? {
        var types := validated.value.second;
        DelegationFileSucceeds(host, PackageNameAsWritten(element.qualifiedName, element.simpleName), validated.value);
        assert Generate(host, element) == DelegationFile(host, validated.value);
        NamedTypesDistinct(types);
        var named := NamedTypes(types);
        var methodMap := FileGenUtils.CreateMethodMap(host, named).value;
        FileGenUtils.DescriptionHeader(host, ClassName(element.simpleName), named, methodMap);
      }
    }
  }

  /** The treatment of one class with the corrected resolution check and the
      corrected package derivation. */
  function GenerateCorrected(host: Host, element: TypeElement): (r: Result<FileGenUtils.JavaFile>)
    ensures r.Ok? ==> Generate(host, element).Ok?
    ensures r.Ok? ==> r.value.packageName == PackageNameCorrected(element.qualifiedName, element.simpleName)
  {
    var data :- ExtractAnnotationData(element);
    var resolved :- ValidateDelegationTypesCorrected(host, data);
    ValidationRefinesCountCheck(host, data);
    var packageName := PackageNameCorrected(element.qualifiedName, element.simpleName);
    DelegationFileSucceeds(host, packageName, resolved);
    DelegationFileIn(host, packageName, resolved)
  }

  /** Wherever the corrected pipeline succeeds and `"." + simpleName`
      occurs in the qualified name of a class of a named package only at its
      end, the pipeline as written produces the same file. */
  lemma CorrectedPipelineAgrees(host: Host, element: TypeElement, pkg: string)
    requires pkg != "" && element.qualifiedName == QualifiedName(pkg, element.simpleName)
    requires forall i :: 0 <= i < |pkg| ==>
      !OccursAt(pkg + ("." + element.simpleName), "." + element.simpleName, i)
    requires GenerateCorrected(host, element).Ok?
    ensures Generate(host, element) == GenerateCorrected(host, element)
  {
    var data := ExtractAnnotationData(element).value;
    ValidationRefinesCountCheck(host, data);
    PackageNameAgreesWithReplacement(pkg, element.simpleName);
  }

  /** A class resolved to a single delegate type gets one field
      `delegasmic0` of that type and a constructor taking it. */
  lemma SingleDelegateFile(host: Host, element: TypeElement, t: Declared)
    ensures var file := DelegationFile(host, Pairs.Of(element, [t]));
      && file.Ok?
      && file.value.packageName == PackageNameAsWritten(element.qualifiedName, element.simpleName)
      && file.value.typeSpec.name == ClassName(element.simpleName)
      && file.value.typeSpec.fields == [FileGenUtils.FieldSpec(t, "delegasmic0", {Private, Final})]
      && FileGenUtils.ConstructorSpec([FileGenUtils.ParameterSpec(t, "delegasmic0", {Final})],
                                      ["this.delegasmic0 = delegasmic0"]) in file.value.typeSpec.methods
  {
    var data := Pairs.Of(element, [t]);
    DelegationFileSucceeds(host, PackageNameAsWritten(element.qualifiedName, element.simpleName), data);
    assert FieldName(0) == "delegasmic0";
    var named := NamedTypes([t]);
    assert named == [Pairs.Of(t, "delegasmic0")];
    var methodMap := FileGenUtils.CreateMethodMap(host, named).value;
    FileGenUtils.ConstructorMatchesFields(host, ClassName(element.simpleName), named, methodMap);
    assert FileGenUtils.Assignment("delegasmic0") == "this.delegasmic0 = delegasmic0";
    assert FileGenUtils.Constructor(named)
        == FileGenUtils.ConstructorSpec([FileGenUtils.ParameterSpec(t, "delegasmic0", {Final})],
                                        ["this.delegasmic0 = delegasmic0"]);
  }

  /** A class implementing only `t` and annotated `@Delegasm(t)` resolves to
      `t` alone, provided no declared direct supertype of `t` has `t`'s
      element. */
  lemma SingleValueResolution(host: Host, element: TypeElement, t: Declared)
    requires element.interfaces == [t]
    requires element.annotationMirrors == [AnnotationMirror(DelegasmAnnotation, map["value" := TypeValue(t)])]
    requires forall s :: s in host.directSupertypes(t) && s.DeclaredType? ==> s.element != t.element
    ensures Generate(host, element) == DelegationFile(host, Pairs.Of(element, [t]))
  {
    var values := map["value" := TypeValue(t)];
    SingleValueRequest(values, t);
    assert ExtractAnnotationData(element) == Ok(Pairs.Of(element, [Some(t.element)]));
    var requested := IsRequested([Some(t.element)]);
    var supers := DeclaredOnly(host.directSupertypes(t));
    FilterNone(supers, requested);
    assert Candidates(host, [t]) == [t] + supers by { assert [t][1..] == []; }
    assert Filter([t] + supers, requested) == [t] + Filter(supers, requested) by {
      assert ([t] + supers)[1..] == supers;
    }
    assert requested(t);
    assert ResolvedTypes(host, element, [Some(t.element)]) == [t];
    assert ValidateAsWritten(host, Pairs.Of(element, [Some(t.element)])) == Ok(Pairs.Of(element, [t]));
  }

  /** When the first letter of the simple name is not a dot and does not
      occur in the package, `"." + simpleName` occurs in the qualified name
      only at its end. */
  lemma OnlyTrailingOccurrence(pkg: string, simpleName: string)
    requires |simpleName| > 0 && simpleName[0] != '.' && simpleName[0] !in pkg
    ensures forall i :: 0 <= i < |pkg| ==> !OccursAt(pkg + ("." + simpleName), "." + simpleName, i)
  {
    var s, target := pkg + ("." + simpleName), "." + simpleName;
    forall i | 0 <= i < |pkg| ensures !OccursAt(s, target, i) {
      assert s[i + 1] != target[1] by {
        if i + 1 < |pkg| {
          assert s[i + 1] == pkg[i + 1];
        } else {
          assert s[i + 1] == '.';
        }
      }
    }
  }

  /** The example class `PersonalString` of package
      `io.gitub.av3rg.delegasm.examples`, annotated
      `@Delegasm(CharSequence.class)` and implementing `CharSequence` (none of
      whose supertypes is `CharSequence` itself), gets
      `Delegasm_PersonalString` in the same package, with one field
      `delegasmic0` and a one-argument constructor. */
  lemma PersonalStringScenario(host: Host, element: TypeElement, pkg: string, charSequence: Declared)
    requires pkg == "io.gitub.av3rg.delegasm.examples"
    requires element.kind == Class && element.simpleName == "PersonalString"
    requires element.qualifiedName == QualifiedName(pkg, "PersonalString")
    requires element.interfaces == [charSequence]
    requires element.annotationMirrors == [AnnotationMirror(DelegasmAnnotation, map["value" := TypeValue(charSequence)])]
    requires forall s :: s in host.directSupertypes(charSequence) && s.DeclaredType? ==> s.element != charSequence.element
    ensures var file := Generate(host, element);
      && file.Ok?
      && file.value.packageName == pkg
      && file.value.typeSpec.name == "Delegasm_PersonalString"
      && file.value.typeSpec.fields == [FileGenUtils.FieldSpec(charSequence, "delegasmic0", {Private, Final})]
      && FileGenUtils.ConstructorSpec([FileGenUtils.ParameterSpec(charSequence, "delegasmic0", {Final})],
                                      ["this.delegasmic0 = delegasmic0"]) in file.value.typeSpec.methods
  {
    SingleValueResolution(host, element, charSequence);
    SingleDelegateFile(host, element, charSequence);
    ExamplesPackageRecovered(pkg);
    assert ClassName("PersonalString") == "Delegasm_PersonalString";
  }

  /** The string replacement gives the example class its own package. */
  lemma ExamplesPackageRecovered(pkg: string)
    requires pkg == "io.gitub.av3rg.delegasm.examples"
    ensures PackageNameAsWritten(QualifiedName(pkg, "PersonalString"), "PersonalString") == pkg
  {
    assert 'P' !in pkg;
    OnlyTrailingOccurrence(pkg, "PersonalString");
    PackageNameAsWrittenSoleOccurrence(pkg, "PersonalString");
  }

  // ---------------------------------------------------------------------
  // The processor

  /** The chain `process` runs on one annotated class: extract the
      annotation data, check the resolution, generate the file; the first
      failure is the result. */
  method ProcessClass(host: Host, e: TypeElement) returns (r: Result<FileGenUtils.JavaFile>)
    ensures r == Generate(host, e)
  {
    var mirror := FindDelegasmAnnotation(e.annotationMirrors);
    if mirror.None? {
      return Err(AnnotationNotFound(e.simpleName));
    }
    var delegations := ExtractDelegationElements(mirror.value.elementValues);
    if delegations.Err? {
      return Err(delegations.error);
    }
    assert ExtractAnnotationData(e) == Ok(Pairs.Of(e, delegations.value));
    var validated := ValidateAsWritten(host, Pairs.Of(e, delegations.value));
    if validated.Err? {
      return Err(validated.error);
    }
    r := GenerateDelegationClass(host, validated.value);
  }

  /** The annotation processor; the environment `init` stores is the
      compiler's query surface. */
  class Processor {
    var processingEnv: Option<Host>

    constructor ()
      ensures processingEnv.None?
    {
      processingEnv := None;
    }

    /** `init(env)`. */
    method Init(env: Option<Host>)
      modifies this
      ensures processingEnv == env
    {
      processingEnv := env;
    }

    /** `process(annotations, roundEnv)`: every annotated class, in the
        unspecified order of a hash set, is generated in turn; the first
        exception ends the round, after the files already written. Returns
        the written files, the exception if any, and whether the annotations
        were claimed. */
    method Process(annotated: set<TypeElement>)
      returns (written: seq<FileGenUtils.JavaFile>, failure: Option<Exception>, claimed: bool)
      ensures processingEnv.None? ==> written == [] && failure == Some(ProcessingEnvironmentNull)
      ensures processingEnv.Some? ==>
        (failure.None? <==> forall e :: e in AnnotatedClasses(annotated) ==> Generate(processingEnv.value, e).Ok?)
      ensures processingEnv.Some? && failure.Some? ==>
        exists e :: e in AnnotatedClasses(annotated) && Generate(processingEnv.value, e) == Err(failure.value)
      ensures forall f :: f in written ==>
        processingEnv.Some? && exists e :: e in AnnotatedClasses(annotated) && Generate(processingEnv.value, e) == Ok(f)
      ensures failure.None? ==>
        (&& processingEnv.Some?
         && |written| == |AnnotatedClasses(annotated)|
         && forall e :: e in AnnotatedClasses(annotated) ==>
              Generate(processingEnv.value, e).Ok? && Generate(processingEnv.value, e).value in written)
      ensures !claimed
    {
      claimed := false;
      written := [];
      if processingEnv.None? {
        failure := Some(ProcessingEnvironmentNull);
        return;
      }
      var host := processingEnv.value;
      var classes := AnnotatedClasses(annotated);
      var remaining := classes;
      while remaining != {}
        invariant remaining <= classes
        invariant |written| == |classes - remaining|
        invariant forall e :: e in classes - remaining ==> Generate(host, e).Ok? && Generate(host, e).value in written
        invariant forall f :: f in written ==> exists e :: e in classes - remaining && Generate(host, e) == Ok(f)
        decreases remaining
      {
        var e :| e in remaining;
        var file := ProcessClass(host, e);
        if file.Err? {
          failure := Some(file.error);
          return;
        }
        written := written + [file.value];
        assert classes - (remaining - {e}) == (classes - remaining) + {e};
        remaining := remaining - {e};
      }
      failure := None;
    }
  }
}

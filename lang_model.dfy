/** The part of javax.lang.model the processor looks at: type mirrors,
    elements, annotation mirrors and values, and the `Types`/`Elements`
    queries, the latter as an oracle record of functions supplied by the
    compiler (the `Host`). Nothing of Java's inheritance rules is
    reimplemented here: the oracle answers whatever the compiler answers. */
module LangModel {
  import opened Wrappers

  /** Identity of a program element (a class, an interface, a method, ...). */
  type ElementId = nat

  /** A type mirror, by its kind. `OtherType` covers every other kind. Of
      the mirrors a class literal can denote, the only ones this model hands
      to `Types.asElement`, those are primitives and arrays, which have no
      element; type variables, which do, occur here only inside signatures. */
  datatype TypeMirror =
    | VoidType
    | DeclaredType(element: ElementId, typeArguments: seq<string>)
    | OtherType(description: string)

  /** A mirror of kind DECLARED. */
  type Declared = t: TypeMirror | t.DeclaredType? witness DeclaredType(0, [])

  /** A possibly-null `Element` reference; `None` is null. */
  type ElementRef = Option<ElementId>

  /** `Types.asElement(t)` on the mirrors a class literal can denote: the
      element of a declared type, null for a primitive or an array. */
  function AsElement(t: TypeMirror): (e: ElementRef)
    ensures e.Some? <==> t.DeclaredType?
    ensures t.DeclaredType? ==> e.value == t.element
  {
    if t.DeclaredType? then Some(t.element) else None
  }

  /** `ElementKind`, as far as the processor distinguishes it. */
  datatype ElementKind = Class | Interface | Enum | AnnotationType | Record | OtherKind

  /** Member modifiers. */
  datatype Modifier = Public | Protected | Private | Abstract | Default | Static | Final

  /** What `MethodSpec.overriding` copies from a method: name, parameter
      names, return type, and everything else of the signature (type
      parameters, parameter types, thrown types) as opaque text. */
  datatype Signature = Signature(
    name: string,
    parameterNames: seq<string>,
    returnType: TypeMirror,
    rest: string)

  /** An element of `Elements.getAllMembers`: an executable element (method,
      constructor, initializer) or anything else (field, nested type). */
  datatype Member =
    | Executable(owner: ElementId, signature: Signature, modifiers: set<Modifier>)
    | OtherMember(owner: ElementId, name: string)

  /** An annotation value: a class literal, an array of values, or any
      other constant (string, number, enum, nested annotation). */
  datatype AnnotationValue =
    | TypeValue(mirror: TypeMirror)
    | ArrayValue(values: seq<AnnotationValue>)
    | OtherValue(description: string)

  /** An annotation mirror: the annotation type's qualified name and the
      explicitly given values, keyed by element simple name. */
  datatype AnnotationMirror = AnnotationMirror(
    annotationType: string,
    elementValues: map<string, AnnotationValue>)

  /** A type element as the processor sees it. */
  datatype TypeElement = TypeElement(
    id: ElementId,
    kind: ElementKind,
    qualifiedName: string,
    simpleName: string,
    interfaces: seq<Declared>,
    annotationMirrors: seq<AnnotationMirror>)

  /** The compiler's query surface: `Types.directSupertypes`,
      `Elements.getAllMembers` and `TypeElement.getTypeParameters` (by name). */
  datatype Host = Host(
    directSupertypes: TypeMirror -> seq<TypeMirror>,
    allMembers: ElementId -> seq<Member>,
    typeParameters: ElementId -> seq<string>)

  /** `element.asType()` for a type element: the generic declaration with its
      own type variables as arguments. */
  function SelfType(host: Host, element: ElementId): Declared {
    DeclaredType(element, host.typeParameters(element))
  }
}

# Delegasm, modelled in Dafny

Delegasm is a Java annotation processor. A class annotated
`@Delegasm(Foo.class)` or `@Delegasm(multi = {Foo.class, Bar.class})`, and
implementing those interfaces, gets a generated abstract base class
`Delegasm_<SimpleName>` in its own package. The base class holds one private
final field per delegate interface. Its constructor sets those fields, and it
implements every abstract or default method of each interface by forwarding
the call to that interface's field.

The model follows the processor's own steps:

- `Processor.Init` / `Processor.Process`: the environment guard and the
  round over the annotated classes.
- Request extraction: reading `value`/`multi` off the annotation, with the
  exclusive-or rule of `NullUtils.xor`.
- Resolution: matching the request against the directly implemented
  interfaces and their direct supertypes.
- Naming: the field names `delegasmic<i>`, the class name and the package.
- Class-description synthesis (`FileGenUtils`): the method map, the type
  variables, the superinterfaces, the fields, the constructor and the
  forwarding methods.
- `Pair` value semantics.

The compiler's `Types`/`Elements` queries are an oracle record of functions,
`LangModel.Host`. A null reference is `Option.None`. An exception is a
`Result.Err` carrying one of the `Wrappers.Exception` constructors.

The generated class is a record, `FileGenUtils.TypeSpec`, rather than
JavaPoet text. Its forwarding methods are a set, because the source collects
them through a `HashMap` and a `HashSet`. JavaPoet's `TypeSpec.Builder` and
constructor builder are two small classes, `FileGenUtils.TypeSpecBuilder` and
`FileGenUtils.ConstructorBuilder`. The `forEach` loops that fill them are
methods with loops, each proved against a specification function.

Files:

- `wrappers.dfy`: `Option`, `Result`, and the exceptions the processor lets
  escape.
- `null_utils.dfy`: `NullUtils`.
- `pairs.dfy`: `Pair`.
- `java_strings.dfy`: `Integer.toString`, `Collectors.joining`,
  `String.replace`.
- `lang_model.dfy`: mirrors, elements, annotation values and the `Host`.
- `file_gen_utils.dfy`: `FileGenUtils`.
- `delegasm_processor.dfy`: `DelegasmProcessor`.

Three behaviours of the code worth knowing:

- The resolved interfaces come in implements-clause order, not request order
  (`DelegasmProcessor.ImplementsClauseOrderWins`).
- A `void.class` inside a `multi` array is not dropped. The visitor returns
  null for it, and `.stream()` on that null throws
  (`DelegasmProcessor.VoidInsideArrayThrows`).
- An empty request, such as `@Delegasm(void.class)`, is not rejected. It
  resolves to no interface and gives a class with no fields.

`DelegasmProcessor.SingleMultiRequest` describes a bare class literal reaching
the `multi` visitor. javac wraps a single literal given to an array-typed
element into a one-element array. So if `multi` is declared as an array, that
shape does not arise: `@Delegasm(multi = void.class)` takes the array path and
throws (`DelegasmProcessor.VoidInsideArrayThrows`). The annotation's own
declaration is not part of this model.

The pipeline of `process` follows the code as written: the count check
`DelegasmProcessor.ValidateAsWritten` and the string replacement
`DelegasmProcessor.PackageNameAsWritten`. The two corrections of the findings
below form a separate pipeline, `DelegasmProcessor.GenerateCorrected`.

## Model

Paths are relative to the repository root.

| member | source | states |
|---|---|---|
| NullUtils.Xor | delegasm-processor/src/main/java/gg/rohan/delegasm/util/NullUtils.java:45-47 | true iff exactly one of the two references is null |
| NullUtils.ExactlyOneNull | delegasm-processor/src/main/java/gg/rohan/delegasm/util/NullUtils.java:57-59 | equals `Xor` on all inputs, i.e. `a` is null iff `b` is not |
| NullUtils.XorSymmetric | delegasm-processor/src/main/java/gg/rohan/delegasm/util/NullUtils.java:45-47 | `xor(a, b) == xor(b, a)` |
| NullUtils.XorFalseOnBothOrNeither | delegasm-processor/src/main/java/gg/rohan/delegasm/util/NullUtils.java:45-47 | false when both are null and false when neither is |
| Pairs.Of | delegasm-processor/src/main/java/gg/rohan/delegasm/util/Pair.java:60-70 | `getFirst` of `of(a, b)` is `a` and `getSecond` is `b` |
| Pairs.Equals | delegasm-processor/src/main/java/gg/rohan/delegasm/util/Pair.java:73-79 | two pairs are equal iff both components are equal |
| Pairs.EqualsIsEquivalence | delegasm-processor/src/main/java/gg/rohan/delegasm/util/Pair.java:73-79 | equality is reflexive, symmetric and transitive |
| Pairs.WrapInt32 | delegasm-processor/src/main/java/gg/rohan/delegasm/util/Pair.java:82-84 | Java int arithmetic: the result is in the 32-bit range and congruent to the exact value modulo 2^32 |
| Pairs.HashCode | delegasm-processor/src/main/java/gg/rohan/delegasm/util/Pair.java:82-84 | `Objects.hash(first, second)`: an int in the 32-bit range, congruent modulo 2^32 to `31 * (31 + h(first)) + h(second)` |
| Pairs.EqualPairsHashEqually | delegasm-processor/src/main/java/gg/rohan/delegasm/util/Pair.java:82-84 | equal pairs have equal `Objects.hash` codes |
| Pairs.DifferentSecondsDifferentPairs | delegasm-processor/src/main/java/gg/rohan/delegasm/util/Pair.java:73-79 | pairs with different second components are different keys |
| Pairs.ToString | delegasm-processor/src/main/java/gg/rohan/delegasm/util/Pair.java:87-92 | the text is `Pair{first=`, the first component, `, second=`, the second component and `}`, located by position and length |
| JavaStrings.Decimal | delegasm-processor/src/main/java/gg/rohan/delegasm/DelegasmProcessor.java:197 | the rendering of `i` in `"delegasmic" + i` is a non-empty digit string |
| JavaStrings.DecimalRoundTrip | delegasm-processor/src/main/java/gg/rohan/delegasm/DelegasmProcessor.java:197 | reading the rendered digits back gives the number |
| JavaStrings.DecimalInjective | delegasm-processor/src/main/java/gg/rohan/delegasm/DelegasmProcessor.java:197 | different indices render differently |
| JavaStrings.SplitJoin | delegasm-processor/src/main/java/gg/rohan/delegasm/util/FileGenUtils.java:181-183 | joining parameter names with `,` loses nothing: splitting gives the list back when no name contains a comma |
| JavaStrings.RemoveSoleTrailingOccurrence | delegasm-processor/src/main/java/gg/rohan/delegasm/DelegasmProcessor.java:202 | `replace(target, "")` on `p + target` gives `p` when the trailing occurrence is the only one |
| LangModel.AsElement | delegasm-processor/src/main/java/gg/rohan/delegasm/DelegasmProcessor.java:146 | on the mirrors a class literal can denote, `asElement` is non-null exactly for declared types, and then gives the type's element; null for a primitive or an array |
| FileGenUtils.CollectForwardable | delegasm-processor/src/main/java/gg/rohan/delegasm/util/FileGenUtils.java:89-96 | a member is collected iff it is executable and carries ABSTRACT or DEFAULT |
| FileGenUtils.AbstractMethods | delegasm-processor/src/main/java/gg/rohan/delegasm/util/FileGenUtils.java:85-97 | the collected methods are exactly the executable ABSTRACT or DEFAULT members of the type's full member closure |
| FileGenUtils.CreateMethodMap | delegasm-processor/src/main/java/gg/rohan/delegasm/util/FileGenUtils.java:74-83 | succeeds iff no descriptor repeats (otherwise the duplicate-key error); the keys are the descriptors and each maps to its type's abstract methods |
| FileGenUtils.DistinctNamesDistinctDescriptors | delegasm-processor/src/main/java/gg/rohan/delegasm/util/FileGenUtils.java:74-83 | pairwise different field names make the descriptors distinct, so `toMap` never meets a duplicate key |
| FileGenUtils.TypeVariablesAppend | delegasm-processor/src/main/java/gg/rohan/delegasm/util/FileGenUtils.java:125-131 | the type variables of a concatenated descriptor list are the concatenation of the parts' type variables |
| FileGenUtils.TypeVariablesAreConcatenation | delegasm-processor/src/main/java/gg/rohan/delegasm/util/FileGenUtils.java:121-134 | the class's type variables are each delegate's own type parameters, block after block in list order, with no renaming or deduplication |
| FileGenUtils.DelegatingMethod | delegasm-processor/src/main/java/gg/rohan/delegasm/util/FileGenUtils.java:176-193 | an override of the method in the descriptor's type with one statement, which, read back, returns iff the method is not void and calls the same method on the descriptor's field with the parameters in order |
| FileGenUtils.ForwardingStatementRoundTrip | delegasm-processor/src/main/java/gg/rohan/delegasm/util/FileGenUtils.java:181-190 | the statement, read back, says: return iff the method is not void, the given field, the same method name and the parameter names in order |
| FileGenUtils.DelegatingMethodsOfDifferentFieldsDiffer | delegasm-processor/src/main/java/gg/rohan/delegasm/util/FileGenUtils.java:168-172 | forwarding methods for fields of different names are different methods, so none is lost in the method set |
| FileGenUtils.DescriptionHeader | delegasm-processor/src/main/java/gg/rohan/delegasm/util/FileGenUtils.java:99-149 | the class is ABSTRACT, has the given name, one superinterface per delegate in list order (the delegate's generic declaration) and one private final field per delegate in list order with the pair's type and name |
| FileGenUtils.ConstructorMatchesFields | delegasm-processor/src/main/java/gg/rohan/delegasm/util/FileGenUtils.java:151-160 | the constructor is among the methods, with one parameter per field (same type, name and order) and one `this.n = n` statement per field |
| FileGenUtils.ForwardedMethods | delegasm-processor/src/main/java/gg/rohan/delegasm/util/FileGenUtils.java:163-174 | every abstract or default method of every delegate has a forwarding method, and the class has no other method besides the constructor |
| FileGenUtils.ForwardingCallsOwnField | delegasm-processor/src/main/java/gg/rohan/delegasm/util/FileGenUtils.java:176-193 | the forwarding method for a delegate's method overrides that method in the delegate's type and calls the same method on that delegate's own field |
| FileGenUtils.AddTypeVariablesAndInterfaces | delegasm-processor/src/main/java/gg/rohan/delegasm/util/FileGenUtils.java:121-134 | the loop appends exactly the specified type variables and superinterfaces to the builder and touches nothing else |
| FileGenUtils.AddFieldsAndConstructor | delegasm-processor/src/main/java/gg/rohan/delegasm/util/FileGenUtils.java:136-161 | the loops append exactly the specified fields and add exactly the specified constructor |
| FileGenUtils.AddDelegatingMethods | delegasm-processor/src/main/java/gg/rohan/delegasm/util/FileGenUtils.java:163-174 | whatever order the map yields its entries in, the builder gains exactly the forwarding methods of all of them |
| FileGenUtils.BuildClassSpec | delegasm-processor/src/main/java/gg/rohan/delegasm/util/FileGenUtils.java:99-119 | the built class equals the specified class description |
| FileGenUtils.GenerateJavaFile | delegasm-processor/src/main/java/gg/rohan/delegasm/util/FileGenUtils.java:58-72 | the method map, then the class description in the given package, or the map's exception |
| DelegasmProcessor.AnnotatedClasses | delegasm-processor/src/main/java/gg/rohan/delegasm/DelegasmProcessor.java:82-87 | exactly the annotated elements of kind CLASS are kept; interfaces, enums and the rest are dropped |
| DelegasmProcessor.FindDelegasmAnnotation | delegasm-processor/src/main/java/gg/rohan/delegasm/DelegasmProcessor.java:101-109 | null iff no mirror has the `@Delegasm` type, otherwise the first mirror that has it |
| DelegasmProcessor.ExtractAnnotationData | delegasm-processor/src/main/java/gg/rohan/delegasm/DelegasmProcessor.java:89-99 | without a `@Delegasm` mirror it throws the not-found error naming the simple name; otherwise it succeeds iff the request extraction does, pairing the class with the request, and fails only with the exclusive-or or the null-stream error |
| DelegasmProcessor.ExtractSingleElement | delegasm-processor/src/main/java/gg/rohan/delegasm/DelegasmProcessor.java:142-149 | non-null exactly for a class literal of a declared type, and then that type's element; null for `void.class`, a primitive, an array literal or any other value |
| DelegasmProcessor.VisitMulti | delegasm-processor/src/main/java/gg/rohan/delegasm/DelegasmProcessor.java:151-166 | visiting can only fail with the null-stream exception |
| DelegasmProcessor.VisitArray | delegasm-processor/src/main/java/gg/rohan/delegasm/DelegasmProcessor.java:160-164 | visiting an array can only fail with the null-stream exception |
| DelegasmProcessor.ExtractDelegationElements | delegasm-processor/src/main/java/gg/rohan/delegasm/DelegasmProcessor.java:118-140 | the `add`/`addAll` sequence computes the specified request |
| DelegasmProcessor.RequestNeedsExactlyOne | delegasm-processor/src/main/java/gg/rohan/delegasm/DelegasmProcessor.java:118-124 | extraction fails with the exclusive-or error iff both or neither of `value` and `multi` are present |
| DelegasmProcessor.SingleValueRequest | delegasm-processor/src/main/java/gg/rohan/delegasm/DelegasmProcessor.java:127-149 | a single `value` class literal gives its element when it is a declared type, and nothing for `void.class` or a primitive |
| DelegasmProcessor.SingleMultiRequest | delegasm-processor/src/main/java/gg/rohan/delegasm/DelegasmProcessor.java:133-156 | a single `multi` class literal gives nothing for `void.class` and exactly one (possibly null) element otherwise |
| DelegasmProcessor.VisitArrayOfLiterals | delegasm-processor/src/main/java/gg/rohan/delegasm/DelegasmProcessor.java:160-164 | an array of non-void class literals visits to their elements, one each, in array order |
| DelegasmProcessor.MultiArrayRequest | delegasm-processor/src/main/java/gg/rohan/delegasm/DelegasmProcessor.java:133-164 | a `multi` array of non-void class literals requests their elements, flattened in array order |
| DelegasmProcessor.VoidInsideArrayThrows | delegasm-processor/src/main/java/gg/rohan/delegasm/DelegasmProcessor.java:155-163 | a `void.class` anywhere in a `multi` array makes extraction fail instead of being dropped |
| DelegasmProcessor.CandidatesAppend | delegasm-processor/src/main/java/gg/rohan/delegasm/DelegasmProcessor.java:173-177 | the candidates of a concatenated implements clause are the concatenated candidates, so the clause's order is kept |
| DelegasmProcessor.CandidateMembership | delegasm-processor/src/main/java/gg/rohan/delegasm/DelegasmProcessor.java:173-177 | a type is a candidate iff it is a directly implemented interface or a declared direct supertype of one |
| DelegasmProcessor.ResolvedTypesCharacterized | delegasm-processor/src/main/java/gg/rohan/delegasm/DelegasmProcessor.java:173-180 | a type is resolved iff it is a candidate whose element was requested, and the resolved list follows the implements clause |
| DelegasmProcessor.ValidateAsWritten | delegasm-processor/src/main/java/gg/rohan/delegasm/DelegasmProcessor.java:168-189 | the count check: accepted iff as many types resolve as elements were requested, with the mismatch error otherwise |
| DelegasmProcessor.AsWrittenRejectsUnimplemented | delegasm-processor/src/main/java/gg/rohan/delegasm/DelegasmProcessor.java:182-186 | the count check rejects a request that no candidate implements |
| DelegasmProcessor.AsWrittenRejectsDoubleMatch | delegasm-processor/src/main/java/gg/rohan/delegasm/DelegasmProcessor.java:182-186 | the count check rejects a single request matched twice, directly and as a supertype |
| DelegasmProcessor.AsWrittenRejectsDoubleRequest | delegasm-processor/src/main/java/gg/rohan/delegasm/DelegasmProcessor.java:182-186 | the count check rejects a type requested twice but matched once |
| DelegasmProcessor.AsWrittenAcceptsUnimplemented | delegasm-processor/src/main/java/gg/rohan/delegasm/DelegasmProcessor.java:173-186 | the count check accepts a request for an unimplemented interface when another requested interface is matched twice; the multiset check rejects it |
| DelegasmProcessor.ValidateDelegationTypesCorrected | delegasm-processor/src/main/java/gg/rohan/delegasm/DelegasmProcessor.java:168-189 | (corrected) accepted iff every requested element is matched exactly as many times as requested; the result is the class with its resolved types |
| DelegasmProcessor.ValidationRefinesCountCheck | delegasm-processor/src/main/java/gg/rohan/delegasm/DelegasmProcessor.java:182-188 | (corrected) whatever the multiset check accepts, the count check accepts with the same result |
| DelegasmProcessor.ValidationRejectsUnimplemented | delegasm-processor/src/main/java/gg/rohan/delegasm/DelegasmProcessor.java:179-186 | (corrected) a requested element (or null) that no candidate has is rejected with the mismatch error |
| DelegasmProcessor.ImplementsClauseOrderWins | delegasm-processor/src/main/java/gg/rohan/delegasm/DelegasmProcessor.java:173-180 | for `implements A, B` with request `{B, A}` the resolved list of the (corrected) multiset check is `[A, B]` |
| DelegasmProcessor.FieldNames | delegasm-processor/src/main/java/gg/rohan/delegasm/DelegasmProcessor.java:195-198 | `delegasmic<i>` names of different positions differ, and each is a Java name |
| DelegasmProcessor.NamedTypesDistinct | delegasm-processor/src/main/java/gg/rohan/delegasm/DelegasmProcessor.java:195-198 | the i-th descriptor pairs the i-th resolved type with `delegasmic<i>`, and the names are pairwise different |
| DelegasmProcessor.ClassName | delegasm-processor/src/main/java/gg/rohan/delegasm/DelegasmProcessor.java:203 | the class name is `Delegasm_` followed by the simple name |
| DelegasmProcessor.PackageNameAsWrittenSoleOccurrence | delegasm-processor/src/main/java/gg/rohan/delegasm/DelegasmProcessor.java:202 | the replacement gives the package back when `"." + simpleName` occurs only at the end of the qualified name |
| DelegasmProcessor.PackageNameAsWrittenMisplaces | delegasm-processor/src/main/java/gg/rohan/delegasm/DelegasmProcessor.java:202 | the replacement gives `Foo` for class `Foo` in the unnamed package, and `xb` for class `A` in package `x.Ab` |
| DelegasmProcessor.PackageNameRecoversPackage | delegasm-processor/src/main/java/gg/rohan/delegasm/DelegasmProcessor.java:202 | (corrected) the corrected derivation gives back the package of every top-level class, the unnamed package included |
| DelegasmProcessor.PackageNameAgreesWithReplacement | delegasm-processor/src/main/java/gg/rohan/delegasm/DelegasmProcessor.java:202 | (corrected) wherever the replacement is right, the corrected derivation agrees with it |
| DelegasmProcessor.DelegationFileSucceeds | delegasm-processor/src/main/java/gg/rohan/delegasm/DelegasmProcessor.java:191-205 | the positional field names are distinct, so generating a resolved class never fails, whatever the package |
| DelegasmProcessor.GenerateDelegationClass | delegasm-processor/src/main/java/gg/rohan/delegasm/DelegasmProcessor.java:191-206 | the index loop builds the specified descriptors and generates the specified file |
| DelegasmProcessor.Generate | delegasm-processor/src/main/java/gg/rohan/delegasm/DelegasmProcessor.java:74-77 | the chain never fails on a duplicate key, and a file it produces is `Delegasm_<SimpleName>` in the package the string replacement derives |
| DelegasmProcessor.GeneratedFileShape | delegasm-processor/src/main/java/gg/rohan/delegasm/DelegasmProcessor.java:74-77 | the pipeline never fails on a duplicate key; it fails exactly when the annotation data or the count check does, passing the annotation's error on; a generated file is in the package the string replacement derives, is named `Delegasm_<SimpleName>`, is abstract, and has one field and one superinterface per requested element, each field named by position and typed by a requested candidate |
| DelegasmProcessor.GenerateCorrected | delegasm-processor/src/main/java/gg/rohan/delegasm/DelegasmProcessor.java:74-77 | (corrected) the pipeline with the multiset check and the corrected package: whatever it generates, the pipeline as written generates too, and its file is in the corrected package |
| DelegasmProcessor.CorrectedPipelineAgrees | delegasm-processor/src/main/java/gg/rohan/delegasm/DelegasmProcessor.java:182-202 | (corrected) for a class of a named package whose `"." + simpleName` occurs only at the end of its qualified name, wherever the corrected pipeline succeeds the pipeline as written produces the same file |
| DelegasmProcessor.SingleValueResolution | delegasm-processor/src/main/java/gg/rohan/delegasm/DelegasmProcessor.java:168-189 | a class implementing only `T` and annotated `@Delegasm(T)` resolves to `T` alone |
| DelegasmProcessor.SingleDelegateFile | delegasm-processor/src/main/java/gg/rohan/delegasm/DelegasmProcessor.java:191-206 | a class resolved to one type gets, in the package the string replacement derives, one field `delegasmic0` of that type and a one-parameter constructor assigning it |
| DelegasmProcessor.OnlyTrailingOccurrence | delegasm-processor/src/main/java/gg/rohan/delegasm/DelegasmProcessor.java:202 | when the simple name's first letter is not a dot and does not occur in the package, `"." + simpleName` occurs in the qualified name only at its end |
| DelegasmProcessor.ExamplesPackageRecovered | delegasm-processor/src/main/java/gg/rohan/delegasm/DelegasmProcessor.java:202 | for class `PersonalString` of package `io.gitub.av3rg.delegasm.examples` the string replacement gives that package back |
| DelegasmProcessor.PersonalStringScenario | delegasm-examples/src/main/java/io/gitub/av3rg/delegasm/examples/PersonalString.java:24-33 | `PersonalString` of package `io.gitub.av3rg.delegasm.examples`, run through the pipeline as written, gets `Delegasm_PersonalString` in that same package, with the one field `delegasmic0` of type `CharSequence` and a one-argument constructor |
| DelegasmProcessor.ProcessClass | delegasm-processor/src/main/java/gg/rohan/delegasm/DelegasmProcessor.java:74-77 | extracting, checking and generating one class, stopping at the first failure, gives the specified outcome of the pipeline as written |
| DelegasmProcessor.Processor.constructor | delegasm-processor/src/main/java/gg/rohan/delegasm/DelegasmProcessor.java:53-57 | a new processor has no environment |
| DelegasmProcessor.Processor.Init | delegasm-processor/src/main/java/gg/rohan/delegasm/DelegasmProcessor.java:59-62 | `init` stores the environment it is given |
| DelegasmProcessor.Processor.Process | delegasm-processor/src/main/java/gg/rohan/delegasm/DelegasmProcessor.java:64-80 | without an environment it throws and writes nothing; otherwise it fails iff some annotated class fails, with that class's exception; every written file is some class's file; on success one file per class is written; it never claims the annotations |

## Left out

- Writing the file through the Filer, and wrapping the `IOException` in a
  `RuntimeException` (`FileGenUtils.writeFile`). This is I/O. The model stops
  at the `JavaFile` value that would be written.
- JavaPoet's rendering of the class text. The class is a record instead.
- `MethodSpec.overriding`'s copying of the method header and its generic
  substitution. A method's signature is carried through unchanged as opaque
  data (`LangModel.Signature`).
- `MethodSpec` equality is by rendered text in JavaPoet. The model uses
  structural equality of the record, so two forwarding methods that would
  render identically but come from different members stay distinct in the set.
- Java's inheritance rules behind `Types.directSupertypes`,
  `Elements.getAllMembers` and a type element's type parameters. These are
  the oracle functions of `LangModel.Host`. `Types.asElement` is modelled
  only for the three kinds of mirror the processor can meet: declared, void
  and other.
- The iteration order of the method map, of the method sets and of the
  annotated-class set. Forwarding methods are a set, and `Processor.Process`
  picks the next class nondeterministically.
- `extractAnnotationValues` is not modelled as a step of its own. The
  annotation mirror's values are given already keyed by element simple name.
- The annotation-visitor mechanics. Annotation values are the datatype
  `LangModel.AnnotationValue`.
- The components' own `hashCode`s. `Pairs.HashCode` takes them as functions.
- `getSupportedAnnotationTypes`, the `synchronized` on `init`, and the exact
  Javadoc text beyond its model string. These are framework glue.
- The qualified names of nested classes. `DelegasmProcessor.QualifiedName`
  describes top-level classes only.
- FileGenUtils.ForwardingStatement: the source hands the statement text to
  JavaPoet's `addStatement` as a format string, so a `$` in the field, method
  or parameter names makes JavaPoet throw (`$b`) or render something else
  (`$$`, `$W`, `$Z`). The model keeps the text literal, and
  `FileGenUtils.IsJavaName` excludes `$`, so the round trip covers `$`-free
  names only.
- FileGenUtils.Javadoc: the class name goes to `addJavadoc` as part of a format
  string too, so a `$` in a simple name throws or renders differently there.
  The model keeps the text literal.
- DelegasmProcessor.Processor.Process: returns the exception as a value
  instead of throwing it. It does not model the compiler's handling of a
  processor that throws mid-round. The files written before the failure are
  returned.

## Findings

| source | as written | input that shows it | evidently intended | confidence | as-written member | corrected member |
|---|---|---|---|---|---|---|
| delegasm-processor/src/main/java/gg/rohan/delegasm/DelegasmProcessor.java:202 | the package is the qualified name with every occurrence of `"." + simpleName` removed | class `Foo` in the unnamed package (qualified name `Foo`) gets package `Foo`; class `A` in package `x.Ab` (qualified name `x.Ab.A`) gets package `xb` | the package is the qualified name without its trailing `"." + simpleName`, and empty when the qualified name is the simple name | not executed | DelegasmProcessor.PackageNameAsWrittenMisplaces | DelegasmProcessor.PackageNameRecoversPackage |
| delegasm-processor/src/main/java/gg/rohan/delegasm/DelegasmProcessor.java:182-186 | the request is accepted when the number of resolved types equals the number of requested elements | class implements `A, B` where `B extends A`, with `@Delegasm(multi = {A.class, C.class})`. The candidates are `[A, B, A]` and the resolved list is `[A, A]`, of size 2, so the request is accepted although `C` is not implemented, and the generated class implements `A` twice | every requested element is matched exactly as many times as it is requested | not executed | DelegasmProcessor.AsWrittenAcceptsUnimplemented | DelegasmProcessor.ValidationRejectsUnimplemented |

`DelegasmProcessor.Generate` and `DelegasmProcessor.Processor.Process` keep
the code as written. The corrected definitions,
`DelegasmProcessor.ValidateDelegationTypesCorrected` and
`DelegasmProcessor.PackageNameCorrected`, make up
`DelegasmProcessor.GenerateCorrected`. `DelegasmProcessor.CorrectedPipelineAgrees`
shows that both pipelines produce the same file for a class of a named package
whose simple name occurs in its qualified name only at the end, wherever the
corrected one succeeds.

/** FileGenUtils: from a list of (delegate type, field name) descriptors,
    the description of the abstract class that holds one delegate per field
    and forwards every abstract or default method of each delegate's type
    to that delegate. The description is a record, not Java text. */
module FileGenUtils {
  import opened Wrappers
  import opened Pairs
  import opened LangModel
  import opened JavaStrings

  /** A delegate: its declared type and the name of the field holding it. */
  type Descriptor = Pair<Declared, string>

  datatype FieldSpec = FieldSpec(fieldType: Declared, name: string, modifiers: set<Modifier>)

  datatype ParameterSpec = ParameterSpec(parameterType: Declared, name: string, modifiers: set<Modifier>)

  /** A method of the generated class: its constructor, or a method that
      overrides `overridden` as seen from `enclosing` (the signature itself is
      carried through unchanged) with the given statements as body. */
  datatype MethodSpec =
    | ConstructorSpec(parameters: seq<ParameterSpec>, code: seq<string>)
    | OverridingSpec(overridden: Signature, enclosing: Declared, code: seq<string>)

  /** The generated class. The order of `methods` comes from a HashMap and
      HashSets and is not modelled. */
  datatype TypeSpec = TypeSpec(
    name: string,
    modifiers: set<Modifier>,
    javadoc: string,
    typeVariables: seq<string>,
    superinterfaces: seq<Declared>,
    fields: seq<FieldSpec>,
    methods: set<MethodSpec>)

  datatype JavaFile = JavaFile(packageName: string, typeSpec: TypeSpec)

  // ---------------------------------------------------------------------
  // Collecting the methods to forward

  /** The members kept by `getAbstractMethods`: executable ones carrying
      ABSTRACT or DEFAULT. */
  predicate IsForwardable(m: Member) {
    m.Executable? && (Abstract in m.modifiers || Default in m.modifiers)
  }

  /** The stream filter of `getAbstractMethods`, collected to a set. */
  function CollectForwardable(members: seq<Member>): (methods: set<Member>)
    ensures forall m :: m in methods <==> m in members && IsForwardable(m)
  {
    if |members| == 0 then {}
    else (if IsForwardable(members[0]) then {members[0]} else {}) + CollectForwardable(members[1..])
  }

  /** `getAbstractMethods(env, type)`: the forwardable members of the type's
      full member closure, as the compiler reports it. */
  function AbstractMethods(host: Host, t: Declared): (methods: set<Member>)
    ensures forall m :: m in methods <==> m in host.allMembers(t.element) && IsForwardable(m)
  {
    CollectForwardable(host.allMembers(t.element))
  }

  /** No descriptor occurs twice. */
  predicate Distinct(inner: seq<Descriptor>) {
    forall i, j :: 0 <= i < j < |inner| ==> inner[i] != inner[j]
  }

  /** `createMethodMap`: `Collectors.toMap` from each descriptor to its
      abstract methods, which throws on a repeated key. */
  function CreateMethodMap(host: Host, inner: seq<Descriptor>): (r: Result<map<Descriptor, set<Member>>>)
    ensures r.Ok? <==> Distinct(inner)
    ensures r.Err? ==> r.error == DuplicateKey
    ensures r.Ok? ==> r.value.Keys == (set d | d in inner)
    ensures r.Ok? ==> forall d :: d in r.value ==> r.value[d] == AbstractMethods(host, d.first)
  {
    if |inner| == 0 then Ok(map[])
    else
      var prefix, last := inner[..|inner| - 1], inner[|inner| - 1];
      assert forall d :: d in inner <==> d in prefix || d == last;
      match CreateMethodMap(host, prefix)
      case Err(e) => Err(e)
      case Ok(m) =>
        if last in m then Err(DuplicateKey)
        else Ok(m[last := AbstractMethods(host, last.first)])
  }

  /** Descriptors whose field names are pairwise different are distinct, so
      `toMap` never meets a repeated key. */
  lemma DistinctNamesDistinctDescriptors(host: Host, inner: seq<Descriptor>)
    requires forall i, j :: 0 <= i < j < |inner| ==> GetSecond(inner[i]) != GetSecond(inner[j])
    ensures Distinct(inner)
    ensures CreateMethodMap(host, inner).Ok?
  {
    forall i, j | 0 <= i < j < |inner|
      ensures inner[i] != inner[j]
    {
      DifferentSecondsDifferentPairs(inner[i], inner[j]);
    }
  }

  // ---------------------------------------------------------------------
  // The parts of the class description

  /** The type variables the class declares: each delegate type's own type
      parameters, concatenated in list order, with no renaming or removal of
      repeats. */
  function TypeVariables(host: Host, inner: seq<Descriptor>): seq<string> {
    if |inner| == 0 then []
    else host.typeParameters(inner[0].first.element) + TypeVariables(host, inner[1..])
  }

  /** Concatenating descriptor lists concatenates their type variables. */
  lemma {:induction false} TypeVariablesAppend(host: Host, a: seq<Descriptor>, b: seq<Descriptor>)
    ensures TypeVariables(host, a + b) == TypeVariables(host, a) + TypeVariables(host, b)
  {
    if |a| > 0 {
      assert (a + b)[1..] == a[1..] + b;
      TypeVariablesAppend(host, a[1..], b);
    } else {
      assert a + b == b;
    }
  }

  /** One superinterface per descriptor, in list order: the generic
      declaration of the delegate type's element. */
  function Superinterfaces(host: Host, inner: seq<Descriptor>): seq<Declared> {
    seq(|inner|, i requires 0 <= i < |inner| => SelfType(host, inner[i].first.element))
  }

  /** One private final field per descriptor, in list order. */
  function Fields(inner: seq<Descriptor>): seq<FieldSpec> {
    seq(|inner|, i requires 0 <= i < |inner| => FieldSpec(inner[i].first, inner[i].second, {Private, Final}))
  }

  /** The statement `this.$L = $L` for field `name`. */
  function Assignment(name: string): string {
    "this." + name + " = " + name
  }

  /** The constructor: one final parameter per descriptor and one assignment
      per descriptor, both in list order. */
  function Constructor(inner: seq<Descriptor>): MethodSpec {
    ConstructorSpec(
      seq(|inner|, i requires 0 <= i < |inner| => ParameterSpec(inner[i].first, inner[i].second, {Final})),
      seq(|inner|, i requires 0 <= i < |inner| => Assignment(inner[i].second)))
  }

  /** The call `field.name(p1,p2,...)`, parameters joined by commas. */
  function CallText(field: string, name: string, parameterNames: seq<string>): string {
    field + "." + name + "(" + Join(parameterNames, ',') + ")"
  }

  /** The statement of a forwarding method: `return ` unless the method is
      void, then the call of the same method on the field, passing the
      parameters by name. */
  function ForwardingStatement(sig: Signature, field: string): string {
    (if sig.returnType.VoidType? then "" else "return ") + CallText(field, sig.name, sig.parameterNames)
  }

  /** `createDelegatingMethod(method, descriptor, env)`: an override of the
      method, as seen in the descriptor's type, whose one statement
      forwards the call to the descriptor's field. */
  function DelegatingMethod(m: Member, d: Descriptor): (spec: MethodSpec)
    requires m.Executable?
    ensures spec.OverridingSpec? && spec.overridden == m.signature && spec.enclosing == d.first
    ensures |spec.code| == 1
    ensures IsJavaName(d.second) && WellNamed(m.signature) ==>
      ParseForwardingStatement(spec.code[0])
        == Some(ForwardingCall(!m.signature.returnType.VoidType?, d.second, m.signature.name, m.signature.parameterNames))
  {
    var spec := OverridingSpec(m.signature, d.first, [ForwardingStatement(m.signature, d.second)]);
    if IsJavaName(d.second) && WellNamed(m.signature) then
      ForwardingStatementRoundTrip(m.signature, d.second);
      spec
    else spec
  }

  /** The methods `addDelegatingMethods` adds: one per (descriptor, method)
      entry of the method map. */
  function DelegatingMethods(methodMap: map<Descriptor, set<Member>>): set<MethodSpec> {
    set d, m | d in methodMap && m in methodMap[d] && m.Executable? :: DelegatingMethod(m, d)
  }

  /** The Javadoc line of the generated class. */
  function Javadoc(className: string): string {
    "Simple Delegation class for " + className + "\n"
  }

  /** The class `buildClassSpec` describes. */
  function ClassDescription(host: Host, className: string, inner: seq<Descriptor>,
                            methodMap: map<Descriptor, set<Member>>): TypeSpec
  {
    TypeSpec(className, {Abstract}, Javadoc(className),
             TypeVariables(host, inner), Superinterfaces(host, inner), Fields(inner),
             {Constructor(inner)} + DelegatingMethods(methodMap))
  }

  /** The file `generateJavaFile` writes, or the exception it throws. */
  function GeneratedJavaFile(host: Host, packageName: string, className: string,
                             inner: seq<Descriptor>): Result<JavaFile>
  {
    match CreateMethodMap(host, inner)
    case Err(e) => Err(e)
    case Ok(methodMap) => Ok(JavaFile(packageName, ClassDescription(host, className, inner, methodMap)))
  }

  // ---------------------------------------------------------------------
  // Reading a forwarding statement back

  /** A name the generated code carries verbatim: non-empty, free of the
      delimiters of a call, and free of `$`, which JavaPoet would read as the
      start of a format placeholder. */
  predicate IsJavaName(s: string) {
    |s| > 0 && forall i :: 0 <= i < |s| ==> s[i] !in ".(), $"
  }

  /** Every name in a method signature is a Java identifier. */
  predicate WellNamed(sig: Signature) {
    && IsJavaName(sig.name)
    && forall k :: 0 <= k < |sig.parameterNames| ==> IsJavaName(sig.parameterNames[k])
  }

  /** What a forwarding statement says: whether it returns, and which method
      of which field it calls with which arguments. */
  datatype ForwardingCall = ForwardingCall(returnsValue: bool, field: string, methodName: string, arguments: seq<string>)

  /** Reads a call of the form `field.method(a,b,...)`. */
  function ParseCall(returnsValue: bool, call: string): Option<ForwardingCall> {
    if '.' !in call then None
    else
      var dot := IndexOf(call, '.');
      var rest := call[dot + 1..];
      if '(' !in rest || rest[|rest| - 1] != ')' then None
      else
        var open := IndexOf(rest, '(');
        var args := rest[open + 1..|rest| - 1];
        Some(ForwardingCall(returnsValue, call[..dot], rest[..open],
                            if args == "" then [] else Split(args, ',')))
  }

  /** Reads a statement of the form `[return ]field.method(a,b,...)`. */
  function ParseForwardingStatement(s: string): Option<ForwardingCall> {
    if |s| >= 7 && s[..7] == "return " then ParseCall(true, s[7..]) else ParseCall(false, s)
  }

  /** A call built from Java names contains no blank. */
  lemma CallTextHasNoBlank(field: string, name: string, parameterNames: seq<string>)
    requires IsJavaName(field) && IsJavaName(name)
    requires forall k :: 0 <= k < |parameterNames| ==> IsJavaName(parameterNames[k])
    ensures ' ' !in CallText(field, name, parameterNames)
  {
    var joined := Join(parameterNames, ',');
    JoinAvoids(parameterNames, ',', ' ');
    var call := CallText(field, name, parameterNames);
    assert call == field + "." + name + "(" + joined + ")";
    forall i | 0 <= i < |call| ensures call[i] != ' ' {
      if i < |field| {
        assert call[i] == field[i];
      } else if |field| < i <= |field| + |name| {
        assert call[i] == name[i - |field| - 1];
      } else if |field| + |name| + 1 < i < |call| - 1 {
        assert call[i] == joined[i - |field| - |name| - 2];
      }
    }
  }

  /** Reading a call back gives its field, method name and parameters. */
  lemma ParseCallText(returnsValue: bool, field: string, name: string, parameterNames: seq<string>)
    requires IsJavaName(field) && IsJavaName(name)
    requires forall k :: 0 <= k < |parameterNames| ==> IsJavaName(parameterNames[k])
    ensures ParseCall(returnsValue, CallText(field, name, parameterNames))
         == Some(ForwardingCall(returnsValue, field, name, parameterNames))
  {
    var joined := Join(parameterNames, ',');
    JoinEmpty(parameterNames, ',');
    var tail := name + "(" + joined + ")";
    var call := CallText(field, name, parameterNames);
    assert call == field + ['.'] + tail;
    IndexOfAfter(field, '.', tail);
    assert call[..|field|] == field;
    assert call[|field| + 1..] == tail;
    assert tail == name + ['('] + (joined + ")");
    IndexOfAfter(name, '(', joined + ")");
    assert tail[..|name|] == name;
    assert tail[|name| + 1..|tail| - 1] == joined;
    if |parameterNames| > 0 {
      SplitJoin(parameterNames, ',');
    }
  }

  /** The forwarding statement says exactly: return iff the method is not
      void, the given field, the same method name, the parameters in order. */
  lemma ForwardingStatementRoundTrip(sig: Signature, field: string)
    requires IsJavaName(field) && WellNamed(sig)
    ensures ParseForwardingStatement(ForwardingStatement(sig, field))
         == Some(ForwardingCall(!sig.returnType.VoidType?, field, sig.name, sig.parameterNames))
  {
    var call := CallText(field, sig.name, sig.parameterNames);
    var s := ForwardingStatement(sig, field);
    var returnsValue := !sig.returnType.VoidType?;
    CallTextHasNoBlank(field, sig.name, sig.parameterNames);
    ParseCallText(returnsValue, field, sig.name, sig.parameterNames);
    if returnsValue {
      assert s == "return " + call;
      assert s[..7] == "return " && s[7..] == call;
      assert ParseForwardingStatement(s) == ParseCall(true, call);
    } else {
      assert s == call;
      assert !(|s| >= 7 && s[..7] == "return ") by {
        if |s| >= 7 {
          assert s[6] != ' ' && "return "[6] == ' ';
        }
      }
      assert ParseForwardingStatement(s) == ParseCall(false, call);
    }
  }

  /** Two forwarding methods on fields of different names are different
      methods, whatever they forward. */
  lemma DelegatingMethodsOfDifferentFieldsDiffer(m: Member, d: Descriptor, m': Member, d': Descriptor)
    requires m.Executable? && m'.Executable? && WellNamed(m.signature) && WellNamed(m'.signature)
    requires IsJavaName(d.second) && IsJavaName(d'.second) && d.second != d'.second
    ensures DelegatingMethod(m, d) != DelegatingMethod(m', d')
  {
    ForwardingStatementRoundTrip(m.signature, d.second);
    ForwardingStatementRoundTrip(m'.signature, d'.second);
  }

  // ---------------------------------------------------------------------
  // Properties of the description

  /** The class is abstract, implements one superinterface per delegate in
      list order, and declares one private final field per delegate in list
      order, with the delegate's type and name. */
  lemma {:induction false} DescriptionHeader(host: Host, className: string, inner: seq<Descriptor>,
                                             methodMap: map<Descriptor, set<Member>>)
    ensures var spec := ClassDescription(host, className, inner, methodMap);
      && spec.name == className && spec.modifiers == {Abstract}
      && |spec.superinterfaces| == |spec.fields| == |inner|
      && (forall i :: 0 <= i < |inner| ==>
            && spec.superinterfaces[i].element == GetFirst(inner[i]).element
            && spec.superinterfaces[i].typeArguments == host.typeParameters(GetFirst(inner[i]).element)
            && spec.fields[i].fieldType == GetFirst(inner[i])
            && spec.fields[i].name == GetSecond(inner[i])
            && spec.fields[i].modifiers == {Private, Final})
  {
  }

  /** The type variables are the delegates' own type parameters, one block
      per delegate, in list order. */
  lemma {:induction false} TypeVariablesAreConcatenation(host: Host, inner: seq<Descriptor>, k: nat)
    requires k <= |inner|
    ensures TypeVariables(host, inner)
         == TypeVariables(host, inner[..k]) + TypeVariables(host, inner[k..])
    ensures |inner| > 0 ==>
      TypeVariables(host, inner)
      == TypeVariables(host, inner[..|inner| - 1]) + host.typeParameters(inner[|inner| - 1].first.element)
  {
    assert inner == inner[..k] + inner[k..];
    TypeVariablesAppend(host, inner[..k], inner[k..]);
    if |inner| > 0 {
      var last := inner[|inner| - 1];
      assert inner == inner[..|inner| - 1] + [last];
      TypeVariablesAppend(host, inner[..|inner| - 1], [last]);
      assert TypeVariables(host, [last]) == host.typeParameters(last.first.element) + TypeVariables(host, []);
    }
  }

  /** The constructor has one parameter per field, same type, same name,
      same order, and assigns each field from its parameter. */
  lemma ConstructorMatchesFields(host: Host, className: string, inner: seq<Descriptor>,
                                 methodMap: map<Descriptor, set<Member>>)
    ensures var spec := ClassDescription(host, className, inner, methodMap);
      var ctor := Constructor(inner);
      && ctor in spec.methods
      && |ctor.parameters| == |ctor.code| == |spec.fields|
      && forall i :: 0 <= i < |spec.fields| ==>
           && ctor.parameters[i].parameterType == spec.fields[i].fieldType
           && ctor.parameters[i].name == spec.fields[i].name
           && ctor.code[i] == "this." + spec.fields[i].name + " = " + spec.fields[i].name
  {
  }

  /** Every abstract or default method of every delegate type gets a
      forwarding method, and the class has no method besides the
      constructor and those. */
  lemma ForwardedMethods(host: Host, className: string, inner: seq<Descriptor>,
                         methodMap: map<Descriptor, set<Member>>)
    requires CreateMethodMap(host, inner) == Ok(methodMap)
    ensures var spec := ClassDescription(host, className, inner, methodMap);
      && (forall d, m :: d in inner && m in AbstractMethods(host, d.first) ==>
            m.Executable? && DelegatingMethod(m, d) in spec.methods)
      && (forall x :: x in spec.methods ==>
            x == Constructor(inner) ||
            exists d, m :: d in inner && m in AbstractMethods(host, d.first) && m.Executable? &&
                           x == DelegatingMethod(m, d))
  {
  }

  /** The forwarding method made for a delegate calls that delegate's field,
      the same method, with the parameters unchanged, and returns the result
      exactly when the method is not void. */
  lemma ForwardingCallsOwnField(host: Host, className: string, inner: seq<Descriptor>,
                                methodMap: map<Descriptor, set<Member>>, d: Descriptor, m: Member)
    requires CreateMethodMap(host, inner) == Ok(methodMap)
    requires d in inner && m in AbstractMethods(host, d.first)
    requires IsJavaName(d.second) && WellNamed(m.signature)
    ensures m.Executable?
    ensures var x := DelegatingMethod(m, d);
      && x in ClassDescription(host, className, inner, methodMap).methods
      && x.enclosing == d.first && x.overridden == m.signature && |x.code| == 1
      && ParseForwardingStatement(x.code[0])
         == Some(ForwardingCall(!m.signature.returnType.VoidType?, d.second,
                                m.signature.name, m.signature.parameterNames))
  {
    ForwardedMethods(host, className, inner, methodMap);
    ForwardingStatementRoundTrip(m.signature, d.second);
  }

  // ---------------------------------------------------------------------
  // The builders the generator mutates

  /** The state of a `TypeSpec.Builder` that the generator touches. */
  class TypeSpecBuilder {
    const name: string
    var modifiers: set<Modifier>
    var javadoc: string
    var typeVariables: seq<string>
    var superinterfaces: seq<Declared>
    var fields: seq<FieldSpec>
    var methods: set<MethodSpec>

    /** `TypeSpec.classBuilder(name)`. */
    constructor (name: string)
      ensures this.name == name && modifiers == {} && javadoc == ""
      ensures typeVariables == [] && superinterfaces == [] && fields == [] && methods == {}
    {
      this.name := name;
      modifiers, javadoc := {}, "";
      typeVariables, superinterfaces, fields, methods := [], [], [], {};
    }

    method AddModifiers(ms: set<Modifier>)
      modifies this`modifiers
      ensures modifiers == old(modifiers) + ms
    {
      modifiers := modifiers + ms;
    }

    method AddJavadoc(text: string)
      modifies this`javadoc
      ensures javadoc == old(javadoc) + text
    {
      javadoc := javadoc + text;
    }

    method AddTypeVariables(names: seq<string>)
      modifies this`typeVariables
      ensures typeVariables == old(typeVariables) + names
    {
      typeVariables := typeVariables + names;
    }

    method AddSuperinterface(t: Declared)
      modifies this`superinterfaces
      ensures superinterfaces == old(superinterfaces) + [t]
    {
      superinterfaces := superinterfaces + [t];
    }

    method AddField(f: FieldSpec)
      modifies this`fields
      ensures fields == old(fields) + [f]
    {
      fields := fields + [f];
    }

    method AddMethods(ms: set<MethodSpec>)
      modifies this`methods
      ensures methods == old(methods) + ms
    {
      methods := methods + ms;
    }

    /** `build()`. */
    function Build(): TypeSpec
      reads this
    {
      TypeSpec(name, modifiers, javadoc, typeVariables, superinterfaces, fields, methods)
    }
  }

  /** The state of the `MethodSpec.constructorBuilder()` the generator fills. */
  class ConstructorBuilder {
    var parameters: seq<ParameterSpec>
    var code: seq<string>

    constructor ()
      ensures parameters == [] && code == []
    {
      parameters, code := [], [];
    }

    method AddParameter(p: ParameterSpec)
      modifies this`parameters
      ensures parameters == old(parameters) + [p]
    {
      parameters := parameters + [p];
    }

    method AddStatement(s: string)
      modifies this`code
      ensures code == old(code) + [s]
    {
      code := code + [s];
    }

    function Build(): MethodSpec
      reads this
    {
      ConstructorSpec(parameters, code)
    }
  }

  // ---------------------------------------------------------------------
  // The generator's steps

  /** `addTypeVariablesAndInterfaces`: per descriptor, in order, its type
      parameters and its superinterface. */
  method AddTypeVariablesAndInterfaces(builder: TypeSpecBuilder, host: Host, inner: seq<Descriptor>)
    modifies builder`typeVariables, builder`superinterfaces
    ensures builder.typeVariables == old(builder.typeVariables) + TypeVariables(host, inner)
    ensures builder.superinterfaces == old(builder.superinterfaces) + Superinterfaces(host, inner)
  {
    var i := 0;
    while i < |inner|
      invariant 0 <= i <= |inner|
      invariant builder.typeVariables == old(builder.typeVariables) + TypeVariables(host, inner[..i])
      invariant builder.superinterfaces == old(builder.superinterfaces) + Superinterfaces(host, inner[..i])
    {
      var pair := inner[i];
      builder.AddTypeVariables(host.typeParameters(pair.first.element));
      builder.AddSuperinterface(SelfType(host, pair.first.element));
      TypeVariablesAreConcatenation(host, inner[..i + 1], i);
      assert inner[..i + 1][..i] == inner[..i];
      i := i + 1;
    }
    assert inner[..i] == inner;
  }

  /** `addFieldsAndConstructor`: one field per descriptor, then one
      constructor with one parameter and one assignment per descriptor. */
  method AddFieldsAndConstructor(builder: TypeSpecBuilder, inner: seq<Descriptor>)
    modifies builder`fields, builder`methods
    ensures builder.fields == old(builder.fields) + Fields(inner)
    ensures builder.methods == old(builder.methods) + {Constructor(inner)}
  {
    var i := 0;
    while i < |inner|
      invariant 0 <= i <= |inner|
      invariant builder.fields == old(builder.fields) + Fields(inner[..i])
      invariant builder.methods == old(builder.methods)
    {
      var pair := inner[i];
      builder.AddField(FieldSpec(pair.first, pair.second, {Private, Final}));
      i := i + 1;
    }
    assert inner[..i] == inner;

    var ctor := new ConstructorBuilder();
    i := 0;
    while i < |inner|
      invariant 0 <= i <= |inner|
      invariant ctor.Build() == Constructor(inner[..i])
      invariant builder.fields == old(builder.fields) + Fields(inner)
      invariant builder.methods == old(builder.methods)
    {
      var pair := inner[i];
      ctor.AddParameter(ParameterSpec(pair.first, pair.second, {Final}));
      ctor.AddStatement(Assignment(pair.second));
      i := i + 1;
    }
    assert inner[..i] == inner;
    builder.AddMethods({ctor.Build()});
  }

  /** `addDelegatingMethods`: for each entry of the method map, in whatever
      order the map yields them, the forwarding methods of its set. */
  method AddDelegatingMethods(builder: TypeSpecBuilder, methodMap: map<Descriptor, set<Member>>)
    modifies builder`methods
    ensures builder.methods == old(builder.methods) + DelegatingMethods(methodMap)
  {
    var pending := methodMap.Keys;
    while pending != {}
      invariant pending <= methodMap.Keys
      invariant builder.methods == old(builder.methods) + DelegatingMethods(methodMap - pending)
      decreases pending
    {
      var d :| d in pending;
      var specs := set m | m in methodMap[d] && m.Executable? :: DelegatingMethod(m, d);
      builder.AddMethods(specs);
      assert DelegatingMethods(methodMap - (pending - {d})) == DelegatingMethods(methodMap - pending) + specs;
      pending := pending - {d};
    }
    assert methodMap - {} == methodMap;
  }

  /** `buildClassSpec`: the class description, assembled step by step. */
  method BuildClassSpec(host: Host, className: string, inner: seq<Descriptor>,
                        methodMap: map<Descriptor, set<Member>>) returns (spec: TypeSpec)
    ensures spec == ClassDescription(host, className, inner, methodMap)
  {
    var builder := new TypeSpecBuilder(className);
    builder.AddModifiers({Abstract});
    builder.AddJavadoc(Javadoc(className));
    AddTypeVariablesAndInterfaces(builder, host, inner);
    AddFieldsAndConstructor(builder, inner);
    AddDelegatingMethods(builder, methodMap);
    spec := builder.Build();
  }

  /** `generateJavaFile`, up to the point where the file is handed to the
      Filer: the method map, then the class description. */
  method GenerateJavaFile(host: Host, packageName: string, className: string,
                          inner: seq<Descriptor>) returns (r: Result<JavaFile>)
    ensures r == GeneratedJavaFile(host, packageName, className, inner)
  {
    var methodMap := CreateMethodMap(host, inner);
    if methodMap.Err? {
      return Err(methodMap.error);
    }
    var spec := BuildClassSpec(host, className, inner, methodMap.value);
    r := Ok(JavaFile(packageName, spec));
  }
}

/** The closed world the YAML codec works over, in place of .NET reflection:
    type descriptors, the runtime values the codec reads and builds, and the
    reflection queries it makes (attribute search, member access, default
    construction). */
module YamlTypes {
  import opened Wrappers
  import opened Framework
  import opened YamlNodes
  import StringUtils

  // ---------------------------------------------------------------- descriptors

  /** The types the codec distinguishes. TClass is a class handled by its
      attributes or member-wise; TNode is YamlNode itself. */
  datatype Type =
    | TObject
    | TString
    | TEnum(enumType: EnumType)
    | TInt(kind: IntKind)
    | TNullable(underlying: Type)
    | TDict(keyType: Type, valueType: Type)
    | TList(elemType: Type)
    | TArray(elemType: Type)
    | TNode
    | TClass(cls: Class)

  /** The [OptionalFields] attribute of a class: absent, or present with its
      InitializeWhenNull flag (false by default). */
  datatype OptionalFields = NoOptionalFields | OptionalFields(initializeWhenNull: bool)

  /** A field or property: its declared type, visibility, whether a setter
      exists (always true for a field), its [Root] and [Serializer] marks,
      and the value a parameterless constructor leaves in it. */
  datatype Member = Member(
    name: string,
    ty: Type,
    isPublic: bool,
    hasSetter: bool,
    isRoot: bool,
    isSerializer: bool,
    initial: Value)

  /** The first parameter of a [Parser] method or constructor: a YamlNode (or
      subtype), or some other type that the node is parsed into first. */
  datatype Param = NodeParam | TypedParam(ty: Type)

  datatype MethodDecl = MethodDecl(name: string, isSerializer: bool, isParser: bool, param: Param)

  datatype CtorDecl = CtorDecl(isParser: bool, param: Param)

  /** A class: fields, properties, methods and constructors in declaration
      order, its [OptionalFields] attribute, and whether
      Activator.CreateInstance can build it (a parameterless constructor). */
  datatype Class = Class(
    name: string,
    fields: seq<Member>,
    properties: seq<Member>,
    methods: seq<MethodDecl>,
    constructors: seq<CtorDecl>,
    optional: OptionalFields,
    constructible: bool)

  // ---------------------------------------------------------------- values

  /** A runtime object; each one carries its runtime type, as a boxed .NET
      object does. An ObjectVal holds one value per field and per property
      of its class. */
  datatype Value =
    | Null
    | Str(s: string)
    | EnumVal(enumType: EnumType, number: int)
    | IntVal(kind: IntKind, number: int)
    | DictVal(keyType: Type, valueType: Type, entries: seq<(Value, Value)>)
    | ListVal(elemType: Type, items: seq<Value>)
    | ArrayVal(elemType: Type, items: seq<Value>)
    | ObjectVal(cls: Class, fieldValues: seq<Value>, propertyValues: seq<Value>)
    | NodeVal(node: Node)

  /** obj.GetType() for a non-null object. */
  function RuntimeType(v: Value): Type
    requires v != Null
  {
    match v
    case Str(_) => TString
    case EnumVal(e, _) => TEnum(e)
    case IntVal(k, _) => TInt(k)
    case DictVal(k, t, _) => TDict(k, t)
    case ListVal(t, _) => TList(t)
    case ArrayVal(t, _) => TArray(t)
    case ObjectVal(c, _, _) => TClass(c)
    case NodeVal(_) => TNode
  }

  /** An object holds exactly one value per member of its class. */
  predicate Shaped(v: Value) {
    v.ObjectVal? ==> |v.fieldValues| == |v.cls.fields| && |v.propertyValues| == |v.cls.properties|
  }

  /** Value types that cannot hold null (integers and enums). */
  predicate NonNullable(ty: Type) {
    ty.TInt? || ty.TEnum?
  }

  /** The class of `new object()`. */
  const ObjectClass: Class := Class("Object", [], [], [], [], NoOptionalFields, true)

  /** The instance a parameterless constructor builds. */
  function DefaultObject(c: Class): (r: Value)
    ensures r.ObjectVal? && Shaped(r) && r.cls == c
  {
    ObjectVal(c, seq(|c.fields|, i requires 0 <= i < |c.fields| => c.fields[i].initial),
              seq(|c.properties|, i requires 0 <= i < |c.properties| => c.properties[i].initial))
  }

  /** Activator.CreateInstance(type): zero for integers and enums, null for
      Nullable<T>, empty collections, the default instance of a
      constructible class; string, arrays, YamlNode (abstract) and classes
      without a parameterless constructor throw MissingMethodException. */
  function DefaultOf(ty: Type): (r: Result<Value>)
    ensures r.Ok? && r.value != Null ==> RuntimeType(r.value) == ty || (ty == TObject && r.value == DefaultObject(ObjectClass))
    ensures r.Ok? && r.value == Null <==> ty.TNullable?
    ensures r.Err? <==> ty.TString? || ty.TArray? || ty.TNode? || (ty.TClass? && !ty.cls.constructible)
  {
    match ty
    case TObject => Ok(DefaultObject(ObjectClass))
    case TString => Err(MissingMethod)
    case TEnum(e) => Ok(EnumVal(e, 0))
    case TInt(k) => Ok(IntVal(k, 0))
    case TNullable(_) => Ok(Null)
    case TDict(k, t) => Ok(DictVal(k, t, []))
    case TList(t) => Ok(ListVal(t, []))
    case TArray(_) => Err(MissingMethod)
    case TNode => Err(MissingMethod)
    case TClass(c) => if c.constructible then Ok(DefaultObject(c)) else Err(MissingMethod)
  }

  /** What reflection stores when `x` is assigned to a member of type `ty`:
      null becomes the default of a non-nullable value type. */
  function Coerce(x: Value, ty: Type): (r: Value)
    ensures x != Null ==> r == x
    ensures x == Null && ty.TInt? ==> r == IntVal(ty.kind, 0)
    ensures x == Null && ty.TEnum? ==> r == EnumVal(ty.enumType, 0)
    ensures x == Null && !NonNullable(ty) ==> r == Null
  {
    if x == Null && NonNullable(ty) then DefaultOf(ty).value else x
  }

  // ---------------------------------------------------------------- member access

  /** A member of a class, by position among its fields or its properties. */
  datatype MemberRef = FieldRef(index: nat) | PropertyRef(index: nat)

  predicate ValidRef(c: Class, r: MemberRef) {
    match r
    case FieldRef(i) => i < |c.fields|
    case PropertyRef(i) => i < |c.properties|
  }

  function MemberOf(c: Class, r: MemberRef): Member
    requires ValidRef(c, r)
  {
    match r
    case FieldRef(i) => c.fields[i]
    case PropertyRef(i) => c.properties[i]
  }

  /** GetVal on a field or property: the value stored in the object. */
  function GetVal(obj: Value, r: MemberRef): Value
    requires obj.ObjectVal? && Shaped(obj) && ValidRef(obj.cls, r)
  {
    match r
    case FieldRef(i) => obj.fieldValues[i]
    case PropertyRef(i) => obj.propertyValues[i]
  }

  /** SetVal on a field or property: stores `x` (coerced to the member's
      type) and changes nothing else; a property without a setter throws. */
  function SetVal(obj: Value, r: MemberRef, x: Value): (res: Result<Value>)
    requires obj.ObjectVal? && Shaped(obj) && ValidRef(obj.cls, r)
    ensures res.Err? <==> r.PropertyRef? && !obj.cls.properties[r.index].hasSetter
    ensures res.Ok? ==> && res.value.ObjectVal? && Shaped(res.value) && res.value.cls == obj.cls
                        && GetVal(res.value, r) == Coerce(x, MemberOf(obj.cls, r).ty)
                        && forall q :: ValidRef(obj.cls, q) && q != r ==> GetVal(res.value, q) == GetVal(obj, q)
  {
    match r
    case FieldRef(i) =>
      Ok(obj.(fieldValues := obj.fieldValues[i := Coerce(x, obj.cls.fields[i].ty)]))
    case PropertyRef(i) =>
      if obj.cls.properties[i].hasSetter
      then Ok(obj.(propertyValues := obj.propertyValues[i := Coerce(x, obj.cls.properties[i].ty)]))
      else Err(InvalidArgument(""))
  }

  /** The fields of a class followed by its properties. */
  function Members(c: Class): seq<Member> {
    c.fields + c.properties
  }

  /** The values an object holds, fields first. */
  function MemberValues(v: Value): seq<Value>
    requires v.ObjectVal?
  {
    v.fieldValues + v.propertyValues
  }

  /** The reference of the i-th of Members(c). */
  function RefAt(c: Class, i: nat): (r: MemberRef)
    requires i < |Members(c)|
    ensures ValidRef(c, r) && MemberOf(c, r) == Members(c)[i]
  {
    if i < |c.fields| then FieldRef(i) else PropertyRef(i - |c.fields|)
  }

  /** Storing into the i-th member changes that member's value, coerced to
      its type, and no other. */
  lemma SetValAt(obj: Value, i: nat, x: Value)
    requires obj.ObjectVal? && Shaped(obj) && i < |Members(obj.cls)| && SetVal(obj, RefAt(obj.cls, i), x).Ok?
    ensures SetVal(obj, RefAt(obj.cls, i), x).value.ObjectVal?
    ensures |MemberValues(SetVal(obj, RefAt(obj.cls, i), x).value)| == |MemberValues(obj)|
    ensures MemberValues(SetVal(obj, RefAt(obj.cls, i), x).value)[i] == Coerce(x, Members(obj.cls)[i].ty)
    ensures forall k :: 0 <= k < |MemberValues(obj)| && k != i ==>
              MemberValues(SetVal(obj, RefAt(obj.cls, i), x).value)[k] == MemberValues(obj)[k]
  {
    var c := obj.cls;
    var v := SetVal(obj, RefAt(c, i), x).value;
    forall k | 0 <= k < |MemberValues(obj)|
      ensures MemberValues(v)[k] == GetVal(v, RefAt(c, k)) && MemberValues(obj)[k] == GetVal(obj, RefAt(c, k))
    {
    }
    forall k | 0 <= k < |MemberValues(obj)| && k != i
      ensures MemberValues(v)[k] == MemberValues(obj)[k]
    {
      assert RefAt(c, k) != RefAt(c, i);
    }
  }

  /** The default instance holds each member's initial value. */
  lemma DefaultObjectValues(c: Class)
    ensures |MemberValues(DefaultObject(c))| == |Members(c)|
    ensures forall k :: 0 <= k < |Members(c)| ==> MemberValues(DefaultObject(c))[k] == Members(c)[k].initial
  {
  }

  /** ConvertName: a member's key is its name in snake case. */
  function ConvertName(m: Member): string {
    StringUtils.ToSnake(m.name)
  }

  // ---------------------------------------------------------------- attribute search

  /** The first position whose element carries the attribute `has`. */
  function FirstWith<T>(xs: seq<T>, has: T -> bool): (r: Option<nat>)
    ensures r.Some? ==> r.value < |xs| && has(xs[r.value]) && forall j :: 0 <= j < r.value ==> !has(xs[j])
    ensures r.None? ==> forall j :: 0 <= j < |xs| ==> !has(xs[j])
    decreases |xs|
  {
    if xs == [] then None
    else if has(xs[0]) then Some(0)
    else match FirstWith(xs[1..], has)
      case None => None
      case Some(j) => Some(j + 1)
  }

  /** WithAttribute: the foreach loop returning the first member that carries
      the attribute, or null. */
  method WithAttribute<T>(members: seq<T>, has: T -> bool) returns (r: Option<nat>)
    ensures r == FirstWith(members, has)
  {
    for i := 0 to |members|
      invariant forall j :: 0 <= j < i ==> !has(members[j])
    {
      if has(members[i]) {
        FirstWithIsFirst(members, has, i);
        return Some(i);
      }
    }
    FirstWithNone(members, has);
    return None;
  }

  lemma FirstWithIsFirst<T>(xs: seq<T>, has: T -> bool, i: nat)
    requires i < |xs| && has(xs[i]) && forall j :: 0 <= j < i ==> !has(xs[j])
    ensures FirstWith(xs, has) == Some(i)
  {
    var r := FirstWith(xs, has);
    assert r.Some?;
    if r.value < i {
    } else if r.value > i {
    }
  }

  lemma FirstWithNone<T>(xs: seq<T>, has: T -> bool)
    requires forall j :: 0 <= j < |xs| ==> !has(xs[j])
    ensures FirstWith(xs, has) == None
  {
  }

  predicate IsRoot(m: Member) { m.isRoot }
  predicate IsSerializerMember(m: Member) { m.isSerializer }
  predicate IsSerializerMethod(m: MethodDecl) { m.isSerializer }
  predicate IsParserMethod(m: MethodDecl) { m.isParser }
  predicate IsParserCtor(c: CtorDecl) { c.isParser }

  /** FindRoot: the first [Root] field (public or not), else the first [Root]
      property, else none. */
  function FindRoot(c: Class): (r: Option<MemberRef>)
    ensures r.Some? ==> ValidRef(c, r.value) && MemberOf(c, r.value).isRoot
    ensures r.Some? && r.value.FieldRef? ==> forall j :: 0 <= j < r.value.index ==> !c.fields[j].isRoot
    ensures r.Some? && r.value.PropertyRef? ==>
              (forall j :: 0 <= j < |c.fields| ==> !c.fields[j].isRoot)
              && forall j :: 0 <= j < r.value.index ==> !c.properties[j].isRoot
    ensures r.None? ==> (forall j :: 0 <= j < |c.fields| ==> !c.fields[j].isRoot)
                        && forall j :: 0 <= j < |c.properties| ==> !c.properties[j].isRoot
  {
    match FirstWith(c.fields, IsRoot)
    case Some(i) => Some(FieldRef(i))
    case None =>
      match FirstWith(c.properties, IsRoot)
      case Some(i) => Some(PropertyRef(i))
      case None => None
  }

  /** A [Serializer]: a member whose stored value is used, or a method that is
      called. */
  datatype SerializerRef = SerializerMember(member: MemberRef) | SerializerMethod(index: nat)

  /** FindSerializer: the first [Serializer] field, else property, else
      method. */
  function FindSerializer(c: Class): (r: Option<SerializerRef>)
    ensures r.Some? && r.value.SerializerMember? ==>
              ValidRef(c, r.value.member) && MemberOf(c, r.value.member).isSerializer
    ensures r.Some? && r.value.SerializerMember? && r.value.member.FieldRef? ==>
              forall j :: 0 <= j < r.value.member.index ==> !c.fields[j].isSerializer
    ensures r.Some? && r.value.SerializerMember? && r.value.member.PropertyRef? ==>
              (forall j :: 0 <= j < |c.fields| ==> !c.fields[j].isSerializer)
              && forall j :: 0 <= j < r.value.member.index ==> !c.properties[j].isSerializer
    ensures r.Some? && r.value.SerializerMethod? ==>
              && r.value.index < |c.methods| && c.methods[r.value.index].isSerializer
              && (forall j :: 0 <= j < |c.fields| ==> !c.fields[j].isSerializer)
              && (forall j :: 0 <= j < |c.properties| ==> !c.properties[j].isSerializer)
              && forall j :: 0 <= j < r.value.index ==> !c.methods[j].isSerializer
    ensures r.None? ==> && (forall j :: 0 <= j < |c.fields| ==> !c.fields[j].isSerializer)
                        && (forall j :: 0 <= j < |c.properties| ==> !c.properties[j].isSerializer)
                        && forall j :: 0 <= j < |c.methods| ==> !c.methods[j].isSerializer
  {
    match FirstWith(c.fields, IsSerializerMember)
    case Some(i) => Some(SerializerMember(FieldRef(i)))
    case None =>
      match FirstWith(c.properties, IsSerializerMember)
      case Some(i) => Some(SerializerMember(PropertyRef(i)))
      case None =>
        match FirstWith(c.methods, IsSerializerMethod)
        case Some(i) => Some(SerializerMethod(i))
        case None => None
  }

  /** A [Parser]: a constructor, or a method called on a default instance. */
  datatype ParserRef = ParserCtor(index: nat) | ParserMethod(index: nat)

  /** FindParser: the first [Parser] constructor, else the first [Parser]
      method. */
  function FindParser(c: Class): (r: Option<ParserRef>)
    ensures r.Some? && r.value.ParserCtor? ==>
              r.value.index < |c.constructors| && c.constructors[r.value.index].isParser
              && forall j :: 0 <= j < r.value.index ==> !c.constructors[j].isParser
    ensures r.Some? && r.value.ParserMethod? ==>
              && r.value.index < |c.methods| && c.methods[r.value.index].isParser
              && (forall j :: 0 <= j < |c.constructors| ==> !c.constructors[j].isParser)
              && forall j :: 0 <= j < r.value.index ==> !c.methods[j].isParser
    ensures r.None? ==> (forall j :: 0 <= j < |c.constructors| ==> !c.constructors[j].isParser)
                        && forall j :: 0 <= j < |c.methods| ==> !c.methods[j].isParser
  {
    match FirstWith(c.constructors, IsParserCtor)
    case Some(i) => Some(ParserCtor(i))
    case None =>
      match FirstWith(c.methods, IsParserMethod)
      case Some(i) => Some(ParserMethod(i))
      case None => None
  }

  // ---------------------------------------------------------------- hooks

  /** The bodies of user hooks, which the codec only calls:
      `serializeMethod(c, i, obj)` runs the i-th method of `c` on `obj`;
      `runParser(c, p, self, arg)` runs parser `p` with argument `arg`, on
      `self` (a default instance) for a method or on null for a constructor,
      and gives the object it leaves. */
  datatype Hooks = Hooks(
    serializeMethod: (Class, nat, Value) -> Result<Value>,
    runParser: (Class, ParserRef, Value, Value) -> Result<Value>)
}

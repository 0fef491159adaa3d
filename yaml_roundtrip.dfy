/** The scalar and [Root] cases of YamlParser read against each other: what
    Serialize writes for a string, an enum or an integer, Parse reads back as
    the same value of the same runtime type. */
module YamlRoundTrip {
  import opened Wrappers
  import opened Framework
  import opened YamlNodes
  import opened YamlTypes
  import opened YamlSerialize
  import opened YamlParse
  import StringUtils

  /** A value whose scalar form reads back: a string; an enum value of an
      enum with distinct Pascal-case names, held in an int; an integer that
      fits its kind. */
  predicate ScalarValue(v: Value) {
    match v
    case Str(_) => true
    case EnumVal(e, x) => StringUtils.WellNamed(e) && IntKind.Int32.Contains(x)
    case IntVal(k, x) => k.Contains(x)
    case _ => false
  }

  /** A string, enum or integer serializes to a scalar with non-null text (the
      string itself, the enum's name in snake case, the decimal digits), and
      parsing that scalar as the value's own runtime type gives the value
      back. */
  lemma ScalarRoundTrip(v: Value, hooks: Hooks)
    requires ScalarValue(v)
    ensures Serialize(v, hooks).Ok? && Serialize(v, hooks).value.Scalar?
    ensures Serialize(v, hooks).value.value.Some?
    ensures v.Str? ==> Serialize(v, hooks).value == Text(v.s)
    ensures Parse(Serialize(v, hooks).value, RuntimeType(v), hooks) == Ok(v)
  {
    match v
    case Str(_) =>
    case EnumVal(e, x) =>
      StringUtils.ParseUnderscoredEnumOfName(e, x);
    case IntVal(k, x) =>
      ConvertFromDecimal(k, [], x, []);
      assert [] + IntToString(x) + [] == IntToString(x);
  }

  /** Parsing a scalar as a string, enum or integer: any other node is an
      invalid cast and a null scalar is null, whatever the type; non-null
      text is itself as a string; as an enum it is what Enum.Parse makes of
      its Pascal-case form, and as an integer what the kind's converter makes
      of it, each failure propagating. */
  lemma ParseScalarNode(node: Node, ty: Type, hooks: Hooks)
    requires ty.TString? || ty.TEnum? || ty.TInt?
    ensures !node.Scalar? ==> Parse(node, ty, hooks) == Err(InvalidCast)
    ensures node == Scalar(None) ==> Parse(node, ty, hooks) == Ok(Null)
    ensures ty.TString? && node.Scalar? && node.value.Some? ==> Parse(node, ty, hooks) == Ok(Str(node.value.value))
    ensures ty.TEnum? && node.Scalar? && node.value.Some? ==>
              var x := EnumParse(ty.enumType, StringUtils.SnakeToPascal(node.value.value));
              && (Parse(node, ty, hooks).Ok? <==> x.Ok?)
              && (x.Ok? ==> Parse(node, ty, hooks).value == EnumVal(ty.enumType, x.value))
              && (x.Err? ==> Parse(node, ty, hooks).error == x.error)
    ensures ty.TInt? && node.Scalar? && node.value.Some? ==>
              var x := ConvertFromText(ty.kind, node.value.value);
              && (Parse(node, ty, hooks).Ok? <==> x.Ok?)
              && (x.Ok? ==> Parse(node, ty, hooks).value == IntVal(ty.kind, x.value) && ty.kind.Contains(x.value))
              && (x.Err? ==> Parse(node, ty, hooks).error == InvalidArgument("value"))
  {
  }

  /** An object of a class with a [Root] member serializes exactly as the
      value stored in that member. */
  lemma SerializeRoot(v: Value, hooks: Hooks)
    requires v.ObjectVal? && Shaped(v) && FindRoot(v.cls).Some?
    ensures Serialize(v, hooks) == Serialize(GetVal(v, FindRoot(v.cls).value), hooks)
  {
  }
}

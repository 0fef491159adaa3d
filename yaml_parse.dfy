/** YamlParser.Parse: a YAML node and a target type to a runtime value, in
    the order the source tries: object is rejected, then string, enum,
    integer primitive, [Parser] hook, default construction (an array through
    a List), [Root] member, dictionary, list, then member by member with a
    check that every key was used. */
module YamlParse {
  import opened Wrappers
  import opened Framework
  import opened Assoc
  import opened YamlNodes
  import opened YamlTypes
  import StringUtils
  import YamlHelper

  // ---------------------------------------------------------------- loops as folds

  /** The list loop after its first `n` items: list.Add(parsed) for each
      parsed item; adding null to a list of a non-nullable value type fails
      in the runtime binder. */
  function ListLoop(rs: seq<Result<Value>>, elemType: Type, n: nat): (r: Result<seq<Value>>)
    requires n <= |rs|
    ensures r.Ok? ==> && |r.value| == n
                      && forall j :: 0 <= j < n ==> rs[j] == Ok(r.value[j]) && !(r.value[j] == Null && NonNullable(elemType))
    decreases n
  {
    if n == 0 then Ok([])
    else
      var xs :- ListLoop(rs, elemType, n - 1);
      var x :- rs[n - 1];
      if x == Null && NonNullable(elemType) then Err(RuntimeBinder)
      else Ok(xs + [x])
  }

  /** Dictionary keys of these types are compared by value. Every other key
      Parse can return is an object it has just built (a dictionary, list,
      array or class instance) or the key node of the mapping itself;
      Dictionary compares those by reference, so none is ever already
      present. */
  predicate KeyedByValue(t: Type) {
    t.TString? || t.TEnum? || t.TInt?
  }

  /** The dictionary loop after its first `n` entries: the key is parsed, a
      null key is skipped, and any other key is added with DictAdd. */
  function DictLoop(keys: seq<Result<Value>>, values: seq<Result<Value>>, keyType: Type, valueType: Type, n: nat)
    : (r: Result<seq<(Value, Value)>>)
    requires |values| == |keys| && n <= |keys|
    ensures r.Ok? ==> && (KeyedByValue(keyType) ==> DistinctKeys(r.value)) && |r.value| <= n
                      && forall j :: 0 <= j < |r.value| ==> r.value[j].0 != Null
    decreases n
  {
    if n == 0 then Ok([])
    else
      var d :- DictLoop(keys, values, keyType, valueType, n - 1);
      var k :- keys[n - 1];
      if k == Null then Ok(d) else DictAdd(d, k, values[n - 1], keyType, valueType)
  }

  /** The entry for a non-null key k: the value is parsed, and
      IDictionary.Add rejects a null value for a non-nullable value type and,
      where keys compare by value, a key already present. */
  function DictAdd(d: seq<(Value, Value)>, k: Value, value: Result<Value>, keyType: Type, valueType: Type)
    : Result<seq<(Value, Value)>>
  {
    var x :- value;
    if x == Null && NonNullable(valueType) then Err(ArgumentNull("value"))
    else if KeyedByValue(keyType) then Add(d, k, x)
    else Ok(d + [(k, x)])
  }

  /** The keys of a mapping, as map.Children.Keys.ToHashSet(). */
  function KeysOf(entries: seq<(Node, Node)>): set<Node> {
    set i | 0 <= i < |entries| :: entries[i].0
  }

  /** The i-th member is visited by the member-wise loop: a public field, or
      a public property with a setter. */
  predicate IsSlot(c: Class, i: nat) {
    i < |Members(c)| && Members(c)[i].isPublic && (i < |c.fields| || Members(c)[i].hasSetter)
  }

  /** The object being filled and the keys not used so far. */
  type LoopState = (Value, set<Node>)

  predicate Filling(c: Class, st: LoopState) {
    st.0.ObjectVal? && Shaped(st.0) && st.0.cls == c
  }

  /** One turn of the member-wise loop, for the i-th member and the result of
      parsing its subnode. A missing key fails only for a Nullable member of
      a class without [OptionalFields]; [OptionalFields(true)] stores a
      default-constructed value; otherwise the member is left alone. A found
      key stores the parsed value and marks the key used. (SetVal cannot fail
      here: every visited member can be set.) */
  function MemberStep(c: Class, node: Node, res: Result<Value>, i: nat, st: LoopState): (r: Result<LoopState>)
    requires node.Mapping? && i < |Members(c)| && Filling(c, st)
    ensures r.Ok? ==> Filling(c, r.value)
  {
    if !IsSlot(c, i) then Ok(st)
    else
      var m := Members(c)[i];
      var ref := RefAt(c, i);
      var name := ConvertName(m);
      if YamlHelper.TryGet(Some(node), name).None? then
        if c.optional.NoOptionalFields? && m.ty.TNullable? then Err(MissingField(c.name, name))
        else if c.optional == OptionalFields(true) then
          var d :- DefaultOf(m.ty);
          Ok((SetVal(st.0, ref, d).value, st.1))
        else Ok(st)
      else
        var x :- res;
        Ok((SetVal(st.0, ref, x).value, st.1 - {Text(name)}))
  }

  /** The member-wise loop after its first `n` members, starting from the
      default instance with every key unused. */
  function MemberLoop(c: Class, node: Node, results: seq<Result<Value>>, n: nat): (r: Result<LoopState>)
    requires node.Mapping? && |results| == |Members(c)| && n <= |results|
    ensures r.Ok? ==> Filling(c, r.value)
    decreases n
  {
    if n == 0 then Ok((DefaultObject(c), KeysOf(node.entries)))
    else
      var st :- MemberLoop(c, node, results, n - 1);
      MemberStep(c, node, results[n - 1], n - 1, st)
  }

  /** A loop that has thrown stays thrown. */
  lemma {:induction false} ListLoopErr(rs: seq<Result<Value>>, elemType: Type, n: nat, m: nat)
    requires n <= m <= |rs| && ListLoop(rs, elemType, n).Err?
    ensures ListLoop(rs, elemType, m) == ListLoop(rs, elemType, n)
    decreases m
  {
    if m > n {
      ListLoopErr(rs, elemType, n, m - 1);
    }
  }

  lemma {:induction false} DictLoopErr(keys: seq<Result<Value>>, values: seq<Result<Value>>, keyType: Type,
                                       valueType: Type, n: nat, m: nat)
    requires |values| == |keys| && n <= m <= |keys| && DictLoop(keys, values, keyType, valueType, n).Err?
    ensures DictLoop(keys, values, keyType, valueType, m) == DictLoop(keys, values, keyType, valueType, n)
    decreases m
  {
    if m > n {
      DictLoopErr(keys, values, keyType, valueType, n, m - 1);
    }
  }

  lemma {:induction false} MemberLoopErr(c: Class, node: Node, results: seq<Result<Value>>, n: nat, m: nat)
    requires node.Mapping? && |results| == |Members(c)| && n <= m <= |results|
    requires MemberLoop(c, node, results, n).Err?
    ensures MemberLoop(c, node, results, m) == MemberLoop(c, node, results, n)
    decreases m
  {
    if m > n {
      MemberLoopErr(c, node, results, n, m - 1);
      MemberLoopStaysErr(c, node, results, m);
    }
  }

  /** A turn after a thrown one throws the same. */
  lemma MemberLoopStaysErr(c: Class, node: Node, results: seq<Result<Value>>, m: nat)
    requires node.Mapping? && |results| == |Members(c)| && 0 < m <= |results|
    requires MemberLoop(c, node, results, m - 1).Err?
    ensures MemberLoop(c, node, results, m) == MemberLoop(c, node, results, m - 1)
  {
  }

  /** One more item of the list loop. */
  lemma ListLoopNext(rs: seq<Result<Value>>, elemType: Type, i: nat, list: seq<Value>)
    requires i < |rs| && ListLoop(rs, elemType, i) == Ok(list)
    ensures rs[i].Err? ==> ListLoop(rs, elemType, i + 1) == Err(rs[i].error)
    ensures rs[i].Ok? && rs[i].value == Null && NonNullable(elemType) ==>
              ListLoop(rs, elemType, i + 1) == Err(RuntimeBinder)
    ensures rs[i].Ok? && !(rs[i].value == Null && NonNullable(elemType)) ==>
              ListLoop(rs, elemType, i + 1) == Ok(list + [rs[i].value])
  {
  }

  /** One more entry of the dictionary loop. */
  lemma DictLoopNext(keys: seq<Result<Value>>, values: seq<Result<Value>>, keyType: Type, valueType: Type, i: nat,
                     d: seq<(Value, Value)>)
    requires |values| == |keys| && i < |keys| && DictLoop(keys, values, keyType, valueType, i) == Ok(d)
    ensures keys[i].Err? ==> DictLoop(keys, values, keyType, valueType, i + 1) == Err(keys[i].error)
    ensures keys[i] == Ok(Null) ==> DictLoop(keys, values, keyType, valueType, i + 1) == Ok(d)
    ensures keys[i].Ok? && keys[i].value != Null ==>
              DictLoop(keys, values, keyType, valueType, i + 1) == DictAdd(d, keys[i].value, values[i], keyType, valueType)
  {
  }

  /** One more member of the member-wise loop. */
  lemma MemberLoopNext(c: Class, node: Node, results: seq<Result<Value>>, i: nat, st: LoopState)
    requires node.Mapping? && |results| == |Members(c)| && i < |results|
    requires MemberLoop(c, node, results, i) == Ok(st)
    ensures MemberLoop(c, node, results, i + 1) == MemberStep(c, node, results[i], i, st)
  {
  }

  // ---------------------------------------------------------------- the parser

  /** The string, enum and integer primitive branches: a non-scalar node is
      an invalid cast, a null scalar parses to null, an enum name is turned
      from snake_case back to PascalCase and looked up, and an integer goes
      through the kind's TypeConverter. */
  function ParseScalar(node: Node, ty: Type): Result<Value>
    requires ty.TString? || ty.TEnum? || ty.TInt?
  {
    if !node.Scalar? then Err(InvalidCast)
    else if node.value.None? then Ok(Null)
    else if ty.TString? then Ok(Str(node.value.value))
    else if ty.TEnum? then
      var x :- EnumParse(ty.enumType, StringUtils.SnakeToPascal(node.value.value));
      Ok(EnumVal(ty.enumType, x))
    else
      var x :- ConvertFromText(ty.kind, node.value.value);
      Ok(IntVal(ty.kind, x))
  }

  /** Parse(item, T) for each child of a sequence parsed as a list or array
      of T. */
  function ItemResults(node: Node, ty: Type, hooks: Hooks): (r: seq<Result<Value>>)
    requires node.Sequence? && (ty.TList? || ty.TArray?)
    ensures |r| == |node.items|
    ensures forall i :: 0 <= i < |r| ==> r[i] == Parse(node.items[i], ty.elemType, hooks)
    decreases ty, 1
  {
    seq(|node.items|, i requires 0 <= i < |node.items| => Parse(node.items[i], ty.elemType, hooks))
  }

  /** Parse(key, K) for each entry of a mapping parsed as a dictionary. */
  function KeyResults(node: Node, ty: Type, hooks: Hooks): (r: seq<Result<Value>>)
    requires node.Mapping? && ty.TDict?
    ensures |r| == |node.entries|
    ensures forall i :: 0 <= i < |r| ==> r[i] == Parse(node.entries[i].0, ty.keyType, hooks)
    decreases ty, 1
  {
    seq(|node.entries|, i requires 0 <= i < |node.entries| => Parse(node.entries[i].0, ty.keyType, hooks))
  }

  /** Parse(value, V) for each entry of a mapping parsed as a dictionary. */
  function ValueResults(node: Node, ty: Type, hooks: Hooks): (r: seq<Result<Value>>)
    requires node.Mapping? && ty.TDict?
    ensures |r| == |node.entries|
    ensures forall i :: 0 <= i < |r| ==> r[i] == Parse(node.entries[i].1, ty.valueType, hooks)
    decreases ty, 1
  {
    seq(|node.entries|, i requires 0 <= i < |node.entries| => Parse(node.entries[i].1, ty.valueType, hooks))
  }

  /** map.TryGet(ConvertName(member)). */
  function Subnode(node: Node, m: Member): Option<Node> {
    YamlHelper.TryGet(Some(node), ConvertName(m))
  }

  /** Parse(subnode, TypeOf(member)) for each member whose key is present
      (the loop uses no result for the others). */
  function MemberResults(node: Node, ty: Type, hooks: Hooks): (r: seq<Result<Value>>)
    requires ty.TClass?
    ensures |r| == |Members(ty.cls)|
    ensures forall i :: 0 <= i < |r| && Subnode(node, Members(ty.cls)[i]).Some? ==>
              r[i] == Parse(Subnode(node, Members(ty.cls)[i]).value, Members(ty.cls)[i].ty, hooks)
    decreases ty, 1
  {
    var c := ty.cls;
    seq(|c.fields| + |c.properties|, i requires 0 <= i < |c.fields| + |c.properties| =>
      if i < |c.fields| then
        var sub := Subnode(node, c.fields[i]);
        if sub.Some? then Parse(sub.value, c.fields[i].ty, hooks) else Ok(Null)
      else
        var sub := Subnode(node, c.properties[i - |c.fields|]);
        if sub.Some? then Parse(sub.value, c.properties[i - |c.fields|].ty, hooks) else Ok(Null))
  }

  /** The end of the member-wise branch: the loop's object when every key was
      used, else InvalidDataException. */
  function MemberWise(c: Class, node: Node, results: seq<Result<Value>>): Result<Value>
    requires node.Mapping? && |results| == |Members(c)|
  {
    var st :- MemberLoop(c, node, results, |results|);
    if st.1 != {} then Err(UnusedNodes(c.name)) else Ok(st.0)
  }

  /** The list and array branches: the children are parsed into a List, and
      an array is that list's ToArray(). */
  function ParseList(node: Node, ty: Type, hooks: Hooks): Result<Value>
    requires ty.TList? || ty.TArray?
    decreases ty, 2
  {
    if !node.Sequence? then Err(InvalidCast)
    else
      var xs :- ListLoop(ItemResults(node, ty, hooks), ty.elemType, |node.items|);
      Ok(if ty.TArray? then ArrayVal(ty.elemType, xs) else ListVal(ty.elemType, xs))
  }

  /** The dictionary branch. */
  function ParseDict(node: Node, ty: Type, hooks: Hooks): Result<Value>
    requires ty.TDict?
    decreases ty, 2
  {
    if !node.Mapping? then Err(InvalidCast)
    else
      var d :- DictLoop(KeyResults(node, ty, hooks), ValueResults(node, ty, hooks), ty.keyType, ty.valueType, |node.entries|);
      Ok(DictVal(ty.keyType, ty.valueType, d))
  }

  /** The declared parameter of a [Parser] constructor or method. */
  function ParserParam(c: Class, p: ParserRef): Param
    requires match p
      case ParserCtor(i) => i < |c.constructors|
      case ParserMethod(i) => i < |c.methods|
  {
    match p
    case ParserCtor(i) => c.constructors[i].param
    case ParserMethod(i) => c.methods[i].param
  }

  /** The [Parser] branch: the argument is the node itself or the node parsed
      as the parameter's type; a constructor is invoked directly, a method on
      a default-constructed instance. */
  function ParseWithParser(node: Node, ty: Type, p: ParserRef, hooks: Hooks): Result<Value>
    requires ty.TClass? && FindParser(ty.cls) == Some(p)
    decreases ty, 1
  {
    var c := ty.cls;
    var param := ParserParam(c, p);
    var arg :- if param.NodeParam? then Ok(NodeVal(node)) else Parse(node, param.ty, hooks);
    if p.ParserCtor? then hooks.runParser(c, p, Null, arg)
    else
      var self :- DefaultOf(ty);
      hooks.runParser(c, p, self, arg)
  }

  /** The [Root] branch: the node is parsed as the root member's type and
      stored into a default instance. */
  function ParseRoot(node: Node, ty: Type, root: MemberRef, hooks: Hooks): Result<Value>
    requires ty.TClass? && ValidRef(ty.cls, root)
    decreases ty, 1
  {
    var x :- Parse(node, MemberOf(ty.cls, root).ty, hooks);
    SetVal(DefaultObject(ty.cls), root, x)
  }

  /** The branches for a class: a parser, else default construction (which
      needs a parameterless constructor), then the root member, else the
      member-wise fill of a mapping. */
  function ParseClass(node: Node, ty: Type, hooks: Hooks): Result<Value>
    requires ty.TClass?
    decreases ty, 2
  {
    var c := ty.cls;
    match FindParser(c)
    case Some(p) => ParseWithParser(node, ty, p, hooks)
    case None =>
      if !c.constructible then Err(MissingMethod)
      else match FindRoot(c)
        case Some(root) => ParseRoot(node, ty, root, hooks)
        case None =>
          if !node.Mapping? then Err(InvalidCast)
          else MemberWise(c, node, MemberResults(node, ty, hooks))
  }

  /** Parse(node, type). */
  function Parse(node: Node, ty: Type, hooks: Hooks): Result<Value>
    decreases ty, 3
  {
    match ty
    case TObject => Err(InvalidOperation)
    case TString => ParseScalar(node, ty)
    case TEnum(_) => ParseScalar(node, ty)
    case TInt(_) => ParseScalar(node, ty)
    case TNullable(_) => Ok(Null)
    case TNode => Err(MissingMethod)
    case TArray(_) => ParseList(node, ty, hooks)
    case TList(_) => ParseList(node, ty, hooks)
    case TDict(_, _) => ParseDict(node, ty, hooks)
    case TClass(_) => ParseClass(node, ty, hooks)
  }

  /** YamlParser.Parse<T>(node): the cast (T?) of a null result to a
      non-nullable value type throws. */
  function ParseAs(node: Node, ty: Type, hooks: Hooks): (r: Result<Value>)
    ensures r.Ok? ==> Parse(node, ty, hooks) == r
    ensures Parse(node, ty, hooks).Ok? && !(Parse(node, ty, hooks).value == Null && NonNullable(ty)) ==>
              r == Parse(node, ty, hooks)
    ensures Parse(node, ty, hooks) == Ok(Null) && NonNullable(ty) ==> r == Err(NullReference)
  {
    var x :- Parse(node, ty, hooks);
    if x == Null && NonNullable(ty) then Err(NullReference) else Ok(x)
  }

  // ---------------------------------------------------------------- the loops

  /** Parse as written: the dictionary and list are filled by Add in foreach
      loops, and the default instance is filled member by member through
      SetVal while used keys are removed from a set; it computes exactly
      Parse. */
  method ParseNode(node: Node, ty: Type, hooks: Hooks) returns (r: Result<Value>)
    ensures r == Parse(node, ty, hooks)
    decreases ty, 3
  {
    match ty {
      case TObject => return Err(InvalidOperation);
      case TString => return ParseScalar(node, ty);
      case TEnum(_) => return ParseScalar(node, ty);
      case TInt(_) => return ParseScalar(node, ty);
      case TNullable(_) => return Ok(Null);
      case TNode => return Err(MissingMethod);
      case TArray(_) => r := ParseCollection(node, ty, hooks);
      case TList(_) => r := ParseCollection(node, ty, hooks);
      case TDict(_, _) => r := ParseDictionary(node, ty, hooks);
      case TClass(_) => r := ParseObject(node, ty, hooks);
    }
  }

  /** The class branches, with the member-wise fill as a loop. */
  method ParseObject(node: Node, ty: Type, hooks: Hooks) returns (r: Result<Value>)
    requires ty.TClass?
    ensures r == ParseClass(node, ty, hooks)
    decreases ty, 2
  {
    var c := ty.cls;
    var parser := FindParser(c);
    if parser.Some? {
      var p := parser.value;
      var param := ParserParam(c, p);
      var arg: Value;
      if param.NodeParam? {
        arg := NodeVal(node);
      } else {
        var a := ParseNode(node, param.ty, hooks);
        if a.Err? {
          return Err(a.error);
        }
        arg := a.value;
      }
      if p.ParserCtor? {
        return hooks.runParser(c, p, Null, arg);
      }
      var self := DefaultOf(ty);
      if self.Err? {
        return Err(self.error);
      }
      return hooks.runParser(c, p, self.value, arg);
    }
    if !c.constructible {
      return Err(MissingMethod);
    }
    var result := DefaultObject(c);
    var root := FindRoot(c);
    if root.Some? {
      var x := ParseNode(node, MemberOf(c, root.value).ty, hooks);
      if x.Err? {
        return Err(x.error);
      }
      return SetVal(result, root.value, x.value);
    }
    if !node.Mapping? {
      return Err(InvalidCast);
    }
    r := ParseMembers(node, ty, hooks);
  }

  /** The list branch: a sequence node, then the list loop. */
  method ParseCollection(node: Node, ty: Type, hooks: Hooks) returns (r: Result<Value>)
    requires ty.TList? || ty.TArray?
    ensures r == ParseList(node, ty, hooks)
    decreases ty, 2
  {
    if !node.Sequence? {
      return Err(InvalidCast);
    }
    var items := CollectItems(node, ty, hooks);
    ParseListOfLoop(node, ty, hooks);
    if items.Err? {
      return Err(items.error);
    }
    return Ok(if ty.TArray? then ArrayVal(ty.elemType, items.value) else ListVal(ty.elemType, items.value));
  }

  /** The list loop: list.Add(Parse(item, T)) for each child. */
  method CollectItems(node: Node, ty: Type, hooks: Hooks) returns (r: Result<seq<Value>>)
    requires node.Sequence? && (ty.TList? || ty.TArray?)
    ensures r == ListLoop(ItemResults(node, ty, hooks), ty.elemType, |node.items|)
    decreases ty, 1
  {
    ghost var rs := ItemResults(node, ty, hooks);
    var list: seq<Value> := [];
    for i := 0 to |node.items|
      invariant |rs| == |node.items|
      invariant ListLoop(rs, ty.elemType, i) == Ok(list)
    {
      var next := ParseItem(node, ty, hooks, i, list);
      if next.Err? {
        ListLoopErr(rs, ty.elemType, i + 1, |node.items|);
        return Err(next.error);
      }
      list := next.value;
    }
    return Ok(list);
  }

  /** On a sequence, the list branch is the list loop's outcome. */
  lemma ParseListOfLoop(node: Node, ty: Type, hooks: Hooks)
    requires node.Sequence? && (ty.TList? || ty.TArray?)
    ensures ListLoop(ItemResults(node, ty, hooks), ty.elemType, |node.items|).Err? ==>
              ParseList(node, ty, hooks) == Err(ListLoop(ItemResults(node, ty, hooks), ty.elemType, |node.items|).error)
    ensures ListLoop(ItemResults(node, ty, hooks), ty.elemType, |node.items|).Ok? ==>
              var xs := ListLoop(ItemResults(node, ty, hooks), ty.elemType, |node.items|).value;
              ParseList(node, ty, hooks) == Ok(if ty.TArray? then ArrayVal(ty.elemType, xs) else ListVal(ty.elemType, xs))
  {
  }

  /** The body of the list loop for the i-th child. */
  method ParseItem(node: Node, ty: Type, hooks: Hooks, i: nat, list: seq<Value>) returns (r: Result<seq<Value>>)
    requires node.Sequence? && (ty.TList? || ty.TArray?) && i < |node.items|
    requires ListLoop(ItemResults(node, ty, hooks), ty.elemType, i) == Ok(list)
    ensures r == ListLoop(ItemResults(node, ty, hooks), ty.elemType, i + 1)
    decreases ty, 0
  {
    var parsed := ParseNode(node.items[i], ty.elemType, hooks);
    ListLoopNext(ItemResults(node, ty, hooks), ty.elemType, i, list);
    if parsed.Err? {
      return Err(parsed.error);
    }
    if parsed.value == Null && NonNullable(ty.elemType) {
      return Err(RuntimeBinder);
    }
    return Ok(list + [parsed.value]);
  }

  /** The dictionary loop: a key parsing to null is skipped, otherwise
      dict.Add(key, Parse(value, V)). */
  method ParseDictionary(node: Node, ty: Type, hooks: Hooks) returns (r: Result<Value>)
    requires ty.TDict?
    ensures r == ParseDict(node, ty, hooks)
    decreases ty, 2
  {
    if !node.Mapping? {
      return Err(InvalidCast);
    }
    ghost var keys := KeyResults(node, ty, hooks);
    ghost var values := ValueResults(node, ty, hooks);
    var dict: seq<(Value, Value)> := [];
    for i := 0 to |node.entries|
      invariant DictLoop(keys, values, ty.keyType, ty.valueType, i) == Ok(dict)
    {
      var next := ParseEntry(node, ty, hooks, i, dict);
      if next.Err? {
        DictLoopErr(keys, values, ty.keyType, ty.valueType, i + 1, |node.entries|);
        return Err(next.error);
      }
      dict := next.value;
    }
    return Ok(DictVal(ty.keyType, ty.valueType, dict));
  }

  /** The body of the dictionary loop for the i-th entry. */
  method ParseEntry(node: Node, ty: Type, hooks: Hooks, i: nat, dict: seq<(Value, Value)>)
    returns (r: Result<seq<(Value, Value)>>)
    requires node.Mapping? && ty.TDict? && i < |node.entries|
    requires DictLoop(KeyResults(node, ty, hooks), ValueResults(node, ty, hooks), ty.keyType, ty.valueType, i) == Ok(dict)
    ensures r == DictLoop(KeyResults(node, ty, hooks), ValueResults(node, ty, hooks), ty.keyType, ty.valueType, i + 1)
    decreases ty, 1
  {
    var k := ParseNode(node.entries[i].0, ty.keyType, hooks);
    DictLoopNext(KeyResults(node, ty, hooks), ValueResults(node, ty, hooks), ty.keyType, ty.valueType, i, dict);
    if k.Err? {
      return Err(k.error);
    }
    if k.value == Null {
      return Ok(dict);
    }
    var x := ParseNode(node.entries[i].1, ty.valueType, hooks);
    if x.Err? {
      return Err(x.error);
    }
    if x.value == Null && NonNullable(ty.valueType) {
      return Err(ArgumentNull("value"));
    }
    // Dictionary.Add looks the key up with the key type's Equals
    if KeyedByValue(ty.keyType) && HasKey(dict, k.value) {
      return Err(DuplicateKey);
    }
    return Ok(dict + [(k.value, x.value)]);
  }

  /** The member-wise loop over the public fields and the public properties
      with a setter, then the unused-key check. */
  method ParseMembers(node: Node, ty: Type, hooks: Hooks) returns (r: Result<Value>)
    requires ty.TClass? && node.Mapping?
    ensures r == MemberWise(ty.cls, node, MemberResults(node, ty, hooks))
    decreases ty, 1
  {
    var c := ty.cls;
    ghost var results := MemberResults(node, ty, hooks);
    var result := DefaultObject(c);
    var unusedNodes := KeysOf(node.entries);
    for i := 0 to |Members(c)|
      invariant MemberLoop(c, node, results, i) == Ok((result, unusedNodes))
    {
      var next := ParseMember(node, ty, hooks, i, (result, unusedNodes));
      MemberLoopNext(c, node, results, i, (result, unusedNodes));
      if next.Err? {
        MemberLoopErr(c, node, results, i + 1, |results|);
        return Err(next.error);
      }
      result, unusedNodes := next.value.0, next.value.1;
    }
    if unusedNodes != {} {
      return Err(UnusedNodes(c.name));
    }
    return Ok(result);
  }

  /** The body of the member-wise loop for the i-th member. */
  method ParseMember(node: Node, ty: Type, hooks: Hooks, i: nat, st: LoopState) returns (r: Result<LoopState>)
    requires ty.TClass? && node.Mapping? && i < |Members(ty.cls)| && Filling(ty.cls, st)
    ensures r == MemberStep(ty.cls, node, MemberResults(node, ty, hooks)[i], i, st)
    decreases ty, 0
  {
    var c := ty.cls;
    if !IsSlot(c, i) {
      return Ok(st);
    }
    var m := Members(c)[i];
    var name := StringUtils.PascalToSnake(m.name);
    var subnode := YamlHelper.TryGet(Some(node), name);
    if subnode.None? {
      if c.optional.NoOptionalFields? && m.ty.TNullable? {
        return Err(MissingField(c.name, name));
      }
      if c.optional == OptionalFields(true) {
        var d := DefaultOf(m.ty);
        if d.Err? {
          return Err(d.error);
        }
        return Ok((SetVal(st.0, RefAt(c, i), d.value).value, st.1));
      }
      return Ok(st);
    }
    var x := ParseNode(subnode.value, m.ty, hooks);
    if x.Err? {
      return Err(x.error);
    }
    return Ok((SetVal(st.0, RefAt(c, i), x.value).value, st.1 - {Text(name)}));
  }

  // ---------------------------------------------------------------- lists

  /** Every item parses, to a non-null value when the element type is a
      value type. */
  predicate ItemsParse(rs: seq<Result<Value>>, elemType: Type, n: nat)
    requires n <= |rs|
  {
    forall j :: 0 <= j < n ==> rs[j].Ok? && !(rs[j].value == Null && NonNullable(elemType))
  }

  /** The list loop succeeds exactly when every item parses to something a
      list of that element type can hold. */
  lemma {:induction false} ListLoopOk(rs: seq<Result<Value>>, elemType: Type, n: nat)
    requires n <= |rs|
    ensures ListLoop(rs, elemType, n).Ok? <==> ItemsParse(rs, elemType, n)
    decreases n
  {
    if n > 0 {
      ListLoopOk(rs, elemType, n - 1);
    }
  }

  /** A sequence node parses as a list or array exactly when each child
      parses as the element type (non-null for a value type), to the parsed
      children in order. */
  lemma ParseListItems(node: Node, ty: Type, hooks: Hooks)
    requires ty.TList? || ty.TArray?
    ensures Parse(node, ty, hooks).Ok? <==>
              node.Sequence? && ItemsParse(ItemResults(node, ty, hooks), ty.elemType, |node.items|)
    ensures Parse(node, ty, hooks).Ok? ==>
              && (if ty.TList? then Parse(node, ty, hooks).value.ListVal? else Parse(node, ty, hooks).value.ArrayVal?)
              && Parse(node, ty, hooks).value.elemType == ty.elemType
              && |Parse(node, ty, hooks).value.items| == |node.items|
              && forall i :: 0 <= i < |node.items| ==>
                   Parse(node.items[i], ty.elemType, hooks) == Ok(Parse(node, ty, hooks).value.items[i])
  {
    if node.Sequence? {
      ListLoopOk(ItemResults(node, ty, hooks), ty.elemType, |node.items|);
    }
  }

  // ---------------------------------------------------------------- dictionaries

  /** Every key parses; every non-null key's value parses, to non-null for a
      value type; and, where keys compare by value, no two non-null keys are
      equal. */
  predicate EntriesParse(keys: seq<Result<Value>>, values: seq<Result<Value>>, keyType: Type, valueType: Type, n: nat)
    requires |values| == |keys| && n <= |keys|
  {
    && (forall j :: 0 <= j < n ==> keys[j].Ok?)
    && (forall j :: 0 <= j < n && keys[j].Ok? && keys[j].value != Null ==>
          values[j].Ok? && !(values[j].value == Null && NonNullable(valueType)))
    && (KeyedByValue(keyType) ==>
          forall j, k :: 0 <= j < k < n && keys[j].Ok? && keys[k].Ok? && keys[j].value != Null ==>
            keys[j].value != keys[k].value)
  }

  /** The parsed key and value of each of the first n entries whose key
      parsed to non-null, in the mapping's order. */
  function Bound(keys: seq<Result<Value>>, values: seq<Result<Value>>, n: nat): seq<(Value, Value)>
    requires |values| == |keys| && n <= |keys|
  {
    if n == 0 then []
    else
      Bound(keys, values, n - 1)
        + if keys[n - 1].Ok? && keys[n - 1].value != Null && values[n - 1].Ok?
          then [(keys[n - 1].value, values[n - 1].value)]
          else []
  }

  /** A key is among the bound ones exactly when some entry bound it. */
  lemma {:induction false} BoundHasKey(keys: seq<Result<Value>>, values: seq<Result<Value>>, n: nat, k: Value)
    requires |values| == |keys| && n <= |keys|
    ensures HasKey(Bound(keys, values, n), k) <==>
              exists j :: 0 <= j < n && keys[j] == Ok(k) && k != Null && values[j].Ok?
  {
    if n > 0 {
      BoundHasKey(keys, values, n - 1, k);
      var d := Bound(keys, values, n - 1);
      var e := Bound(keys, values, n);
      assert forall p :: 0 <= p < |d| ==> e[p] == d[p];
      if HasKey(e, k) {
        var p :| 0 <= p < |e| && e[p].0 == k;
        if p >= |d| {
          assert keys[n - 1] == Ok(k);
        }
      }
      if exists j :: 0 <= j < n && keys[j] == Ok(k) && k != Null && values[j].Ok? {
        var j :| 0 <= j < n && keys[j] == Ok(k) && k != Null && values[j].Ok?;
        if j == n - 1 {
          assert e[|d|].0 == k;
        }
      }
    }
  }

  /** With the earlier entries parsed, a non-null key is already bound
      exactly when an earlier entry's key equals it. */
  lemma BoundHasKeyParsed(keys: seq<Result<Value>>, values: seq<Result<Value>>, keyType: Type, valueType: Type,
                          i: nat, k: Value)
    requires |values| == |keys| && i <= |keys| && k != Null && EntriesParse(keys, values, keyType, valueType, i)
    ensures HasKey(Bound(keys, values, i), k) <==>
              !forall j :: 0 <= j < i && keys[j].Ok? && keys[j].value != Null ==> keys[j].value != k
  {
    BoundHasKey(keys, values, i, k);
  }

  /** Where keys compare by value, every non-null key is bound to its own
      value. */
  lemma BoundLookup(keys: seq<Result<Value>>, values: seq<Result<Value>>, n: nat, j: nat)
    requires |values| == |keys| && j < n <= |keys| && DistinctKeys(Bound(keys, values, n))
    requires keys[j].Ok? && keys[j].value != Null && values[j].Ok?
    ensures Lookup(Bound(keys, values, n), keys[j].value) == Some(values[j].value)
  {
    BoundPosition(keys, values, n, j);
    var p :| 0 <= p < |Bound(keys, values, n)| && Bound(keys, values, n)[p] == (keys[j].value, values[j].value);
    LookupDistinct(Bound(keys, values, n), p);
  }

  lemma {:induction false} BoundPosition(keys: seq<Result<Value>>, values: seq<Result<Value>>, n: nat, j: nat)
    requires |values| == |keys| && j < n <= |keys|
    requires keys[j].Ok? && keys[j].value != Null && values[j].Ok?
    ensures exists p :: 0 <= p < |Bound(keys, values, n)| && Bound(keys, values, n)[p] == (keys[j].value, values[j].value)
  {
    var d := Bound(keys, values, n - 1);
    var e := Bound(keys, values, n);
    if j < n - 1 {
      BoundPosition(keys, values, n - 1, j);
      var p :| 0 <= p < |d| && d[p] == (keys[j].value, values[j].value);
      assert e[p] == d[p];
    } else {
      assert e[|d|] == (keys[j].value, values[j].value);
    }
  }

  /** EntriesParse for one more entry. */
  lemma EntriesParseNext(keys: seq<Result<Value>>, values: seq<Result<Value>>, keyType: Type, valueType: Type, i: nat)
    requires |values| == |keys| && i < |keys|
    ensures EntriesParse(keys, values, keyType, valueType, i + 1) <==>
              && EntriesParse(keys, values, keyType, valueType, i)
              && keys[i].Ok?
              && (keys[i].value != Null ==>
                    && values[i].Ok? && !(values[i].value == Null && NonNullable(valueType))
                    && (KeyedByValue(keyType) ==>
                          forall j :: 0 <= j < i && keys[j].Ok? && keys[j].value != Null ==> keys[j].value != keys[i].value))
  {
  }

  /** The dictionary loop succeeds exactly when every entry parses and, for
      keys compared by value, no non-null key repeats; its result is then
      every non-null key with its value, in order. */
  lemma DictLoopOk(keys: seq<Result<Value>>, values: seq<Result<Value>>, keyType: Type, valueType: Type, n: nat)
    requires |values| == |keys| && n <= |keys|
    ensures DictLoop(keys, values, keyType, valueType, n).Ok? <==> EntriesParse(keys, values, keyType, valueType, n)
    ensures DictLoop(keys, values, keyType, valueType, n).Ok? ==>
              DictLoop(keys, values, keyType, valueType, n).value == Bound(keys, values, n)
  {
    LoopAgreesUpTo(keys, values, keyType, valueType, n);
  }

  /** The entries of a successful dictionary loop; None for a failed one. */
  function Outcome(r: Result<seq<(Value, Value)>>): Option<seq<(Value, Value)>> {
    if r.Ok? then Some(r.value) else None
  }

  /** The statement of DictLoopOk for the first n entries. */
  predicate LoopAgrees(keys: seq<Result<Value>>, values: seq<Result<Value>>, keyType: Type, valueType: Type, n: nat)
    requires |values| == |keys| && n <= |keys|
  {
    Outcome(DictLoop(keys, values, keyType, valueType, n))
      == if EntriesParse(keys, values, keyType, valueType, n) then Some(Bound(keys, values, n)) else None
  }

  lemma {:induction false} LoopAgreesUpTo(keys: seq<Result<Value>>, values: seq<Result<Value>>, keyType: Type,
                                          valueType: Type, n: nat)
    requires |values| == |keys| && n <= |keys|
    ensures LoopAgrees(keys, values, keyType, valueType, n)
    decreases n
  {
    if n > 0 {
      LoopAgreesUpTo(keys, values, keyType, valueType, n - 1);
      DictLoopOkStep(keys, values, keyType, valueType, n - 1);
    }
  }

  /** LoopAgrees for one more entry. */
  lemma DictLoopOkStep(keys: seq<Result<Value>>, values: seq<Result<Value>>, keyType: Type, valueType: Type, i: nat)
    requires |values| == |keys| && i < |keys| && LoopAgrees(keys, values, keyType, valueType, i)
    ensures LoopAgrees(keys, values, keyType, valueType, i + 1)
  {
    if !EntriesParse(keys, values, keyType, valueType, i) {
      DictStepAfterErr(keys, values, keyType, valueType, i);
    } else if keys[i].Ok? && keys[i].value != Null {
      DictStepEntry(keys, values, keyType, valueType, i);
    } else {
      DictStepNoEntry(keys, values, keyType, valueType, i);
    }
  }

  /** Once the loop has failed, it stays failed. */
  lemma DictStepAfterErr(keys: seq<Result<Value>>, values: seq<Result<Value>>, keyType: Type, valueType: Type, i: nat)
    requires |values| == |keys| && i < |keys|
    requires DictLoop(keys, values, keyType, valueType, i).Err?
    requires !EntriesParse(keys, values, keyType, valueType, i)
    ensures DictLoop(keys, values, keyType, valueType, i + 1).Err?
    ensures !EntriesParse(keys, values, keyType, valueType, i + 1)
  {
    DictLoopErr(keys, values, keyType, valueType, i, i + 1);
    EntriesParseNext(keys, values, keyType, valueType, i);
  }

  /** A key that fails or parses to null adds nothing. */
  lemma DictStepNoEntry(keys: seq<Result<Value>>, values: seq<Result<Value>>, keyType: Type, valueType: Type, i: nat)
    requires |values| == |keys| && i < |keys| && !(keys[i].Ok? && keys[i].value != Null)
    requires DictLoop(keys, values, keyType, valueType, i) == Ok(Bound(keys, values, i))
    requires EntriesParse(keys, values, keyType, valueType, i)
    ensures DictLoop(keys, values, keyType, valueType, i + 1).Ok? <==> EntriesParse(keys, values, keyType, valueType, i + 1)
    ensures DictLoop(keys, values, keyType, valueType, i + 1).Ok? ==>
              DictLoop(keys, values, keyType, valueType, i + 1).value == Bound(keys, values, i + 1)
  {
    EntriesParseNext(keys, values, keyType, valueType, i);
    DictLoopNext(keys, values, keyType, valueType, i, Bound(keys, values, i));
    assert Bound(keys, values, i) + [] == Bound(keys, values, i);
  }

  /** A non-null key adds its entry, unless its value fails or, where keys
      compare by value, it is already bound. */
  lemma DictStepEntry(keys: seq<Result<Value>>, values: seq<Result<Value>>, keyType: Type, valueType: Type, i: nat)
    requires |values| == |keys| && i < |keys| && keys[i].Ok? && keys[i].value != Null
    requires DictLoop(keys, values, keyType, valueType, i) == Ok(Bound(keys, values, i))
    requires EntriesParse(keys, values, keyType, valueType, i)
    ensures DictLoop(keys, values, keyType, valueType, i + 1).Ok? <==> EntriesParse(keys, values, keyType, valueType, i + 1)
    ensures DictLoop(keys, values, keyType, valueType, i + 1).Ok? ==>
              DictLoop(keys, values, keyType, valueType, i + 1).value == Bound(keys, values, i + 1)
  {
    var d := Bound(keys, values, i);
    var k := keys[i].value;
    DictLoopNext(keys, values, keyType, valueType, i, d);
    EntriesParseNext(keys, values, keyType, valueType, i);
    BoundHasKeyParsed(keys, values, keyType, valueType, i, k);
  }

  /** A mapping parses as a dictionary exactly when every key parses, each
      non-null key's value parses (non-null for a value type) and, for
      string, enum and integer keys, no two non-null keys parse equal; the
      dictionary then holds each non-null parsed key with its parsed value,
      in the mapping's order, and those keys are distinct where they compare
      by value. Keys parsing to null are dropped. */
  lemma ParseDictEntries(node: Node, ty: Type, hooks: Hooks)
    requires ty.TDict?
    ensures Parse(node, ty, hooks).Ok? <==>
              node.Mapping? && EntriesParse(KeyResults(node, ty, hooks), ValueResults(node, ty, hooks), ty.keyType,
                                            ty.valueType, |node.entries|)
    ensures Parse(node, ty, hooks).Ok? ==>
              && Parse(node, ty, hooks).value.DictVal?
              && Parse(node, ty, hooks).value.keyType == ty.keyType
              && Parse(node, ty, hooks).value.valueType == ty.valueType
              && Parse(node, ty, hooks).value.entries
                 == Bound(KeyResults(node, ty, hooks), ValueResults(node, ty, hooks), |node.entries|)
              && (KeyedByValue(ty.keyType) ==> DistinctKeys(Parse(node, ty, hooks).value.entries))
  {
    if node.Mapping? {
      DictLoopOk(KeyResults(node, ty, hooks), ValueResults(node, ty, hooks), ty.keyType, ty.valueType, |node.entries|);
    }
  }

  // ---------------------------------------------------------------- member-wise objects

  /** Turn i of the member-wise loop does not throw: a found key parses; a
      missing key is not a Nullable member of a class without
      [OptionalFields], and under [OptionalFields(true)] its type can be
      default-constructed. */
  predicate StepParses(c: Class, node: Node, res: Result<Value>, i: nat)
    requires i < |Members(c)|
  {
    IsSlot(c, i) ==>
      if Subnode(node, Members(c)[i]).Some? then res.Ok?
      else && !(c.optional.NoOptionalFields? && Members(c)[i].ty.TNullable?)
           && (c.optional == OptionalFields(true) ==> DefaultOf(Members(c)[i].ty).Ok?)
  }

  /** None of the first n turns throws. */
  predicate MembersParse(c: Class, node: Node, results: seq<Result<Value>>, n: nat)
    requires |results| == |Members(c)| && n <= |results|
  {
    forall j :: 0 <= j < n ==> StepParses(c, node, results[j], j)
  }

  /** Turn i stores into member i. */
  predicate Stores(c: Class, node: Node, i: nat)
    requires i < |Members(c)|
  {
    IsSlot(c, i) && (Subnode(node, Members(c)[i]).Some? || c.optional == OptionalFields(true))
  }

  /** The value member i holds once the loop has passed it: the parsed value
      of its key, or (under [OptionalFields(true)]) a default-constructed
      value, each coerced to the member's type; otherwise its initial
      value. */
  function StepValue(c: Class, node: Node, res: Result<Value>, i: nat): Value
    requires i < |Members(c)|
  {
    var m := Members(c)[i];
    if IsSlot(c, i) && Subnode(node, m).Some? && res.Ok? then Coerce(res.value, m.ty)
    else if IsSlot(c, i) && Subnode(node, m).None? && c.optional == OptionalFields(true) && DefaultOf(m.ty).Ok?
    then Coerce(DefaultOf(m.ty).value, m.ty)
    else m.initial
  }

  /** The keys of the members visited among the first n whose key is
      present. */
  function UsedKeys(c: Class, node: Node, n: nat): set<Node>
    requires n <= |Members(c)|
  {
    set j | 0 <= j < n && IsSlot(c, j) && Subnode(node, Members(c)[j]).Some? :: Text(ConvertName(Members(c)[j]))
  }

  /** The loop state after n turns: members passed hold StepValue, the rest
      their initial value; the unused keys are the mapping's keys less the
      used ones. */
  predicate StateAfter(c: Class, node: Node, results: seq<Result<Value>>, n: nat, st: LoopState)
    requires node.Mapping? && |results| == |Members(c)| && n <= |results| && Filling(c, st)
  {
    && st.1 == KeysOf(node.entries) - UsedKeys(c, node, n)
    && forall j :: 0 <= j < |Members(c)| ==>
         MemberValues(st.0)[j] == if j < n then StepValue(c, node, results[j], j) else Members(c)[j].initial
  }

  /** What one turn does. */
  lemma MemberStepFacts(c: Class, node: Node, res: Result<Value>, i: nat, st: LoopState)
    requires node.Mapping? && i < |Members(c)| && Filling(c, st)
    ensures MemberStep(c, node, res, i, st).Ok? <==> StepParses(c, node, res, i)
    ensures MemberStep(c, node, res, i, st).Ok? ==>
              && MemberStep(c, node, res, i, st).value.1 ==
                   (if IsSlot(c, i) && Subnode(node, Members(c)[i]).Some? then st.1 - {Text(ConvertName(Members(c)[i]))} else st.1)
              && MemberValues(MemberStep(c, node, res, i, st).value.0)[i] ==
                   (if Stores(c, node, i) then StepValue(c, node, res, i) else MemberValues(st.0)[i])
              && forall k :: 0 <= k < |Members(c)| && k != i ==>
                   MemberValues(MemberStep(c, node, res, i, st).value.0)[k] == MemberValues(st.0)[k]
  {
    if IsSlot(c, i) {
      var m := Members(c)[i];
      if Subnode(node, m).Some? && res.Ok? {
        SetValAt(st.0, i, res.value);
      } else if Subnode(node, m).None? && c.optional == OptionalFields(true) && DefaultOf(m.ty).Ok? {
        SetValAt(st.0, i, DefaultOf(m.ty).value);
      }
    }
  }

  /** UsedKeys for one more member. */
  lemma UsedKeysNext(c: Class, node: Node, i: nat)
    requires i < |Members(c)|
    ensures UsedKeys(c, node, i + 1) ==
              UsedKeys(c, node, i) + (if IsSlot(c, i) && Subnode(node, Members(c)[i]).Some?
                                      then {Text(ConvertName(Members(c)[i]))} else {})
  {
  }

  /** The member-wise loop throws exactly when some turn does; otherwise its
      state is StateAfter. */
  lemma {:induction false} MemberLoopFacts(c: Class, node: Node, results: seq<Result<Value>>, n: nat)
    requires node.Mapping? && |results| == |Members(c)| && n <= |results|
    ensures MemberLoop(c, node, results, n).Ok? <==> MembersParse(c, node, results, n)
    ensures MemberLoop(c, node, results, n).Ok? ==> StateAfter(c, node, results, n, MemberLoop(c, node, results, n).value)
    decreases n
  {
    if n == 0 {
      DefaultObjectValues(c);
    } else {
      MemberLoopFacts(c, node, results, n - 1);
      MemberLoopFactsStep(c, node, results, n);
    }
  }

  /** MemberLoopFacts for one more turn. */
  lemma MemberLoopFactsStep(c: Class, node: Node, results: seq<Result<Value>>, n: nat)
    requires node.Mapping? && |results| == |Members(c)| && 0 < n <= |results|
    requires MemberLoop(c, node, results, n - 1).Ok? <==> MembersParse(c, node, results, n - 1)
    requires MemberLoop(c, node, results, n - 1).Ok? ==>
               StateAfter(c, node, results, n - 1, MemberLoop(c, node, results, n - 1).value)
    ensures MemberLoop(c, node, results, n).Ok? <==> MembersParse(c, node, results, n)
    ensures MemberLoop(c, node, results, n).Ok? ==> StateAfter(c, node, results, n, MemberLoop(c, node, results, n).value)
  {
    var i := n - 1;
    var prev := MemberLoop(c, node, results, i);
    assert MembersParse(c, node, results, n) <==>
             MembersParse(c, node, results, i) && StepParses(c, node, results[i], i);
    if prev.Ok? {
      MemberStepFacts(c, node, results[i], i, prev.value);
      UsedKeysNext(c, node, i);
    }
  }

  /** The key is the converted name of a member the loop visits. */
  ghost predicate SlotKey(c: Class, k: Node) {
    exists j :: 0 <= j < |Members(c)| && IsSlot(c, j) && k == Text(ConvertName(Members(c)[j]))
  }

  /** Every key of the mapping names a visited member. */
  ghost predicate AllKeysUsed(c: Class, node: Node)
    requires node.Mapping?
  {
    forall i :: 0 <= i < |node.entries| ==> SlotKey(c, node.entries[i].0)
  }

  /** After the whole loop, no key is left unused exactly when every key
      names a visited member. */
  lemma UnusedEmpty(c: Class, node: Node)
    requires node.Mapping?
    ensures KeysOf(node.entries) - UsedKeys(c, node, |Members(c)|) == {} <==> AllKeysUsed(c, node)
  {
    var used := UsedKeys(c, node, |Members(c)|);
    if KeysOf(node.entries) - used == {} {
      forall i | 0 <= i < |node.entries| ensures SlotKey(c, node.entries[i].0) {
        var k := node.entries[i].0;
        assert k in KeysOf(node.entries);
        assert k !in KeysOf(node.entries) - used;
        var j :| 0 <= j < |Members(c)| && IsSlot(c, j) && Subnode(node, Members(c)[j]).Some?
                 && k == Text(ConvertName(Members(c)[j]));
      }
    }
    if AllKeysUsed(c, node) {
      forall k | k in KeysOf(node.entries) ensures k in used {
        var i :| 0 <= i < |node.entries| && node.entries[i].0 == k;
        assert SlotKey(c, k);
        var j :| 0 <= j < |Members(c)| && IsSlot(c, j) && k == Text(ConvertName(Members(c)[j]));
        assert HasKey(node.entries, Text(ConvertName(Members(c)[j])));
      }
    }
  }

  /** The member-wise branch succeeds exactly when no turn throws and every
      key of the mapping names a visited member; the object then holds, for
      each member, StepValue. */
  lemma MemberWiseFacts(c: Class, node: Node, results: seq<Result<Value>>)
    requires node.Mapping? && |results| == |Members(c)|
    ensures MemberWise(c, node, results).Ok? <==> MembersParse(c, node, results, |results|) && AllKeysUsed(c, node)
    ensures MemberWise(c, node, results).Ok? ==>
              && MemberWise(c, node, results).value.ObjectVal?
              && Shaped(MemberWise(c, node, results).value)
              && MemberWise(c, node, results).value.cls == c
              && forall j :: 0 <= j < |Members(c)| ==>
                   MemberValues(MemberWise(c, node, results).value)[j] == StepValue(c, node, results[j], j)
  {
    MemberLoopFacts(c, node, results, |results|);
    UnusedEmpty(c, node);
  }

  /** A class without a parser or root, with a parameterless constructor,
      parses from a mapping member by member: exactly when no member's turn
      throws and no key is left unused, to the object whose members hold
      StepValue of their parsed subnodes. Other nodes are an invalid
      cast. */
  lemma ParseMemberWise(node: Node, ty: Type, hooks: Hooks)
    requires ty.TClass? && FindParser(ty.cls).None? && ty.cls.constructible && FindRoot(ty.cls).None?
    ensures !node.Mapping? ==> Parse(node, ty, hooks) == Err(InvalidCast)
    ensures node.Mapping? ==>
              (Parse(node, ty, hooks).Ok? <==>
                 MembersParse(ty.cls, node, MemberResults(node, ty, hooks), |Members(ty.cls)|) && AllKeysUsed(ty.cls, node))
    ensures node.Mapping? && Parse(node, ty, hooks).Ok? ==>
              && Parse(node, ty, hooks).value.ObjectVal?
              && Parse(node, ty, hooks).value.cls == ty.cls
              && Shaped(Parse(node, ty, hooks).value)
              && forall j :: 0 <= j < |Members(ty.cls)| ==>
                   MemberValues(Parse(node, ty, hooks).value)[j] ==
                     StepValue(ty.cls, node, MemberResults(node, ty, hooks)[j], j)
  {
    if node.Mapping? {
      ParseIsMemberWise(node, ty, hooks);
      MemberWiseFacts(ty.cls, node, MemberResults(node, ty, hooks));
    }
  }

  /** Such a class parses from a mapping by the member-wise branch. */
  lemma ParseIsMemberWise(node: Node, ty: Type, hooks: Hooks)
    requires ty.TClass? && FindParser(ty.cls).None? && ty.cls.constructible && FindRoot(ty.cls).None?
    requires node.Mapping?
    ensures Parse(node, ty, hooks) == MemberWise(ty.cls, node, MemberResults(node, ty, hooks))
  {
  }

  /** The quirk of the source: Activator.CreateInstance of a Nullable<T>
      gives null, so every node parses to null as a Nullable<T>. */
  lemma ParseNullableIsNull(node: Node, ty: Type, hooks: Hooks)
    requires ty.TNullable?
    ensures Parse(node, ty, hooks) == Ok(Null)
  {
  }

  /** A class with a [Root] member (and no parser) is parsed as that member:
      the node is parsed as the member's type and stored, coerced, into a
      default instance whose other members keep their initial values. A root
      property without a setter throws. */
  lemma ParseRootMember(node: Node, ty: Type, hooks: Hooks)
    requires ty.TClass? && FindParser(ty.cls).None? && ty.cls.constructible && FindRoot(ty.cls).Some?
    ensures var root := FindRoot(ty.cls).value;
            var x := Parse(node, MemberOf(ty.cls, root).ty, hooks);
            && (x.Err? ==> Parse(node, ty, hooks) == Err(x.error))
            && (x.Ok? && root.PropertyRef? && !ty.cls.properties[root.index].hasSetter ==>
                  Parse(node, ty, hooks) == Err(InvalidArgument("")))
            && (x.Ok? && (root.FieldRef? || ty.cls.properties[root.index].hasSetter) ==>
                  && Parse(node, ty, hooks).Ok?
                  && Parse(node, ty, hooks).value.ObjectVal?
                  && Shaped(Parse(node, ty, hooks).value)
                  && Parse(node, ty, hooks).value.cls == ty.cls
                  && GetVal(Parse(node, ty, hooks).value, root) == Coerce(x.value, MemberOf(ty.cls, root).ty)
                  && forall q :: ValidRef(ty.cls, q) && q != root ==>
                       GetVal(Parse(node, ty, hooks).value, q) == GetVal(DefaultObject(ty.cls), q))
  {
    assert Parse(node, ty, hooks) == ParseRoot(node, ty, FindRoot(ty.cls).value, hooks);
  }
}

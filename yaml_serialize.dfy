/** YamlParser.Serialize / SerializeObject: a runtime value to a YAML node,
    dispatching on the value's runtime type in a fixed order: string, enum,
    integer primitive, dictionary, sequence, [Root] member, [Serializer] hook,
    then member by member. */
module YamlSerialize {
  import opened Wrappers
  import opened Framework
  import opened Assoc
  import opened YamlNodes
  import opened YamlTypes
  import StringUtils

  // ---------------------------------------------------------------- building mappings

  /** A run of node.Add(key, value) calls on an empty mapping, each pair's key
      computed before its value: the entries added, or the first exception (a
      key or value that failed, or a key already present). */
  function BuildMapping(pairs: seq<(Result<Node>, Result<Node>)>): (r: Result<seq<(Node, Node)>>)
    ensures r.Ok? ==> && |r.value| == |pairs| && DistinctKeys(r.value)
                      && forall i :: 0 <= i < |pairs| ==> pairs[i] == (Ok(r.value[i].0), Ok(r.value[i].1))
    decreases |pairs|
  {
    if pairs == [] then Ok([])
    else
      var n := |pairs| - 1;
      var m :- BuildMapping(pairs[..n]);
      var k :- pairs[n].0;
      var x :- pairs[n].1;
      var r := Add(m, k, x);
      if r.Ok? then
        assert DistinctKeys(r.value) by {
          forall i, j | 0 <= i < j < |r.value| ensures r.value[i].0 != r.value[j].0 {
            if j < n {
              assert r.value[i] == m[i] && r.value[j] == m[j];
            } else {
              assert r.value[i] == m[i];
            }
          }
        }
        assert forall i :: 0 <= i < n ==> pairs[i] == pairs[..n][i];
        r
      else r
  }

  /** One more node.Add after a successful prefix. */
  lemma BuildMappingStep(pairs: seq<(Result<Node>, Result<Node>)>, i: nat, m: seq<(Node, Node)>)
    requires i < |pairs| && BuildMapping(pairs[..i]) == Ok(m)
    ensures BuildMapping(pairs[..i + 1]) == (if pairs[i].0.Err? then Err(pairs[i].0.error)
                                             else if pairs[i].1.Err? then Err(pairs[i].1.error)
                                             else Add(m, pairs[i].0.value, pairs[i].1.value))
  {
    assert pairs[..i + 1][..i] == pairs[..i];
  }

  /** One more node.Add after a successful run. */
  lemma BuildMappingAppend(pairs: seq<(Result<Node>, Result<Node>)>, e: (Result<Node>, Result<Node>),
                           m: seq<(Node, Node)>)
    requires BuildMapping(pairs) == Ok(m)
    ensures BuildMapping(pairs + [e]) == (if e.0.Err? then Err(e.0.error)
                                          else if e.1.Err? then Err(e.1.error)
                                          else Add(m, e.0.value, e.1.value))
  {
    assert (pairs + [e])[..|pairs|] == pairs;
  }

  /** Once a prefix has thrown, so has the whole run, with the same
      exception. */
  lemma {:induction false} BuildMappingPrefixErr(pairs: seq<(Result<Node>, Result<Node>)>, n: nat)
    requires n <= |pairs| && BuildMapping(pairs[..n]).Err?
    ensures BuildMapping(pairs) == BuildMapping(pairs[..n])
    decreases |pairs|
  {
    if n < |pairs| {
      var init := pairs[..|pairs| - 1];
      assert init[..n] == pairs[..n];
      BuildMappingPrefixErr(init, n);
    } else {
      assert pairs[..n] == pairs;
    }
  }

  /** When every key and value succeeds and no key repeats, the run builds
      exactly those entries in order. */
  lemma {:induction false} BuildMappingOfOks(pairs: seq<(Result<Node>, Result<Node>)>, m: seq<(Node, Node)>)
    requires |m| == |pairs| && DistinctKeys(m)
    requires forall i :: 0 <= i < |pairs| ==> pairs[i] == (Ok(m[i].0), Ok(m[i].1))
    ensures BuildMapping(pairs) == Ok(m)
    decreases |pairs|
  {
    if pairs != [] {
      var n := |pairs| - 1;
      BuildMappingOfOks(pairs[..n], m[..n]);
      assert m[..n] + [(m[n].0, m[n].1)] == m;
    }
  }

  /** The entries of the member-wise loop: each public member whose value is
      not null, keyed by its converted name, with the node of its value. */
  function MemberEntries(members: seq<Member>, values: seq<Value>, nodes: seq<Result<Node>>)
    : seq<(Result<Node>, Result<Node>)>
    requires |values| == |members| && |nodes| == |members|
    decreases |members|
  {
    if members == [] then []
    else
      var n := |members| - 1;
      MemberEntries(members[..n], values[..n], nodes[..n])
        + if members[n].isPublic && values[n] != Null
          then [(Ok(Text(ConvertName(members[n]))), nodes[n])]
          else []
  }

  /** The member-wise loop emits member `i`: it is public and its value is
      not null. */
  predicate Emitted(members: seq<Member>, values: seq<Value>, i: int)
    requires |values| == |members|
  {
    0 <= i < |members| && members[i].isPublic && values[i] != Null
  }

  /** The entry member `i` contributes. */
  function EntryOf(members: seq<Member>, nodes: seq<Result<Node>>, i: nat): (Result<Node>, Result<Node>)
    requires |nodes| == |members| && i < |members|
  {
    (Ok(Text(ConvertName(members[i]))), nodes[i])
  }

  /** `e` is the entry of some emitted member. */
  ghost predicate FromMember(members: seq<Member>, values: seq<Value>, nodes: seq<Result<Node>>,
                       e: (Result<Node>, Result<Node>))
    requires |values| == |members| && |nodes| == |members|
  {
    exists i :: Emitted(members, values, i) && e == EntryOf(members, nodes, i)
  }

  /** Every entry comes from an emitted member. */
  lemma {:induction false} MemberEntriesSound(members: seq<Member>, values: seq<Value>, nodes: seq<Result<Node>>)
    requires |values| == |members| && |nodes| == |members|
    ensures forall j :: 0 <= j < |MemberEntries(members, values, nodes)| ==>
              FromMember(members, values, nodes, MemberEntries(members, values, nodes)[j])
    decreases |members|
  {
    if members != [] {
      var n := |members| - 1;
      var init := MemberEntries(members[..n], values[..n], nodes[..n]);
      MemberEntriesSound(members[..n], values[..n], nodes[..n]);
      var es := MemberEntries(members, values, nodes);
      forall j | 0 <= j < |es| ensures FromMember(members, values, nodes, es[j]) {
        if j < |init| {
          assert es[j] == init[j];
          assert FromMember(members[..n], values[..n], nodes[..n], init[j]);
          var i :| Emitted(members[..n], values[..n], i) && init[j] == EntryOf(members[..n], nodes[..n], i);
          assert Emitted(members, values, i) && EntryOf(members[..n], nodes[..n], i) == EntryOf(members, nodes, i);
        } else {
          assert Emitted(members, values, n) && es[j] == EntryOf(members, nodes, n);
        }
      }
    }
  }

  /** `e` is one of the entries. */
  predicate HasEntry(es: seq<(Result<Node>, Result<Node>)>, e: (Result<Node>, Result<Node>)) {
    exists j :: 0 <= j < |es| && es[j] == e
  }

  /** Every emitted member gives an entry. */
  lemma {:induction false} MemberEntriesComplete(members: seq<Member>, values: seq<Value>, nodes: seq<Result<Node>>)
    requires |values| == |members| && |nodes| == |members|
    ensures forall i :: Emitted(members, values, i) ==>
              HasEntry(MemberEntries(members, values, nodes), EntryOf(members, nodes, i))
    decreases |members|
  {
    if members != [] {
      var n := |members| - 1;
      var init := MemberEntries(members[..n], values[..n], nodes[..n]);
      MemberEntriesComplete(members[..n], values[..n], nodes[..n]);
      var es := MemberEntries(members, values, nodes);
      forall i | Emitted(members, values, i) ensures HasEntry(es, EntryOf(members, nodes, i)) {
        if i < n {
          assert Emitted(members[..n], values[..n], i);
          assert EntryOf(members[..n], nodes[..n], i) == EntryOf(members, nodes, i);
          assert HasEntry(init, EntryOf(members[..n], nodes[..n], i));
          var j :| 0 <= j < |init| && init[j] == EntryOf(members, nodes, i);
          assert es[j] == init[j];
        } else {
          assert es[|init|] == EntryOf(members, nodes, n);
        }
      }
    }
  }

  /** The member-wise loop after one more member. */
  lemma MemberEntriesStep(members: seq<Member>, values: seq<Value>, nodes: seq<Result<Node>>, i: nat)
    requires |values| == |members| && |nodes| == |members| && i < |members|
    ensures MemberEntries(members[..i + 1], values[..i + 1], nodes[..i + 1])
            == MemberEntries(members[..i], values[..i], nodes[..i])
               + if members[i].isPublic && values[i] != Null
                 then [(Ok(Text(ConvertName(members[i]))), nodes[i])]
                 else []
  {
    assert members[..i + 1][..i] == members[..i];
    assert values[..i + 1][..i] == values[..i];
    assert nodes[..i + 1][..i] == nodes[..i];
  }

  /** The member-wise entries of the first `i` members begin those of all of
      them. */
  lemma {:induction false} MemberEntriesPrefix(members: seq<Member>, values: seq<Value>, nodes: seq<Result<Node>>, i: nat)
    requires |values| == |members| && |nodes| == |members| && i <= |members|
    ensures var es := MemberEntries(members, values, nodes);
            var pre := MemberEntries(members[..i], values[..i], nodes[..i]);
            |pre| <= |es| && es[..|pre|] == pre
    decreases |members|
  {
    if i < |members| {
      var n := |members| - 1;
      assert members[..n][..i] == members[..i];
      assert values[..n][..i] == values[..i];
      assert nodes[..n][..i] == nodes[..i];
      MemberEntriesPrefix(members[..n], values[..n], nodes[..n], i);
      var init := MemberEntries(members[..n], values[..n], nodes[..n]);
      var es := MemberEntries(members, values, nodes);
      var pre := MemberEntries(members[..i], values[..i], nodes[..i]);
      assert es[..|init|] == init;
      assert es[..|pre|] == init[..|pre|];
    } else {
      assert members[..i] == members && values[..i] == values && nodes[..i] == nodes;
    }
  }

  /** The number of members the member-wise loop emits. */
  function EmittedCount(members: seq<Member>, values: seq<Value>): nat
    requires |values| == |members|
    decreases |members|
  {
    if members == [] then 0
    else
      var n := |members| - 1;
      EmittedCount(members[..n], values[..n]) + if Emitted(members, values, n) then 1 else 0
  }

  /** One entry per emitted member. */
  lemma {:induction false} MemberEntriesCount(members: seq<Member>, values: seq<Value>, nodes: seq<Result<Node>>)
    requires |values| == |members| && |nodes| == |members|
    ensures |MemberEntries(members, values, nodes)| == EmittedCount(members, values)
    decreases |members|
  {
    if members != [] {
      var n := |members| - 1;
      MemberEntriesCount(members[..n], values[..n], nodes[..n]);
    }
  }

  /** The entry of an emitted member sits right after the entries of the
      members before it. */
  lemma MemberEntryAt(members: seq<Member>, values: seq<Value>, nodes: seq<Result<Node>>, i: nat)
    requires |values| == |members| && |nodes| == |members| && Emitted(members, values, i)
    ensures var p := |MemberEntries(members[..i], values[..i], nodes[..i])|;
            p < |MemberEntries(members, values, nodes)| && MemberEntries(members, values, nodes)[p] == EntryOf(members, nodes, i)
  {
    var pre := MemberEntries(members[..i], values[..i], nodes[..i]);
    var next := MemberEntries(members[..i + 1], values[..i + 1], nodes[..i + 1]);
    MemberEntriesStep(members, values, nodes, i);
    assert next == pre + [EntryOf(members, nodes, i)];
    MemberEntriesPrefix(members, values, nodes, i + 1);
    assert next[|pre|] == EntryOf(members, nodes, i);
  }

  /** Emitted members give their entries in member order: fields before
      properties, each in declaration order. */
  lemma MemberEntriesOrdered(members: seq<Member>, values: seq<Value>, nodes: seq<Result<Node>>, i: nat, j: nat)
    requires |values| == |members| && |nodes| == |members|
    requires i < j && Emitted(members, values, i) && Emitted(members, values, j)
    ensures var es := MemberEntries(members, values, nodes);
            exists p, q :: 0 <= p < q < |es| && es[p] == EntryOf(members, nodes, i) && es[q] == EntryOf(members, nodes, j)
  {
    var es := MemberEntries(members, values, nodes);
    MemberEntryAt(members, values, nodes, i);
    MemberEntryAt(members, values, nodes, j);
    var p := |MemberEntries(members[..i], values[..i], nodes[..i])|;
    var q := |MemberEntries(members[..j], values[..j], nodes[..j])|;
    var ms, vs, ns := members[..j], values[..j], nodes[..j];
    assert ms[..i + 1] == members[..i + 1] && vs[..i + 1] == values[..i + 1] && ns[..i + 1] == nodes[..i + 1];
    MemberEntriesPrefix(ms, vs, ns, i + 1);
    MemberEntriesStep(members, values, nodes, i);
    assert p < q;
    assert es[p] == EntryOf(members, nodes, i) && es[q] == EntryOf(members, nodes, j);
  }

  // ---------------------------------------------------------------- the serializer

  /** Serialize(key), Serialize(dict[key]) for each dictionary entry. */
  function EntryNodes(v: Value, hooks: Hooks): (r: seq<(Result<Node>, Result<Node>)>)
    requires v.DictVal?
    ensures |r| == |v.entries|
    ensures forall i :: 0 <= i < |r| ==> r[i] == (Serialize(v.entries[i].0, hooks), Serialize(v.entries[i].1, hooks))
    decreases v, 0
  {
    seq(|v.entries|, i requires 0 <= i < |v.entries| =>
      (Serialize(v.entries[i].0, hooks), Serialize(v.entries[i].1, hooks)))
  }

  /** Serialize(item) for each element of a list or array. */
  function ItemNodes(v: Value, hooks: Hooks): (r: seq<Result<Node>>)
    requires v.ListVal? || v.ArrayVal?
    ensures |r| == |v.items|
    ensures forall i :: 0 <= i < |r| ==> r[i] == Serialize(v.items[i], hooks)
    decreases v, 0
  {
    seq(|v.items|, i requires 0 <= i < |v.items| => Serialize(v.items[i], hooks))
  }

  /** Serialize(value) for each field and property value, fields first. */
  function MemberNodes(v: Value, hooks: Hooks): (r: seq<Result<Node>>)
    requires v.ObjectVal?
    ensures |r| == |MemberValues(v)|
    ensures forall i :: 0 <= i < |r| ==> r[i] == Serialize(MemberValues(v)[i], hooks)
    decreases v, 0
  {
    var fs := v.fieldValues;
    var ps := v.propertyValues;
    seq(|fs| + |ps|, i requires 0 <= i < |fs| + |ps| =>
      if i < |fs| then Serialize(fs[i], hooks) else Serialize(ps[i - |fs|], hooks))
  }

  /** SerializeObject(obj): null throws (obj.GetType()); a string is a scalar
      of its text; an enum a scalar of its name in snake case; an integer a
      scalar of its decimal text; a dictionary a mapping and a list or array a
      sequence, built in order; an object with a [Root] member is that
      member's value serialized; a [Serializer] member yields its stored
      value (a YamlNode as it is), a [Serializer] method its result;
      otherwise a mapping of the public fields then public properties whose
      value is not null. */
  function Serialize(v: Value, hooks: Hooks): Result<Node>
    decreases v, 1
  {
    match v
    case Null => Err(NullReference)
    case Str(s) => Ok(Text(s))
    case EnumVal(e, x) => Ok(Text(StringUtils.ToSnake(EnumName(e, x))))
    case IntVal(_, x) => Ok(Text(IntToString(x)))
    case DictVal(_, _, _) =>
      var m :- BuildMapping(EntryNodes(v, hooks));
      Ok(Mapping(m))
    case ListVal(_, _) =>
      var ns :- Collect(ItemNodes(v, hooks));
      Ok(Sequence(ns))
    case ArrayVal(_, _) =>
      var ns :- Collect(ItemNodes(v, hooks));
      Ok(Sequence(ns))
    case NodeVal(_) => Err(NotModelled)
    case ObjectVal(c, fs, ps) =>
      if !Shaped(v) then Err(InvalidCast)
      else match FindRoot(c)
        case Some(FieldRef(i)) => Serialize(fs[i], hooks)
        case Some(PropertyRef(i)) => Serialize(ps[i], hooks)
        case None =>
          match FindSerializer(c)
          case Some(SerializerMember(FieldRef(i))) =>
            if fs[i].NodeVal? then Ok(fs[i].node) else Serialize(fs[i], hooks)
          case Some(SerializerMember(PropertyRef(i))) =>
            if ps[i].NodeVal? then Ok(ps[i].node) else Serialize(ps[i], hooks)
          case Some(SerializerMethod(i)) =>
            var out :- hooks.serializeMethod(c, i, v);
            if out.NodeVal? then Ok(out.node) else Err(NotModelled)
          case None =>
            var m :- BuildMapping(MemberEntries(Members(c), MemberValues(v), MemberNodes(v, hooks)));
            Ok(Mapping(m))
  }

  /** YamlParser.Serialize<T>(item). */
  function SerializeItem(item: Value, hooks: Hooks): Result<Node> {
    Serialize(item, hooks)
  }

  // ---------------------------------------------------------------- the loops

  /** SerializeObject as written: the result node is filled by node.Add in
      foreach loops; it computes exactly Serialize. */
  method SerializeObject(v: Value, hooks: Hooks) returns (r: Result<Node>)
    ensures r == Serialize(v, hooks)
    decreases v, 2
  {
    match v {
      case Null => return Err(NullReference);
      case Str(s) => return Ok(Text(s));
      case EnumVal(e, x) =>
        var name := StringUtils.PascalToSnake(EnumName(e, x));
        return Ok(Text(name));
      case IntVal(_, x) => return Ok(Text(IntToString(x)));
      case DictVal(_, _, _) =>
        var m := SerializeDictionary(v, hooks);
        if m.Err? {
          return Err(m.error);
        }
        return Ok(Mapping(m.value));
      case ListVal(_, _) =>
        var ns := SerializeSequence(v, hooks);
        if ns.Err? {
          return Err(ns.error);
        }
        return Ok(Sequence(ns.value));
      case ArrayVal(_, _) =>
        var ns := SerializeSequence(v, hooks);
        if ns.Err? {
          return Err(ns.error);
        }
        return Ok(Sequence(ns.value));
      case NodeVal(_) => return Err(NotModelled);
      case ObjectVal(c, fs, ps) =>
        if !Shaped(v) {
          return Err(InvalidCast);
        }
        var root := FindRoot(c);
        match root {
          case Some(FieldRef(i)) =>
            r := SerializeObject(fs[i], hooks);
            return;
          case Some(PropertyRef(i)) =>
            r := SerializeObject(ps[i], hooks);
            return;
          case None =>
        }
        var serializer := FindSerializer(c);
        match serializer {
          case Some(SerializerMember(FieldRef(i))) =>
            if fs[i].NodeVal? {
              return Ok(fs[i].node);
            }
            r := SerializeObject(fs[i], hooks);
            return;
          case Some(SerializerMember(PropertyRef(i))) =>
            if ps[i].NodeVal? {
              return Ok(ps[i].node);
            }
            r := SerializeObject(ps[i], hooks);
            return;
          case Some(SerializerMethod(i)) =>
            var out := hooks.serializeMethod(c, i, v);
            if out.Err? {
              return Err(out.error);
            }
            if out.value.NodeVal? {
              return Ok(out.value.node);
            }
            return Err(NotModelled);
          case None =>
        }
        var m := SerializeMembers(v, hooks);
        if m.Err? {
          return Err(m.error);
        }
        return Ok(Mapping(m.value));
    }
  }

  /** The dictionary loop: node.Add(Serialize(key), Serialize(dict[key])). */
  method SerializeDictionary(v: Value, hooks: Hooks) returns (r: Result<seq<(Node, Node)>>)
    requires v.DictVal?
    ensures r == BuildMapping(EntryNodes(v, hooks))
    decreases v, 0
  {
    var entries := v.entries;
    ghost var pairs := EntryNodes(v, hooks);
    var m: seq<(Node, Node)> := [];
    for i := 0 to |entries|
      invariant BuildMapping(pairs[..i]) == Ok(m)
    {
      assert pairs[..i + 1] == pairs[..i] + [pairs[i]];
      BuildMappingAppend(pairs[..i], pairs[i], m);
      var k := SerializeObject(entries[i].0, hooks);
      if k.Err? {
        BuildMappingPrefixErr(pairs, i + 1);
        return Err(k.error);
      }
      var x := SerializeObject(entries[i].1, hooks);
      if x.Err? {
        BuildMappingPrefixErr(pairs, i + 1);
        return Err(x.error);
      }
      if HasKey(m, k.value) {
        BuildMappingPrefixErr(pairs, i + 1);
        return Err(DuplicateKey);
      }
      m := m + [(k.value, x.value)];
    }
    assert pairs[..|entries|] == pairs;
    return Ok(m);
  }

  /** The list loop: node.Add(Serialize(item)). */
  method SerializeSequence(v: Value, hooks: Hooks) returns (r: Result<seq<Node>>)
    requires v.ListVal? || v.ArrayVal?
    ensures r == Collect(ItemNodes(v, hooks))
    decreases v, 0
  {
    var items := v.items;
    ghost var rs := ItemNodes(v, hooks);
    var ns: seq<Node> := [];
    for i := 0 to |items|
      invariant Collect(rs[..i]) == Ok(ns)
    {
      assert rs[..i + 1] == rs[..i] + [rs[i]];
      CollectAppend(rs[..i], rs[i], ns);
      var x := SerializeObject(items[i], hooks);
      if x.Err? {
        CollectPrefixErr(rs, i + 1);
        return Err(x.error);
      }
      ns := ns + [x.value];
    }
    assert rs[..|items|] == rs;
    return Ok(ns);
  }

  /** One turn of the member-wise loop: a member that is not emitted leaves
      the mapping as it is; an emitted one adds its entry, or ends the whole
      loop with the exception of its value or with a duplicate key. */
  lemma MemberLoopStep(members: seq<Member>, values: seq<Value>, nodes: seq<Result<Node>>, i: nat,
                       m: seq<(Node, Node)>)
    requires |values| == |members| && |nodes| == |members| && i < |members|
    requires BuildMapping(MemberEntries(members[..i], values[..i], nodes[..i])) == Ok(m)
    ensures !Emitted(members, values, i) ==>
              BuildMapping(MemberEntries(members[..i + 1], values[..i + 1], nodes[..i + 1])) == Ok(m)
    ensures Emitted(members, values, i) && nodes[i].Ok? && !HasKey(m, Text(ConvertName(members[i]))) ==>
              BuildMapping(MemberEntries(members[..i + 1], values[..i + 1], nodes[..i + 1]))
              == Ok(m + [(Text(ConvertName(members[i])), nodes[i].value)])
    ensures Emitted(members, values, i) && nodes[i].Err? ==>
              BuildMapping(MemberEntries(members, values, nodes)) == Err(nodes[i].error)
    ensures Emitted(members, values, i) && nodes[i].Ok? && HasKey(m, Text(ConvertName(members[i]))) ==>
              BuildMapping(MemberEntries(members, values, nodes)) == Err(DuplicateKey)
  {
    MemberEntriesStep(members, values, nodes, i);
    var pre := MemberEntries(members[..i], values[..i], nodes[..i]);
    if Emitted(members, values, i) {
      MemberLoopEmit(members, values, nodes, i, pre, m);
    } else {
      assert pre + [] == pre;
    }
  }

  /** An emitted member adds its entry; when that throws, so does the whole
      loop. */
  lemma MemberLoopEmit(members: seq<Member>, values: seq<Value>, nodes: seq<Result<Node>>, i: nat,
                       pre: seq<(Result<Node>, Result<Node>)>, m: seq<(Node, Node)>)
    requires |values| == |members| && |nodes| == |members| && i < |members|
    requires pre == MemberEntries(members[..i], values[..i], nodes[..i]) && BuildMapping(pre) == Ok(m)
    requires MemberEntries(members[..i + 1], values[..i + 1], nodes[..i + 1]) == pre + [EntryOf(members, nodes, i)]
    ensures BuildMapping(pre + [EntryOf(members, nodes, i)])
            == if nodes[i].Err? then Err(nodes[i].error) else Add(m, Text(ConvertName(members[i])), nodes[i].value)
    ensures BuildMapping(pre + [EntryOf(members, nodes, i)]).Err? ==>
              BuildMapping(MemberEntries(members, values, nodes)) == BuildMapping(pre + [EntryOf(members, nodes, i)])
  {
    BuildMappingAppend(pre, EntryOf(members, nodes, i), m);
    if BuildMapping(pre + [EntryOf(members, nodes, i)]).Err? {
      MemberEntriesPrefix(members, values, nodes, i + 1);
      BuildMappingPrefixErr(MemberEntries(members, values, nodes), |pre| + 1);
    }
  }

  /** The member-wise loop over the public fields then the public
      properties: non-null values are added under their converted name. */
  method SerializeMembers(v: Value, hooks: Hooks) returns (r: Result<seq<(Node, Node)>>)
    requires v.ObjectVal? && Shaped(v)
    ensures r == BuildMapping(MemberEntries(Members(v.cls), MemberValues(v), MemberNodes(v, hooks)))
    decreases v, 1
  {
    var members := Members(v.cls);
    var values := MemberValues(v);
    ghost var nodes := MemberNodes(v, hooks);
    var m: seq<(Node, Node)> := [];
    for i := 0 to |members|
      invariant BuildMapping(MemberEntries(members[..i], values[..i], nodes[..i])) == Ok(m)
    {
      MemberLoopStep(members, values, nodes, i, m);
      if members[i].isPublic && values[i] != Null {
        var next := AddMember(v, hooks, i, m);
        if next.Err? {
          return Err(next.error);
        }
        m := next.value;
      }
    }
    assert members[..|members|] == members && values[..|members|] == values && nodes[..|members|] == nodes;
    return Ok(m);
  }

  /** The body of the member-wise loop for an emitted member:
      result.Add(ConvertName(member), Serialize(value)). */
  method AddMember(v: Value, hooks: Hooks, i: nat, m: seq<(Node, Node)>) returns (r: Result<seq<(Node, Node)>>)
    requires v.ObjectVal? && Shaped(v) && i < |Members(v.cls)|
    requires MemberValues(v)[i] != Null
    ensures var x := MemberNodes(v, hooks)[i];
            r == if x.Err? then Err(x.error) else Add(m, Text(ConvertName(Members(v.cls)[i])), x.value)
    decreases v, 0
  {
    var value := if i < |v.fieldValues| then v.fieldValues[i] else v.propertyValues[i - |v.fieldValues|];
    assert value == MemberValues(v)[i];
    var key := StringUtils.PascalToSnake(Members(v.cls)[i].name);
    var x := SerializeObject(value, hooks);
    if x.Err? {
      return Err(x.error);
    }
    if HasKey(m, Text(key)) {
      return Err(DuplicateKey);
    }
    return Ok(m + [(Text(key), x.value)]);
  }

  // ---------------------------------------------------------------- what Serialize promises

  /** Every key and value node was built. */
  predicate PairsBuilt(pairs: seq<(Result<Node>, Result<Node>)>) {
    forall i :: 0 <= i < |pairs| ==> pairs[i].0.Ok? && pairs[i].1.Ok?
  }

  /** No two built keys are equal. */
  predicate KeysDistinct(pairs: seq<(Result<Node>, Result<Node>)>) {
    forall i, j :: 0 <= i < j < |pairs| && pairs[i].0.Ok? && pairs[j].0.Ok? ==> pairs[i].0.value != pairs[j].0.value
  }

  /** A run of node.Add succeeds exactly when every key and value is built
      and no key repeats. */
  lemma BuildMappingOk(pairs: seq<(Result<Node>, Result<Node>)>)
    ensures BuildMapping(pairs).Ok? <==> PairsBuilt(pairs) && KeysDistinct(pairs)
  {
    if PairsBuilt(pairs) && KeysDistinct(pairs) {
      var m := seq(|pairs|, i requires 0 <= i < |pairs| => (pairs[i].0.value, pairs[i].1.value));
      BuildMappingOfOks(pairs, m);
    }
  }

  /** A dictionary serializes exactly when each key and value does and the
      key nodes are distinct, to the mapping of those nodes in the
      dictionary's order. */
  lemma SerializeDictEntries(v: Value, hooks: Hooks)
    requires v.DictVal?
    ensures Serialize(v, hooks).Ok? <==> PairsBuilt(EntryNodes(v, hooks)) && KeysDistinct(EntryNodes(v, hooks))
    ensures Serialize(v, hooks).Ok? ==>
              && Serialize(v, hooks).value.Mapping?
              && |Serialize(v, hooks).value.entries| == |v.entries|
              && forall i :: 0 <= i < |v.entries| ==>
                   && Serialize(v.entries[i].0, hooks) == Ok(Serialize(v, hooks).value.entries[i].0)
                   && Serialize(v.entries[i].1, hooks) == Ok(Serialize(v, hooks).value.entries[i].1)
  {
    BuildMappingOk(EntryNodes(v, hooks));
  }

  /** A list or array serializes exactly when each item does, to the
      sequence of the item nodes in order. */
  lemma SerializeListItems(v: Value, hooks: Hooks)
    requires v.ListVal? || v.ArrayVal?
    ensures Serialize(v, hooks).Ok? <==> forall i :: 0 <= i < |v.items| ==> Serialize(v.items[i], hooks).Ok?
    ensures Serialize(v, hooks).Ok? ==>
              && Serialize(v, hooks).value.Sequence?
              && |Serialize(v, hooks).value.items| == |v.items|
              && forall i :: 0 <= i < |v.items| ==> Serialize(v.items[i], hooks) == Ok(Serialize(v, hooks).value.items[i])
  {
  }

  /** Every emitted member's value node was built. */
  predicate EmittedBuilt(members: seq<Member>, values: seq<Value>, nodes: seq<Result<Node>>)
    requires |values| == |members| && |nodes| == |members|
  {
    forall i :: 0 <= i < |members| && Emitted(members, values, i) ==> nodes[i].Ok?
  }

  /** No two emitted members share a converted name. */
  predicate EmittedNamesDistinct(members: seq<Member>, values: seq<Value>)
    requires |values| == |members|
  {
    forall i, j :: 0 <= i < j < |members| && Emitted(members, values, i) && Emitted(members, values, j) ==>
      ConvertName(members[i]) != ConvertName(members[j])
  }

  /** The member-wise entries are all built exactly when every emitted
      member's value is. */
  lemma MemberEntriesBuilt(members: seq<Member>, values: seq<Value>, nodes: seq<Result<Node>>)
    requires |values| == |members| && |nodes| == |members|
    ensures PairsBuilt(MemberEntries(members, values, nodes)) <==> EmittedBuilt(members, values, nodes)
  {
    var es := MemberEntries(members, values, nodes);
    MemberEntriesSound(members, values, nodes);
    MemberEntriesComplete(members, values, nodes);
    if PairsBuilt(es) {
      forall i | 0 <= i < |members| && Emitted(members, values, i) ensures nodes[i].Ok? {
        assert HasEntry(es, EntryOf(members, nodes, i));
      }
    }
    if EmittedBuilt(members, values, nodes) {
      forall p | 0 <= p < |es| ensures es[p].0.Ok? && es[p].1.Ok? {
        assert FromMember(members, values, nodes, es[p]);
      }
    }
  }

  /** Some pair has the built key `k`. */
  ghost predicate KeyAmong(pairs: seq<(Result<Node>, Result<Node>)>, k: Node) {
    exists p :: 0 <= p < |pairs| && pairs[p].0 == Ok(k)
  }

  /** Some emitted member has the converted name `name`. */
  ghost predicate NameEmitted(members: seq<Member>, values: seq<Value>, name: string)
    requires |values| == |members|
  {
    exists i :: 0 <= i < |members| && Emitted(members, values, i) && ConvertName(members[i]) == name
  }

  /** A converted name is among the keys of the entries exactly when it is
      that of an emitted member. */
  lemma KeyAmongEntries(members: seq<Member>, values: seq<Value>, nodes: seq<Result<Node>>, name: string)
    requires |values| == |members| && |nodes| == |members|
    ensures KeyAmong(MemberEntries(members, values, nodes), Text(name)) <==> NameEmitted(members, values, name)
  {
    if KeyAmong(MemberEntries(members, values, nodes), Text(name)) {
      KeyAmongEmitted(members, values, nodes, name);
    }
    if NameEmitted(members, values, name) {
      EmittedKeyAmong(members, values, nodes, name);
    }
  }

  lemma KeyAmongEmitted(members: seq<Member>, values: seq<Value>, nodes: seq<Result<Node>>, name: string)
    requires |values| == |members| && |nodes| == |members|
    requires KeyAmong(MemberEntries(members, values, nodes), Text(name))
    ensures NameEmitted(members, values, name)
  {
    var es := MemberEntries(members, values, nodes);
    var p :| 0 <= p < |es| && es[p].0 == Ok(Text(name));
    MemberEntriesSound(members, values, nodes);
    assert FromMember(members, values, nodes, es[p]);
    var i :| Emitted(members, values, i) && es[p] == EntryOf(members, nodes, i);
    assert Text(ConvertName(members[i])) == Text(name);
  }

  lemma EmittedKeyAmong(members: seq<Member>, values: seq<Value>, nodes: seq<Result<Node>>, name: string)
    requires |values| == |members| && |nodes| == |members|
    requires NameEmitted(members, values, name)
    ensures KeyAmong(MemberEntries(members, values, nodes), Text(name))
  {
    var es := MemberEntries(members, values, nodes);
    var i :| 0 <= i < |members| && Emitted(members, values, i) && ConvertName(members[i]) == name;
    MemberEntriesComplete(members, values, nodes);
    assert HasEntry(es, EntryOf(members, nodes, i));
    var p :| 0 <= p < |es| && es[p] == EntryOf(members, nodes, i);
    assert es[p].0 == Ok(Text(name));
  }

  /** The keys of the member-wise entries are distinct exactly when the
      emitted members' converted names are. */
  lemma {:induction false} MemberEntriesKeysDistinct(members: seq<Member>, values: seq<Value>, nodes: seq<Result<Node>>)
    requires |values| == |members| && |nodes| == |members|
    ensures KeysDistinct(MemberEntries(members, values, nodes)) <==> EmittedNamesDistinct(members, values)
    decreases |members|
  {
    if members != [] {
      var n := |members| - 1;
      var ms, vs, ns := members[..n], values[..n], nodes[..n];
      MemberEntriesKeysDistinct(ms, vs, ns);
      EmittedNamesDistinctStep(members, values);
      var init := MemberEntries(ms, vs, ns);
      if Emitted(members, values, n) {
        KeyAmongEntries(ms, vs, ns, ConvertName(members[n]));
        DistinctAfterAppend(init, EntryOf(members, nodes, n));
      } else {
        assert MemberEntries(members, values, nodes) == init + [] == init;
      }
    }
  }

  /** Distinct emitted names, one member at a time. */
  lemma EmittedNamesDistinctStep(members: seq<Member>, values: seq<Value>)
    requires |values| == |members| && |members| > 0
    ensures var n := |members| - 1;
            EmittedNamesDistinct(members, values) <==>
              && EmittedNamesDistinct(members[..n], values[..n])
              && (Emitted(members, values, n) ==> !NameEmitted(members[..n], values[..n], ConvertName(members[n])))
  {
    var n := |members| - 1;
    var ms, vs := members[..n], values[..n];
    assert forall i :: 0 <= i < n ==> (Emitted(ms, vs, i) <==> Emitted(members, values, i)) && ms[i] == members[i];
  }

  /** Appending a pair with a built key keeps the keys distinct exactly when
      that key is new. */
  lemma DistinctAfterAppend(pairs: seq<(Result<Node>, Result<Node>)>, e: (Result<Node>, Result<Node>))
    requires e.0.Ok?
    ensures KeysDistinct(pairs + [e]) <==> KeysDistinct(pairs) && !KeyAmong(pairs, e.0.value)
  {
    var es := pairs + [e];
    assert forall p :: 0 <= p < |pairs| ==> es[p] == pairs[p];
    assert es[|pairs|] == e;
    forall p | 0 <= p < |pairs| ensures KeysDistinct(es) ==> pairs[p].0 != Ok(e.0.value) {
      assert es[p] == pairs[p];
    }
  }

  /** `k` is the key of some emitted member. */
  ghost predicate EmittedKey(members: seq<Member>, values: seq<Value>, k: Node)
    requires |values| == |members|
  {
    exists i :: 0 <= i < |members| && Emitted(members, values, i) && k == Text(ConvertName(members[i]))
  }

  /** The mapping binds each emitted member's converted name to that
      member's value node, and has no other key. */
  ghost predicate MappingOfMembers(members: seq<Member>, values: seq<Value>, nodes: seq<Result<Node>>,
                                   m: seq<(Node, Node)>)
    requires |values| == |members| && |nodes| == |members|
  {
    && (forall i :: 0 <= i < |members| && Emitted(members, values, i) ==>
          nodes[i].Ok? && Lookup(m, Text(ConvertName(members[i]))) == Some(nodes[i].value))
    && (forall p :: 0 <= p < |m| ==> EmittedKey(members, values, m[p].0))
  }

  /** The mapping has one entry per emitted member, and their keys come in
      member order. */
  ghost predicate MembersInOrder(members: seq<Member>, values: seq<Value>, m: seq<(Node, Node)>)
    requires |values| == |members|
  {
    && |m| == EmittedCount(members, values)
    && forall i, j :: 0 <= i < j < |members| && Emitted(members, values, i) && Emitted(members, values, j) ==>
         exists p, q :: 0 <= p < q < |m| && m[p].0 == Text(ConvertName(members[i])) && m[q].0 == Text(ConvertName(members[j]))
  }

  /** The member-wise mapping is built exactly when every emitted member's
      value is and their converted names are distinct; it then binds each
      name to its value's node and nothing else. */
  lemma BuildMemberMapping(members: seq<Member>, values: seq<Value>, nodes: seq<Result<Node>>)
    requires |values| == |members| && |nodes| == |members|
    ensures BuildMapping(MemberEntries(members, values, nodes)).Ok? <==>
              EmittedBuilt(members, values, nodes) && EmittedNamesDistinct(members, values)
    ensures BuildMapping(MemberEntries(members, values, nodes)).Ok? ==>
              MappingOfMembers(members, values, nodes, BuildMapping(MemberEntries(members, values, nodes)).value)
    ensures BuildMapping(MemberEntries(members, values, nodes)).Ok? ==>
              MembersInOrder(members, values, BuildMapping(MemberEntries(members, values, nodes)).value)
  {
    var es := MemberEntries(members, values, nodes);
    BuildMappingOk(es);
    MemberEntriesBuilt(members, values, nodes);
    MemberEntriesKeysDistinct(members, values, nodes);
    var r := BuildMapping(es);
    if r.Ok? {
      var m := r.value;
      forall i | 0 <= i < |members| && Emitted(members, values, i)
        ensures nodes[i].Ok? && Lookup(m, Text(ConvertName(members[i]))) == Some(nodes[i].value)
      {
        MemberEntriesComplete(members, values, nodes);
        assert HasEntry(es, EntryOf(members, nodes, i));
        var p :| 0 <= p < |es| && es[p] == EntryOf(members, nodes, i);
        assert m[p] == (Text(ConvertName(members[i])), nodes[i].value);
        LookupDistinct(m, p);
      }
      forall p | 0 <= p < |m| ensures EmittedKey(members, values, m[p].0) {
        MemberEntriesSound(members, values, nodes);
        assert FromMember(members, values, nodes, es[p]);
        var i :| Emitted(members, values, i) && es[p] == EntryOf(members, nodes, i);
        assert m[p].0 == Text(ConvertName(members[i]));
      }
      MemberEntriesCount(members, values, nodes);
      forall i, j | 0 <= i < j < |members| && Emitted(members, values, i) && Emitted(members, values, j)
        ensures exists p, q :: 0 <= p < q < |m| && m[p].0 == Text(ConvertName(members[i])) && m[q].0 == Text(ConvertName(members[j]))
      {
        MemberEntriesOrdered(members, values, nodes, i, j);
        var p, q :| 0 <= p < q < |es| && es[p] == EntryOf(members, nodes, i) && es[q] == EntryOf(members, nodes, j);
        assert m[p].0 == Text(ConvertName(members[i])) && m[q].0 == Text(ConvertName(members[j]));
      }
    }
  }

  /** An object without a [Root] or [Serializer] serializes exactly when
      each public member with a non-null value serializes and their
      converted names are distinct, to the mapping binding each such name to
      the member's serialized value, with no other key. */
  lemma SerializeMemberWise(v: Value, hooks: Hooks)
    requires v.ObjectVal? && Shaped(v) && FindRoot(v.cls).None? && FindSerializer(v.cls).None?
    ensures Serialize(v, hooks).Ok? <==>
              EmittedBuilt(Members(v.cls), MemberValues(v), MemberNodes(v, hooks))
              && EmittedNamesDistinct(Members(v.cls), MemberValues(v))
    ensures Serialize(v, hooks).Ok? ==>
              && Serialize(v, hooks).value.Mapping?
              && DistinctKeys(Serialize(v, hooks).value.entries)
              && MappingOfMembers(Members(v.cls), MemberValues(v), MemberNodes(v, hooks), Serialize(v, hooks).value.entries)
              && MembersInOrder(Members(v.cls), MemberValues(v), Serialize(v, hooks).value.entries)
  {
    var b := BuildMapping(MemberEntries(Members(v.cls), MemberValues(v), MemberNodes(v, hooks)));
    assert Serialize(v, hooks) == if b.Ok? then Ok(Mapping(b.value)) else Err(b.error);
    BuildMemberMapping(Members(v.cls), MemberValues(v), MemberNodes(v, hooks));
  }

  // ---------------------------------------------------------------- well-formed output

  /** Every YamlNode stored inside the value is well formed. */
  predicate StoredNodesValid(v: Value)
    decreases v
  {
    match v
    case NodeVal(n) => Valid(n)
    case DictVal(_, _, es) => forall i :: 0 <= i < |es| ==> StoredNodesValid(es[i].0) && StoredNodesValid(es[i].1)
    case ListVal(_, xs) => forall i :: 0 <= i < |xs| ==> StoredNodesValid(xs[i])
    case ArrayVal(_, xs) => forall i :: 0 <= i < |xs| ==> StoredNodesValid(xs[i])
    case ObjectVal(_, fs, ps) =>
      (forall i :: 0 <= i < |fs| ==> StoredNodesValid(fs[i])) && (forall i :: 0 <= i < |ps| ==> StoredNodesValid(ps[i]))
    case _ => true
  }

  /** Every node a [Serializer] method returns is well formed. */
  ghost predicate HooksValid(hooks: Hooks) {
    forall c, i, obj :: hooks.serializeMethod(c, i, obj).Ok? && hooks.serializeMethod(c, i, obj).value.NodeVal? ==>
      Valid(hooks.serializeMethod(c, i, obj).value.node)
  }

  /** The serializer only builds well-formed trees (every mapping with
      distinct keys), given well-formed stored nodes and hook results. */
  lemma SerializeValid(v: Value, hooks: Hooks)
    requires StoredNodesValid(v) && HooksValid(hooks)
    ensures Serialize(v, hooks).Ok? ==> Valid(Serialize(v, hooks).value)
    decreases v, 2
  {
    match v
    case DictVal(_, _, es) => SerializeValidDict(v, hooks);
    case ListVal(_, xs) => SerializeValidList(v, hooks);
    case ArrayVal(_, xs) => SerializeValidList(v, hooks);
    case ObjectVal(_, _, _) => SerializeValidObject(v, hooks);
    case _ =>
  }

  lemma SerializeValidObject(v: Value, hooks: Hooks)
    requires v.ObjectVal? && StoredNodesValid(v) && HooksValid(hooks)
    ensures Serialize(v, hooks).Ok? ==> Valid(Serialize(v, hooks).value)
    decreases v, 1
  {
    var c, fs, ps := v.cls, v.fieldValues, v.propertyValues;
    if Shaped(v) {
      match FindRoot(c)
      case Some(FieldRef(i)) => SerializeValid(fs[i], hooks);
      case Some(PropertyRef(i)) => SerializeValid(ps[i], hooks);
      case None =>
        match FindSerializer(c)
        case Some(SerializerMember(FieldRef(i))) => SerializeValid(fs[i], hooks);
        case Some(SerializerMember(PropertyRef(i))) => SerializeValid(ps[i], hooks);
        case Some(SerializerMethod(i)) =>
        case None => SerializeValidMembers(v, hooks);
    }
  }

  lemma SerializeValidDict(v: Value, hooks: Hooks)
    requires v.DictVal? && StoredNodesValid(v) && HooksValid(hooks)
    ensures Serialize(v, hooks).Ok? ==> Valid(Serialize(v, hooks).value)
    decreases v, 0
  {
    if Serialize(v, hooks).Ok? {
      var m := Serialize(v, hooks).value.entries;
      SerializeDictEntries(v, hooks);
      forall i | 0 <= i < |m| ensures Valid(m[i].0) && Valid(m[i].1) {
        SerializeValid(v.entries[i].0, hooks);
        SerializeValid(v.entries[i].1, hooks);
      }
    }
  }

  lemma SerializeValidList(v: Value, hooks: Hooks)
    requires (v.ListVal? || v.ArrayVal?) && StoredNodesValid(v) && HooksValid(hooks)
    ensures Serialize(v, hooks).Ok? ==> Valid(Serialize(v, hooks).value)
    decreases v, 0
  {
    if Serialize(v, hooks).Ok? {
      var ns := Serialize(v, hooks).value.items;
      forall i | 0 <= i < |ns| ensures Valid(ns[i]) {
        SerializeValid(v.items[i], hooks);
      }
    }
  }

  lemma SerializeValidMembers(v: Value, hooks: Hooks)
    requires v.ObjectVal? && Shaped(v) && FindRoot(v.cls).None? && FindSerializer(v.cls).None?
    requires StoredNodesValid(v) && HooksValid(hooks)
    ensures Serialize(v, hooks).Ok? ==> Valid(Serialize(v, hooks).value)
    decreases v, 0
  {
    var members, values, nodes := Members(v.cls), MemberValues(v), MemberNodes(v, hooks);
    forall i | 0 <= i < |members| && nodes[i].Ok? ensures Valid(nodes[i].value) {
      var x := if i < |v.fieldValues| then v.fieldValues[i] else v.propertyValues[i - |v.fieldValues|];
      assert x == values[i];
      SerializeValid(x, hooks);
    }
    MemberMappingValid(members, values, nodes);
  }

  /** The member-wise mapping is well formed when the member nodes are. */
  lemma MemberMappingValid(members: seq<Member>, values: seq<Value>, nodes: seq<Result<Node>>)
    requires |values| == |members| && |nodes| == |members|
    requires forall i :: 0 <= i < |members| && nodes[i].Ok? ==> Valid(nodes[i].value)
    ensures BuildMapping(MemberEntries(members, values, nodes)).Ok? ==>
              Valid(Mapping(BuildMapping(MemberEntries(members, values, nodes)).value))
  {
    var es := MemberEntries(members, values, nodes);
    if BuildMapping(es).Ok? {
      var m := BuildMapping(es).value;
      MemberEntriesSound(members, values, nodes);
      forall p | 0 <= p < |m| ensures Valid(m[p].0) && Valid(m[p].1) {
        assert FromMember(members, values, nodes, es[p]);
      }
    }
  }
}

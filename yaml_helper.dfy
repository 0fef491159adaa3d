/** Extension helpers for navigating and converting YAML nodes. A node
    argument that may be null is an `Option<Node>`; user callbacks are
    function parameters that return the value or the exception they throw. */
module YamlHelper {
  import opened Wrappers
  import opened Framework
  import opened Assoc
  import opened YamlNodes
  import StringUtils

  // ---------------------------------------------------------------- scalars

  predicate IsScalar(node: Option<Node>) {
    node.Some? && node.value.Scalar?
  }

  /** node.String(): the value of a scalar node, null for anything else. */
  function String(node: Option<Node>): (r: Option<string>)
    ensures IsScalar(node) ==> r == node.value.value
    ensures !IsScalar(node) ==> r.None?
  {
    match node
    case Some(Scalar(v)) => v
    case _ => None
  }

  /** node.Int(): null for a node that is not a scalar, otherwise int.Parse of
      its value, which throws on null, malformed or out-of-range text. */
  function Int(node: Option<Node>): (r: Result<Option<int32>>)
    ensures !IsScalar(node) ==> r == Ok(None)
    ensures IsScalar(node) && node.value.value.None? ==> r == Err(ArgumentNull("s"))
    ensures IsScalar(node) && node.value.value.Some? ==>
              var n := ParseIntegerStyle(node.value.value.value);
              && (r.Ok? <==> n.Some? && IntKind.Int32.Contains(n.value))
              && (r.Ok? ==> r.value == Some(n.value as int32))
              && (n.None? ==> r == Err(Format))
              && (n.Some? && !IntKind.Int32.Contains(n.value) ==> r == Err(Overflow))
  {
    if !IsScalar(node) then Ok(None)
    else
      var i :- Int32Parse(node.value.value);
      Ok(Some(i))
  }

  /** An int written as decimal text reads back with Int. */
  lemma IntOfText(v: int32)
    ensures Int(Some(Text(IntToString(v)))) == Ok(Some(v))
  {
    ParseIntegerStyleOfIntToString(v);
  }

  /** White space around the digits does not matter to Int. */
  lemma IntOfPaddedText(before: string, v: int32, after: string)
    requires forall k :: 0 <= k < |before| ==> IsNumberWhite(before[k])
    requires forall k :: 0 <= k < |after| ==> IsNumberWhite(after[k])
    ensures Int(Some(Text(before + IntToString(v) + after))) == Ok(Some(v))
  {
    ParseIntegerStyleOfPadded(before, v, after);
  }

  // ---------------------------------------------------------------- navigation

  /** node.TryGet(key): the value bound to the scalar `key` when the node is
      a mapping holding it, otherwise null. */
  function TryGet(node: Option<Node>, key: string): (r: Option<Node>)
    ensures r.Some? <==> node.Some? && node.value.Mapping? && HasKey(node.value.entries, Text(key))
    ensures r.Some? ==> exists i :: 0 <= i < |node.value.entries|
                                    && node.value.entries[i] == (Text(key), r.value)
  {
    match node
    case Some(Mapping(entries)) => Lookup(entries, Text(key))
    case _ => None
  }

  /** The node reached by following `path` one key at a time; null once a
      hop misses. */
  function GoPath(node: Option<Node>, path: seq<string>): Option<Node>
    decreases |path|
  {
    if node.None? then None
    else if path == [] then node
    else GoPath(TryGet(node, path[0]), path[1..])
  }

  /** node.Go(path...): the foreach loop over the path. */
  method Go(node: Option<Node>, path: seq<string>) returns (r: Option<Node>)
    ensures r == GoPath(node, path)
  {
    if node.None? {
      return None;
    }
    var current := node;
    for i := 0 to |path|
      invariant current.Some?
      invariant GoPath(current, path[i..]) == GoPath(node, path)
    {
      assert path[i..][0] == path[i] && path[i..][1..] == path[i + 1..];
      current := TryGet(current, path[i]);
      if current.None? {
        return None;
      }
    }
    assert path[|path|..] == [];
    return current;
  }

  /** The empty path leaves the node as it is. */
  lemma GoEmpty(node: Option<Node>)
    ensures GoPath(node, []) == node
  {
  }

  /** Following `p` and then `q` is following `p + q`. */
  lemma {:induction false} GoConcat(node: Option<Node>, p: seq<string>, q: seq<string>)
    ensures GoPath(node, p + q) == GoPath(GoPath(node, p), q)
    decreases |p|
  {
    if node.Some? && p != [] {
      assert (p + q)[0] == p[0] && (p + q)[1..] == p[1..] + q;
      GoConcat(TryGet(node, p[0]), p[1..], q);
    } else if p == [] {
      assert p + q == q;
    }
  }

  /** A hop that misses makes the whole walk null, whatever follows it. */
  lemma GoMiss(node: Option<Node>, path: seq<string>, i: nat)
    requires i < |path| && TryGet(GoPath(node, path[..i]), path[i]) == None
    ensures GoPath(node, path) == None
  {
    assert path == path[..i] + path[i..];
    GoConcat(node, path[..i], path[i..]);
    GoNull(path[i + 1..]);
  }

  lemma {:induction false} GoNull(path: seq<string>)
    ensures GoPath(None, path) == None
  {
  }

  // ---------------------------------------------------------------- lists

  /** node.ToList(getter) for a mapping: getter(key, value) for each entry in
      order; null for a null node; a node of another kind fails the cast. */
  function ToListOfMapping<T>(node: Option<Node>, getter: (Node, Node) -> Result<T>): (r: Result<Option<seq<T>>>)
    ensures node.None? ==> r == Ok(None)
    ensures node.Some? && !node.value.Mapping? ==> r == Err(InvalidCast)
    ensures node.Some? && node.value.Mapping? ==>
              (r.Ok? <==> forall i :: 0 <= i < |node.value.entries| ==>
                            getter(node.value.entries[i].0, node.value.entries[i].1).Ok?)
    ensures r.Ok? && node.Some? ==>
              && r.value.Some? && node.value.Mapping?
              && |r.value.value| == |node.value.entries|
              && forall i :: 0 <= i < |node.value.entries| ==>
                   getter(node.value.entries[i].0, node.value.entries[i].1) == Ok(r.value.value[i])
    ensures node.Some? && node.value.Mapping? && r.Err? ==>
              exists i :: && 0 <= i < |node.value.entries|
                          && getter(node.value.entries[i].0, node.value.entries[i].1) == Err(r.error)
                          && forall j :: 0 <= j < i ==> getter(node.value.entries[j].0, node.value.entries[j].1).Ok?
  {
    match node
    case None => Ok(None)
    case Some(Mapping(entries)) =>
      var items :- SelectAll(entries, (e: (Node, Node)) => getter(e.0, e.1));
      Ok(Some(items))
    case Some(_) => Err(InvalidCast)
  }

  /** node.ToList(getter) for a sequence: getter(child) for each child in
      order; null for a null node; a node of another kind fails the cast. */
  function ToListOfSequence<T>(node: Option<Node>, getter: Node -> Result<T>): (r: Result<Option<seq<T>>>)
    ensures node.None? ==> r == Ok(None)
    ensures node.Some? && !node.value.Sequence? ==> r == Err(InvalidCast)
    ensures node.Some? && node.value.Sequence? ==>
              (r.Ok? <==> forall i :: 0 <= i < |node.value.items| ==> getter(node.value.items[i]).Ok?)
    ensures r.Ok? && node.Some? ==>
              && r.value.Some? && node.value.Sequence?
              && |r.value.value| == |node.value.items|
              && forall i :: 0 <= i < |node.value.items| ==> getter(node.value.items[i]) == Ok(r.value.value[i])
    ensures node.Some? && node.value.Sequence? && r.Err? ==>
              exists i :: && 0 <= i < |node.value.items| && getter(node.value.items[i]) == Err(r.error)
                          && forall j :: 0 <= j < i ==> getter(node.value.items[j]).Ok?
  {
    match node
    case None => Ok(None)
    case Some(Sequence(items)) =>
      var results :- SelectAll(items, getter);
      Ok(Some(results))
    case Some(_) => Err(InvalidCast)
  }

  /** node.ToListFromStrings(getter): the getter sees each child's String(). */
  function ToListFromStrings<T>(node: Option<Node>, getter: Option<string> -> Result<T>): Result<Option<seq<T>>> {
    ToListOfSequence(node, (x: Node) => getter(String(Some(x))))
  }

  /** node.ToStringList(): each child's String(). */
  function ToStringList(node: Option<Node>): Result<Option<seq<Option<string>>>> {
    ToListFromStrings(node, (s: Option<string>) => Ok(s))
  }

  /** A sequence yields the String() of every child, in order; children that
      are not scalars give null. */
  lemma ToStringListOfSequence(items: seq<Node>)
    ensures ToStringList(Some(Sequence(items)))
            == Ok(Some(seq(|items|, i requires 0 <= i < |items| => String(Some(items[i])))))
  {
    var r := ToStringList(Some(Sequence(items)));
    var expected := seq(|items|, i requires 0 <= i < |items| => String(Some(items[i])));
    var getter := (x: Node) => (s => Ok(s))(String(Some(x)));
    assert forall i :: 0 <= i < |items| ==> getter(items[i]).Ok?;
    assert r.Ok? && r.value.Some?;
    assert r.value.value == expected;
  }

  // ---------------------------------------------------------------- dictionaries

  /** The key getter gives entry `e` a non-null key. */
  predicate KeyFound<K>(e: (Node, Node), keyGetter: Node -> Result<Option<K>>) {
    keyGetter(e.0).Ok? && keyGetter(e.0).value.Some?
  }

  /** Entry `e` can be added to `d`: both getters return, and the key is
      not null and not yet bound in `d`. */
  predicate AddsTo<K(==), V>(e: (Node, Node), keyGetter: Node -> Result<Option<K>>, valueGetter: Node -> Result<V>,
                             d: seq<(K, V)>) {
    KeyFound(e, keyGetter) && valueGetter(e.1).Ok? && !HasKey(d, keyGetter(e.0).value.value)
  }

  /** The entries can all be added after `acc`: every key getter returns a
      non-null key and every value getter returns, no key is bound in `acc`,
      and no two entries get the same key. */
  predicate Addable<K(==), V>(entries: seq<(Node, Node)>, keyGetter: Node -> Result<Option<K>>,
                              valueGetter: Node -> Result<V>, acc: seq<(K, V)>) {
    && (forall i :: 0 <= i < |entries| ==> KeyFound(entries[i], keyGetter) && valueGetter(entries[i].1).Ok?)
    && (forall i :: 0 <= i < |entries| && KeyFound(entries[i], keyGetter) ==>
                      !HasKey(acc, keyGetter(entries[i].0).value.value))
    && (forall i, j :: 0 <= i < j < |entries| ==> keyGetter(entries[i].0) != keyGetter(entries[j].0))
  }

  /** The exception adding entry `e` throws when it cannot be added: the key
      getter's, then the value getter's, then the null key's, then the
      repeated key's. */
  function EntryError<K, V>(e: (Node, Node), keyGetter: Node -> Result<Option<K>>,
                            valueGetter: Node -> Result<V>): Error {
    if keyGetter(e.0).Err? then keyGetter(e.0).error
    else if valueGetter(e.1).Err? then valueGetter(e.1).error
    else if keyGetter(e.0).value.None? then ArgumentNull("key")
    else DuplicateKey
  }

  /** An entry that cannot be added spoils every list it heads. */
  lemma AddableHead<K, V>(e: (Node, Node), rest: seq<(Node, Node)>, keyGetter: Node -> Result<Option<K>>,
                          valueGetter: Node -> Result<V>, acc: seq<(K, V)>)
    ensures !AddsTo(e, keyGetter, valueGetter, acc) ==> !Addable([e] + rest, keyGetter, valueGetter, acc)
  {
    assert ([e] + rest)[0] == e;
  }

  /** The dictionary after adding entry `e` to `d`. */
  function AddedTo<K(==), V>(e: (Node, Node), keyGetter: Node -> Result<Option<K>>, valueGetter: Node -> Result<V>,
                             d: seq<(K, V)>): seq<(K, V)>
    requires AddsTo(e, keyGetter, valueGetter, d)
  {
    d + [(keyGetter(e.0).value.value, valueGetter(e.1).value)]
  }

  /** After an entry that can be added, the rest can be added exactly when
      it can be added to the dictionary holding the entry. */
  lemma AddableCons<K, V>(e: (Node, Node), rest: seq<(Node, Node)>, keyGetter: Node -> Result<Option<K>>,
                          valueGetter: Node -> Result<V>, acc: seq<(K, V)>)
    requires AddsTo(e, keyGetter, valueGetter, acc)
    ensures Addable([e] + rest, keyGetter, valueGetter, acc)
            <==> Addable(rest, keyGetter, valueGetter, AddedTo(e, keyGetter, valueGetter, acc))
  {
    var next := AddedTo(e, keyGetter, valueGetter, acc);
    HasKeyAppend(acc, keyGetter(e.0).value.value, valueGetter(e.1).value);
    if Addable([e] + rest, keyGetter, valueGetter, acc) {
      AddableTail(e, rest, keyGetter, valueGetter, acc);
    }
    if Addable(rest, keyGetter, valueGetter, next) {
      AddableJoin(e, rest, keyGetter, valueGetter, acc);
    }
  }

  lemma AddableTail<K, V>(e: (Node, Node), rest: seq<(Node, Node)>, keyGetter: Node -> Result<Option<K>>,
                          valueGetter: Node -> Result<V>, acc: seq<(K, V)>)
    requires AddsTo(e, keyGetter, valueGetter, acc) && Addable([e] + rest, keyGetter, valueGetter, acc)
    requires forall x: K :: HasKey(AddedTo(e, keyGetter, valueGetter, acc), x)
                            <==> HasKey(acc, x) || x == keyGetter(e.0).value.value
    ensures Addable(rest, keyGetter, valueGetter, AddedTo(e, keyGetter, valueGetter, acc))
  {
    var s := [e] + rest;
    assert s[0] == e;
    forall i | 0 <= i < |rest| ensures s[i + 1] == rest[i] && keyGetter(s[0].0) != keyGetter(s[i + 1].0) {
    }
    forall i, j | 0 <= i < j < |rest| ensures keyGetter(rest[i].0) != keyGetter(rest[j].0) {
      assert s[i + 1] == rest[i] && s[j + 1] == rest[j];
    }
  }

  lemma AddableJoin<K, V>(e: (Node, Node), rest: seq<(Node, Node)>, keyGetter: Node -> Result<Option<K>>,
                          valueGetter: Node -> Result<V>, acc: seq<(K, V)>)
    requires AddsTo(e, keyGetter, valueGetter, acc)
    requires Addable(rest, keyGetter, valueGetter, AddedTo(e, keyGetter, valueGetter, acc))
    requires forall x: K :: HasKey(AddedTo(e, keyGetter, valueGetter, acc), x)
                            <==> HasKey(acc, x) || x == keyGetter(e.0).value.value
    ensures Addable([e] + rest, keyGetter, valueGetter, acc)
  {
    var s := [e] + rest;
    assert s[0] == e;
    assert forall i :: 0 < i < |s| ==> s[i] == rest[i - 1];
    forall i, j | 0 <= i < j < |s| ensures keyGetter(s[i].0) != keyGetter(s[j].0) {
      assert s[j] == rest[j - 1];
      if i > 0 {
        assert s[i] == rest[i - 1];
      } else {
        var kj := keyGetter(rest[j - 1].0).value.value;
        assert KeyFound(rest[j - 1], keyGetter);
        assert !HasKey(AddedTo(e, keyGetter, valueGetter, acc), kj);
        assert kj != keyGetter(e.0).value.value;
      }
    }
  }

  /** The pairs built from the tail after the first entry's pair are the
      pairs built from all the entries. */
  lemma EntriesShift<K, V>(entries: seq<(Node, Node)>, keyGetter: Node -> Result<Option<K>>,
                           valueGetter: Node -> Result<V>, acc: seq<(K, V)>, k: K, v: V, d: seq<(K, V)>)
    requires |entries| > 0 && keyGetter(entries[0].0) == Ok(Some(k)) && valueGetter(entries[0].1) == Ok(v)
    requires var next := acc + [(k, v)];
             && |d| == |next| + |entries| - 1 && d[..|next|] == next
             && forall i :: 0 <= i < |entries[1..]| ==>
                  keyGetter(entries[1..][i].0) == Ok(Some(d[|next| + i].0))
                  && valueGetter(entries[1..][i].1) == Ok(d[|next| + i].1)
    ensures d[..|acc|] == acc
    ensures forall i :: 0 <= i < |entries| ==>
              keyGetter(entries[i].0) == Ok(Some(d[|acc| + i].0)) && valueGetter(entries[i].1) == Ok(d[|acc| + i].1)
  {
    var next := acc + [(k, v)];
    assert d[..|next|][..|acc|] == d[..|acc|];
    forall i | 0 <= i < |entries|
      ensures keyGetter(entries[i].0) == Ok(Some(d[|acc| + i].0)) && valueGetter(entries[i].1) == Ok(d[|acc| + i].1)
    {
      if i == 0 {
        assert d[|acc|] == d[..|next|][|acc|] == next[|acc|];
      } else {
        assert entries[i] == entries[1..][i - 1];
      }
    }
  }

  /** The first entry of the tail that cannot be added is, one place on, the
      first of the whole list. */
  lemma FirstUnaddableShift<K, V>(e: (Node, Node), rest: seq<(Node, Node)>, keyGetter: Node -> Result<Option<K>>,
                                  valueGetter: Node -> Result<V>, acc: seq<(K, V)>, i: nat)
    requires AddsTo(e, keyGetter, valueGetter, acc) && i < |rest|
    requires Addable(rest[..i], keyGetter, valueGetter, AddedTo(e, keyGetter, valueGetter, acc))
    requires !Addable(rest[..i + 1], keyGetter, valueGetter, AddedTo(e, keyGetter, valueGetter, acc))
    ensures var s := [e] + rest;
            && Addable(s[..i + 1], keyGetter, valueGetter, acc)
            && !Addable(s[..i + 2], keyGetter, valueGetter, acc)
            && s[i + 1] == rest[i]
  {
    var s := [e] + rest;
    AddableCons(e, rest[..i], keyGetter, valueGetter, acc);
    AddableCons(e, rest[..i + 1], keyGetter, valueGetter, acc);
    assert [e] + rest[..i] == s[..i + 1];
    assert [e] + rest[..i + 1] == s[..i + 2];
  }

  /** The ToDictionary loop over the entries still to add, `acc` holding the
      dictionary so far: per entry the key is computed, then the value, then
      Dictionary.Add rejects a null or repeated key. It succeeds exactly when
      the entries are addable; otherwise it throws what the first entry that
      cannot be added throws. */
  function AddEntries<K(==), V>(entries: seq<(Node, Node)>, keyGetter: Node -> Result<Option<K>>,
                            valueGetter: Node -> Result<V>, acc: seq<(K, V)>): (r: Result<seq<(K, V)>>)
    requires DistinctKeys(acc)
    ensures r.Ok? ==>
              && |r.value| == |acc| + |entries|
              && r.value[..|acc|] == acc
              && DistinctKeys(r.value)
              && forall i :: 0 <= i < |entries| ==>
                   keyGetter(entries[i].0) == Ok(Some(r.value[|acc| + i].0))
                   && valueGetter(entries[i].1) == Ok(r.value[|acc| + i].1)
    ensures r.Ok? <==> Addable(entries, keyGetter, valueGetter, acc)
    ensures r.Err? ==>
              exists i :: && 0 <= i < |entries|
                          && Addable(entries[..i], keyGetter, valueGetter, acc)
                          && !Addable(entries[..i + 1], keyGetter, valueGetter, acc)
                          && r.error == EntryError(entries[i], keyGetter, valueGetter)
    decreases |entries|
  {
    if entries == [] then Ok(acc)
    else
      var e := entries[0];
      assert entries == [e] + entries[1..] && entries[..1] == [e] + [] && entries[..0] == [];
      AddableHead(e, entries[1..], keyGetter, valueGetter, acc);
      AddableHead(e, [], keyGetter, valueGetter, acc);
      assert Addable(entries[..0], keyGetter, valueGetter, acc);
      var key :- keyGetter(entries[0].0);
      var value :- valueGetter(entries[0].1);
      if key.None? then Err(ArgumentNull("key"))
      else
        var next :- Add(acc, key.value, value);
        var r := AddEntries(entries[1..], keyGetter, valueGetter, next);
        assert AddsTo(e, keyGetter, valueGetter, acc) && next == AddedTo(e, keyGetter, valueGetter, acc);
        AddableCons(e, entries[1..], keyGetter, valueGetter, acc);
        if r.Ok? then
          EntriesShift(entries, keyGetter, valueGetter, acc, key.value, value, r.value);
          r
        else
          ghost var i :| && 0 <= i < |entries[1..]|
                         && Addable(entries[1..][..i], keyGetter, valueGetter, next)
                         && !Addable(entries[1..][..i + 1], keyGetter, valueGetter, next)
                         && r.error == EntryError(entries[1..][i], keyGetter, valueGetter);
          FirstUnaddableShift(e, entries[1..], keyGetter, valueGetter, acc, i);
          r
  }

  /** node.ToDictionary(key_getter, value_getter): null for a null node; a
      node that is not a mapping fails the cast; one entry per mapping entry,
      in order. */
  function ToDictionary<K(==), V>(node: Option<Node>, keyGetter: Node -> Result<Option<K>>,
                              valueGetter: Node -> Result<V>): (r: Result<Option<seq<(K, V)>>>)
    ensures node.None? ==> r == Ok(None)
    ensures node.Some? && !node.value.Mapping? ==> r == Err(InvalidCast)
    ensures node.Some? && node.value.Mapping? ==>
              (r.Ok? <==> Addable(node.value.entries, keyGetter, valueGetter, []))
    ensures node.Some? && node.value.Mapping? && r.Err? ==>
              exists i :: && 0 <= i < |node.value.entries|
                          && Addable(node.value.entries[..i], keyGetter, valueGetter, [])
                          && !Addable(node.value.entries[..i + 1], keyGetter, valueGetter, [])
                          && r.error == EntryError(node.value.entries[i], keyGetter, valueGetter)
    ensures r.Ok? && node.Some? ==>
              && r.value.Some? && node.value.Mapping?
              && |r.value.value| == |node.value.entries|
              && DistinctKeys(r.value.value)
              && forall i :: 0 <= i < |node.value.entries| ==>
                   keyGetter(node.value.entries[i].0) == Ok(Some(r.value.value[i].0))
                   && valueGetter(node.value.entries[i].1) == Ok(r.value.value[i].1)
  {
    match node
    case None => Ok(None)
    case Some(Mapping(entries)) =>
      var d :- AddEntries(entries, keyGetter, valueGetter, []);
      Ok(Some(d))
    case Some(_) => Err(InvalidCast)
  }

  /** Two entries whose keys give the same key make ToDictionary throw. */
  lemma ToDictionaryRejectsDuplicates<K, V>(entries: seq<(Node, Node)>, keyGetter: Node -> Result<Option<K>>,
                                            valueGetter: Node -> Result<V>, i: nat, j: nat, k: K)
    requires i < j < |entries|
    requires keyGetter(entries[i].0) == Ok(Some(k)) && keyGetter(entries[j].0) == Ok(Some(k))
    ensures !ToDictionary(Some(Mapping(entries)), keyGetter, valueGetter).Ok?
  {
    var r := ToDictionary(Some(Mapping(entries)), keyGetter, valueGetter);
    if r.Ok? {
      assert false;
    }
  }

  /** node.ToDictionary(value_getter): keys are the String() of each key. */
  function ToDictionaryOfValues<V>(node: Option<Node>, valueGetter: Node -> Result<V>)
    : Result<Option<seq<(string, V)>>>
  {
    ToDictionary(node, (x: Node) => Ok(String(Some(x))), valueGetter)
  }

  /** node.ToDictionary(): String() of each key and of each value. */
  function ToStringDictionary(node: Option<Node>): Result<Option<seq<(string, Option<string>)>>> {
    ToDictionaryOfValues(node, (x: Node) => Ok(String(Some(x))))
  }

  /** A key that is not a scalar has a null String(), which ToDictionary
      rejects. */
  lemma ToStringDictionaryNeedsScalarKeys(entries: seq<(Node, Node)>, i: nat)
    requires i < |entries| && !entries[i].0.Scalar?
    ensures !ToStringDictionary(Some(Mapping(entries))).Ok?
  {
    var r := ToStringDictionary(Some(Mapping(entries)));
    var keyGetter := (x: Node) => Ok(String(Some(x)));
    assert keyGetter(entries[i].0) == Ok(None);
  }

  // ---------------------------------------------------------------- parsers

  /** node.NullableParse(parser) (and NullableStructParse): null for a null
      node, otherwise the parser's result. */
  function NullableParse<T>(node: Option<Node>, parser: Node -> Result<T>): (r: Result<Option<T>>)
    ensures node.None? ==> r == Ok(None)
    ensures node.Some? ==> match parser(node.value)
                           case Ok(v) => r == Ok(Some(v))
                           case Err(e) => r == Err(e)
  {
    match node
    case None => Ok(None)
    case Some(n) =>
      var v :- parser(n);
      Ok(Some(v))
  }

  /** node.Parse(parser): a null node throws ArgumentNullException. */
  function Parse<T>(node: Option<Node>, parser: Node -> Result<T>): (r: Result<T>)
    ensures node.None? ==> r == Err(ArgumentNull("node"))
    ensures node.Some? ==> r == parser(node.value)
  {
    match node
    case None => Err(ArgumentNull("node"))
    case Some(n) => parser(n)
  }

  /** node.ToEnum(def): `def` for a null node, otherwise
      ParseUnderscoredEnum of its String(). */
  function ToEnumOr(node: Option<Node>, e: EnumType, def: int): (r: Result<int>)
    ensures node.None? ==> r == Ok(def)
    ensures node.Some? ==> r == StringUtils.ParseUnderscoredEnum(e, String(node))
  {
    if node.None? then Ok(def) else StringUtils.ParseUnderscoredEnum(e, String(node))
  }

  /** node.ToEnum(): null for a null node, otherwise
      ParseUnderscoredEnum of its String(). */
  function ToEnum(node: Option<Node>, e: EnumType): (r: Result<Option<int>>)
    ensures node.None? ==> r == Ok(None)
    ensures node.Some? && IsScalar(node) && node.value.value.None? ==> r == Err(NullReference)
    ensures node.Some? ==> r == match StringUtils.ParseUnderscoredEnum(e, String(node))
                                case Ok(v) => Ok(Some(v))
                                case Err(x) => Err(x)
  {
    if node.None? then Ok(None)
    else
      var v :- StringUtils.ParseUnderscoredEnum(e, String(node));
      Ok(Some(v))
  }

  /** An enum value written in key form comes back from ToEnum, and from
      ToEnum(def) whatever the default. */
  lemma ToEnumOfKey(e: EnumType, v: int, def: int)
    requires StringUtils.WellNamed(e) && IntKind.Int32.Contains(v)
    ensures var n := Some(Text(StringUtils.ToSnake(EnumName(e, v))));
            ToEnum(n, e) == Ok(Some(v)) && ToEnumOr(n, e, def) == Ok(v)
  {
    StringUtils.ParseUnderscoredEnumOfName(e, v);
  }
}

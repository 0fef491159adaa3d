/** Insertion-ordered dictionaries as association lists: the model of
    System.Collections.Generic.Dictionary (enumerated in insertion order when
    nothing was removed) and of LINQ's ToDictionary. */
module Assoc {
  import opened Wrappers

  predicate HasKey<K(==), V>(d: seq<(K, V)>, k: K) {
    exists i :: 0 <= i < |d| && d[i].0 == k
  }

  predicate DistinctKeys<K(==), V>(d: seq<(K, V)>) {
    forall i, j :: 0 <= i < j < |d| ==> d[i].0 != d[j].0
  }

  /** A key is bound after adding a pair exactly when it was bound before or
      is the pair's key. */
  lemma HasKeyAppend<K, V>(d: seq<(K, V)>, k: K, v: V)
    ensures forall x: K :: HasKey(d + [(k, v)], x) <==> HasKey(d, x) || x == k
  {
    var next := d + [(k, v)];
    forall x: K ensures HasKey(next, x) <==> HasKey(d, x) || x == k {
      if HasKey(next, x) && x != k {
        var i :| 0 <= i < |next| && next[i].0 == x;
        assert next[i] == d[i];
      }
      if HasKey(d, x) {
        var i :| 0 <= i < |d| && d[i].0 == x;
        assert next[i] == d[i];
      }
      assert next[|d|].0 == k;
    }
  }

  /** Dictionary.TryGetValue: the value bound to `k`, if any. */
  function Lookup<K(==), V>(d: seq<(K, V)>, k: K): (r: Option<V>)
    ensures r.Some? <==> HasKey(d, k)
    ensures r.Some? ==> exists i :: 0 <= i < |d| && d[i] == (k, r.value)
  {
    if d == [] then None
    else if d[0].0 == k then Some(d[0].1)
    else
      var r := Lookup(d[1..], k);
      assert r.Some? ==> exists i :: 0 <= i < |d[1..]| && d[1..][i] == (k, r.value);
      assert HasKey(d[1..], k) ==> HasKey(d, k) by {
        if HasKey(d[1..], k) {
          var i :| 0 <= i < |d[1..]| && d[1..][i].0 == k;
          assert d[i + 1].0 == k;
        }
      }
      r
  }

  /** Dictionary.Add: binds `k` at the end, or throws when `k` is bound. */
  function Add<K(==), V>(d: seq<(K, V)>, k: K, v: V): (r: Result<seq<(K, V)>>)
    ensures r.Ok? <==> !HasKey(d, k)
    ensures r.Ok? ==> r.value == d + [(k, v)]
    ensures r.Ok? && DistinctKeys(d) ==> DistinctKeys(r.value)
    ensures r.Err? ==> r.error == DuplicateKey
  {
    if HasKey(d, k) then Err(DuplicateKey)
    else
      var r := d + [(k, v)];
      assert DistinctKeys(d) ==> DistinctKeys(r) by {
        if DistinctKeys(d) {
          forall i, j | 0 <= i < j < |r| ensures r[i].0 != r[j].0 {
            assert r[i] == d[i];
            if j < |d| {
              assert r[j] == d[j];
            }
          }
        }
      }
      Ok(r)
  }

  /** Enumerable.ToDictionary over the pairs already selected: each pair is
      added in order. */
  function ToDictionary<K(==), V>(pairs: seq<(K, V)>): Result<seq<(K, V)>>
    decreases |pairs|
  {
    if pairs == [] then Ok([])
    else
      var d :- ToDictionary(pairs[..|pairs| - 1]);
      Add(d, pairs[|pairs| - 1].0, pairs[|pairs| - 1].1)
  }

  /** ToDictionary succeeds exactly when no key repeats, and then keeps every
      pair in order. */
  lemma {:induction false} ToDictionaryKeepsPairs<K, V>(pairs: seq<(K, V)>)
    ensures ToDictionary(pairs).Ok? <==> DistinctKeys(pairs)
    ensures ToDictionary(pairs).Ok? ==> ToDictionary(pairs).value == pairs
    decreases |pairs|
  {
    if pairs != [] {
      var n := |pairs| - 1;
      var init := pairs[..n];
      ToDictionaryKeepsPairs(init);
      assert init + [pairs[n]] == pairs;
      if DistinctKeys(init) {
        if HasKey(init, pairs[n].0) {
          var i :| 0 <= i < |init| && init[i].0 == pairs[n].0;
          assert pairs[i].0 == pairs[n].0;
        } else {
          forall i, j | 0 <= i < j < |pairs| ensures pairs[i].0 != pairs[j].0 {
            if j == n {
              assert init[i].0 == pairs[i].0;
            } else {
              assert init[i] == pairs[i] && init[j] == pairs[j];
            }
          }
        }
      } else {
        var i, j :| 0 <= i < j < |init| && init[i].0 == init[j].0;
        assert pairs[i].0 == pairs[j].0;
      }
    }
  }

  /** In a dictionary without repeated keys, the pair holding a key is what
      a lookup finds. */
  lemma LookupDistinct<K, V>(d: seq<(K, V)>, i: nat)
    requires DistinctKeys(d) && i < |d|
    ensures Lookup(d, d[i].0) == Some(d[i].1)
  {
    assert HasKey(d, d[i].0);
    var r := Lookup(d, d[i].0);
    var i' :| 0 <= i' < |d| && d[i'] == (d[i].0, r.value);
    assert i' == i;
  }

  /** Appending a pair leaves the lookup of every key already bound. */
  lemma {:induction false} LookupAfterAppend<K, V>(d: seq<(K, V)>, k: K, x: V, q: K)
    requires HasKey(d, q)
    ensures Lookup(d + [(k, x)], q) == Lookup(d, q)
    decreases |d|
  {
    var e := d + [(k, x)];
    if d[0].0 != q {
      var i :| 0 <= i < |d| && d[i].0 == q;
      assert d[1..][i - 1].0 == q;
      assert e[1..] == d[1..] + [(k, x)];
      LookupAfterAppend(d[1..], k, x, q);
    }
  }
}

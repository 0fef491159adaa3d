/** ListUtils: an in-place Fisher-Yates shuffle driven by supplied random
    draws, LINQ-style counting predicates, a 64-bit range generator, a
    dictionary copy, and row-major walks over two-dimensional arrays. */
module ListUtils {
  import opened Wrappers
  import opened Framework
  import opened Assoc

  // ---------------------------------------------------------------- Shuffle

  /** Exchanges the elements at `i` and `j`. */
  function Swap<T>(s: seq<T>, i: nat, j: nat): (r: seq<T>)
    requires i < |s| && j < |s|
    ensures |r| == |s| && r[i] == s[j] && r[j] == s[i]
    ensures forall k :: 0 <= k < |s| && k != i && k != j ==> r[k] == s[k]
    ensures multiset(r) == multiset(s)
  {
    s[i := s[j]][j := s[i]]
  }

  /** The answers `random.Next(n + 1)` gives the shuffle loop, one per pass,
      when `n` elements are still unplaced: one draw for every pass while
      more than one element remains, the draw of pass j lying in [0, n - 1 - j]. */
  predicate Draws(n: nat, ks: seq<nat>) {
    && |ks| == (if n > 1 then n - 1 else 0)
    && forall j :: 0 <= j < |ks| ==> ks[j] < n - j
  }

  /** The list the shuffle loop leaves when the first `n` positions are still
      to be filled: the last of them swaps with the drawn position, then the
      loop carries on with one fewer. */
  function Shuffled<T>(s: seq<T>, n: nat, ks: seq<nat>): seq<T>
    requires n <= |s| && Draws(n, ks)
    decreases n
  {
    if n <= 1 then s
    else Shuffled(Swap(s, ks[0], n - 1), n - 1, ks[1..])
  }

  /** A shuffle only rearranges: same length, same elements with the same
      multiplicities. */
  lemma {:induction false} ShuffledPermutes<T>(s: seq<T>, n: nat, ks: seq<nat>)
    requires n <= |s| && Draws(n, ks)
    ensures |Shuffled(s, n, ks)| == |s|
    ensures multiset(Shuffled(s, n, ks)) == multiset(s)
    decreases n
  {
    if n > 1 {
      ShuffledPermutes(Swap(s, ks[0], n - 1), n - 1, ks[1..]);
    }
  }

  /** Positions at or past the unplaced prefix are never written again. */
  lemma {:induction false} ShuffledKeepsPlaced<T>(s: seq<T>, n: nat, ks: seq<nat>, i: nat)
    requires n <= i < |s| && Draws(n, ks)
    ensures |Shuffled(s, n, ks)| == |s|
    ensures Shuffled(s, n, ks)[i] == s[i]
    decreases n
  {
    ShuffledPermutes(s, n, ks);
    if n > 1 {
      ShuffledKeepsPlaced(Swap(s, ks[0], n - 1), n - 1, ks[1..], i);
    }
  }

  /** One pass consumes one draw: it lies among the unplaced positions and
      the rest fit the pass after. */
  lemma DrawsNext(n: nat, ks: seq<nat>)
    requires n > 1 && Draws(n, ks)
    ensures ks[0] < n && Draws(n - 1, ks[1..])
  {
    forall j | 0 <= j < |ks[1..]| ensures ks[1..][j] < n - 1 - j {
      assert ks[1..][j] == ks[j + 1];
    }
  }

  /** The three assignments of a swap through a temporary. */
  method SwapAt<T>(list: array<T>, k: nat, n: nat)
    requires k < list.Length && n < list.Length
    modifies list
    ensures list[..] == Swap(old(list[..]), k, n)
  {
    var value := list[k];
    list[k] := list[n];
    list[n] := value;
  }

  /** ListUtils.Shuffle: while more than one element is unplaced, the last
      unplaced one trades places with a drawn one. */
  method Shuffle<T>(list: array<T>, ks: seq<nat>)
    requires Draws(list.Length, ks)
    modifies list
    ensures list[..] == Shuffled(old(list[..]), list.Length, ks)
    ensures multiset(list[..]) == multiset(old(list[..]))
  {
    var n := list.Length;
    var used := 0;
    while n > 1
      invariant 0 <= n <= list.Length
      invariant used == list.Length - n
      invariant used <= |ks| && Draws(n, ks[used..])
      invariant Shuffled(list[..], n, ks[used..]) == Shuffled(old(list[..]), list.Length, ks)
    {
      n := n - 1;
      var k := ks[used];
      DrawsNext(n + 1, ks[used..]);
      assert ks[used..][1..] == ks[used + 1..];
      SwapAt(list, k, n);
      used := used + 1;
    }
    ShuffledPermutes(old(list[..]), list.Length, ks);
  }

  // ---------------------------------------------------------------- counting

  /** Enumerable.Skip(count): a count of zero or less skips nothing. */
  function Skip<T>(items: seq<T>, count: int): seq<T> {
    if count <= 0 then items
    else if count >= |items| then []
    else items[count..]
  }

  /** ListUtils.ExactlyOne: there is a first element and nothing after it. */
  function ExactlyOne<T>(items: seq<T>): (r: bool)
    ensures r <==> |items| == 1
  {
    |items| > 0 && !(|Skip(items, 1)| > 0)
  }

  /** ListUtils.CountGreaterThan: something remains once `count` elements
      are skipped. */
  function CountGreaterThan<T>(items: seq<T>, count: int32): (r: bool)
    ensures r <==> |items| > (if count < 0 then 0 else count as int)
  {
    |Skip(items, count as int)| > 0
  }

  // ---------------------------------------------------------------- CreateRange

  /** Unchecked 64-bit addition, as C# evaluates `long + long` by default. */
  function Wrap64(x: int): (r: int64)
    ensures IntKind.Int64.Contains(x) ==> r == x
  {
    (x + 0x8000_0000_0000_0000) % 0x1_0000_0000_0000_0000 - 0x8000_0000_0000_0000
  }

  /** ListUtils.CreateRange: counts up from `start` to the wrapped limit
      `start + count`, stopping before it. */
  method CreateRange(start: int64, count: int64) returns (r: seq<int64>)
    ensures var limit := Wrap64(start as int + count as int);
            |r| == (if start < limit then limit as int - start as int else 0)
    ensures forall i :: 0 <= i < |r| ==> r[i] == start as int + i
    ensures IntKind.Int64.Contains(start as int + count as int) ==> |r| == (if count < 0 then 0 else count as int)
    ensures start as int + count as int > IntKind.Int64.Max() ==> r == []
  {
    var limit := Wrap64(start as int + count as int);
    r := [];
    var s := start;
    while s < limit
      invariant start <= s && (s == start || s <= limit)
      invariant |r| == s as int - start as int
      invariant forall i :: 0 <= i < |r| ==> r[i] == start as int + i
      decreases limit as int - s as int
    {
      r := r + [s];
      s := s + 1;
    }
  }

  // ---------------------------------------------------------------- Copy

  /** ListUtils.Copy: ToDictionary over the dictionary's own pairs; keys are
      already distinct, so nothing is rejected and every pair is kept in
      enumeration order. */
  function Copy<K(==), V>(dict: seq<(K, V)>): (r: Result<seq<(K, V)>>)
    requires DistinctKeys(dict)
    ensures r == Ok(dict)
  {
    ToDictionaryKeepsPairs(dict);
    ToDictionary(dict)
  }

  // ---------------------------------------------------------------- two-dimensional arrays

  lemma RowMajorIndex(width: nat, height: nat, x: nat, y: nat)
    requires x < width && y < height
    ensures RowMajor(width, x, y) < width * height
  {
    var d := height - (y + 1);
    assert height * width == (y + 1) * width + d * width;
    assert d * width >= 0;
  }

  /** ListUtils.Flatten: the rows of constant `y`, one after another, each
      from `x == 0` upwards; element `arr[x, y]` lands at `y * width + x`. */
  method Flatten<T>(arr: array2<T>) returns (r: seq<T>)
    ensures |r| == arr.Length0 * arr.Length1
    ensures forall x, y :: 0 <= x < arr.Length0 && 0 <= y < arr.Length1 ==>
              RowMajor(arr.Length0, x, y) < |r| && r[RowMajor(arr.Length0, x, y)] == arr[x, y]
  {
    var width, height := arr.Length0, arr.Length1;
    r := [];
    var y := 0;
    while y < height
      invariant 0 <= y <= height
      invariant |r| == y * width
      invariant forall x', y' :: 0 <= x' < width && 0 <= y' < y ==>
                  RowMajor(width, x', y') < |r| && r[RowMajor(width, x', y')] == arr[x', y']
    {
      var x := 0;
      while x < width
        invariant 0 <= x <= width
        invariant |r| == y * width + x
        invariant forall x', y' :: 0 <= x' < width && 0 <= y' < y ==>
                    RowMajor(width, x', y') < |r| && r[RowMajor(width, x', y')] == arr[x', y']
        invariant forall x' :: 0 <= x' < x ==> r[y * width + x'] == arr[x', y]
      {
        r := r + [arr[x, y]];
        x := x + 1;
      }
      assert (y + 1) * width == y * width + width;
      forall x', y' | 0 <= x' < width && 0 <= y' < y + 1
        ensures RowMajor(width, x', y') < |r| && r[RowMajor(width, x', y')] == arr[x', y']
      {
        RowMajorIndex(width, y + 1, x', y');
      }
      y := y + 1;
    }
  }

  /** Where row-major order puts column `x` of row `y`. */
  function RowMajor(width: nat, x: nat, y: nat): nat {
    y * width + x
  }

  /** Every element before column `x` of row `y`, in the order Map2D visits
      them (row by row, each row left to right), maps without an exception. */
  predicate MapsBefore<T, U>(arr: array2<T>, func: T -> Result<U>, x: int, y: int)
    reads arr
  {
    forall x', y' :: 0 <= x' < arr.Length0 && 0 <= y' < arr.Length1 && (y' < y || (y' == y && x' < x)) ==>
      func(arr[x', y']).Ok?
  }

  /** ListUtils.Map2D: a fresh array of the same dimensions holding `func` of
      each element at the same coordinates, or the exception of the first
      element, in visiting order, for which `func` throws. */
  method Map2D<T, U(0)>(arr: array2<T>, func: T -> Result<U>) returns (r: Result<array2<U>>)
    ensures r.Ok? <==> forall x, y :: 0 <= x < arr.Length0 && 0 <= y < arr.Length1 ==> func(arr[x, y]).Ok?
    ensures r.Ok? ==>
              && fresh(r.value)
              && r.value.Length0 == arr.Length0 && r.value.Length1 == arr.Length1
              && forall x, y :: 0 <= x < arr.Length0 && 0 <= y < arr.Length1 ==> func(arr[x, y]) == Ok(r.value[x, y])
    ensures r.Err? ==>
              exists x, y :: && 0 <= x < arr.Length0 && 0 <= y < arr.Length1
                             && func(arr[x, y]) == Err(r.error) && MapsBefore(arr, func, x, y)
  {
    var result := new U[arr.Length0, arr.Length1];
    var y := 0;
    while y < arr.Length1
      invariant 0 <= y <= arr.Length1
      invariant MapsBefore(arr, func, 0, y)
      invariant forall x', y' :: 0 <= x' < arr.Length0 && 0 <= y' < y ==> func(arr[x', y']) == Ok(result[x', y'])
    {
      var x := 0;
      while x < arr.Length0
        invariant 0 <= x <= arr.Length0
        invariant MapsBefore(arr, func, x, y)
        invariant forall x', y' :: 0 <= x' < arr.Length0 && 0 <= y' < y ==> func(arr[x', y']) == Ok(result[x', y'])
        invariant forall x' :: 0 <= x' < x ==> func(arr[x', y]) == Ok(result[x', y])
      {
        var v := func(arr[x, y]);
        if v.Err? {
          return Err(v.error);
        }
        result[x, y] := v.value;
        x := x + 1;
      }
      y := y + 1;
    }
    return Ok(result);
  }
}

/** DataUtils: conversions between integers and their bytes. BitConverter
    works in the host's byte order, which is a parameter here (`hostLittle`);
    the conversions that promise a fixed order reverse the bytes when the host
    disagrees. */
module DataUtils {
  import opened Wrappers
  import opened Framework

  // ---------------------------------------------------------------- unsigned numbers as bytes

  /** How many values `n` bytes can hold. */
  function Pow256(n: nat): (r: nat)
    ensures r > 0
  {
    if n == 0 then 1 else 256 * Pow256(n - 1)
  }

  /** The `n` low-order bytes of `u`, least significant first. */
  function LittleEndian(u: nat, n: nat): (r: seq<byte>)
    ensures |r| == n
  {
    if n == 0 then [] else [u % 256] + LittleEndian(u / 256, n - 1)
  }

  /** The number whose bytes, least significant first, are `bs`. */
  function FromLittleEndian(bs: seq<byte>): (r: nat)
    ensures r < Pow256(|bs|)
  {
    if bs == [] then 0 else bs[0] + 256 * FromLittleEndian(bs[1..])
  }

  /** Reading back the bytes of a number that fits gives the number. */
  lemma {:induction false} FromLittleEndianOf(u: nat, n: nat)
    requires u < Pow256(n)
    ensures FromLittleEndian(LittleEndian(u, n)) == u
  {
    if n > 0 {
      var bs := LittleEndian(u, n);
      assert bs[1..] == LittleEndian(u / 256, n - 1);
      FromLittleEndianOf(u / 256, n - 1);
    }
  }

  /** Writing out the number some bytes stand for gives those bytes. */
  lemma {:induction false} LittleEndianOf(bs: seq<byte>)
    ensures LittleEndian(FromLittleEndian(bs), |bs|) == bs
  {
    if bs != [] {
      var u := FromLittleEndian(bs);
      var rest := FromLittleEndian(bs[1..]);
      assert u % 256 == bs[0] && u / 256 == rest;
      LittleEndianOf(bs[1..]);
      assert LittleEndian(u, |bs|) == [bs[0]] + bs[1..];
    }
  }

  // ---------------------------------------------------------------- byte order

  function Reversed<T>(s: seq<T>): seq<T> {
    seq(|s|, i requires 0 <= i < |s| => s[|s| - 1 - i])
  }

  lemma ReversedTwice<T>(s: seq<T>)
    ensures Reversed(Reversed(s)) == s
  {
  }

  /** Array.Reverse: the element at `i` trades places with the one at
      `Length - 1 - i`, working inwards from both ends. */
  method Reverse<T>(a: array<T>)
    modifies a
    ensures a[..] == Reversed(old(a[..]))
  {
    var lo, hi := 0, a.Length - 1;
    while lo < hi
      invariant 0 <= lo <= a.Length && hi == a.Length - 1 - lo
      invariant forall i :: 0 <= i < lo ==> a[i] == old(a[a.Length - 1 - i]) && a[a.Length - 1 - i] == old(a[i])
      invariant forall i :: lo <= i <= hi ==> a[i] == old(a[i])
    {
      a[lo], a[hi] := a[hi], a[lo];
      lo, hi := lo + 1, hi - 1;
    }
  }

  /** The bytes of a little-endian image laid out in the host's memory order. */
  function HostOrder(bs: seq<byte>, hostLittle: bool): seq<byte> {
    if hostLittle then bs else Reversed(bs)
  }

  // ---------------------------------------------------------------- signed words

  /** The integral types BitConverter and Buffer.BlockCopy handle here. */
  datatype Width = Short | Int | Long {
    /** sizeof(short), sizeof(int), sizeof(long). */
    function Bytes(): nat {
      match this
      case Short => 2
      case Int => 4
      case Long => 8
    }

    function Kind(): IntKind {
      match this
      case Short => IntKind.Int16
      case Int => IntKind.Int32
      case Long => IntKind.Int64
    }
  }

  /** A word's bytes hold exactly the values of its signed type, split evenly
      around zero. */
  lemma WidthRange(w: Width)
    ensures Pow256(w.Bytes()) == -2 * w.Kind().Min()
    ensures w.Kind().Max() == -w.Kind().Min() - 1
  {
    assert Pow256(2) == 0x1_0000 by {
      assert Pow256(1) == 256;
    }
    assert Pow256(4) == 0x1_0000_0000 by {
      assert Pow256(3) == 256 * Pow256(2);
    }
    assert Pow256(8) == 0x1_0000_0000_0000_0000 by {
      assert Pow256(5) == 256 * Pow256(4);
      assert Pow256(6) == 256 * Pow256(5);
      assert Pow256(7) == 256 * Pow256(6);
    }
  }

  /** Two's complement: the unsigned number with the same bits as `v`. */
  function ToUnsigned(v: int, w: Width): (r: nat)
    requires w.Kind().Contains(v)
    ensures r < Pow256(w.Bytes())
  {
    WidthRange(w);
    if v < 0 then v + Pow256(w.Bytes()) else v
  }

  /** Two's complement: the signed value whose bits are those of `u`. */
  function ToSigned(u: nat, w: Width): (r: int)
    requires u < Pow256(w.Bytes())
    ensures w.Kind().Contains(r)
  {
    WidthRange(w);
    if u > w.Kind().Max() then u - Pow256(w.Bytes()) else u
  }

  lemma SignedOfUnsigned(v: int, w: Width)
    requires w.Kind().Contains(v)
    ensures ToSigned(ToUnsigned(v, w), w) == v
  {
    WidthRange(w);
  }

  // ---------------------------------------------------------------- BitConverter

  /** BitConverter.GetBytes: the word's bytes in host order. */
  function ConverterBytes(v: int, w: Width, hostLittle: bool): (r: seq<byte>)
    requires w.Kind().Contains(v)
    ensures |r| == w.Bytes()
  {
    HostOrder(LittleEndian(ToUnsigned(v, w), w.Bytes()), hostLittle)
  }

  /** BitConverter.ToInt16/ToInt32/ToInt64 at an index that leaves room for
      a whole word: the bytes there, read in host order. */
  function ConverterWord(bytes: seq<byte>, start: nat, w: Width, hostLittle: bool): (r: int)
    requires start + w.Bytes() <= |bytes|
    ensures w.Kind().Contains(r)
  {
    ToSigned(FromLittleEndian(HostOrder(bytes[start..start + w.Bytes()], hostLittle)), w)
  }

  /** BitConverter.ToInt32 with its argument checks: an index past the end,
      or too few bytes after it, throw. */
  function ConverterToInt32(bytes: seq<byte>, start: nat, hostLittle: bool): (r: Result<int32>)
    ensures r.Ok? <==> start + 4 <= |bytes|
    ensures r.Ok? ==> r.value as int == ConverterWord(bytes, start, Int, hostLittle)
  {
    if start >= |bytes| then Err(InvalidArgument("startIndex"))
    else if start > |bytes| - 4 then Err(InvalidArgument("value"))
    else Ok(ConverterWord(bytes, start, Int, hostLittle) as int32)
  }

  /** On the same host, reading back the bytes of a word gives the word. */
  lemma ConverterRoundTrip(v: int, w: Width, hostLittle: bool)
    requires w.Kind().Contains(v)
    ensures ConverterWord(ConverterBytes(v, w, hostLittle), 0, w, hostLittle) == v
  {
    var le := LittleEndian(ToUnsigned(v, w), w.Bytes());
    var bs := ConverterBytes(v, w, hostLittle);
    assert bs[0..w.Bytes()] == bs;
    if !hostLittle {
      ReversedTwice(le);
    }
    FromLittleEndianOf(ToUnsigned(v, w), w.Bytes());
    SignedOfUnsigned(v, w);
  }

  // ---------------------------------------------------------------- GetBytes and ToInt32

  /** The four bytes of a 32-bit value, most significant first. */
  function BigEndian(v: int32): (r: seq<byte>)
    ensures |r| == 4
  {
    Reversed(LittleEndian(ToUnsigned(v, Int), 4))
  }

  /** The four bytes of a 32-bit value, least significant first. */
  function LittleEndianOfInt32(v: int32): (r: seq<byte>)
    ensures |r| == 4
    ensures r == Reversed(BigEndian(v))
  {
    ReversedTwice(LittleEndian(ToUnsigned(v, Int), 4));
    LittleEndian(ToUnsigned(v, Int), 4)
  }

  /** DataUtils.GetBytes: BitConverter's bytes, reversed in place when the
      host's order is not the one asked for; the result is big-endian unless
      `littleEndian` is set, whatever the host. */
  method GetBytes(value: int32, littleEndian: bool, hostLittle: bool) returns (result: array<byte>)
    ensures fresh(result)
    ensures result[..] == if littleEndian then LittleEndianOfInt32(value) else BigEndian(value)
  {
    var bytes := ConverterBytes(value, Int, hostLittle);
    result := new byte[4](i requires 0 <= i < 4 => bytes[i]);
    assert result[..] == bytes;
    if hostLittle != littleEndian {
      Reverse(result);
    }
    ReversedTwice(LittleEndian(ToUnsigned(value, Int), 4));
  }

  /** Enumerable.Take(count) with a non-negative count. */
  function Take<T>(s: seq<T>, count: nat): seq<T> {
    if count >= |s| then s else s[..count]
  }

  /** DataUtils.ToInt32: on a little-endian host the first four bytes are
      reversed before BitConverter reads them; on a big-endian host
      BitConverter reads them as they are. Either way the first four bytes
      are read most significant first, and fewer than four throw. */
  function ToInt32(bytes: seq<byte>, hostLittle: bool): (r: Result<int32>)
    ensures r.Ok? <==> |bytes| >= 4
    ensures r.Ok? ==> r.value as int == ToSigned(FromLittleEndian(Reversed(bytes[..4])), Int)
  {
    if hostLittle then
      var swap := Reversed(Take(bytes, 4));
      assert |bytes| >= 4 ==> swap[0..4] == Reversed(bytes[..4]);
      ConverterToInt32(swap, 0, hostLittle)
    else
      assert |bytes| >= 4 ==> bytes[0..4] == bytes[..4];
      ConverterToInt32(bytes, 0, hostLittle)
  }

  /** ToInt32 reads back what GetBytes writes by default, on either host;
      bytes after the fourth are ignored. */
  lemma ToInt32OfGetBytes(v: int32, rest: seq<byte>, hostLittle: bool)
    ensures ToInt32(BigEndian(v) + rest, hostLittle) == Ok(v)
  {
    var le := LittleEndian(ToUnsigned(v, Int), 4);
    assert (BigEndian(v) + rest)[..4] == BigEndian(v);
    ReversedTwice(le);
    FromLittleEndianOf(ToUnsigned(v, Int), 4);
    SignedOfUnsigned(v, Int);
  }

  // ---------------------------------------------------------------- word arrays

  predicate AllFit(xs: seq<int>, w: Width) {
    forall i :: 0 <= i < |xs| ==> w.Kind().Contains(xs[i])
  }

  /** The memory of an array of words: each word's bytes in host order, one
      word after another. */
  function Encoded(xs: seq<int>, w: Width, hostLittle: bool): (r: seq<byte>)
    requires AllFit(xs, w)
  {
    if xs == [] then [] else ConverterBytes(xs[0], w, hostLittle) + Encoded(xs[1..], w, hostLittle)
  }

  lemma AllFitTail(xs: seq<int>, w: Width)
    requires xs != [] && AllFit(xs, w)
    ensures AllFit(xs[1..], w)
  {
    forall i | 0 <= i < |xs[1..]| ensures w.Kind().Contains(xs[1..][i]) {
      assert xs[1..][i] == xs[i + 1];
    }
  }

  /** The memory of an array of words is `Bytes()` bytes per word. */
  lemma {:induction false} EncodedLength(xs: seq<int>, w: Width, hostLittle: bool)
    requires AllFit(xs, w)
    ensures |Encoded(xs, w, hostLittle)| == |xs| * w.Bytes()
  {
    if xs != [] {
      AllFitTail(xs, w);
      EncodedLength(xs[1..], w, hostLittle);
      assert |xs| * w.Bytes() == w.Bytes() + |xs[1..]| * w.Bytes();
    }
  }

  /** Word `i` occupies bytes [i * Bytes(), (i + 1) * Bytes()) of the memory. */
  lemma {:induction false} EncodedAt(xs: seq<int>, w: Width, hostLittle: bool, i: nat, j: nat)
    requires AllFit(xs, w) && i < |xs| && j < w.Bytes()
    ensures i * w.Bytes() + j < |Encoded(xs, w, hostLittle)|
    ensures Encoded(xs, w, hostLittle)[i * w.Bytes() + j] == ConverterBytes(xs[i], w, hostLittle)[j]
  {
    var n := w.Bytes();
    AllFitTail(xs, w);
    EncodedLength(xs[1..], w, hostLittle);
    var head, rest := ConverterBytes(xs[0], w, hostLittle), Encoded(xs[1..], w, hostLittle);
    assert Encoded(xs, w, hostLittle) == head + rest;
    if i > 0 {
      var k := (i - 1) * n + j;
      EncodedAt(xs[1..], w, hostLittle, i - 1, j);
      assert i * n + j == n + k;
      assert (head + rest)[n + k] == rest[k];
    }
  }

  /** DataUtils.ToByteArray (for shorts, ints or longs): a fresh array of
      `count * sizeof` bytes into which Buffer.BlockCopy copies the words'
      memory byte by byte. */
  method ToByteArray(xs: seq<int>, w: Width, hostLittle: bool) returns (result: array<byte>)
    requires AllFit(xs, w)
    ensures fresh(result)
    ensures result.Length == |xs| * w.Bytes()
    ensures result[..] == Encoded(xs, w, hostLittle)
  {
    EncodedLength(xs, w, hostLittle);
    var memory := Encoded(xs, w, hostLittle);
    result := new byte[|xs| * w.Bytes()];
    for k := 0 to result.Length
      invariant forall i :: 0 <= i < k ==> result[i] == memory[i]
    {
      result[k] := memory[k];
    }
  }

  /** A whole word starting at `i * Bytes()` fits in `n` bytes when `i` is
      below `n / Bytes()`. */
  lemma WordFits(i: nat, n: nat, w: Width)
    requires i < n / w.Bytes()
    ensures i * w.Bytes() + w.Bytes() <= n
  {
  }

  /** What ToShortArray/ToIntArray/ToLongArray compute: `n / Bytes()` words,
      word `i` read by BitConverter from bytes [i * Bytes(), (i + 1) * Bytes()). */
  function Words(bytes: seq<byte>, w: Width, hostLittle: bool): (r: seq<int>)
    ensures |r| == |bytes| / w.Bytes()
  {
    seq(|bytes| / w.Bytes(), i requires 0 <= i < |bytes| / w.Bytes() =>
      WordFits(i, |bytes|, w);
      ConverterWord(bytes, i * w.Bytes(), w, hostLittle))
  }

  /** DataUtils.ToShortArray, ToIntArray and ToLongArray: a fresh array of
      `bytes.Length / sizeof` words filled by index. */
  method ToWordArray(bytes: seq<byte>, w: Width, hostLittle: bool) returns (words: array<int>)
    ensures fresh(words)
    ensures words[..] == Words(bytes, w, hostLittle)
  {
    var size := |bytes| / w.Bytes();
    words := new int[size];
    for index := 0 to size
      invariant forall i :: 0 <= i < index ==> words[i] == Words(bytes, w, hostLittle)[i]
    {
      WordFits(index, |bytes|, w);
      words[index] := ConverterWord(bytes, index * w.Bytes(), w, hostLittle);
    }
  }

  /** Trailing bytes that do not make a whole word are ignored. */
  lemma WordsIgnoreTrailing(bytes: seq<byte>, w: Width, hostLittle: bool)
    ensures var whole := |bytes| / w.Bytes() * w.Bytes();
            whole <= |bytes| && Words(bytes, w, hostLittle) == Words(bytes[..whole], w, hostLittle)
  {
    var n := w.Bytes();
    var whole := |bytes| / n * n;
    var cut := bytes[..whole];
    assert |cut| / n == |bytes| / n;
    forall i | 0 <= i < |bytes| / n
      ensures Words(bytes, w, hostLittle)[i] == Words(cut, w, hostLittle)[i]
    {
      WordFits(i, |bytes|, w);
      WordFits(i, |cut|, w);
      assert bytes[i * n..i * n + n] == cut[i * n..i * n + n];
    }
  }

  /** The bytes of word `i` in the memory of an array of words are that
      word's own bytes. */
  lemma EncodedWord(xs: seq<int>, w: Width, hostLittle: bool, i: nat)
    requires AllFit(xs, w) && i < |xs|
    ensures i * w.Bytes() + w.Bytes() <= |Encoded(xs, w, hostLittle)|
    ensures Encoded(xs, w, hostLittle)[i * w.Bytes()..i * w.Bytes() + w.Bytes()] == ConverterBytes(xs[i], w, hostLittle)
  {
    var n := w.Bytes();
    var e := Encoded(xs, w, hostLittle);
    EncodedAt(xs, w, hostLittle, i, n - 1);
    var bs := ConverterBytes(xs[i], w, hostLittle);
    forall j | 0 <= j < n ensures e[i * n..i * n + n][j] == bs[j] {
      EncodedAt(xs, w, hostLittle, i, j);
    }
  }

  lemma WordOfEncoded(xs: seq<int>, w: Width, hostLittle: bool, i: nat)
    requires AllFit(xs, w) && i < |xs|
    ensures i * w.Bytes() + w.Bytes() <= |Encoded(xs, w, hostLittle)|
    ensures ConverterWord(Encoded(xs, w, hostLittle), i * w.Bytes(), w, hostLittle) == xs[i]
  {
    EncodedWord(xs, w, hostLittle, i);
    ConverterRoundTrip(xs[i], w, hostLittle);
    var bs := ConverterBytes(xs[i], w, hostLittle);
    assert bs[0..w.Bytes()] == bs;
  }

  lemma MultipleDiv(m: nat, w: Width)
    ensures m * w.Bytes() / w.Bytes() == m
  {
  }

  /** Converting words to bytes and back gives the same words, on the same
      host. */
  lemma WordsOfEncoded(xs: seq<int>, w: Width, hostLittle: bool)
    requires AllFit(xs, w)
    ensures Words(Encoded(xs, w, hostLittle), w, hostLittle) == xs
  {
    var e := Encoded(xs, w, hostLittle);
    EncodedLength(xs, w, hostLittle);
    MultipleDiv(|xs|, w);
    forall i | 0 <= i < |xs| ensures Words(e, w, hostLittle)[i] == xs[i] {
      WordOfEncoded(xs, w, hostLittle, i);
    }
  }
}

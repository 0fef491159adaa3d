/** The parts of the .NET base library the utilities rely on, with ordinal
    comparison and the invariant culture: ASCII letters and case mapping,
    Unicode white space and trimming, decimal integer formatting and
    parsing, the integer type converter, string search and join, and
    enum names and Enum.Parse. */
module Framework {
  import opened Wrappers

  // ---------------------------------------------------------------- characters

  predicate IsUpper(c: char) { 'A' <= c <= 'Z' }
  predicate IsLower(c: char) { 'a' <= c <= 'z' }
  predicate IsLetter(c: char) { IsUpper(c) || IsLower(c) }
  predicate IsDigit(c: char) { '0' <= c <= '9' }

  /** char.ToLowerInvariant on ASCII; every other character is left alone. */
  function ToLower(c: char): (r: char)
    ensures !IsUpper(r)
    ensures IsUpper(c) ==> IsLower(r) && ToUpper(r) == c
    ensures !IsUpper(c) ==> r == c
  {
    if IsUpper(c) then (c as int + 32) as char else c
  }

  /** char.ToUpper on ASCII; every other character is left alone. */
  function ToUpper(c: char): (r: char)
    ensures !IsLower(r)
    ensures IsLower(c) ==> IsUpper(r)
    ensures !IsLower(c) ==> r == c
  {
    if IsLower(c) then (c as int - 32) as char else c
  }

  /** string.ToLower: every character lower-cased. */
  function LowerAll(s: string): (r: string)
    ensures |r| == |s|
    ensures forall k :: 0 <= k < |s| ==> r[k] == ToLower(s[k])
  {
    seq(|s|, k requires 0 <= k < |s| => ToLower(s[k]))
  }

  /** string.Replace(char, char): every `a` becomes `b`. */
  function ReplaceChar(s: string, a: char, b: char): (r: string)
    ensures |r| == |s|
    ensures forall k :: 0 <= k < |s| ==> r[k] == if s[k] == a then b else s[k]
  {
    seq(|s|, k requires 0 <= k < |s| => if s[k] == a then b else s[k])
  }

  /** string.Replace(c.ToString(), ""): every `c` removed, order kept. */
  function RemoveChar(s: string, c: char): (r: string)
    ensures c !in r
    ensures |r| <= |s|
  {
    if s == [] then []
    else (if s[0] == c then [] else [s[0]]) + RemoveChar(s[1..], c)
  }

  lemma {:induction false} RemoveCharAppend(a: string, b: string, c: char)
    ensures RemoveChar(a + b, c) == RemoveChar(a, c) + RemoveChar(b, c)
  {
    if a != [] {
      assert (a + b)[1..] == a[1..] + b;
      RemoveCharAppend(a[1..], b, c);
    } else {
      assert a + b == b;
    }
  }

  // ---------------------------------------------------------------- integers

  type byte = x: int | 0 <= x < 0x100
  type int16 = x: int | -0x8000 <= x < 0x8000
  type int32 = x: int | -0x8000_0000 <= x < 0x8000_0000
  type int64 = x: int | -0x8000_0000_0000_0000 <= x < 0x8000_0000_0000_0000

  /** The integral primitive types of C#, by their ranges. */
  datatype IntKind = SByte | Byte | Int16 | UInt16 | Int32 | UInt32 | Int64 | UInt64 {
    function Min(): int {
      match this
      case SByte => -0x80
      case Int16 => -0x8000
      case Int32 => -0x8000_0000
      case Int64 => -0x8000_0000_0000_0000
      case _ => 0
    }

    function Max(): int {
      match this
      case SByte => 0x7F
      case Byte => 0xFF
      case Int16 => 0x7FFF
      case UInt16 => 0xFFFF
      case Int32 => 0x7FFF_FFFF
      case UInt32 => 0xFFFF_FFFF
      case Int64 => 0x7FFF_FFFF_FFFF_FFFF
      case UInt64 => 0xFFFF_FFFF_FFFF_FFFF
    }

    predicate Contains(i: int) { Min() <= i <= Max() }
  }

  function DigitChar(d: nat): (c: char)
    requires d < 10
    ensures IsDigit(c)
  {
    ('0' as int + d) as char
  }

  function DigitValue(c: char): (d: nat)
    requires IsDigit(c)
    ensures d < 10
  {
    c as int - '0' as int
  }

  /** Decimal digits of `n`, most significant first, without leading zeros. */
  function NatToString(n: nat): string
    decreases n
  {
    if n < 10 then [DigitChar(n)] else NatToString(n / 10) + [DigitChar(n % 10)]
  }

  /** int.ToString / long.ToString with the invariant culture. */
  function IntToString(i: int): string {
    if i < 0 then "-" + NatToString(-i) else NatToString(i)
  }

  predicate AllDigits(s: string) {
    forall k :: 0 <= k < |s| ==> IsDigit(s[k])
  }

  function DigitsValue(s: string): nat
    requires AllDigits(s)
    decreases |s|
  {
    if s == [] then 0 else 10 * DigitsValue(s[..|s| - 1]) + DigitValue(s[|s| - 1])
  }

  /** Decimal integer text: an optional sign followed by at least one digit,
      with nothing around it. */
  function ParseInteger(s: string): Option<int> {
    if |s| > 1 && s[0] == '-' && AllDigits(s[1..]) then Some(-(DigitsValue(s[1..]) as int))
    else if |s| > 1 && s[0] == '+' && AllDigits(s[1..]) then Some(DigitsValue(s[1..]))
    else if |s| > 0 && AllDigits(s) then Some(DigitsValue(s))
    else None
  }

  lemma {:induction false} NatToStringDigits(n: nat)
    ensures |NatToString(n)| > 0 && AllDigits(NatToString(n))
    ensures DigitsValue(NatToString(n)) == n
    decreases n
  {
    if n >= 10 {
      NatToStringDigits(n / 10);
      var s := NatToString(n);
      assert s[..|s| - 1] == NatToString(n / 10);
    }
  }

  /** Formatting an integer and parsing the text back gives the integer. */
  lemma {:induction false} ParseIntegerOfIntToString(i: int)
    ensures ParseInteger(IntToString(i)) == Some(i)
  {
    var s := IntToString(i);
    if i < 0 {
      var d := NatToString(-i);
      NatToStringDigits(-i);
      assert s == "-" + d;
      assert s[1..] == d;
      assert |s| > 1 && s[0] == '-' && AllDigits(s[1..]);
    } else {
      NatToStringDigits(i);
      assert IsDigit(s[0]);
    }
  }

  /** Integer text is made of decimal digits and, for a negative value, a
      leading minus sign. */
  lemma IntToStringChars(i: int)
    ensures |IntToString(i)| > 0
    ensures forall k :: 0 <= k < |IntToString(i)| ==> IsDigit(IntToString(i)[k]) || IntToString(i)[k] == '-'
  {
    var t := IntToString(i);
    if i < 0 {
      NatToStringDigits(-i);
      assert t == "-" + NatToString(-i);
      forall k | 0 < k < |t| ensures IsDigit(t[k]) {
        assert t[k] == NatToString(-i)[k - 1];
      }
    } else {
      NatToStringDigits(i);
    }
  }

  // ---------------------------------------------------------------- white space and trimming

  /** char.IsWhiteSpace: the Unicode space separators, the line and
      paragraph separators, and the controls U+0009-U+000D and U+0085. */
  predicate IsWhiteSpace(c: char) {
    || '\U{9}' <= c <= '\U{D}' || c == ' ' || c == '\U{85}' || c == '\U{A0}' || c == '\U{1680}'
    || '\U{2000}' <= c <= '\U{200A}' || c == '\U{2028}' || c == '\U{2029}' || c == '\U{202F}'
    || c == '\U{205F}' || c == '\U{3000}'
  }

  /** The white space integer parsing skips around the digits: U+0009-U+000D
      and the space. */
  predicate IsNumberWhite(c: char) { '\U{9}' <= c <= '\U{D}' || c == ' ' }

  /** The characters the trimming operations remove. */
  datatype CharClass = WhiteSpace | NumberWhite | Nul {
    predicate Has(c: char) {
      match this
      case WhiteSpace => IsWhiteSpace(c)
      case NumberWhite => IsNumberWhite(c)
      case Nul => c == '\0'
    }
  }

  /** `s` without its leading characters of class `p`. */
  function TrimStartBy(s: string, p: CharClass): string
    decreases |s|
  {
    if s != [] && p.Has(s[0]) then TrimStartBy(s[1..], p) else s
  }

  /** `s` without its trailing characters of class `p`. */
  function TrimEndBy(s: string, p: CharClass): string
    decreases |s|
  {
    if s != [] && p.Has(s[|s| - 1]) then TrimEndBy(s[..|s| - 1], p) else s
  }

  /** string.TrimStart(). */
  function TrimStart(s: string): string {
    TrimStartBy(s, WhiteSpace)
  }

  /** string.Trim(). */
  function Trim(s: string): string {
    TrimEndBy(TrimStartBy(s, WhiteSpace), WhiteSpace)
  }

  /** TrimStartBy removes exactly a leading run of the class: characters of
      the class in front of text that does not start with one. */
  lemma {:induction false} TrimStartByPrefix(w: string, t: string, p: CharClass)
    requires forall k :: 0 <= k < |w| ==> p.Has(w[k])
    requires t == [] || !p.Has(t[0])
    ensures TrimStartBy(w + t, p) == t
    decreases |w|
  {
    if w == [] {
      assert w + t == t;
    } else {
      assert (w + t)[0] == w[0];
      assert (w + t)[1..] == w[1..] + t;
      TrimStartByPrefix(w[1..], t, p);
    }
  }

  /** TrimEndBy removes exactly a trailing run of the class: characters of
      the class after text that does not end with one. */
  lemma {:induction false} TrimEndBySuffix(t: string, w: string, p: CharClass)
    requires forall k :: 0 <= k < |w| ==> p.Has(w[k])
    requires t == [] || !p.Has(t[|t| - 1])
    ensures TrimEndBy(t + w, p) == t
    decreases |w|
  {
    if w == [] {
      assert t + w == t;
    } else {
      var n := |t + w|;
      assert (t + w)[n - 1] == w[|w| - 1];
      assert (t + w)[..n - 1] == t + w[..|w| - 1];
      TrimEndBySuffix(t, w[..|w| - 1], p);
    }
  }

  /** Text whose ends are not of the class is not trimmed. */
  lemma TrimByNothing(t: string, p: CharClass)
    requires t == [] || (!p.Has(t[0]) && !p.Has(t[|t| - 1]))
    ensures TrimStartBy(t, p) == t && TrimEndBy(t, p) == t
  {
  }

  // ---------------------------------------------------------------- integer parsing

  /** The integer int.Parse reads with NumberStyles.Integer and the
      invariant culture: white space may surround the optionally signed
      decimal digits, and trailing U+0000 characters are ignored. */
  function ParseIntegerStyle(s: string): Option<int> {
    ParseInteger(TrimEndBy(TrimEndBy(TrimStartBy(s, NumberWhite), Nul), NumberWhite))
  }

  /** Integer text padded with white space reads as the integer. */
  lemma ParseIntegerStyleOfPadded(before: string, i: int, after: string)
    requires forall k :: 0 <= k < |before| ==> IsNumberWhite(before[k])
    requires forall k :: 0 <= k < |after| ==> IsNumberWhite(after[k])
    ensures ParseIntegerStyle(before + IntToString(i) + after) == Some(i)
  {
    var t := IntToString(i);
    IntToStringEnds(i);
    assert before + t + after == before + (t + after);
    TrimStartByPrefix(before, t + after, NumberWhite);
    if after != [] {
      assert (t + after)[|t + after| - 1] == after[|after| - 1];
    }
    TrimByNothing(t + after, Nul);
    TrimEndBySuffix(t, after, NumberWhite);
    ParseIntegerOfIntToString(i);
  }

  /** Integer text starts with a digit or '-' and ends with a digit. */
  lemma IntToStringEnds(i: int)
    ensures var t := IntToString(i);
            && |t| > 0 && (IsDigit(t[0]) || t[0] == '-') && IsDigit(t[|t| - 1])
  {
    IntToStringChars(i);
    var t := IntToString(i);
    if i < 0 {
      NatToStringDigits(-i);
      assert t == "-" + NatToString(-i);
    } else {
      NatToStringDigits(i);
    }
  }

  /** Integer text on its own reads as the integer. */
  lemma ParseIntegerStyleOfIntToString(i: int)
    ensures ParseIntegerStyle(IntToString(i)) == Some(i)
  {
    ParseIntegerStyleOfPadded([], i, []);
    assert [] + IntToString(i) + [] == IntToString(i);
  }

  /** int.Parse(s) with NumberStyles.Integer: null throws
      ArgumentNullException, malformed text FormatException, and text outside
      the int range OverflowException. */
  function Int32Parse(s: Option<string>): (r: Result<int32>)
    ensures s.None? ==> r == Err(ArgumentNull("s"))
    ensures s.Some? && ParseIntegerStyle(s.value).None? ==> r == Err(Format)
    ensures s.Some? && ParseIntegerStyle(s.value).Some? ==>
              if IntKind.Int32.Contains(ParseIntegerStyle(s.value).value)
              then r == Ok(ParseIntegerStyle(s.value).value as int32)
              else r == Err(Overflow)
  {
    match s
    case None => Err(ArgumentNull("s"))
    case Some(t) =>
      match ParseIntegerStyle(t)
      case None => Err(Format)
      case Some(i) => if IntKind.Int32.Contains(i) then Ok(i as int32) else Err(Overflow)
  }

  function Pow2(n: nat): (r: nat)
    ensures r > 0
  {
    if n == 0 then 1 else 2 * Pow2(n - 1)
  }

  lemma {:induction false} Pow2Add(a: nat, b: nat)
    ensures Pow2(a + b) == Pow2(a) * Pow2(b)
    decreases a
  {
    if a > 0 {
      Pow2Add(a - 1, b);
    }
  }

  /** The powers of two the integer widths need. */
  lemma Pow2Values()
    ensures Pow2(8) == 0x100 && Pow2(16) == 0x1_0000 && Pow2(31) == 0x8000_0000
    ensures Pow2(32) == 0x1_0000_0000 && Pow2(63) == 0x8000_0000_0000_0000
    ensures Pow2(64) == 0x1_0000_0000_0000_0000
  {
    assert Pow2(4) == 16;
    Pow2Add(4, 4);
    Pow2Add(8, 8);
    Pow2Add(16, 15);
    Pow2Add(16, 16);
    Pow2Add(32, 31);
    Pow2Add(32, 32);
    assert Pow2(15) == 0x8000 by {
      Pow2Add(8, 7);
      assert Pow2(7) == 128;
    }
  }

  /** The width of an integer kind, in bits. */
  function Bits(kind: IntKind): (r: nat)
    ensures r >= 8
  {
    match kind
    case SByte => 8
    case Byte => 8
    case Int16 => 16
    case UInt16 => 16
    case Int32 => 32
    case UInt32 => 32
    case _ => 64
  }

  /** A kind holds the values of its width: 2^bits of them, signed kinds
      from -2^(bits-1). */
  lemma KindWidth(kind: IntKind)
    ensures kind.Max() == Pow2(Bits(kind)) + kind.Min() - 1
    ensures kind.Min() == 0 || 2 * kind.Min() + Pow2(Bits(kind)) == 0
  {
    Pow2Values();
    Pow2Add(7, 1);
    Pow2Add(15, 1);
    assert Pow2(7) == 128;
    assert Pow2(15) == 0x8000 by {
      Pow2Add(8, 7);
    }
  }

  predicate IsHexDigit(c: char) { IsDigit(c) || 'a' <= c <= 'f' || 'A' <= c <= 'F' }

  function HexDigitValue(c: char): (d: nat)
    requires IsHexDigit(c)
    ensures d < 16
  {
    if IsDigit(c) then DigitValue(c)
    else if 'a' <= c <= 'f' then c as int - 'a' as int + 10
    else c as int - 'A' as int + 10
  }

  predicate AllHex(s: string) {
    forall k :: 0 <= k < |s| ==> IsHexDigit(s[k])
  }

  function HexValue(s: string): nat
    requires AllHex(s)
    decreases |s|
  {
    if s == [] then 0 else 16 * HexValue(s[..|s| - 1]) + HexDigitValue(s[|s| - 1])
  }

  /** Convert.ToXxx(s, 16), which goes through ParseNumbers with IsTight:
      an optional '+', an optional "0x" or "0X", then at least one hex digit
      and nothing else. The digits are the value's bits, which must fit the
      kind's width; a signed kind reads them as two's complement. A '-' or
      anything else fails. */
  function HexParse(kind: IntKind, s: string): (r: Option<int>)
    ensures r.Some? ==> kind.Contains(r.value)
  {
    var t := if |s| > 0 && s[0] == '+' then s[1..] else s;
    var u := if |t| >= 2 && t[0] == '0' && (t[1] == 'x' || t[1] == 'X') then t[2..] else t;
    if u == [] || !AllHex(u) then None else Wrap(kind, HexValue(u))
  }

  /** The bits `v` as a value of the kind: rejected when they do not fit
      its width, read as two's complement for a signed kind. */
  function Wrap(kind: IntKind, v: nat): (r: Option<int>)
    ensures r.Some? ==> kind.Contains(r.value)
  {
    KindWidth(kind);
    if v >= Pow2(Bits(kind)) then None
    else if v > kind.Max() then Some(v - Pow2(Bits(kind)))
    else Some(v)
  }

  /** TypeDescriptor.GetConverter(kind).ConvertFrom(text), the integer
      BaseNumberConverter: the text is trimmed; after '#', "0x" or "&h"
      (either case) it is hexadecimal, otherwise it is parsed by the kind's
      Parse with NumberStyles.Integer. The converter turns every failure,
      empty text included, into an ArgumentException. */
  function ConvertFromText(kind: IntKind, text: string): (r: Result<int>)
    ensures r.Ok? ==> kind.Contains(r.value)
    ensures r.Err? ==> r.error == InvalidArgument("value")
    ensures Trim(text) == [] ==> r.Err?
  {
    var parsed := ParseTrimmed(kind, Trim(text));
    if parsed.Some? then Ok(parsed.value) else Err(InvalidArgument("value"))
  }

  /** The converter's reading of trimmed text: hexadecimal after a prefix,
      otherwise decimal in the kind's range. */
  function ParseTrimmed(kind: IntKind, t: string): (r: Option<int>)
    ensures r.Some? ==> kind.Contains(r.value)
    ensures t == [] ==> r.None?
  {
    if t == [] then None
    else if t[0] == '#' then HexParse(kind, t[1..])
    else if |t| >= 2 && ((t[0] == '0' && (t[1] == 'x' || t[1] == 'X')) || (t[0] == '&' && (t[1] == 'h' || t[1] == 'H')))
    then HexParse(kind, t[2..])
    else
      match ParseIntegerStyle(t)
      case Some(i) => if kind.Contains(i) then Some(i) else None
      case None => None
  }

  /** The decimal text of an integer, surrounded by white space, converts to
      the integer when the kind holds it and is rejected otherwise. */
  lemma ConvertFromDecimal(kind: IntKind, before: string, i: int, after: string)
    requires forall k :: 0 <= k < |before| ==> IsWhiteSpace(before[k])
    requires forall k :: 0 <= k < |after| ==> IsWhiteSpace(after[k])
    ensures ConvertFromText(kind, before + IntToString(i) + after)
              == if kind.Contains(i) then Ok(i) else Err(InvalidArgument("value"))
  {
    var t := IntToString(i);
    TrimmedInteger(before, i, after);
    assert Trim(before + t + after) == t;
    NoHexPrefix(i);
    ParseIntegerStyleOfIntToString(i);
  }

  /** Trimming white space around integer text leaves the text. */
  lemma TrimmedInteger(before: string, i: int, after: string)
    requires forall k :: 0 <= k < |before| ==> IsWhiteSpace(before[k])
    requires forall k :: 0 <= k < |after| ==> IsWhiteSpace(after[k])
    ensures Trim(before + IntToString(i) + after) == IntToString(i)
  {
    var t := IntToString(i);
    IntToStringEnds(i);
    assert before + t + after == before + (t + after);
    TrimStartByPrefix(before, t + after, WhiteSpace);
    TrimEndBySuffix(t, after, WhiteSpace);
  }

  /** Integer text has no '#', "0x" or "&h" prefix. */
  lemma NoHexPrefix(i: int)
    ensures var t := IntToString(i);
            t[0] != '#' && t[0] != '&' && !(|t| >= 2 && t[0] == '0' && (t[1] == 'x' || t[1] == 'X'))
  {
    IntToStringEnds(i);
    var t := IntToString(i);
    if i >= 10 {
      NatToStringLeading(i);
    }
  }

  /** A number of 10 or more has no leading zero. */
  lemma {:induction false} NatToStringLeading(n: nat)
    requires n >= 10
    ensures NatToString(n)[0] != '0'
    decreases n
  {
    NatToStringDigits(n / 10);
    assert NatToString(n)[0] == NatToString(n / 10)[0];
    if n / 10 >= 10 {
      NatToStringLeading(n / 10);
    }
  }

  /** Hex digits after "0x" convert to their value, read as two's complement
      for a signed kind, when they fit the kind's width. */
  lemma ConvertFromHex(kind: IntKind, digits: string)
    requires digits != [] && AllHex(digits)
    ensures var v := HexValue(digits);
            ConvertFromText(kind, "0x" + digits)
              == if v >= Pow2(Bits(kind)) then Err(InvalidArgument("value"))
                 else if v > kind.Max() then Ok(v - Pow2(Bits(kind)))
                 else Ok(v)
  {
    HexPrefixed(kind, digits);
    HexParseOfDigits(kind, digits);
    var v := HexValue(digits);
    var w := Wrap(kind, v);
    assert w == if v >= Pow2(Bits(kind)) then None else if v > kind.Max() then Some(v - Pow2(Bits(kind))) else Some(v);
  }

  /** After "0x" the converter reads the digits as hexadecimal. */
  lemma HexPrefixed(kind: IntKind, digits: string)
    requires digits != [] && AllHex(digits)
    ensures ConvertFromText(kind, "0x" + digits)
            == if HexParse(kind, digits).Some? then Ok(HexParse(kind, digits).value) else Err(InvalidArgument("value"))
  {
    var t := "0x" + digits;
    assert t[|t| - 1] == digits[|digits| - 1];
    TrimByNothing(t, WhiteSpace);
    assert Trim(t) == t;
    assert t[2..] == digits;
    assert ParseTrimmed(kind, t) == HexParse(kind, digits);
  }

  /** Bare hex digits are read as their value, wrapped or rejected by the
      kind's width. */
  lemma HexParseOfDigits(kind: IntKind, digits: string)
    requires digits != [] && AllHex(digits)
    ensures HexParse(kind, digits) == Wrap(kind, HexValue(digits))
  {
    assert IsHexDigit(digits[0]);
    if |digits| >= 2 {
      assert IsHexDigit(digits[1]);
    }
  }

  // ---------------------------------------------------------------- strings

  /** String.Join(sep, parts). */
  function Join(sep: string, parts: seq<string>): string
    decreases |parts|
  {
    if parts == [] then ""
    else if |parts| == 1 then parts[0]
    else parts[0] + sep + Join(sep, parts[1..])
  }

  /** `find` occurs in `s` starting at index `k`. */
  predicate OccursAt(s: string, find: string, k: int) {
    0 <= k && k + |find| <= |s| && s[k..k + |find|] == find
  }

  /** s.IndexOf(find, from, StringComparison.Ordinal): the first occurrence
      at or after `from`, or -1. */
  function IndexOf(s: string, find: string, from: nat): (r: int)
    requires from <= |s|
    ensures r == -1 || (from <= r && OccursAt(s, find, r))
    decreases |s| - from
  {
    if from + |find| > |s| then -1
    else if OccursAt(s, find, from) then from
    else IndexOf(s, find, from + 1)
  }

  /** IndexOf finds the first occurrence: there is none between `from` and
      the index it returns. */
  lemma {:induction false} IndexOfNoneBefore(s: string, find: string, from: nat)
    requires from <= |s| && IndexOf(s, find, from) != -1
    ensures forall k :: from <= k < IndexOf(s, find, from) ==> !OccursAt(s, find, k)
    decreases |s| - from
  {
    if !OccursAt(s, find, from) {
      IndexOfNoneBefore(s, find, from + 1);
    }
  }

  /** IndexOf returns -1 only when there is no occurrence at or after `from`. */
  lemma {:induction false} IndexOfNoneAfter(s: string, find: string, from: nat)
    requires from <= |s| && IndexOf(s, find, from) == -1
    ensures forall k :: from <= k ==> !OccursAt(s, find, k)
    decreases |s| - from
  {
    if from + |find| <= |s| {
      IndexOfNoneAfter(s, find, from + 1);
    }
  }

  /** s.LastIndexOf(c): the last index holding `c`, or -1. */
  function LastIndexOf(s: string, c: char): (r: int)
    ensures -1 <= r < |s|
    ensures r >= 0 ==> s[r] == c
    ensures forall k :: r < k < |s| ==> s[k] != c
  {
    if s == [] then -1
    else if s[|s| - 1] == c then |s| - 1
    else LastIndexOf(s[..|s| - 1], c)
  }

  // ---------------------------------------------------------------- enums

  /** An enum type with C#'s default numbering: the i-th declared name has
      value i; the underlying type is int. */
  datatype EnumType = EnumType(name: string, names: seq<string>)

  /** Enum.ToString(): the declared name of a value, or its decimal digits
      when no name has that value. */
  function EnumName(e: EnumType, value: int): string {
    if 0 <= value < |e.names| then e.names[value] else IntToString(value)
  }

  /** The first index whose name equals `text`. */
  function FindName(names: seq<string>, text: string): (r: Option<nat>)
    ensures r.Some? ==> r.value < |names| && names[r.value] == text
                        && forall j :: 0 <= j < r.value ==> names[j] != text
    ensures r.None? ==> text !in names
  {
    if names == [] then None
    else if names[0] == text then Some(0)
    else match FindName(names[1..], text)
      case None => None
      case Some(j) => Some(j + 1)
  }

  /** Bitwise or of two naturals. */
  function BitOr(a: nat, b: nat): nat
    decreases a + b
  {
    if a == 0 then b
    else if b == 0 then a
    else 2 * BitOr(a / 2, b / 2) + (if a % 2 == 1 || b % 2 == 1 then 1 else 0)
  }

  /** Or-ing values of n bits gives a value of n bits. */
  lemma {:induction false} BitOrBound(a: nat, b: nat, n: nat)
    requires a < Pow2(n) && b < Pow2(n)
    ensures BitOr(a, b) < Pow2(n)
    decreases a + b
  {
    if a != 0 && b != 0 {
      BitOrBound(a / 2, b / 2, n - 1);
    }
  }

  /** Enum.TryParseByName: the text is split at each ',' and every piece,
      trimmed, must be a declared name; the names' values are or-ed into
      `acc`. A trailing ',' fails. */
  function ParseByName(names: seq<string>, text: string, acc: nat): Option<nat>
    requires text != []
    decreases |text|
  {
    var k := IndexOf(text, ",", 0);
    if k == -1 then
      match FindName(names, Trim(text))
      case None => None
      case Some(x) => Some(BitOr(acc, x))
    else if k == |text| - 1 then None
    else
      match FindName(names, Trim(text[..k]))
      case None => None
      case Some(x) => ParseByName(names, text[k + 1..], BitOr(acc, x))
  }

  /** With fewer than 2^n names, the or of their values fits n bits. */
  lemma {:induction false} ParseByNameBound(names: seq<string>, text: string, acc: nat, n: nat)
    requires text != [] && acc < Pow2(n) && |names| <= Pow2(n)
    ensures ParseByName(names, text, acc).Some? ==> ParseByName(names, text, acc).value < Pow2(n)
    decreases |text|
  {
    var k := IndexOf(text, ",", 0);
    var piece := if k == -1 then Trim(text) else if k == |text| - 1 then [] else Trim(text[..k]);
    if k != |text| - 1 && FindName(names, piece).Some? {
      BitOrBound(acc, FindName(names, piece).value, n);
      if k != -1 {
        ParseByNameBound(names, text[k + 1..], BitOr(acc, FindName(names, piece).value), n);
      }
    }
  }

  /** Enum.Parse(type, text), case-sensitive, for an enum over int: leading
      white space is dropped and nothing left is an ArgumentException; text
      starting with a digit or a sign that reads as an integer gives that
      value, or OverflowException outside the int range; anything else is
      a comma-separated list of names whose values are or-ed, or an
      ArgumentException naming the text. */
  function EnumParse(e: EnumType, text: string): (r: Result<int>)
    ensures TrimStart(text) == [] ==> r == Err(InvalidArgument("value"))
  {
    var v := TrimStart(text);
    if v == [] then Err(InvalidArgument("value"))
    else if (IsDigit(v[0]) || v[0] == '-' || v[0] == '+') && ParseIntegerStyle(v).Some? then
      var i := ParseIntegerStyle(v).value;
      if IntKind.Int32.Contains(i) then Ok(i) else Err(Overflow)
    else
      match ParseByName(e.names, v, 0)
      case Some(x) => Ok(x)
      case None => Err(UnknownEnumName(text))
  }

  /** Every value Enum.Parse returns fits the int range, for an enum whose
      default numbering does. */
  lemma EnumParseFits(e: EnumType, text: string)
    requires |e.names| <= 0x8000_0000
    ensures EnumParse(e, text).Ok? ==> IntKind.Int32.Contains(EnumParse(e, text).value)
  {
    var v := TrimStart(text);
    if v != [] && !((IsDigit(v[0]) || v[0] == '-' || v[0] == '+') && ParseIntegerStyle(v).Some?) {
      EnumParseByNameFits(e, text, v);
    }
  }

  lemma EnumParseByNameFits(e: EnumType, text: string, v: string)
    requires |e.names| <= 0x8000_0000
    requires TrimStart(text) == v && v != [] && !((IsDigit(v[0]) || v[0] == '-' || v[0] == '+') && ParseIntegerStyle(v).Some?)
    ensures ParseByName(e.names, v, 0).Some? ==> ParseByName(e.names, v, 0).value < 0x8000_0000
    ensures EnumParse(e, text) == if ParseByName(e.names, v, 0).Some? then Ok(ParseByName(e.names, v, 0).value)
                                  else Err(UnknownEnumName(text))
  {
    Pow2Values();
    ParseByNameBound(e.names, v, 0, 31);
  }

  /** A name Enum.Parse can only read through its name path: it does not
      start like a number, holds no ',' and has no white space at its ends
      (every C# identifier qualifies). */
  predicate PlainName(n: string) {
    && n != [] && !IsDigit(n[0]) && n[0] != '-' && n[0] != '+' && ',' !in n
    && !IsWhiteSpace(n[0]) && !IsWhiteSpace(n[|n| - 1])
  }

  /** The name path of Enum.Parse once the text is trimmed at the start. */
  lemma EnumParseByName(e: EnumType, text: string, v: string)
    requires TrimStart(text) == v && v != [] && !IsDigit(v[0]) && v[0] != '-' && v[0] != '+'
    ensures EnumParse(e, text) == match ParseByName(e.names, v, 0)
                                  case Some(x) => Ok(x)
                                  case None => Err(UnknownEnumName(text))
  {
  }

  /** A plain name followed by white space without ',' trims to the name. */
  lemma TrimNameAndSpace(n: string, after: string)
    requires PlainName(n)
    requires forall j :: 0 <= j < |after| ==> IsWhiteSpace(after[j]) && after[j] != ','
    ensures IndexOf(n + after, ",", 0) == -1
    ensures Trim(n + after) == n
  {
    var v := n + after;
    assert v[0] == n[0];
    NoCommaIndex(v);
    assert TrimStartBy(v, WhiteSpace) == v;
    TrimEndBySuffix(n, after, WhiteSpace);
  }

  /** A declared plain name, with white space around it, parses to its
      value when no earlier name is the same. */
  lemma EnumParseOfName(e: EnumType, k: nat, before: string, after: string)
    requires k < |e.names| && PlainName(e.names[k]) && forall j :: 0 <= j < k ==> e.names[j] != e.names[k]
    requires forall j :: 0 <= j < |before| ==> IsWhiteSpace(before[j])
    requires forall j :: 0 <= j < |after| ==> IsWhiteSpace(after[j]) && after[j] != ','
    ensures EnumParse(e, before + e.names[k] + after) == Ok(k)
  {
    var n := e.names[k];
    var text := before + n + after;
    assert text == before + (n + after);
    TrimStartByPrefix(before, n + after, WhiteSpace);
    EnumParseByName(e, text, n + after);
    TrimNameAndSpace(n, after);
    FindNameFirst(e.names, k);
  }

  /** Two declared plain names joined by ", " parse to their values or-ed. */
  lemma EnumParseOfPair(e: EnumType, a: nat, b: nat)
    requires a < |e.names| && PlainName(e.names[a]) && forall j :: 0 <= j < a ==> e.names[j] != e.names[a]
    requires b < |e.names| && PlainName(e.names[b]) && forall j :: 0 <= j < b ==> e.names[j] != e.names[b]
    ensures EnumParse(e, e.names[a] + ", " + e.names[b]) == Ok(BitOr(a, b))
  {
    var na, nb := e.names[a], e.names[b];
    var text := na + ", " + nb;
    assert text[0] == na[0];
    assert TrimStartBy(text, WhiteSpace) == text;
    EnumParseByName(e, text, text);
    PairPieces(na, nb);
    TrimNameAndSpace(na, []);
    assert na + [] == na;
    FindNameFirst(e.names, a);
    TrimStartByPrefix(" ", nb, WhiteSpace);
    TrimNameAndSpace(nb, []);
    assert nb + [] == nb;
    FindNameFirst(e.names, b);
  }

  /** Where ", " splits two plain names. */
  lemma PairPieces(na: string, nb: string)
    requires PlainName(na) && PlainName(nb)
    ensures var text := na + ", " + nb;
            && IndexOf(text, ",", 0) == |na| && |na| < |text| - 1
            && text[..|na|] == na && text[|na| + 1..] == " " + nb
            && IndexOf(" " + nb, ",", 0) == -1
  {
    var text := na + ", " + nb;
    assert text == na + "," + (" " + nb);
    CommaIndex(na, " " + nb);
    NoCommaIndex(" " + nb);
  }

  /** Integer text parses as an enum to the integer, or overflows outside
      the int range. */
  lemma EnumParseOfInteger(e: EnumType, i: int)
    ensures EnumParse(e, IntToString(i)) == if IntKind.Int32.Contains(i) then Ok(i) else Err(Overflow)
  {
    var t := IntToString(i);
    IntToStringEnds(i);
    assert TrimStartBy(t, WhiteSpace) == t;
    ParseIntegerStyleOfIntToString(i);
  }

  /** FindName finds the first occurrence of a name. */
  lemma FindNameFirst(names: seq<string>, k: nat)
    requires k < |names| && forall j :: 0 <= j < k ==> names[j] != names[k]
    ensures FindName(names, names[k]) == Some(k)
  {
  }

  /** IndexOf finds no ',' in text without one. */
  lemma NoCommaIndex(s: string)
    requires ',' !in s
    ensures IndexOf(s, ",", 0) == -1
  {
    forall k | 0 <= k && k + 1 <= |s| ensures !OccursAt(s, ",", k) {
      assert s[k..k + 1][0] == s[k];
    }
  }

  /** IndexOf finds the ',' after text without one. */
  lemma CommaIndex(a: string, b: string)
    requires ',' !in a
    ensures IndexOf(a + "," + b, ",", 0) == |a|
  {
    var s := a + "," + b;
    assert OccursAt(s, ",", |a|) by {
      assert s[|a|..|a| + 1] == [s[|a|]];
    }
    IndexOfFirst(s, ",", 0, |a|);
    forall k | 0 <= k < |a| ensures !OccursAt(s, ",", k) {
      assert s[k..k + 1][0] == s[k] == a[k];
    }
  }

  /** IndexOf returns an occurrence no later than any given one. */
  lemma {:induction false} IndexOfFirst(s: string, find: string, from: nat, k: nat)
    requires from <= k && OccursAt(s, find, k)
    ensures from <= IndexOf(s, find, from) <= k
    decreases k - from
  {
    if !OccursAt(s, find, from) {
      IndexOfFirst(s, find, from + 1, k);
    }
  }
}

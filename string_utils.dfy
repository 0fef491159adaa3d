/** StringUtils: the identifier-case converter the YAML codec uses for keys
    and enum names, ordinal search-and-replace, de-orphaning and
    pluralisation. Text is ASCII; comparison is ordinal. */
module StringUtils {
  import opened Wrappers
  import opened Framework

  // ---------------------------------------------------------------- Pluralize

  /** "1 {singular}" for exactly one, "{amount} {plural}" otherwise. */
  function Pluralize(amount: int32, singular: string, plural: string): string {
    if amount == 1 then "1 " + singular else IntToString(amount) + " " + plural
  }

  /** The overload whose plural is the singular with an "s" appended. */
  function PluralizeRegular(amount: int32, singular: string): string {
    Pluralize(amount, singular, singular + "s")
  }

  /** The text is the amount in decimal, one space, then the noun that agrees
      with it; the amount can be read back from the text. */
  lemma PluralizeReadsBack(amount: int32, singular: string, plural: string)
    ensures var r := Pluralize(amount, singular, plural);
            var n := IntToString(amount);
            && |r| > |n|
            && ParseInteger(r[..|n|]) == Some(amount as int)
            && r[|n|] == ' '
            && r[|n| + 1..] == if amount == 1 then singular else plural
  {
    var r := Pluralize(amount, singular, plural);
    var n := IntToString(amount);
    ParseIntegerOfIntToString(amount);
    if amount == 1 {
      assert n == "1";
    }
    assert r == n + " " + (if amount == 1 then singular else plural);
    assert r[..|n|] == n;
  }

  // ---------------------------------------------------------------- DeOrphan

  const NoBreakSpace: char := ' '

  /** Replaces the last space with a no-break space; null gives "". */
  function DeOrphan(input: Option<string>): (r: string)
    ensures input.None? ==> r == ""
    ensures input.Some? && (forall j :: 0 <= j < |input.value| ==> input.value[j] != ' ') ==>
              r == input.value
    ensures input.Some? && (exists j :: 0 <= j < |input.value| && input.value[j] == ' ') ==>
              var s := input.value;
              var k := LastIndexOf(s, ' ');
              && 0 <= k < |s| && s[k] == ' '
              && (forall j :: k < j < |s| ==> s[j] != ' ')
              && |r| == |s| && r[k] == NoBreakSpace
              && r[..k] == s[..k] && r[k + 1..] == s[k + 1..]
  {
    match input
    case None => ""
    case Some(s) =>
      var place := LastIndexOf(s, ' ');
      if place == -1 then s
      else s[..place] + [NoBreakSpace] + s[place + 1..]
  }

  // ---------------------------------------------------------------- FastReplace

  /** Every non-overlapping occurrence of `find` in `s[from..]`, scanning
      left to right, replaced by `rep`. */
  function ReplacedFrom(s: string, find: string, rep: string, from: nat): string
    requires |find| > 0 && from <= |s|
    decreases |s| - from
  {
    if from + |find| > |s| then s[from..]
    else if OccursAt(s, find, from) then rep + ReplacedFrom(s, find, rep, from + |find|)
    else [s[from]] + ReplacedFrom(s, find, rep, from + 1)
  }

  /** Every non-overlapping occurrence of `find` replaced by `rep`. */
  function Replaced(s: string, find: string, rep: string): string
    requires |find| > 0
  {
    ReplacedFrom(s, find, rep, 0)
  }

  /** With no occurrence at or after `from`, the rest is unchanged. */
  lemma {:induction false} ReplacedWithoutNext(s: string, find: string, rep: string, from: nat)
    requires |find| > 0 && from <= |s|
    requires forall k :: from <= k ==> !OccursAt(s, find, k)
    ensures ReplacedFrom(s, find, rep, from) == s[from..]
    decreases |s| - from
  {
    if from + |find| <= |s| {
      ReplacedWithoutNext(s, find, rep, from + 1);
      SkipToEnd(s, find, rep, from);
    }
  }

  /** The text up to the next occurrence, at `found`, is kept and the
      occurrence replaced. */
  lemma {:induction false} ReplacedUpTo(s: string, find: string, rep: string, from: nat, found: nat)
    requires |find| > 0 && from <= found && OccursAt(s, find, found)
    requires forall k :: from <= k < found ==> !OccursAt(s, find, k)
    ensures ReplacedFrom(s, find, rep, from) == s[from..found] + rep + ReplacedFrom(s, find, rep, found + |find|)
    decreases found - from
  {
    if from == found {
      MatchAt(s, find, rep, from);
    } else {
      ReplacedUpTo(s, find, rep, from + 1, found);
      SkipToOccurrence(s, find, rep, from, found);
    }
  }

  /** The next occurrence, when IndexOf finds one, is replaced and the text
      before it kept. */
  lemma ReplacedUpToNext(s: string, find: string, rep: string, from: nat)
    requires |find| > 0 && from <= |s| && IndexOf(s, find, from) != -1
    ensures IndexOf(s, find, from) + |find| <= |s|
    ensures ReplacedFrom(s, find, rep, from)
            == s[from..IndexOf(s, find, from)] + rep + ReplacedFrom(s, find, rep, IndexOf(s, find, from) + |find|)
  {
    IndexOfNoneBefore(s, find, from);
    ReplacedUpTo(s, find, rep, from, IndexOf(s, find, from));
  }

  /** Replacing from `from` on keeps the text up to the first occurrence of
      `find` at or after `from`, puts `rep` in its place and goes on after it;
      with no such occurrence the rest is unchanged. */
  lemma ReplacedAtFirstOccurrence(s: string, find: string, rep: string, from: nat)
    requires |find| > 0 && from <= |s|
    ensures IndexOf(s, find, from) == -1 ==> ReplacedFrom(s, find, rep, from) == s[from..]
    ensures IndexOf(s, find, from) != -1 ==>
              var found := IndexOf(s, find, from);
              ReplacedFrom(s, find, rep, from)
              == s[from..found] + rep + ReplacedFrom(s, find, rep, found + |find|)
  {
    if IndexOf(s, find, from) == -1 {
      IndexOfNoneAfter(s, find, from);
      ReplacedWithoutNext(s, find, rep, from);
    } else {
      ReplacedUpToNext(s, find, rep, from);
    }
  }

  lemma MatchAt(s: string, find: string, rep: string, from: nat)
    requires |find| > 0 && OccursAt(s, find, from)
    ensures ReplacedFrom(s, find, rep, from)
            == s[from..from] + rep + ReplacedFrom(s, find, rep, from + |find|)
  {
    assert s[from..from] + rep == rep;
  }

  lemma SkipToOccurrence(s: string, find: string, rep: string, from: nat, found: nat)
    requires |find| > 0 && from < found <= |s| - |find|
    requires !OccursAt(s, find, from)
    requires ReplacedFrom(s, find, rep, from + 1)
             == s[from + 1..found] + rep + ReplacedFrom(s, find, rep, found + |find|)
    ensures ReplacedFrom(s, find, rep, from)
            == s[from..found] + rep + ReplacedFrom(s, find, rep, found + |find|)
  {
    assert ReplacedFrom(s, find, rep, from) == [s[from]] + ReplacedFrom(s, find, rep, from + 1);
    assert s[from..found] == [s[from]] + s[from + 1..found];
  }

  lemma SkipToEnd(s: string, find: string, rep: string, from: nat)
    requires |find| > 0 && from + |find| <= |s|
    requires !OccursAt(s, find, from)
    requires ReplacedFrom(s, find, rep, from + 1) == s[from + 1..]
    ensures ReplacedFrom(s, find, rep, from) == s[from..]
  {
    assert ReplacedFrom(s, find, rep, from) == [s[from]] + ReplacedFrom(s, find, rep, from + 1);
    assert s[from..] == [s[from]] + s[from + 1..];
  }

  /** Text in which `find` never occurs comes back unchanged. */
  lemma ReplacedWithoutOccurrence(s: string, find: string, rep: string)
    requires |find| > 0
    requires forall k :: !OccursAt(s, find, k)
    ensures Replaced(s, find, rep) == s
  {
    ReplacedWithoutNext(s, find, rep, 0);
    assert s[0..] == s;
  }

  /** Replacing `find` by itself changes nothing. */
  lemma ReplacedBySelf(s: string, find: string)
    requires |find| > 0
    ensures Replaced(s, find, find) == s
  {
    ReplacedFromBySelf(s, find, 0);
    assert s[0..] == s;
  }

  lemma {:induction false} ReplacedFromBySelf(s: string, find: string, from: nat)
    requires |find| > 0 && from <= |s|
    ensures ReplacedFrom(s, find, find, from) == s[from..]
    decreases |s| - from
  {
    if from + |find| <= |s| {
      var next := if OccursAt(s, find, from) then from + |find| else from + 1;
      ReplacedFromBySelf(s, find, next);
      var head := s[from..next];
      assert ReplacedFrom(s, find, find, from) == head + ReplacedFrom(s, find, find, next);
      assert s[from..] == head + s[next..];
    }
  }

  /** Appends the text before an occurrence, when there is any, and the
      replacement, unless it is empty. */
  method AppendOccurrence(sb: string, s: string, search: nat, found: nat, replace: string,
                          emptyReplacement: bool) returns (r: string)
    requires search <= found <= |s|
    requires emptyReplacement == (|replace| == 0)
    ensures r == sb + s[search..found] + replace
  {
    r := sb;
    var chars := found - search;
    if chars != 0 {
      r := r + s[search..found];
    } else {
      assert s[search..found] == [];
    }
    if !emptyReplacement {
      r := r + replace;
    }
  }

  lemma ReplacedAtEnd(s: string, f: string, rep: string)
    requires |f| > 0
    ensures ReplacedFrom(s, f, rep, |s|) == []
  {
  }

  /** One round of the FastReplace loop: the text before the occurrence and
      the replacement are appended and the search resumes after it; the text
      built so far followed by the replacement of the rest is still the
      whole result. */
  method ReplaceRound(s: string, f: string, replace: string, emptyReplacement: bool,
                      result: string, search: nat, found: int)
    returns (result': string, search': nat)
    requires |f| > 0 && search <= |s| && emptyReplacement == (|replace| == 0)
    requires found == IndexOf(s, f, search) && found != -1
    requires result + ReplacedFrom(s, f, replace, search) == Replaced(s, f, replace)
    ensures search < search' <= |s|
    ensures result' + ReplacedFrom(s, f, replace, search') == Replaced(s, f, replace)
  {
    ReplacedUpToNext(s, f, replace, search);
    result' := AppendOccurrence(result, s, search, found, replace, emptyReplacement);
    search' := found + |f|;
    BuiltThenRest(result, s[search..found], replace, ReplacedFrom(s, f, replace, search'),
                  ReplacedFrom(s, f, replace, search), Replaced(s, f, replace));
  }

  /** Moving a piece and a replacement from the rest onto the text built so
      far keeps their concatenation. */
  lemma BuiltThenRest(built: string, piece: string, rep: string, tail: string, rest: string, whole: string)
    requires built + rest == whole && rest == piece + rep + tail
    ensures (built + piece + rep) + tail == whole
  {
    assert (built + piece + rep) + tail == built + (piece + rep + tail);
  }

  /** str.FastReplace(find, replace, StringComparison.Ordinal): null `str`
      and null or empty `find` throw, but an empty `str` is returned before
      `find` is checked; a null or empty `replace` deletes the occurrences. */
  method FastReplace(str: Option<string>, find: Option<string>, replace: Option<string>)
    returns (r: Result<string>)
    ensures str.None? ==> r == Err(ArgumentNull("str"))
    ensures str.Some? && |str.value| == 0 ==> r == Ok(str.value)
    ensures str.Some? && |str.value| > 0 && find.None? ==> r == Err(ArgumentNull("find"))
    ensures str.Some? && |str.value| > 0 && find.Some? && |find.value| == 0 ==>
              r == Err(InvalidArgument("find"))
    ensures str.Some? && |str.value| > 0 && find.Some? && |find.value| > 0 ==>
              r == Ok(Replaced(str.value, find.value, replace.GetOr("")))
  {
    if str.None? {
      return Err(ArgumentNull("str"));
    }
    var s := str.value;
    if |s| == 0 {
      return Ok(s);
    }
    if find.None? {
      return Err(ArgumentNull("find"));
    }
    var f := find.value;
    if |f| == 0 {
      return Err(InvalidArgument("find"));
    }
    var replaced := ReplaceOccurrences(s, f, replace.GetOr(""));
    return Ok(replaced);
  }

  /** The search loop of FastReplace, once the arguments are checked; a null
      replacement arrives as "". */
  method ReplaceOccurrences(s: string, f: string, replace: string) returns (r: string)
    requires |s| > 0 && |f| > 0
    ensures r == Replaced(s, f, replace)
  {
    var result := "";
    var emptyReplacement := |replace| == 0;
    var search := 0;
    var found := IndexOf(s, f, search);
    while found != -1
      invariant 0 <= search <= |s|
      invariant found == IndexOf(s, f, search)
      invariant result + ReplacedFrom(s, f, replace, search) == Replaced(s, f, replace)
      decreases |s| - search
    {
      result, search := ReplaceRound(s, f, replace, emptyReplacement, result, search, found);
      if search == |s| {
        ReplacedAtEnd(s, f, replace);
        return result;
      }
      found := IndexOf(s, f, search);
    }
    IndexOfNoneAfter(s, f, search);
    ReplacedWithoutNext(s, f, replace, search);
    result := result + s[search..];
    return result;
  }

  // ---------------------------------------------------------------- PascalToSnake

  /** What PascalToSnake appends for a character after the first: an upper-case
      letter becomes `sep` plus its lower-case form. */
  function Piece(c: char, sep: char): string {
    if IsUpper(c) then [sep, ToLower(c)] else [c]
  }

  function SnakeTail(s: string, sep: char): string {
    if s == [] then [] else Piece(s[0], sep) + SnakeTail(s[1..], sep)
  }

  function CountUpper(s: string): nat {
    if s == [] then 0 else (if IsUpper(s[0]) then 1 else 0) + CountUpper(s[1..])
  }

  /** The string PascalToSnake builds: text shorter than two characters is
      returned as is; otherwise the first character is lower-cased and every
      later upper-case letter becomes '_' and its lower-case form. */
  function ToSnake(text: string): string {
    if |text| < 2 then text else [ToLower(text[0])] + SnakeTail(text[1..], '_')
  }

  lemma {:induction false} SnakeTailAppend(a: string, b: string, sep: char)
    ensures SnakeTail(a + b, sep) == SnakeTail(a, sep) + SnakeTail(b, sep)
  {
    if a == [] {
      assert a + b == b;
    } else {
      assert (a + b)[1..] == a[1..] + b;
      SnakeTailAppend(a[1..], b, sep);
    }
  }

  /** One more character of the tail converts to one more piece. */
  lemma SnakeTailExtend(text: string, i: nat)
    requires 1 <= i < |text|
    ensures SnakeTail(text[1..i + 1], '_') == SnakeTail(text[1..i], '_') + Piece(text[i], '_')
  {
    assert text[1..i + 1] == text[1..i] + [text[i]];
    SnakeTailAppend(text[1..i], [text[i]], '_');
    assert SnakeTail([text[i]], '_') == Piece(text[i], '_') + SnakeTail([], '_');
  }

  /** The body of the PascalToSnake loop: an upper-case letter appends '_'
      and its lower-case form, anything else itself. */
  method AppendPiece(sb: string, c: char) returns (r: string)
    ensures r == sb + Piece(c, '_')
  {
    if IsUpper(c) {
      r := sb + ['_'];
      r := r + [ToLower(c)];
    } else {
      r := sb + [c];
    }
  }

  method PascalToSnake(text: string) returns (r: string)
    ensures r == ToSnake(text)
  {
    if |text| < 2 {
      return text;
    }
    var sb := [ToLower(text[0])];
    var i := 1;
    while i < |text|
      invariant 1 <= i <= |text|
      invariant sb == [ToLower(text[0])] + SnakeTail(text[1..i], '_')
    {
      SnakeTailExtend(text, i);
      sb := AppendPiece(sb, text[i]);
      i := i + 1;
    }
    assert text[1..i] == text[1..];
    r := sb;
  }

  lemma {:induction false} SnakeTailLength(s: string, sep: char)
    ensures |SnakeTail(s, sep)| == |s| + CountUpper(s)
  {
    if s != [] {
      SnakeTailLength(s[1..], sep);
    }
  }

  /** Text of two or more characters grows by one '_' per upper-case letter
      after the first character, and keeps its first character lower-cased. */
  lemma ToSnakeLength(text: string)
    requires |text| >= 2
    ensures |ToSnake(text)| == |text| + CountUpper(text[1..])
    ensures ToSnake(text)[0] == ToLower(text[0])
  {
    SnakeTailLength(text[1..], '_');
  }

  /** Text shorter than two characters is returned unchanged. */
  lemma ToSnakeShort(text: string)
    requires |text| < 2
    ensures ToSnake(text) == text
  {
  }

  /** For two or more characters the result has no upper-case letter. */
  lemma {:induction false} ToSnakeHasNoUpper(text: string)
    requires |text| >= 2
    ensures forall k :: 0 <= k < |ToSnake(text)| ==> !IsUpper(ToSnake(text)[k])
  {
    var t := SnakeTail(text[1..], '_');
    SnakeTailShapeUnderscore(text[1..]);
    assert ToSnake(text) == [ToLower(text[0])] + t;
  }

  lemma {:induction false} SnakeTailShapeUnderscore(s: string)
    ensures forall k :: 0 <= k < |SnakeTail(s, '_')| ==> !IsUpper(SnakeTail(s, '_')[k])
  {
    if s != [] {
      SnakeTailShapeUnderscore(s[1..]);
      assert SnakeTail(s, '_') == Piece(s[0], '_') + SnakeTail(s[1..], '_');
    }
  }

  // ---------------------------------------------------------------- SnakeToPascal

  /** The characters TextInfo.ToTitleCase treats as word separators, on ASCII:
      everything but letters, digits and the apostrophe. Non-ASCII characters
      are neither letters nor separators here. */
  predicate IsWordSeparator(c: char) {
    c < 128 as char && !IsLetter(c) && !IsDigit(c) && c != '\''
  }

  /** TextInfo.ToTitleCase on lower-case text: a letter that starts a word is
      upper-cased; a word goes on through letters, digits and apostrophes up
      to the next separator. `inWord` says whether a word is open. */
  function TitleCase(s: string, inWord: bool): (r: string)
    ensures |r| == |s|
    ensures forall k :: 0 <= k < |s| ==> r[k] == s[k] || (IsLower(s[k]) && r[k] == ToUpper(s[k]))
  {
    if s == [] then []
    else if !inWord && IsLetter(s[0]) then [ToUpper(s[0])] + TitleCase(s[1..], true)
    else if inWord && IsWordSeparator(s[0]) then [s[0]] + TitleCase(s[1..], false)
    else [s[0]] + TitleCase(s[1..], inWord)
  }

  /** Lower-cases, turns '_' into ' ', title-cases and removes the spaces. */
  function SnakeToPascal(text: string): (r: string)
    ensures '_' !in r && ' ' !in r
  {
    var spaced := ReplaceChar(LowerAll(text), '_', ' ');
    var titled := TitleCase(spaced, false);
    assert '_' !in titled by {
      forall k | 0 <= k < |titled| ensures titled[k] != '_' {
        assert spaced[k] != '_';
      }
    }
    RemoveCharKeeps(titled, ' ');
    RemoveChar(titled, ' ')
  }

  lemma {:induction false} RemoveCharKeeps(s: string, c: char)
    ensures forall x :: x in RemoveChar(s, c) ==> x in s
  {
    if s != [] {
      RemoveCharKeeps(s[1..], c);
      assert forall x :: x in s[1..] ==> x in s;
    }
  }

  /** A Pascal-case identifier: empty, or an upper-case letter followed by
      ASCII letters and digits. */
  predicate IsPascalIdentifier(w: string) {
    w == [] || (IsUpper(w[0]) && forall k :: 0 <= k < |w| ==> IsLetter(w[k]) || IsDigit(w[k]))
  }

  lemma {:induction false} LowerAllNoUpper(s: string)
    requires forall k :: 0 <= k < |s| ==> !IsUpper(s[k])
    ensures LowerAll(s) == s
  {
  }

  lemma {:induction false} SpacedTail(s: string)
    requires forall k :: 0 <= k < |s| ==> IsLetter(s[k]) || IsDigit(s[k])
    ensures ReplaceChar(SnakeTail(s, '_'), '_', ' ') == SnakeTail(s, ' ')
  {
    if s != [] {
      SpacedTail(s[1..]);
      var a := SnakeTail(s, '_');
      var p := Piece(s[0], '_');
      var rest := SnakeTail(s[1..], '_');
      assert a == p + rest;
      var ra := ReplaceChar(a, '_', ' ');
      assert ra == ReplaceChar(p, '_', ' ') + ReplaceChar(rest, '_', ' ') by {
        assert |ra| == |p| + |rest|;
        forall k | 0 <= k < |ra|
          ensures ra[k] == (ReplaceChar(p, '_', ' ') + ReplaceChar(rest, '_', ' '))[k]
        {
          if k < |p| {
            assert a[k] == p[k];
          } else {
            assert a[k] == rest[k - |p|];
          }
        }
      }
      assert ReplaceChar(p, '_', ' ') == Piece(s[0], ' ');
    }
  }

  /** Title-casing inside a word: an upper-case letter's piece (a space,
      then the letter lower-cased) comes back as the space and the letter;
      any other letter or digit is kept. */
  lemma TitleCasePiece(c: char, rest: string)
    requires IsLetter(c) || IsDigit(c)
    ensures TitleCase(Piece(c, ' ') + rest, true) == (if IsUpper(c) then [' ', c] else [c]) + TitleCase(rest, true)
  {
    if IsUpper(c) {
      TitleCaseUpperPiece(c, rest);
    } else {
      TitleCaseGoesOn(c, rest);
    }
  }

  /** The upper-case case of TitleCasePiece. */
  lemma TitleCaseUpperPiece(c: char, rest: string)
    requires IsUpper(c)
    ensures TitleCase(Piece(c, ' ') + rest, true) == [' ', c] + TitleCase(rest, true)
  {
    var lc := ToLower(c);
    assert IsLetter(lc) && ToUpper(lc) == c;
    TitleCaseOpens(lc, rest);
    TitleCaseCloses(' ', [lc] + rest);
    assert [' '] + ([lc] + rest) == Piece(c, ' ') + rest;
  }

  /** Outside a word a letter is upper-cased and opens one. */
  lemma TitleCaseOpens(c: char, rest: string)
    requires IsLetter(c)
    ensures TitleCase([c] + rest, false) == [ToUpper(c)] + TitleCase(rest, true)
  {
    assert ([c] + rest)[1..] == rest;
  }

  /** Inside a word a separator is kept and closes it. */
  lemma TitleCaseCloses(c: char, rest: string)
    requires IsWordSeparator(c)
    ensures TitleCase([c] + rest, true) == [c] + TitleCase(rest, false)
  {
    assert ([c] + rest)[1..] == rest;
  }

  /** Inside a word anything but a separator is kept. */
  lemma TitleCaseGoesOn(c: char, rest: string)
    requires !IsWordSeparator(c)
    ensures TitleCase([c] + rest, true) == [c] + TitleCase(rest, true)
  {
    assert ([c] + rest)[1..] == rest;
  }

  lemma {:induction false} TitleSpacedTail(s: string)
    requires forall k :: 0 <= k < |s| ==> IsLetter(s[k]) || IsDigit(s[k])
    ensures RemoveChar(TitleCase(SnakeTail(s, ' '), true), ' ') == s
  {
    if s != [] {
      assert forall k :: 0 <= k < |s[1..]| ==> s[1..][k] == s[k + 1];
      TitleSpacedTail(s[1..]);
      TitleSpacedStep(s);
    }
  }

  /** One character more of TitleSpacedTail. */
  lemma TitleSpacedStep(s: string)
    requires s != [] && (IsLetter(s[0]) || IsDigit(s[0]))
    requires RemoveChar(TitleCase(SnakeTail(s[1..], ' '), true), ' ') == s[1..]
    ensures RemoveChar(TitleCase(SnakeTail(s, ' '), true), ' ') == s
  {
    assert SnakeTail(s, ' ') == Piece(s[0], ' ') + SnakeTail(s[1..], ' ');
    TitleSpacedPiece(s[0], SnakeTail(s[1..], ' '));
    assert s == [s[0]] + s[1..];
  }

  /** Title-casing a letter's or digit's piece and dropping the spaces
      leaves the character itself. */
  lemma TitleSpacedPiece(c: char, rest: string)
    requires IsLetter(c) || IsDigit(c)
    ensures RemoveChar(TitleCase(Piece(c, ' ') + rest, true), ' ') == [c] + RemoveChar(TitleCase(rest, true), ' ')
  {
    TitleCasePiece(c, rest);
    var word := if IsUpper(c) then [' ', c] else [c];
    RemoveCharAppend(word, TitleCase(rest, true), ' ');
    if IsUpper(c) {
      assert word[1..] == [c];
    }
    assert [c][1..] == [];
  }

  /** The letters and digits after the first character of an identifier. */
  lemma IdentifierTail(w: string)
    requires IsPascalIdentifier(w) && |w| >= 2
    ensures forall k :: 0 <= k < |w[1..]| ==> IsLetter(w[1..][k]) || IsDigit(w[1..][k])
  {
    forall k | 0 <= k < |w[1..]| ensures IsLetter(w[1..][k]) || IsDigit(w[1..][k]) {
      assert w[1..][k] == w[k + 1];
    }
  }

  /** The first two steps of SnakeToPascal on a key form: lower-casing
      changes nothing and the separators become spaces. */
  lemma SpacedKey(w: string)
    requires IsPascalIdentifier(w) && |w| >= 2
    ensures ReplaceChar(LowerAll(ToSnake(w)), '_', ' ') == [ToLower(w[0])] + SnakeTail(w[1..], ' ')
  {
    var tail := w[1..];
    IdentifierTail(w);
    var head := ToLower(w[0]);
    var snake := ToSnake(w);
    assert snake == [head] + SnakeTail(tail, '_');
    SnakeTailShapeUnderscore(tail);
    LowerAllNoUpper(snake);
    SpacedTail(tail);
    var spaced := ReplaceChar(snake, '_', ' ');
    var rt := ReplaceChar(SnakeTail(tail, '_'), '_', ' ');
    assert |spaced| == 1 + |rt|;
    forall k | 0 <= k < |spaced| ensures spaced[k] == ([head] + rt)[k] {
      if k > 0 {
        assert snake[k] == SnakeTail(tail, '_')[k - 1];
      }
    }
  }

  /** Converting a Pascal-case identifier to a key and back gives the
      identifier again. */
  lemma {:induction false} SnakeToPascalOfToSnake(w: string)
    requires IsPascalIdentifier(w)
    ensures SnakeToPascal(ToSnake(w)) == w
  {
    if |w| == 1 {
      assert LowerAll(w) == [ToLower(w[0])];
      assert ReplaceChar([ToLower(w[0])], '_', ' ') == [ToLower(w[0])];
      assert TitleCase([ToLower(w[0])], false) == [w[0]] + TitleCase([], true);
    } else if |w| >= 2 {
      var tail := w[1..];
      SpacedKey(w);
      IdentifierTail(w);
      var x := [ToLower(w[0])] + SnakeTail(tail, ' ');
      assert x[1..] == SnakeTail(tail, ' ');
      assert TitleCase(x, false) == [w[0]] + TitleCase(SnakeTail(tail, ' '), true);
      TitleSpacedTail(tail);
      RemoveCharAppend([w[0]], TitleCase(SnakeTail(tail, ' '), true), ' ');
      assert w == [w[0]] + tail;
    }
  }

  // ---------------------------------------------------------------- ParseUnderscoredEnum

  /** Enum.Parse(SnakeToPascal(str)); a null `str` throws in the conversion. */
  function ParseUnderscoredEnum(e: EnumType, str: Option<string>): Result<int> {
    match str
    case None => Err(NullReference)
    case Some(text) => EnumParse(e, SnakeToPascal(text))
  }

  /** An enum whose names are distinct Pascal-case identifiers, few enough
      for every value to be an int. */
  predicate WellNamed(e: EnumType) {
    && |e.names| <= IntKind.Int32.Max()
    && (forall i :: 0 <= i < |e.names| ==> |e.names[i]| > 0 && IsPascalIdentifier(e.names[i]))
    && (forall i, j :: 0 <= i < j < |e.names| ==> e.names[i] != e.names[j])
  }

  lemma {:induction false} SnakeTailNoUpper(s: string)
    requires forall k :: 0 <= k < |s| ==> !IsUpper(s[k])
    ensures SnakeTail(s, '_') == s
  {
    if s != [] {
      SnakeTailNoUpper(s[1..]);
      assert s == [s[0]] + s[1..];
    }
  }

  lemma TitleCaseNoLetters(s: string, inWord: bool)
    requires forall k :: 0 <= k < |s| ==> !IsLetter(s[k])
    ensures TitleCase(s, inWord) == s
  {
  }

  lemma {:induction false} RemoveCharAbsent(s: string, c: char)
    requires forall k :: 0 <= k < |s| ==> s[k] != c
    ensures RemoveChar(s, c) == s
  {
    if s != [] {
      RemoveCharAbsent(s[1..], c);
      assert s == [s[0]] + s[1..];
    }
  }

  /** Integer text is its own key form and its own identifier form. */
  lemma IntegerTextUnchanged(i: int)
    ensures ToSnake(IntToString(i)) == IntToString(i)
    ensures SnakeToPascal(IntToString(i)) == IntToString(i)
  {
    var t := IntToString(i);
    IntToStringChars(i);
    if |t| >= 2 {
      SnakeTailNoUpper(t[1..]);
      assert t == [t[0]] + t[1..];
    }
    LowerAllNoUpper(t);
    assert ReplaceChar(t, '_', ' ') == t;
    TitleCaseNoLetters(t, false);
    RemoveCharAbsent(t, ' ');
  }

  /** Writing an enum value as its key form and reading it back with
      ParseUnderscoredEnum gives the value, whether or not it has a name. */
  lemma ParseUnderscoredEnumOfName(e: EnumType, v: int)
    requires WellNamed(e) && IntKind.Int32.Contains(v)
    ensures ParseUnderscoredEnum(e, Some(ToSnake(EnumName(e, v)))) == Ok(v)
  {
    if 0 <= v < |e.names| {
      var name := e.names[v];
      SnakeToPascalOfToSnake(name);
      PascalIsPlain(name);
      EnumParseOfName(e, v, [], []);
      assert [] + name + [] == name;
    } else {
      IntegerTextUnchanged(v);
      EnumParseOfInteger(e, v);
    }
  }

  /** Enum.Parse reads a Pascal-case identifier only as a name. */
  lemma PascalIsPlain(w: string)
    requires w != [] && IsPascalIdentifier(w)
    ensures PlainName(w)
  {
    assert IsLetter(w[|w| - 1]) || IsDigit(w[|w| - 1]);
  }
}

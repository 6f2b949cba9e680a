/**
 * The few java.lang behaviours the app's logic depends on, written out so that the
 * models of the helpers and fragments can state exactly what the Java code computes:
 * 32-bit `int`, `Integer.toString`, `Integer.parseInt`, and the `String` methods
 * `trim`, `contains`, `indexOf`, `lastIndexOf`, `substring` and `split`.
 */
module JavaLang {

  datatype Option<+T> = None | Some(value: T)

  /** A Java `int`. */
  type Int32 = x: int | -0x8000_0000 <= x < 0x8000_0000

  /**
   * A Java `byte` as `String.format("%02X", b)` sees it: the formatter prints a
   * negative byte as its value plus 256, so only the unsigned value 0..255 matters.
   */
  type Byte = b: int | 0 <= b < 0x100

  // ---------------------------------------------------------------------------
  // Decimal digits, Integer.toString and Integer.parseInt
  // ---------------------------------------------------------------------------

  predicate IsDigit(c: char) {
    '0' <= c <= '9'
  }

  predicate AllDigits(s: string) {
    forall i :: 0 <= i < |s| ==> IsDigit(s[i])
  }

  function DigitValue(c: char): (d: nat)
    requires IsDigit(c)
    ensures d < 10
  {
    c as int - '0' as int
  }

  function DigitChar(d: nat): (c: char)
    requires d < 10
    ensures IsDigit(c) && DigitValue(c) == d
  {
    (d + '0' as int) as char
  }

  /** Decimal text of a non-negative number, without leading zeros. */
  function NatToDecimal(n: nat): (s: string)
    ensures 1 <= |s| && AllDigits(s)
    ensures s[0] == '0' ==> n == 0
    decreases n
  {
    if n < 10 then [DigitChar(n)] else NatToDecimal(n / 10) + [DigitChar(n % 10)]
  }

  /** `Integer.toString(n)`, which is also what `"" + n` and `"%d"` produce. */
  function IntToDecimal(n: int): (s: string)
    ensures 1 <= |s|
    ensures '.' !in s && '/' !in s && ':' !in s && '(' !in s && ')' !in s
  {
    var s := if n < 0 then "-" + NatToDecimal(-n) else NatToDecimal(n);
    assert forall i :: 0 < i < |s| ==> IsDigit(s[i]);
    s
  }

  /** The value of a run of decimal digits, most significant first. */
  function DigitsValue(s: string): nat
    requires AllDigits(s)
    decreases |s|
  {
    if s == [] then 0 else 10 * DigitsValue(s[..|s| - 1]) + DigitValue(s[|s| - 1])
  }

  /**
   * `Integer.parseInt(s)`: an optional '-' or '+' followed by at least one digit, with
   * a value that fits in an `int`. Every other input throws NumberFormatException,
   * modelled as None.
   */
  function ParseInt(s: string): (r: Option<Int32>)
    ensures r.Some? ==> s != [] && (IsDigit(s[0]) || s[0] == '-' || s[0] == '+')
    ensures r.Some? && s[0] == '-' ==> r.value <= 0
    ensures r.Some? && s[0] != '-' ==> r.value >= 0
  {
    if s == [] then None
    else
      var digits := if s[0] == '-' || s[0] == '+' then s[1..] else s;
      if digits == [] || !AllDigits(digits) then None
      else
        var v: int := if s[0] == '-' then -(DigitsValue(digits) as int) else DigitsValue(digits);
        if -0x8000_0000 <= v < 0x8000_0000 then Some(v) else None
  }

  lemma {:induction false} DigitsValueOfDecimal(n: nat)
    ensures DigitsValue(NatToDecimal(n)) == n
    decreases n
  {
    if n >= 10 {
      var s := NatToDecimal(n);
      assert s[..|s| - 1] == NatToDecimal(n / 10);
      DigitsValueOfDecimal(n / 10);
    }
  }

  /** Integer.parseInt reads back exactly what Integer.toString wrote. */
  lemma ParseIntOfDecimal(n: Int32)
    ensures ParseInt(IntToDecimal(n)) == Some(n)
  {
    var s := IntToDecimal(n);
    if n < 0 {
      var m: nat := -(n as int);
      assert s[1..] == NatToDecimal(m);
      DigitsValueOfDecimal(m);
    } else {
      DigitsValueOfDecimal(n);
    }
  }

  // ---------------------------------------------------------------------------
  // Hexadecimal digits (Formatter "%X" and Character.digit(c, 16))
  // ---------------------------------------------------------------------------

  predicate IsUpperHexDigit(c: char) {
    '0' <= c <= '9' || 'A' <= c <= 'F'
  }

  function HexChar(d: nat): (c: char)
    requires d < 16
    ensures IsUpperHexDigit(c)
  {
    if d < 10 then (d + '0' as int) as char else (d - 10 + 'A' as int) as char
  }

  /** `Character.digit(c, 16)`, with -1 written as None (ASCII digits only). */
  function HexValue(c: char): (r: Option<nat>)
    ensures r.Some? ==> r.value < 16
  {
    if '0' <= c <= '9' then Some(c as int - '0' as int)
    else if 'A' <= c <= 'F' then Some(c as int - 'A' as int + 10)
    else if 'a' <= c <= 'f' then Some(c as int - 'a' as int + 10)
    else None
  }

  lemma HexValueOfHexChar(d: nat)
    requires d < 16
    ensures HexValue(HexChar(d)) == Some(d)
  {
  }

  // ---------------------------------------------------------------------------
  // String.trim, contains, indexOf, lastIndexOf, substring
  // ---------------------------------------------------------------------------

  /** `String.trim` removes every leading and trailing character up to U+0020. */
  predicate IsTrimmed(c: char) {
    c <= ' '
  }

  /** The position of the first character above U+0020 at or after st, or |s|. */
  function TrimBegin(s: string, st: nat): (i: nat)
    requires st <= |s|
    ensures st <= i <= |s|
    ensures i == |s| || !IsTrimmed(s[i])
    ensures forall k :: st <= k < i ==> IsTrimmed(s[k])
    decreases |s| - st
  {
    if st < |s| && IsTrimmed(s[st]) then TrimBegin(s, st + 1) else st
  }

  /** One past the last character above U+0020 that lies at or after st, or st. */
  function TrimLimit(s: string, st: nat, len: nat): (j: nat)
    requires st <= len <= |s|
    ensures st <= j <= len
    ensures j == st || !IsTrimmed(s[j - 1])
    ensures forall k :: j <= k < len ==> IsTrimmed(s[k])
    decreases len
  {
    if st < len && IsTrimmed(s[len - 1]) then TrimLimit(s, st, len - 1) else len
  }

  /**
   * `String.trim`: the infix of s that starts after the leading characters up to
   * U+0020 and ends before the trailing ones.
   */
  function Trim(s: string): (r: string)
    ensures r == [] <==> forall k :: 0 <= k < |s| ==> IsTrimmed(s[k])
    ensures r != [] ==> !IsTrimmed(r[0]) && !IsTrimmed(r[|r| - 1])
    ensures LeadingTrimmed(s) + |r| <= |s|
    ensures r == s[LeadingTrimmed(s)..LeadingTrimmed(s) + |r|]
    ensures forall k :: 0 <= k < LeadingTrimmed(s) ==> IsTrimmed(s[k])
    ensures forall k :: LeadingTrimmed(s) + |r| <= k < |s| ==> IsTrimmed(s[k])
  {
    var st := TrimBegin(s, 0);
    var len := TrimLimit(s, st, |s|);
    s[st..len]
  }

  /** How many characters `String.trim` removes from the front of s. */
  function LeadingTrimmed(s: string): (i: nat)
    ensures i <= |s|
    ensures i == |s| || !IsTrimmed(s[i])
  {
    TrimBegin(s, 0)
  }

  /**
   * `String.length()`: the number of UTF-16 code units, two for each character
   * above U+FFFF (a surrogate pair) and one for every other character.
   */
  function Utf16Length(s: string): (n: nat)
    ensures |s| <= n <= 2 * |s|
    ensures n == |s| <==> forall k :: 0 <= k < |s| ==> s[k] as int <= 0xFFFF
    decreases |s|
  {
    if s == [] then 0
    else
      var n := (if s[0] as int > 0xFFFF then 2 else 1) + Utf16Length(s[1..]);
      assert forall k :: 1 <= k < |s| ==> s[k] == s[1..][k - 1];
      n
  }

  /** Text that neither starts nor ends with a character up to U+0020 is left as it is by `trim`. */
  lemma TrimUntrimmed(s: string)
    requires s != [] ==> !IsTrimmed(s[0]) && !IsTrimmed(s[|s| - 1])
    ensures Trim(s) == s
  {
    assert TrimBegin(s, 0) == 0;
    assert TrimLimit(s, 0, |s|) == |s|;
    assert s[0..|s|] == s;
  }

  /** Text made only of characters above U+FFFF has two code units per character. */
  lemma {:induction false} Utf16LengthAllSupplementary(s: string)
    requires forall k :: 0 <= k < |s| ==> s[k] as int > 0xFFFF
    ensures Utf16Length(s) == 2 * |s|
    decreases |s|
  {
    if s != [] {
      assert forall k :: 0 <= k < |s| - 1 ==> s[1..][k] == s[k + 1];
      Utf16LengthAllSupplementary(s[1..]);
    }
  }

  /** `String.contains`. */
  predicate Contains(s: string, sub: string) {
    exists i :: 0 <= i <= |s| - |sub| && OccursAt(s, sub, i)
  }

  predicate OccursAt(s: string, sub: string, i: nat)
    requires i <= |s| - |sub|
  {
    s[i..i + |sub|] == sub
  }

  /** `String.indexOf(c)`: the first position of c, or -1. */
  function IndexOf(s: string, c: char): (r: int)
    ensures -1 <= r < |s|
    ensures r == -1 <==> c !in s
    ensures r >= 0 ==> s[r] == c && c !in s[..r]
    decreases |s|
  {
    if s == [] then -1
    else if s[0] == c then 0
    else
      var k := IndexOf(s[1..], c);
      assert s[1..] == s[1..][..];
      if k < 0 then -1
      else
        assert s[..k + 1] == [s[0]] + s[1..][..k];
        k + 1
  }

  /** `String.lastIndexOf(c)`: the last position of c, or -1. */
  function LastIndexOf(s: string, c: char): (r: int)
    ensures -1 <= r < |s|
    ensures r == -1 <==> c !in s
    ensures r >= 0 ==> s[r] == c
    ensures forall k :: r < k < |s| ==> s[k] != c
    decreases |s|
  {
    if s == [] then -1
    else if s[|s| - 1] == c then |s| - 1
    else
      assert s == s[..|s| - 1] + [s[|s| - 1]];
      LastIndexOf(s[..|s| - 1], c)
  }

  /**
   * `String.substring(begin, end)`; None stands for the
   * StringIndexOutOfBoundsException thrown when the bounds are not ordered.
   */
  function Substring(s: string, begin: int, end: int): (r: Option<string>)
    ensures r.Some? <==> 0 <= begin <= end <= |s|
    ensures r.Some? ==> |r.value| == end - begin && r.value == s[begin..end]
  {
    if 0 <= begin <= end <= |s| then Some(s[begin..end]) else None
  }

  // ---------------------------------------------------------------------------
  // String.split on a single literal character
  // ---------------------------------------------------------------------------

  /** Every piece between separators, empty pieces included: n separators give n + 1 pieces. */
  function SplitAll(s: string, sep: char): (parts: seq<string>)
    ensures |parts| >= 1
    ensures forall i :: 0 <= i < |parts| ==> sep !in parts[i]
    decreases |s|
  {
    var i := IndexOf(s, sep);
    if i < 0 then [s] else [s[..i]] + SplitAll(s[i + 1..], sep)
  }

  /** Removes the empty pieces at the end, as `split` with limit 0 does. */
  function DropTrailingEmpty(parts: seq<string>): (r: seq<string>)
    ensures |r| <= |parts| && r == parts[..|r|]
    ensures r == [] || r[|r| - 1] != []
    ensures forall k :: |r| <= k < |parts| ==> parts[k] == []
    decreases |parts|
  {
    if parts != [] && parts[|parts| - 1] == [] then DropTrailingEmpty(parts[..|parts| - 1]) else parts
  }

  /**
   * `s.split(regex)` for a regex that matches exactly the character sep (such as
   * "\\."): the input itself when sep does not occur, otherwise the pieces without
   * the trailing empty ones.
   */
  function JavaSplit(s: string, sep: char): (parts: seq<string>)
    ensures sep !in s ==> parts == [s]
    ensures forall i :: 0 <= i < |parts| ==> sep !in parts[i]
    ensures sep in s ==>
      |parts| <= |SplitAll(s, sep)| && parts == SplitAll(s, sep)[..|parts|] &&
      forall k :: |parts| <= k < |SplitAll(s, sep)| ==> SplitAll(s, sep)[k] == []
  {
    if sep !in s then [s] else DropTrailingEmpty(SplitAll(s, sep))
  }

  /** A piece followed by the separator splits off as the first piece. */
  lemma SplitAllCons(a: string, sep: char, rest: string)
    requires sep !in a
    ensures SplitAll(a + [sep] + rest, sep) == [a] + SplitAll(rest, sep)
  {
    var s := a + [sep] + rest;
    assert s[..|a|] == a;
    assert s[|a|] == sep;
    assert IndexOf(s, sep) == |a|;
    assert s[|a| + 1..] == rest;
  }

  /** The pieces joined by the separator, as `String.join` does. */
  function Join(parts: seq<string>, sep: char): (s: string)
    requires |parts| >= 1
    decreases |parts|
  {
    if |parts| == 1 then parts[0] else parts[0] + [sep] + Join(parts[1..], sep)
  }

  /** Pieces free of the separator, once joined, split back into the same pieces. */
  lemma {:induction false} SplitAllJoin(parts: seq<string>, sep: char)
    requires |parts| >= 1
    requires forall i :: 0 <= i < |parts| ==> sep !in parts[i]
    ensures SplitAll(Join(parts, sep), sep) == parts
    decreases |parts|
  {
    if |parts| == 1 {
      SplitAllNoSep(parts[0], sep);
    } else {
      SplitAllJoin(parts[1..], sep);
      SplitAllCons(parts[0], sep, Join(parts[1..], sep));
      assert parts == [parts[0]] + parts[1..];
    }
  }

  /**
   * Pieces free of the separator whose last piece is not empty (or a single piece)
   * come back unchanged from `split` once joined.
   */
  lemma {:induction false} JavaSplitJoin(parts: seq<string>, sep: char)
    requires |parts| >= 1
    requires forall i :: 0 <= i < |parts| ==> sep !in parts[i]
    requires |parts| == 1 || parts[|parts| - 1] != []
    ensures JavaSplit(Join(parts, sep), sep) == parts
  {
    var s := Join(parts, sep);
    if |parts| == 1 {
    } else {
      assert s[|parts[0]|] == sep by {
        assert s == parts[0] + [sep] + Join(parts[1..], sep);
      }
      SplitAllJoin(parts, sep);
    }
  }

  /** The pieces between separators, joined by the separator, give back the text. */
  lemma {:induction false} JoinSplitAll(s: string, sep: char)
    ensures Join(SplitAll(s, sep), sep) == s
    decreases |s|
  {
    var i := IndexOf(s, sep);
    if i >= 0 {
      var rest := SplitAll(s[i + 1..], sep);
      JoinSplitAll(s[i + 1..], sep);
      var parts := [s[..i]] + rest;
      assert parts[1..] == rest;
      assert Join(parts, sep) == s[..i] + [sep] + s[i + 1..];
      assert s == s[..i] + [sep] + s[i + 1..];
    }
  }

  lemma SplitAllNoSep(s: string, sep: char)
    requires sep !in s
    ensures SplitAll(s, sep) == [s]
  {
  }
}

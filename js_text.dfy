/**
 * The pieces of JavaScript's number and string semantics that the front-end
 * relies on: decimal printing of integers (template literals and
 * `toString()`), `parseInt` with the default radix, and the white-space class
 * shared by the regular-expression escape `\s` and `parseInt`'s trimming.
 */
module JsText {
  import opened Wrappers

  predicate IsDigit(c: char) { '0' <= c <= '9' }

  predicate AllDigits(s: string) { forall i :: 0 <= i < |s| ==> IsDigit(s[i]) }

  function DigitChar(d: nat): (c: char)
    requires d < 10
    ensures IsDigit(c) && DigitValue(c) == d
  {
    (48 + d) as char
  }

  function DigitValue(c: char): nat
    requires IsDigit(c)
  {
    c as int - 48
  }

  /** Decimal representation of a natural number, most significant digit first, no leading zeros. */
  function NatToString(n: nat): (s: string)
    ensures |s| >= 1 && AllDigits(s)
    ensures |s| > 1 ==> s[0] != '0'
    decreases n
  {
    if n < 10 then [DigitChar(n)] else NatToString(n / 10) + [DigitChar(n % 10)]
  }

  /** What `${i}` and `i.toString()` produce for an integer. */
  function IntToString(i: int): (s: string)
  {
    if i < 0 then "-" + NatToString(-i) else NatToString(i)
  }

  /** The value of a non-empty string of decimal digits. */
  function DecimalValue(s: string): (r: nat)
    requires AllDigits(s)
  {
    if s == [] then 0 else DecimalValue(s[..|s| - 1]) * 10 + DigitValue(s[|s| - 1])
  }

  lemma DecimalValueOfTwoDigits(s: string)
    requires |s| == 2 && AllDigits(s)
    ensures DecimalValue(s) == 10 * DigitValue(s[0]) + DigitValue(s[1])
  {
    var t := s[..1];
    assert t[..0] == [] && t[0] == s[0];
    assert DecimalValue(t) == DigitValue(s[0]);
  }

  lemma DecimalValueOfFourDigits(s: string)
    requires |s| == 4 && AllDigits(s)
    ensures DecimalValue(s) == 1000 * DigitValue(s[0]) + 100 * DigitValue(s[1]) + 10 * DigitValue(s[2]) + DigitValue(s[3])
  {
    DecimalValueOfTwoDigits(s[..2]);
    assert s[..3][..2] == s[..2];
  }

  lemma {:induction false} DecimalOfNatToString(n: nat)
    ensures DecimalValue(NatToString(n)) == n
    decreases n
  {
    if n >= 10 {
      var s := NatToString(n);
      assert s[..|s| - 1] == NatToString(n / 10);
      DecimalOfNatToString(n / 10);
    }
  }

  lemma NatToStringInjective(a: nat, b: nat)
    requires NatToString(a) == NatToString(b)
    ensures a == b
  {
    DecimalOfNatToString(a);
    DecimalOfNatToString(b);
  }

  /** A character JavaScript stores as one UTF-16 code unit: one in the Basic Multilingual Plane. */
  predicate InBmp(c: char) { c as int < 0x1_0000 }

  /**
   * A string's JavaScript `length`: its UTF-16 code units, one for each
   * character in the Basic Multilingual Plane and two (a surrogate pair) for
   * each character beyond it.
   */
  function Utf16Length(s: string): (n: nat)
    ensures |s| <= n <= 2 * |s|
    ensures n == |s| <==> forall i :: 0 <= i < |s| ==> InBmp(s[i])
    ensures n == 2 * |s| <==> forall i :: 0 <= i < |s| ==> !InBmp(s[i])
  {
    if s == [] then 0
    else
      var init := s[..|s| - 1];
      assert forall i :: 0 <= i < |init| ==> init[i] == s[i];
      Utf16Length(init) + (if InBmp(s[|s| - 1]) then 1 else 2)
  }

  /**
   * ECMAScript WhiteSpace and LineTerminator code points: the class matched by
   * `\s` in a regular expression and skipped by `parseInt` before the number.
   */
  predicate IsJsWhitespace(c: char)
  {
    || c == '\t' || c == '\n' || c == '\U{000B}' || c == '\U{000C}' || c == '\r' || c == ' '
    || c == '\U{00A0}' || c == '\U{1680}' || ('\U{2000}' <= c <= '\U{200A}')
    || c == '\U{2028}' || c == '\U{2029}' || c == '\U{202F}' || c == '\U{205F}'
    || c == '\U{3000}' || c == '\U{FEFF}'
  }

  /** `s` with its leading white space removed. */
  function TrimStart(s: string): (r: string)
    ensures |r| <= |s| && r == s[|s| - |r|..]
    ensures r != [] ==> !IsJsWhitespace(r[0])
    ensures forall i :: 0 <= i < |s| - |r| ==> IsJsWhitespace(s[i])
  {
    if s != [] && IsJsWhitespace(s[0]) then TrimStart(s[1..]) else s
  }

  /** The longest prefix of `s` made of decimal digits. */
  function DigitPrefix(s: string): (r: string)
    ensures |r| <= |s| && r == s[..|r|] && AllDigits(r)
    ensures |r| < |s| ==> !IsDigit(s[|r|])
  {
    if s != [] && IsDigit(s[0]) then [s[0]] + DigitPrefix(s[1..]) else []
  }

  /**
   * `parseInt(s)` with the default radix, None standing for NaN: leading white
   * space is skipped, one optional sign is read, then the longest run of
   * digits; the parse fails when that run is empty.
   */
  function ParseInt(s: string): (r: Option<int>)
  {
    var t := TrimStart(s);
    var negative := t != [] && t[0] == '-';
    var body := if t != [] && (t[0] == '-' || t[0] == '+') then t[1..] else t;
    var digits := DigitPrefix(body);
    if digits == [] then None
    else
      var v: int := DecimalValue(digits);
      if negative then Some(-v) else Some(v)
  }

  /** A digit string that fills the whole input is its own longest digit prefix. */
  lemma {:induction false} DigitPrefixOfDigits(s: string, rest: string)
    requires AllDigits(s)
    requires rest == [] || !IsDigit(rest[0])
    ensures DigitPrefix(s + rest) == s
    decreases |s|
  {
    if s != [] {
      assert (s + rest)[1..] == s[1..] + rest;
      DigitPrefixOfDigits(s[1..], rest);
    }
  }

  /** `parseInt` of a text that does not start with white space: an optional sign, then the longest digit run of the rest. */
  lemma ParseIntUnfold(t: string, body: string)
    requires t != [] && !IsJsWhitespace(t[0])
    requires body == if t[0] == '-' || t[0] == '+' then t[1..] else t
    ensures ParseInt(t) == if DigitPrefix(body) == [] then None
                           else Some(if t[0] == '-' then 0 - DecimalValue(DigitPrefix(body)) else DecimalValue(DigitPrefix(body)))
  {
    assert TrimStart(t) == t;
  }

  /** `parseInt` of a string of digits. */
  lemma ParseIntOfDigits(d: string)
    requires AllDigits(d) && d != []
    ensures ParseInt(d) == Some(DecimalValue(d))
  {
    var c := d[0];
    assert IsDigit(c);
    assert c != '-' && c != '+' && !IsJsWhitespace(c);
    DigitPrefixOfDigits(d, []);
    assert d + [] == d;
    ParseIntUnfold(d, d);
  }

  /** `parseInt` of a minus sign followed by digits. */
  lemma ParseIntOfNegativeDigits(t: string, d: string)
    requires AllDigits(d) && d != []
    requires t != [] && t[0] == '-' && t[1..] == d
    ensures ParseInt(t) == Some(0 - DecimalValue(d))
  {
    DigitPrefixOfDigits(d, []);
    assert d + [] == d;
    ParseIntUnfold(t, d);
  }

  /** `parseInt(String(i))` gives `i` back. */
  lemma ParseIntOfIntToString(i: int)
    ensures ParseInt(IntToString(i)) == Some(i)
  {
    if i < 0 {
      var n: nat := -i;
      var d := NatToString(n);
      var t := IntToString(i);
      assert t == "-" + d && t[1..] == d;
      DecimalOfNatToString(n);
      ParseIntOfNegativeDigits(t, d);
    } else {
      var d := NatToString(i);
      assert IntToString(i) == d;
      DecimalOfNatToString(i);
      ParseIntOfDigits(d);
    }
  }

  /** `parseInt` reads a number back from the front of a text that continues with a non-digit. */
  lemma ParseIntOfNumberThen(n: nat, tail: string)
    requires tail == [] || !IsDigit(tail[0])
    ensures ParseInt(NatToString(n) + tail) == Some(n)
  {
    var d := NatToString(n);
    var t := d + tail;
    assert t[0] == d[0] && IsDigit(t[0]);
    DigitPrefixOfDigits(d, tail);
    DecimalOfNatToString(n);
    ParseIntUnfold(t, t);
  }

  lemma IntToStringInjective(a: int, b: int)
    requires IntToString(a) == IntToString(b)
    ensures a == b
  {
    ParseIntOfIntToString(a);
    ParseIntOfIntToString(b);
  }

  /**
   * Splitting at a separator character that neither left part contains is
   * unambiguous: the separator's first occurrence fixes both parts.
   */
  lemma SplitAtSeparator(a: string, x: string, b: string, y: string, c: char)
    requires forall i :: 0 <= i < |a| ==> a[i] != c
    requires forall i :: 0 <= i < |b| ==> b[i] != c
    requires a + [c] + x == b + [c] + y
    ensures a == b && x == y
  {
    var s := a + [c] + x;
    assert s == b + [c] + y;
    assert s[|a|] == c && s[|b|] == c;
    assert forall i :: 0 <= i < |a| ==> s[i] == a[i];
    assert forall i :: 0 <= i < |b| ==> s[i] == b[i];
    assert a == (a + [c] + x)[..|a|];
    assert b == (b + [c] + y)[..|b|];
    assert x == (a + [c] + x)[|a| + 1..];
    assert y == (b + [c] + y)[|b| + 1..];
  }
}

/**
 * The pieces of JavaScript's string and number semantics the API relies on:
 * the `\s` character class, trimming, `parseInt` with no radix, and the
 * decimal text of a natural number.
 */
module JsText {

  /** The characters matched by `\s` in a JavaScript regular expression
      (white space and line terminators). */
  predicate IsSpace(c: char) {
    c == '\t' || c == '\n' || c == '\U{B}' || c == '\U{C}' || c == '\r' || c == ' ' ||
    c == '\U{A0}' || c == '\U{1680}' || ('\U{2000}' <= c <= '\U{200A}') ||
    c == '\U{2028}' || c == '\U{2029}' || c == '\U{202F}' || c == '\U{205F}' ||
    c == '\U{3000}' || c == '\U{FEFF}'
  }

  /** `s` without its leading white space. */
  function TrimStart(s: string): (r: string)
    ensures r == [] || !IsSpace(r[0])
    ensures |r| <= |s| && r == s[|s| - |r|..]
    ensures forall i :: 0 <= i < |s| - |r| ==> IsSpace(s[i])
  {
    if s != [] && IsSpace(s[0]) then TrimStart(s[1..]) else s
  }

  /** `s` without its trailing white space. */
  function TrimEnd(s: string): (r: string)
    ensures r == [] || !IsSpace(r[|r| - 1])
    ensures |r| <= |s| && r == s[..|r|]
    ensures forall i :: |r| <= i < |s| ==> IsSpace(s[i])
  {
    if s != [] && IsSpace(s[|s| - 1]) then TrimEnd(s[..|s| - 1]) else s
  }

  /** `s` without leading and trailing white space. */
  function Trim(s: string): string {
    TrimEnd(TrimStart(s))
  }

  /** Trimming a string that has no white space at either end changes nothing. */
  lemma TrimUnchanged(s: string)
    requires s == [] || (!IsSpace(s[0]) && !IsSpace(s[|s| - 1]))
    ensures Trim(s) == s
  {
  }

  predicate IsDigit(c: char) {
    '0' <= c <= '9'
  }

  predicate AllDigits(s: string) {
    forall i :: 0 <= i < |s| ==> IsDigit(s[i])
  }

  /** The value of a string of decimal digits. */
  function DecValue(d: string): nat
    requires AllDigits(d)
  {
    if d == [] then 0 else 10 * DecValue(d[..|d| - 1]) + (d[|d| - 1] as int - '0' as int)
  }

  function DigitChar(n: nat): (c: char)
    requires n < 10
    ensures IsDigit(c) && c as int - '0' as int == n
  {
    ('0' as int + n) as char
  }

  /** The decimal text of `n`, as template literals and `String` write it. */
  function NatToString(n: nat): (r: string)
    ensures |r| >= 1 && AllDigits(r)
    ensures r[0] == '0' ==> n == 0
  {
    if n < 10 then [DigitChar(n)] else NatToString(n / 10) + [DigitChar(n % 10)]
  }

  /** Reading back the decimal text of a number gives the number. */
  lemma {:induction false} NatToStringRoundTrip(n: nat)
    ensures DecValue(NatToString(n)) == n
  {
    if n >= 10 {
      NatToStringRoundTrip(n / 10);
      var r := NatToString(n);
      assert r[..|r| - 1] == NatToString(n / 10);
    }
  }

  /** The longest prefix of `s` made of characters satisfying `p`. */
  function PrefixWhile(s: string, p: char -> bool): (r: string)
    ensures |r| <= |s| && r == s[..|r|]
    ensures forall i :: 0 <= i < |r| ==> p(r[i])
    ensures |r| < |s| ==> !p(s[|r|])
  {
    if s != [] && p(s[0]) then [s[0]] + PrefixWhile(s[1..], p) else []
  }

  predicate IsHexDigit(c: char) {
    IsDigit(c) || 'a' <= c <= 'f' || 'A' <= c <= 'F'
  }

  function HexValue(d: string): nat
    requires forall i :: 0 <= i < |d| ==> IsHexDigit(d[i])
  {
    if d == [] then 0
    else
      var c := d[|d| - 1];
      assert IsHexDigit(c);
      var v: nat := if IsDigit(c) then c as int - '0' as int
                    else if 'a' <= c <= 'f' then c as int - 'a' as int + 10
                    else c as int - 'A' as int + 10;
      16 * HexValue(d[..|d| - 1]) + v
  }

  /** What `parseInt` can return: an integer or NaN. */
  datatype Number = NaN | Int(value: int)

  function Negate(n: Number): Number {
    if n.NaN? then NaN else Int(-n.value)
  }

  predicate HasHexPrefix(u: string) {
    |u| >= 2 && u[0] == '0' && (u[1] == 'x' || u[1] == 'X')
  }

  /** The digits after any sign: "0x"/"0X" selects hexadecimal, otherwise
      the longest run of decimal digits is read; no digits gives NaN. */
  function ParseUnsigned(u: string): (r: Number)
    ensures r.Int? ==> u != [] && IsDigit(u[0]) && r.value >= 0
  {
    if HasHexPrefix(u) then
      var d := PrefixWhile(u[2..], IsHexDigit);
      if d == [] then NaN else Int(HexValue(d))
    else
      var d := PrefixWhile(u, IsDigit);
      if d == [] then NaN else Int(DecValue(d))
  }

  /** `parseInt(s)` with no radix: leading white space and one sign are
      skipped and the rest is read by `ParseUnsigned`. */
  function ParseInt(s: string): (r: Number)
    ensures TrimStart(s) == [] ==> r == NaN
    ensures r.Int? && r.value < 0 ==> TrimStart(s)[0] == '-'
    ensures r.Int? ==> var t := TrimStart(s);
      IsDigit(t[0]) || ((t[0] == '-' || t[0] == '+') && |t| >= 2 && IsDigit(t[1]))
  {
    var t := TrimStart(s);
    if t != [] && t[0] == '-' then Negate(ParseUnsigned(t[1..]))
    else if t != [] && t[0] == '+' then ParseUnsigned(t[1..])
    else ParseUnsigned(t)
  }

  /** A string that starts with a digit is read without any sign. */
  lemma ParseIntOfDigits(s: string)
    requires s != [] && IsDigit(s[0])
    ensures ParseInt(s) == ParseUnsigned(s)
  {
    assert !IsSpace(s[0]);
    assert TrimStart(s) == s;
  }

  /** `parseInt` reads back the decimal text of every natural number. */
  lemma ParseIntOfNat(n: nat)
    ensures ParseInt(NatToString(n)) == Int(n)
  {
    var r := NatToString(n);
    ParseIntOfDigits(r);
    PrefixWhileStops(r, []);
    assert r + [] == r;
    NatToStringRoundTrip(n);
  }

  /** `parseInt` stops at the first character that is not a digit, leading
      zeros included ("007x" reads as 7), unless the text is a lone "0"
      followed by an "x" that makes it hexadecimal. */
  lemma ParseIntStopsAtNonDigit(d: string, rest: string)
    requires d != [] && AllDigits(d)
    requires rest == [] || !IsDigit(rest[0])
    requires !HasHexPrefix(d + rest)
    ensures ParseInt(d + rest) == Int(DecValue(d))
  {
    var s := d + rest;
    assert s[0] == d[0];
    ParseIntOfDigits(s);
    PrefixWhileStops(d, rest);
  }

  /** A string of decimal digits reads as its value. */
  lemma ParseUnsignedDigits(d: string)
    requires d != [] && AllDigits(d)
    ensures ParseUnsigned(d) == Int(DecValue(d))
  {
    assert |d| >= 2 ==> IsDigit(d[1]);
    PrefixWhileStops(d, []);
    assert d + [] == d;
  }

  /** A single digit, with or without a minus sign, reads as its value. */
  lemma ParseIntOneDigit(c: char)
    requires IsDigit(c)
    ensures ParseInt([c]) == Int(c as int - '0' as int)
    ensures ParseInt(['-', c]) == Int('0' as int - c as int)
  {
    ParseIntOneDigitUnsigned(c);
    ParseIntOneDigitNegative(c);
  }

  lemma ParseIntOneDigitUnsigned(c: char)
    requires IsDigit(c)
    ensures ParseInt([c]) == Int(c as int - '0' as int)
  {
    ParseUnsignedOneDigit(c);
    ParseIntOfDigits([c]);
  }

  lemma ParseIntOneDigitNegative(c: char)
    requires IsDigit(c)
    ensures ParseInt(['-', c]) == Int('0' as int - c as int)
  {
    var m := ['-', c];
    assert TrimStart(m) == m by { assert !IsSpace(m[0]); }
    assert m[1..] == [c];
    ParseUnsignedOneDigit(c);
  }

  lemma ParseUnsignedOneDigit(c: char)
    requires IsDigit(c)
    ensures ParseUnsigned([c]) == Int(c as int - '0' as int)
  {
    var d := [c];
    ParseUnsignedDigits(d);
    assert d[..0] == [];
  }

  /** A leading minus sign negates what follows it. */
  lemma ParseIntNegative(s: string)
    requires s != [] && IsDigit(s[0])
    ensures ParseInt(['-'] + s) == Negate(ParseUnsigned(s))
  {
    var m := ['-'] + s;
    assert !IsSpace(m[0]);
    assert TrimStart(m) == m;
    assert m[1..] == s;
  }

  lemma {:induction false} PrefixWhileStops(d: string, rest: string)
    requires AllDigits(d)
    requires rest == [] || !IsDigit(rest[0])
    ensures PrefixWhile(d + rest, IsDigit) == d
  {
    if d != [] {
      assert (d + rest)[1..] == d[1..] + rest;
      PrefixWhileStops(d[1..], rest);
    }
  }
}

/**
 * JavaScript numbers as the chat client meets them: integral values (message
 * timestamps, emote positions, counts) and NaN, which `parseInt` yields on
 * unreadable text and which every comparison treats as false.  Covers
 * number-to-string conversion, `parseInt`, `+ 1`, the relational operators and
 * `String.prototype.slice` with number arguments.
 */
module JsNumber {
  import opened Wrappers
  import opened JsString

  datatype Num = Int(i: int) | NaN

  /** `a >= b`. */
  predicate Ge(a: Num, b: Num) {
    a.Int? && b.Int? && a.i >= b.i
  }

  /** `a < b`. */
  predicate Lt(a: Num, b: Num) {
    a.Int? && b.Int? && a.i < b.i
  }

  /** `a + k`. */
  function Add(a: Num, k: int): Num {
    match a
    case Int(n) => Int(n + k)
    case NaN => NaN
  }

  predicate IsDecimalDigit(c: char) {
    '0' <= c <= '9'
  }

  function DigitChar(d: nat): (c: char)
    requires d < 10
    ensures IsDecimalDigit(c) && DigitValue(c) == d
  {
    ('0' as int + d) as char
  }

  /** The value of `c` as a digit (up to base 16), or 16 when it is none. */
  function DigitValue(c: char): (d: nat)
    ensures d <= 16
    ensures IsDecimalDigit(c) <==> d < 10
  {
    if '0' <= c <= '9' then c as int - '0' as int
    else if 'a' <= c <= 'f' then c as int - 'a' as int + 10
    else if 'A' <= c <= 'F' then c as int - 'A' as int + 10
    else 16
  }

  /** Decimal digits of a natural number, without leading zeros. */
  function NatToDecimal(n: nat): (s: string)
    ensures |s| >= 1
    ensures forall i :: 0 <= i < |s| ==> IsDecimalDigit(s[i])
    decreases n
  {
    if n < 10 then [DigitChar(n)] else NatToDecimal(n / 10) + [DigitChar(n % 10)]
  }

  /** `n + ""` for an integral number (below 10^21, where JavaScript would
      switch to exponent notation). */
  function IntToDecimal(n: int): (s: string)
    ensures |s| >= 1
    ensures ':' !in s && '-' !in s[1..]
  {
    if n < 0 then "-" + NatToDecimal(-n) else NatToDecimal(n)
  }

  /** `x + ""`. */
  function NumToString(x: Num): string {
    match x
    case Int(n) => IntToDecimal(n)
    case NaN => "NaN"
  }

  /** The length of the longest prefix of `s` made of digits below `radix`. */
  function DigitRun(s: string, radix: nat): (n: nat)
    ensures n <= |s|
    ensures forall i :: 0 <= i < n ==> DigitValue(s[i]) < radix
    ensures n < |s| ==> DigitValue(s[n]) >= radix
    decreases |s|
  {
    if |s| == 0 || DigitValue(s[0]) >= radix then 0 else 1 + DigitRun(s[1..], radix)
  }

  /** The value of a string of digits in base `radix`. */
  function DigitsValue(s: string, radix: nat): nat
    decreases |s|
  {
    if |s| == 0 then 0 else DigitsValue(s[..|s| - 1], radix) * radix + DigitValue(s[|s| - 1])
  }

  /** The unsigned part of `parseInt`: a hexadecimal number after `0x` /
      `0X`, a decimal one otherwise, up to the first non-digit; None when no
      digit is read. */
  function ParseMagnitude(u: string): Option<nat> {
    var hex := |u| >= 2 && u[0] == '0' && (u[1] == 'x' || u[1] == 'X');
    var radix := if hex then 16 else 10;
    var v := if hex then u[2..] else u;
    var n := DigitRun(v, radix);
    if n == 0 then None else Some(DigitsValue(v[..n], radix))
  }

  /** `parseInt(s)`: skip leading whitespace, take an optional sign, then read
      the magnitude; NaN when no digit is read. */
  function ParseInt(s: string): (r: Num) {
    var t := TrimStart(s);
    var negative := |t| > 0 && t[0] == '-';
    var u := if |t| > 0 && (t[0] == '-' || t[0] == '+') then t[1..] else t;
    match ParseMagnitude(u)
    case None => NaN
    case Some(m) => if negative then Int(-(m as int)) else Int(m)
  }

  lemma {:induction false} DigitsValueOfDecimal(n: nat)
    ensures DigitsValue(NatToDecimal(n), 10) == n
    decreases n
  {
    if n >= 10 {
      var s := NatToDecimal(n);
      var p := NatToDecimal(n / 10);
      assert s[..|s| - 1] == p;
      DigitsValueOfDecimal(n / 10);
    }
  }

  lemma ParseMagnitudeOfDecimal(n: nat)
    ensures ParseMagnitude(NatToDecimal(n)) == Some(n)
  {
    var s := NatToDecimal(n);
    assert !(|s| >= 2 && s[0] == '0' && (s[1] == 'x' || s[1] == 'X')) by {
      if |s| >= 2 { assert IsDecimalDigit(s[1]); }
    }
    calc {
      ParseMagnitude(s);
      Some(DigitsValue(s[..DigitRun(s, 10)], 10));
      { DigitRunOfDigits(s); assert s[..|s|] == s; }
      Some(DigitsValue(s, 10));
      { DigitsValueOfDecimal(n); }
      Some(n);
    }
  }

  /** A string of decimal digits is one run of digits. */
  lemma DigitRunOfDigits(s: string)
    requires forall i :: 0 <= i < |s| ==> IsDecimalDigit(s[i])
    ensures DigitRun(s, 10) == |s|
  {
  }

  lemma ParseIntOfNaN()
    ensures ParseInt("NaN") == NaN
  {
    ParseIntOfLetterN("NaN");
  }

  /** A string that starts with `N` holds no number. */
  lemma ParseIntOfLetterN(s: string)
    requires |s| > 0 && s[0] == 'N'
    ensures ParseInt(s) == NaN
  {
    assert LeadingSpaces(s) == 0;
    assert TrimStart(s) == s;
    assert DigitRun(s, 10) == 0;
  }

  lemma ParseIntOfDecimal(n: int)
    ensures ParseInt(IntToDecimal(n)) == Int(n)
  {
    var s := IntToDecimal(n);
    var d := NatToDecimal(if n < 0 then -n else n);
    assert IsDecimalDigit(d[0]);
    assert !IsSpace(s[0]);
    assert TrimStart(s) == s;
    assert n < 0 ==> s[1..] == d;
    ParseMagnitudeOfDecimal(if n < 0 then -n else n);
    assert ParseMagnitude(if n < 0 then s[1..] else s) == Some(if n < 0 then -n else n);
  }

  /** `parseInt` reads back what number-to-string conversion writes, NaN included. */
  lemma ParseIntOfNumToString(x: Num)
    ensures ParseInt(NumToString(x)) == x
  {
    match x
    case NaN => ParseIntOfNaN();
    case Int(n) => ParseIntOfDecimal(n);
  }

  /** Where `slice` places an index argument: NaN counts as 0, a negative
      index counts from the end, and the result is clamped to the string. */
  function SliceIndex(x: Num, len: nat): (k: nat)
    ensures k <= len
  {
    match x
    case NaN => 0
    case Int(n) => if n < 0 then (if len + n < 0 then 0 else len + n) else if n > len then len else n
  }

  /** `s.slice(start, end)`. */
  function Slice(s: string, start: Num, end: Num): (r: string)
    ensures |r| <= |s|
  {
    var from := SliceIndex(start, |s|);
    var to := SliceIndex(end, |s|);
    if from < to then s[from..to] else ""
  }
}

/**
 * Decimal numerals as the browser reads and writes them: JavaScript's
 * `Number(s)` and `parseInt(s, 10)` on input text, and the zero-padded
 * decimal fields of a formatted date.
 */
module Numerals {
  import opened Types

  predicate IsDigit(c: char) {
    '0' <= c <= '9'
  }

  function DigitValue(c: char): (d: nat)
    requires IsDigit(c)
    ensures d < 10
  {
    c as int - '0' as int
  }

  function DigitChar(d: nat): (c: char)
    requires d < 10
    ensures IsDigit(c) && DigitValue(c) == d
  {
    ('0' as int + d) as char
  }

  predicate AllDigits(s: string) {
    forall i | 0 <= i < |s| :: IsDigit(s[i])
  }

  /** The value of a string of decimal digits, most significant first; the empty string is 0. */
  function DigitsValue(s: string): nat
    requires AllDigits(s)
    decreases |s|
  {
    if s == [] then 0 else DigitsValue(s[..|s| - 1]) * 10 + DigitValue(s[|s| - 1])
  }

  /** The decimal numeral of `n`, without leading zeros ("0" for zero). */
  function Decimal(n: nat): (s: string)
    ensures 1 <= |s| && AllDigits(s)
    ensures s[0] == '0' ==> n == 0
    decreases n
  {
    if n < 10 then [DigitChar(n)] else Decimal(n / 10) + [DigitChar(n % 10)]
  }

  lemma {:induction false} DecimalValue(n: nat)
    ensures DigitsValue(Decimal(n)) == n
    decreases n
  {
    if n >= 10 {
      var s := Decimal(n);
      DecimalValue(n / 10);
      assert s[..|s| - 1] == Decimal(n / 10);
    }
  }

  /** `k` zero digits. */
  function Zeros(k: nat): (z: string)
    ensures |z| == k && forall i | 0 <= i < k :: z[i] == '0'
  {
    seq(k, i => '0')
  }

  /** `String(s).padStart(width, '0')`. */
  function PadStart(s: string, width: nat): (r: string)
    ensures |r| == if |s| >= width then |s| else width
    ensures r[|r| - |s|..] == s
    ensures forall i | 0 <= i < |r| - |s| :: r[i] == '0'
  {
    if |s| >= width then s else Zeros(width - |s|) + s
  }

  /** A leading zero does not change a numeral's value. */
  lemma {:induction false} LeadingZeroValue(s: string)
    requires AllDigits(s)
    ensures AllDigits(['0'] + s) && DigitsValue(['0'] + s) == DigitsValue(s)
    decreases |s|
  {
    var z := ['0'] + s;
    if s != [] {
      LeadingZeroValue(s[..|s| - 1]);
      assert z[..|z| - 1] == ['0'] + s[..|s| - 1];
    }
  }

  /** Zeros in front do not change a numeral's value. */
  lemma {:induction false} ZerosValue(k: nat, s: string)
    requires AllDigits(s)
    ensures AllDigits(Zeros(k) + s) && DigitsValue(Zeros(k) + s) == DigitsValue(s)
    decreases k
  {
    if k > 0 {
      LeadingZeroValue(s);
      ZerosValue(k - 1, ['0'] + s);
      assert Zeros(k) + s == Zeros(k - 1) + (['0'] + s);
    } else {
      assert Zeros(k) + s == s;
    }
  }

  lemma PadStartValue(s: string, width: nat)
    requires AllDigits(s)
    ensures AllDigits(PadStart(s, width)) && DigitsValue(PadStart(s, width)) == DigitsValue(s)
  {
    if |s| < width {
      ZerosValue(width - |s|, s);
    }
  }

  /**
   * `Number(s)` for the strings the model admits: a string of decimal digits
   * is its value (the empty string is 0, as in JavaScript); anything else is NaN.
   */
  function JsNumber(s: string): Option<nat>
  {
    if AllDigits(s) then Some(DigitsValue(s)) else None
  }

  lemma NumberOfDecimal(n: nat)
    ensures JsNumber(Decimal(n)) == Some(n)
  {
    DecimalValue(n);
  }

  /** The white-space characters `parseInt` skips at the start of its input. */
  predicate IsJsWhiteSpace(c: char) {
    c == ' ' || c == '\t' || c == '\n' || c == '\r' || c == '\U{B}' || c == '\U{C}'
    || c == '\U{A0}' || c == '\U{FEFF}' || c == '\U{2028}' || c == '\U{2029}'
  }

  function TrimStart(s: string): (r: string)
    ensures |r| <= |s| && r == s[|s| - |r|..]
    ensures r != [] ==> !IsJsWhiteSpace(r[0])
    ensures forall i | 0 <= i < |s| - |r| :: IsJsWhiteSpace(s[i])
  {
    if s != [] && IsJsWhiteSpace(s[0]) then TrimStart(s[1..]) else s
  }

  /** The longest prefix of `s` made of decimal digits. */
  function DigitPrefix(s: string): (r: string)
    ensures AllDigits(r) && |r| <= |s| && r == s[..|r|]
    ensures |r| < |s| ==> !IsDigit(s[|r|])
  {
    if s != [] && IsDigit(s[0]) then [s[0]] + DigitPrefix(s[1..]) else []
  }

  /**
   * `parseInt(s, 10)`: skip leading white space, read an optional sign and
   * then as many decimal digits as follow; with no digit the result is NaN.
   */
  function ParseInt(s: string): (r: Option<int>)
    ensures r.Some? <==> DigitPrefix(SignStripped(TrimStart(s))) != []
  {
    var t := TrimStart(s);
    var digits := DigitPrefix(SignStripped(t));
    var magnitude: int := if digits == [] then 0 else DigitsValue(digits);
    if digits == [] then None
    else if t[0] == '-' then Some(-magnitude)
    else Some(magnitude)
  }

  function SignStripped(t: string): (r: string)
    ensures r == t || (t != [] && (t[0] == '-' || t[0] == '+') && r == t[1..])
  {
    if t != [] && (t[0] == '-' || t[0] == '+') then t[1..] else t
  }

  lemma {:induction false} DigitPrefixOfDigits(digits: string, rest: string)
    requires AllDigits(digits)
    requires rest == [] || !IsDigit(rest[0])
    ensures DigitPrefix(digits + rest) == digits
    decreases |digits|
  {
    if digits != [] {
      assert (digits + rest)[1..] == digits[1..] + rest;
      DigitPrefixOfDigits(digits[1..], rest);
    } else {
      assert digits + rest == rest;
    }
  }

  lemma DigitIsPlain(c: char)
    requires IsDigit(c)
    ensures !IsJsWhiteSpace(c) && c != '-' && c != '+'
  {
  }

  /** Input that starts with a digit is read as the digits it starts with. */
  lemma ParseIntOfDigitStart(m: string)
    requires m != [] && IsDigit(m[0])
    ensures DigitPrefix(m) != [] && ParseInt(m) == Some(DigitsValue(DigitPrefix(m)) as int)
  {
    DigitIsPlain(m[0]);
    var t := TrimStart(m);
    assert t == m;
    var u := SignStripped(t);
    assert u == m;
    assert DigitPrefix(u) != [];
  }

  /** `parseInt` reads back a decimal numeral, and stops at the first non-digit after it. */
  lemma ParseIntDecimal(n: nat, rest: string)
    requires rest == [] || !IsDigit(rest[0])
    ensures ParseInt(Decimal(n) + rest) == Some(n as int)
  {
    var d := Decimal(n);
    DecimalValue(n);
    DigitPrefixOfDigits(d, rest);
    var m := d + rest;
    assert m[0] == d[0];
    ParseIntOfDigitStart(m);
  }

  /** Input that starts with a minus sign is read as the digits after it, negated. */
  lemma ParseIntOfMinusStart(u: string, d: string)
    requires DigitPrefix(u) == d && d != []
    ensures ParseInt(['-'] + u) == Some(-(DigitsValue(d) as int))
  {
    var m := ['-'] + u;
    assert m[0] == '-' && m[1..] == u;
    assert TrimStart(m) == m by {
      assert !IsJsWhiteSpace(m[0]);
    }
    assert SignStripped(m) == u;
  }

  /** A minus sign, digits, then anything not starting with a digit: the digits' value, negated. */
  lemma ParseIntNegativeDigits(d: string, rest: string)
    requires d != [] && AllDigits(d)
    requires rest == [] || !IsDigit(rest[0])
    ensures ParseInt(['-'] + (d + rest)) == Some(-(DigitsValue(d) as int))
  {
    DigitPrefixOfDigits(d, rest);
    ParseIntOfMinusStart(d + rest, d);
  }

  /** The same for a numeral with a minus sign in front. */
  lemma ParseIntNegativeDecimal(n: nat, rest: string)
    requires rest == [] || !IsDigit(rest[0])
    ensures ParseInt(['-'] + (Decimal(n) + rest)) == Some(0 - n)
  {
    DecimalValue(n);
    ParseIntNegativeDigits(Decimal(n), rest);
  }
}

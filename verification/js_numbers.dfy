/**
 * `parseInt(s)` with no radix argument, as ECMAScript defines it: skip leading
 * whitespace, read an optional sign, switch to base 16 after a `0x` or `0X`
 * prefix, then read the longest run of digits of that base. With no digit at
 * all the result is NaN (None here); otherwise an integer, so
 * `Number.isInteger(parseInt(s))` holds exactly when the result is Some.
 */
module JsNumbers {
  import opened Wrappers
  import opened JsStrings

  predicate IsDecimalDigit(c: char) {
    '0' <= c <= '9'
  }

  predicate IsHexDigit(c: char) {
    IsDecimalDigit(c) || 'a' <= c <= 'f' || 'A' <= c <= 'F'
  }

  /** A digit of base 10 or 16. */
  predicate IsDigitOf(c: char, radix: nat) {
    if radix == 16 then IsHexDigit(c) else IsDecimalDigit(c)
  }

  function DigitValue(c: char): (v: nat)
    requires IsHexDigit(c)
    ensures v < 16
    ensures IsDecimalDigit(c) ==> v < 10
  {
    if IsDecimalDigit(c) then c as int - '0' as int
    else if 'a' <= c <= 'f' then c as int - 'a' as int + 10
    else c as int - 'A' as int + 10
  }

  ghost predicate AllDigitsOf(s: string, radix: nat) {
    forall i :: 0 <= i < |s| ==> IsDigitOf(s[i], radix)
  }

  /** The length of the run of base-`radix` digits at the front of `s`. */
  function DigitRun(s: string, radix: nat): (n: nat)
    ensures n <= |s|
    ensures AllDigitsOf(s[..n], radix)
    ensures n < |s| ==> !IsDigitOf(s[n], radix)
  {
    if |s| > 0 && IsDigitOf(s[0], radix) then
      var n' := DigitRun(s[1..], radix);
      assert s[..n' + 1] == [s[0]] + s[1..][..n'];
      n' + 1
    else 0
  }

  /** The value of a numeral, most significant digit first. */
  function NumeralValue(ds: string, radix: nat): nat
    requires radix == 10 || radix == 16
    requires AllDigitsOf(ds, radix)
  {
    if ds == [] then 0
    else NumeralValue(ds[..|ds| - 1], radix) * radix + DigitValue(ds[|ds| - 1])
  }

  /** The length of the sign at the front of `t`: 1 for `-` or `+`, else 0. */
  function SignLength(t: string): nat {
    if |t| > 0 && (t[0] == '-' || t[0] == '+') then 1 else 0
  }

  /** A decimal digit follows the sign, if any, at the front of `t`. */
  predicate DigitAfterSign(t: string) {
    SignLength(t) < |t| && IsDecimalDigit(t[SignLength(t)])
  }

  /** `parseInt(s)`: None stands for NaN. */
  function ParseInt(s: string): Option<int> {
    ParseNumeral(s[LeadingSpace(s)..])
  }

  /** parseInt after the leading whitespace is gone. */
  function ParseNumeral(t: string): Option<int> {
    var negative := |t| > 0 && t[0] == '-';
    var u := if |t| > 0 && (t[0] == '-' || t[0] == '+') then t[1..] else t;
    var hex := |u| >= 2 && u[0] == '0' && (u[1] == 'x' || u[1] == 'X');
    var radix := if hex then 16 else 10;
    var v := if hex then u[2..] else u;
    var n := DigitRun(v, radix);
    if n == 0 then None
    else
      var magnitude: int := NumeralValue(v[..n], radix);
      Some(if negative then -magnitude else magnitude)
  }

  /** The decimal numeral of `n`, as `String(n)` writes it. */
  function Decimal(n: nat): (r: string)
    ensures |r| > 0 && AllDigitsOf(r, 10)
    ensures |r| > 1 ==> r[0] != '0'
  {
    var d := ['0' + (n % 10) as char];
    if n < 10 then d else Decimal(n / 10) + d
  }

  /** The numeral of an integer, as `String(n)` writes it: a minus sign for a negative one. */
  function Numeral(n: int): (r: string)
    ensures |r| > 0 && (r[0] == '-' || IsDecimalDigit(r[0]))
  {
    if n < 0 then "-" + Decimal(-n) else Decimal(n)
  }

  lemma {:induction false} DecimalValue(n: nat)
    ensures NumeralValue(Decimal(n), 10) == n
  {
    if n >= 10 {
      var r := Decimal(n);
      assert r[..|r| - 1] == Decimal(n / 10);
      DecimalValue(n / 10);
    }
  }

  /** A run of digits followed by a non-digit (or nothing) is read in full. */
  lemma {:induction false} DigitRunOfNumeral(p: string, q: string, radix: nat)
    requires AllDigitsOf(p, radix)
    requires q == [] || !IsDigitOf(q[0], radix)
    ensures DigitRun(p + q, radix) == |p|
  {
    if p != [] {
      assert (p + q)[1..] == p[1..] + q;
      DigitRunOfNumeral(p[1..], q, radix);
    } else {
      assert p + q == q;
    }
  }

  /**
   * The unsigned numeral of `m`, followed by nothing or by a character that is
   * neither a digit nor an `x` (which would make "0x..." hexadecimal), reads
   * back as `m`.
   */
  lemma ParseNumeralOfDecimal(m: nat, suffix: string)
    requires suffix == [] || !(IsDecimalDigit(suffix[0]) || suffix[0] == 'x' || suffix[0] == 'X')
    ensures ParseNumeral(Decimal(m) + suffix) == Some(m)
  {
    var u := Decimal(m) + suffix;
    assert u[0] == Decimal(m)[0];
    // A decimal numeral never starts "0x": its second character, if any, is a digit.
    assert |Decimal(m)| > 1 ==> u[1] == Decimal(m)[1];
    assert !(|u| >= 2 && u[0] == '0' && (u[1] == 'x' || u[1] == 'X'));
    DigitRunOfNumeral(Decimal(m), suffix, 10);
    assert u[..|Decimal(m)|] == Decimal(m);
    DecimalValue(m);
  }

  /** A leading minus sign negates what the rest reads as. */
  lemma ParseNumeralNegated(u: string, m: nat)
    requires ParseNumeral(u) == Some(m)
    requires u != [] && u[0] != '-' && u[0] != '+'
    ensures ParseNumeral("-" + u) == Some(-(m as int))
  {
    assert ("-" + u)[1..] == u;
  }

  /**
   * parseInt reads back the decimal numeral of any integer, whatever
   * whitespace precedes it and whatever text follows it that starts with
   * neither a digit nor an `x`: `parseInt("  12abc")` is 12.
   */
  lemma ParseIntOfDecimal(ws: string, n: int, suffix: string)
    requires AllWhitespace(ws)
    requires suffix == [] || !(IsDecimalDigit(suffix[0]) || suffix[0] == 'x' || suffix[0] == 'X')
    ensures ParseInt(ws + Numeral(n) + suffix) == Some(n)
  {
    var body := Numeral(n) + suffix;
    assert ws + Numeral(n) + suffix == ws + body;
    assert body[0] == Numeral(n)[0];
    ParseIntAfterWhitespace(ws, body);
    ParseNumeralOfNumeral(n, suffix);
  }

  /** The numeral of `n`, followed by a suffix that cannot extend it, reads back as `n`. */
  lemma ParseNumeralOfNumeral(n: int, suffix: string)
    requires suffix == [] || !(IsDecimalDigit(suffix[0]) || suffix[0] == 'x' || suffix[0] == 'X')
    ensures ParseNumeral(Numeral(n) + suffix) == Some(n)
  {
    if n < 0 {
      var u := Decimal(-n) + suffix;
      assert Numeral(n) + suffix == "-" + u;
      ParseNumeralOfDecimal(-n, suffix);
      assert u[0] == Decimal(-n)[0];
      ParseNumeralNegated(u, -n);
    } else {
      ParseNumeralOfDecimal(n, suffix);
    }
  }

  /** A string of decimal digits only, leading zeros included, reads as its value. */
  lemma ParseIntOfDigits(s: string)
    requires s != [] && AllDigitsOf(s, 10)
    ensures ParseInt(s) == Some(NumeralValue(s, 10))
  {
    assert IsDecimalDigit(s[0]);
    ParseIntAfterWhitespace("", s);
    assert "" + s == s;
    ParseNumeralOfDigits(s);
  }

  lemma ParseNumeralOfDigits(s: string)
    requires s != [] && AllDigitsOf(s, 10)
    ensures ParseNumeral(s) == Some(NumeralValue(s, 10))
  {
    assert IsDecimalDigit(s[0]);
    assert |s| >= 2 ==> IsDecimalDigit(s[1]);
    DigitRunOfNumeral(s, [], 10);
    assert s + [] == s && s[..|s|] == s;
  }

  /** parseInt finds a number only where a decimal digit follows the sign, if any. */
  lemma ParseNumeralNeedsDigit(t: string)
    ensures ParseNumeral(t).Some? ==> DigitAfterSign(t)
  {
    var u := if |t| > 0 && (t[0] == '-' || t[0] == '+') then t[1..] else t;
    if ParseNumeral(t).Some? && |u| > 0 {
      assert t[SignLength(t)] == u[0];
    }
  }

  /** After whitespace, parseInt reads a string that does not start with whitespace as it stands. */
  lemma ParseIntAfterWhitespace(ws: string, s: string)
    requires AllWhitespace(ws)
    requires s == [] || !IsJsWhitespace(s[0])
    ensures ParseInt(ws + s) == ParseNumeral(s)
  {
    LeadingAfterWhitespace(ws, s);
    assert (ws + s)[|ws|..] == s;
  }

  /** Whitespace in front of a string that does not start with whitespace is skipped exactly. */
  lemma {:induction false} LeadingAfterWhitespace(ws: string, s: string)
    requires AllWhitespace(ws)
    requires s == [] || !IsJsWhitespace(s[0])
    ensures LeadingSpace(ws + s) == |ws|
  {
    if ws != [] {
      assert (ws + s)[1..] == ws[1..] + s;
      LeadingAfterWhitespace(ws[1..], s);
    } else {
      assert ws + s == s;
    }
  }

  /** parseInt skips leading whitespace: prepending any amount changes nothing. */
  lemma ParseIntSkipsWhitespace(ws: string, s: string)
    requires AllWhitespace(ws)
    ensures ParseInt(ws + s) == ParseInt(s)
  {
    var k := LeadingSpace(s);
    var w2 := ws + s[..k];
    assert s == s[..k] + s[k..];
    assert ws + s == w2 + s[k..];
    ParseIntAfterWhitespace(w2, s[k..]);
  }

  /**
   * Exactly the strings parseInt maps to an integer: after leading whitespace
   * and an optional sign, either `0x`/`0X` followed by a hex digit, or a
   * decimal digit that does not begin such a prefix. So "0x" and "0xg" are
   * NaN although they start with a digit.
   */
  lemma ParseIntIsInteger(s: string)
    ensures ParseInt(s).Some? <==>
      var t := s[LeadingSpace(s)..];
      var u := if |t| > 0 && (t[0] == '-' || t[0] == '+') then t[1..] else t;
      if |u| >= 2 && u[0] == '0' && (u[1] == 'x' || u[1] == 'X') then |u| >= 3 && IsHexDigit(u[2])
      else |u| >= 1 && IsDecimalDigit(u[0])
  {
  }
}

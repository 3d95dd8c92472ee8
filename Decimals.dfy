/**
 * Decimal digits: how Python's `str()` renders an integer, and the decimal
 * literal `[-+]?\d*\.\d+` that `read` extracts from a reply, with the exact
 * value that the driver's `float()` conversion approximates.
 */
module Decimals {
  import opened Wrappers
  import opened Strings

  predicate IsDigit(c: char) { '0' <= c <= '9' }

  predicate IsSign(c: char) { c == '+' || c == '-' }

  predicate AllDigits(s: string) { forall i :: 0 <= i < |s| ==> IsDigit(s[i]) }

  function DigitChar(d: nat): (c: char)
    requires d < 10
    ensures IsDigit(c) && c as int - '0' as int == d
  {
    ('0' as int + d) as char
  }

  function Pow10(k: nat): (r: nat)
    ensures r >= 1
  {
    if k == 0 then 1 else 10 * Pow10(k - 1)
  }

  /** The number a string of digits denotes, most significant digit first. */
  function Value(s: string): nat
    requires AllDigits(s)
  {
    if s == [] then 0 else Value(s[..|s| - 1]) * 10 + (s[|s| - 1] as int - '0' as int)
  }

  /** Python's `str(n)` for a non-negative integer: shortest decimal form. */
  function NatText(n: nat): (r: string)
    ensures |r| >= 1 && AllDigits(r)
    ensures Value(r) == n
    ensures |r| > 1 ==> r[0] != '0'
  {
    if n < 10 then [DigitChar(n)]
    else
      var r := NatText(n / 10) + [DigitChar(n % 10)];
      assert r[..|r| - 1] == NatText(n / 10);
      r
  }

  /** Python's `str(n)` (equally `"{}".format(n)`) for any integer. */
  function IntText(n: int): string
  {
    if n < 0 then "-" + NatText(-n) else NatText(n)
  }

  /**
   * `IntText` is the canonical form: a '-' exactly for negative numbers,
   * then at least one digit, no leading zero, denoting the magnitude.
   */
  lemma IntTextCanonical(n: int)
    ensures var r := IntText(n);
      && |r| >= 1 && (r[0] == '-' <==> n < 0)
      && var d := if n < 0 then r[1..] else r;
      && |d| >= 1 && AllDigits(d)
      && Value(d) == (if n < 0 then -n else n)
      && (|d| > 1 ==> d[0] != '0')
  {
    if n < 0 {
      assert IntText(n)[1..] == NatText(-n);
    }
  }

  /** Reads back what `IntText` writes. */
  function ParseInt(s: string): Option<int>
  {
    if |s| > 1 && s[0] == '-' && AllDigits(s[1..]) then Some(0 - Value(s[1..]))
    else if |s| > 0 && AllDigits(s) then Some(Value(s))
    else None
  }

  lemma ParseIntText(n: int)
    ensures ParseInt(IntText(n)) == Some(n)
  {
    if n < 0 {
      var t := NatText(-n);
      assert IntText(n)[1..] == t;
    }
  }

  lemma {:induction false} ValueConcat(a: string, b: string)
    requires AllDigits(a) && AllDigits(b)
    ensures AllDigits(a + b)
    ensures Value(a + b) == Value(a) * Pow10(|b|) + Value(b)
  {
    if b == [] {
      assert a + b == a;
    } else {
      var b' := b[..|b| - 1];
      var d := b[|b| - 1] as int - '0' as int;
      assert (a + b)[..|a + b| - 1] == a + b';
      assert Value(a + b) == Value(a + b') * 10 + d;
      ValueConcat(a, b');
      ShiftDigit(Value(a), Pow10(|b'|), Value(b'), d);
    }
  }

  /** Appending a digit to both the whole and its low part of a split number. */
  lemma ShiftDigit(x: int, p: int, y: int, d: int)
    ensures (x * p + y) * 10 + d == x * (p * 10) + (y * 10 + d)
  {
  }

  /** `n` written with exactly `width` digits, leading zeros included. */
  function Padded(n: nat, width: nat): (r: string)
    requires n < Pow10(width)
    ensures |r| == width && AllDigits(r)
    ensures Value(r) == n
  {
    if width == 0 then []
    else
      var r := Padded(n / 10, width - 1) + [DigitChar(n % 10)];
      assert r[..|r| - 1] == Padded(n / 10, width - 1);
      r
  }

  /** Quotient and remainder by a positive divisor, as facts the solver can use each time. */
  lemma DivMod(m: nat, p: nat)
    requires p >= 1
    ensures m / p >= 0 && 0 <= m % p < p
    ensures m == (m / p) * p + m % p
  {
  }

  /** Length of the optional leading sign of a literal. */
  function SignLength(t: string): (j: nat)
    ensures j <= 1 && j <= |t|
  {
    if |t| > 0 && IsSign(t[0]) then 1 else 0
  }

  /**
   * `t` is one whole literal of the pattern `[-+]?\d*\.\d+`: an optional
   * sign, any number of integer digits, a point, then at least one digit.
   */
  predicate IsLiteral(t: string)
  {
    var j := SignLength(t);
    var k := IndexOf(t, '.');
    j <= k < |t| - 1 && AllDigits(t[j..k]) && AllDigits(t[k + 1..])
  }

  /** An exact decimal number: `mantissa` times ten to the power `-scale`. */
  datatype Decimal = Decimal(mantissa: int, scale: nat)

  /**
   * The value of a literal, as `float()` would read it before rounding:
   * the digits on both sides of the point make the mantissa, the number of
   * fractional digits the scale, and a leading '-' negates.
   */
  function LiteralValue(t: string): (d: Decimal)
    requires IsLiteral(t)
    ensures d.scale == |t| - IndexOf(t, '.') - 1 >= 1
  {
    var j := SignLength(t);
    var k := IndexOf(t, '.');
    ValueConcat(t[j..k], t[k + 1..]);
    var magnitude: int := Value(t[j..k] + t[k + 1..]);
    Decimal(if t[0] == '-' then -magnitude else magnitude, |t| - k - 1)
  }

  /**
   * Renders a decimal with at least one fractional digit the way a caller
   * would pass it to `set_variable`: a '-' for negative values, the
   * integer part without leading zeros, a point and `scale` digits.
   */
  function DecimalText(d: Decimal): string
    requires d.scale >= 1
  {
    var m: nat := if d.mantissa < 0 then -d.mantissa else d.mantissa;
    var p: nat := Pow10(d.scale);
    DivMod(m, p);
    (if d.mantissa < 0 then "-" else "") + NatText(m / p) + "." + Padded(m % p, d.scale)
  }

  /** What `DecimalText` writes is a literal, and it reads back as the same decimal. */
  lemma DecimalTextRoundTrip(d: Decimal)
    requires d.scale >= 1
    ensures IsLiteral(DecimalText(d))
    ensures LiteralValue(DecimalText(d)) == d
  {
    var m: nat := if d.mantissa < 0 then -d.mantissa else d.mantissa;
    var p: nat := Pow10(d.scale);
    DivMod(m, p);
    var sign := if d.mantissa < 0 then "-" else "";
    var whole := NatText(m / p);
    var frac := Padded(m % p, d.scale);
    assert DecimalText(d) == sign + whole + "." + frac;
    LiteralOfParts(sign, whole, frac);
    ValueConcat(whole, frac);
  }

  /** A literal assembled from a sign, integer digits and fractional digits. */
  lemma LiteralOfParts(sign: string, whole: string, frac: string)
    requires sign == "" || (|sign| == 1 && IsSign(sign[0]))
    requires AllDigits(whole) && AllDigits(frac) && |frac| >= 1
    ensures AllDigits(whole + frac)
    ensures IsLiteral(sign + whole + "." + frac)
    ensures LiteralValue(sign + whole + "." + frac)
         == Decimal(if sign == "-" then 0 - Value(whole + frac) else Value(whole + frac), |frac|)
  {
    ValueConcat(whole, frac);
    var t := sign + whole + "." + frac;
    LiteralShape(sign, whole, frac);
    assert t[0] == '-' <==> sign == "-" by {
      if sign == "" {
        if whole == [] { assert t[0] == '.'; } else { assert t[0] == whole[0]; }
      }
    }
  }

  /** Where the sign, the digits and the point of an assembled literal sit. */
  lemma LiteralShape(sign: string, whole: string, frac: string)
    requires sign == "" || (|sign| == 1 && IsSign(sign[0]))
    requires AllDigits(whole)
    ensures var t := sign + whole + "." + frac;
      && SignLength(t) == |sign|
      && IndexOf(t, '.') == |sign| + |whole|
      && t[|sign|..|sign| + |whole|] == whole
      && t[|sign| + |whole| + 1..] == frac
  {
    var t := sign + whole + "." + frac;
    var head := sign + whole;
    assert t == head + ['.'] + frac;
    forall x | 0 <= x < |head| ensures head[x] != '.' {
      if x >= |sign| { assert head[x] == whole[x - |sign|]; }
    }
    IndexOfAfter(head, '.', frac);
    assert t[|sign|..|head|] == whole;
    assert t[|head| + 1..] == frac;
    if sign == "" {
      if whole == [] { assert t[0] == '.'; } else { assert t[0] == whole[0]; }
    }
  }

  /** A literal is made of signs, digits and a point only. */
  lemma LiteralChars(t: string)
    requires IsLiteral(t)
    ensures forall x :: 0 <= x < |t| ==> IsSign(t[x]) || IsDigit(t[x]) || t[x] == '.'
  {
    var j := SignLength(t);
    var k := IndexOf(t, '.');
    forall x | 0 <= x < |t| ensures IsSign(t[x]) || IsDigit(t[x]) || t[x] == '.' {
      if j <= x < k {
        assert t[x] == t[j..k][x - j];
      } else if k < x {
        assert t[x] == t[k + 1..][x - k - 1];
      }
    }
  }
}

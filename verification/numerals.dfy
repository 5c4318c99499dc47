/** Positional numerals as Rust's formatter writes them: `{}` (decimal),
    `{:x}` / `{:X}` (lower / upper hex), and the zero-padded `{:0w…}` forms.
    Digits are written by explicit digit-to-character helpers; a numeral's
    value is read most significant digit first. */
module Numerals {
  import opened Prelude

  /** Which letters stand for the digits ten to fifteen. */
  datatype Case = Lower | Upper

  /** The radixes the formatter uses are 10 and 16; any radix up to 16 works. */
  type Base = b: nat | 2 <= b <= 16 witness 16

  /** The value of `c` as a digit of case `k`, if it is one. */
  function DigitValue(c: char, k: Case): (r: Option<nat>)
    ensures r.Some? ==> r.value < 16
    ensures r.Some? <==> '0' <= c <= '9' || (k == Upper && 'A' <= c <= 'F') || (k == Lower && 'a' <= c <= 'f')
  {
    if '0' <= c <= '9' then Some(c as int - '0' as int)
    else if k == Upper && 'A' <= c <= 'F' then Some(c as int - 'A' as int + 10)
    else if k == Lower && 'a' <= c <= 'f' then Some(c as int - 'a' as int + 10)
    else None
  }

  /** The character for digit value `n`: '0'..'9', then 'a'..'f' or 'A'..'F'. */
  function Digit(n: nat, k: Case): (c: char)
    requires n < 16
    ensures DigitValue(c, k) == Some(n)
  {
    if n < 10 then ('0' as int + n) as char
    else if k == Upper then ('A' as int + n - 10) as char
    else ('a' as int + n - 10) as char
  }

  /** `Digit` and `DigitValue` are inverse to each other, in both directions. */
  lemma DigitInverse(c: char, n: nat, k: Case)
    requires n < 16
    ensures DigitValue(c, k) == Some(n) <==> Digit(n, k) == c
  {
  }

  /** Every character of `s` is a digit of case `k` below `base`. */
  predicate IsNumeral(s: string, base: Base, k: Case) {
    forall i :: 0 <= i < |s| ==> DigitValue(s[i], k).Some? && DigitValue(s[i], k).value < base
  }

  /** No numeral contains a space. */
  lemma NumeralHasNoSpace(s: string, base: Base, k: Case)
    requires IsNumeral(s, base, k)
    ensures ' ' !in s
  {
  }

  /** No leading zero, except for the numeral "0" itself. */
  predicate Canonical(s: string) {
    |s| >= 1 && (|s| == 1 || s[0] != '0')
  }

  /** The value of a numeral, most significant digit first. */
  function Value(s: string, base: Base, k: Case): nat
    requires IsNumeral(s, base, k)
    decreases |s|
  {
    if |s| == 0 then 0
    else Value(s[..|s| - 1], base, k) * base + DigitValue(s[|s| - 1], k).value
  }

  /** `b` to the power `e`: the number of numerals of `e` digits in base `b`. */
  function Pow(b: nat, e: nat): (r: nat)
    ensures b >= 1 ==> r >= 1
  {
    if e == 0 then 1 else b * Pow(b, e - 1)
  }

  /** A one-digit numeral is worth its digit. */
  lemma ValueOfDigit(c: char, base: Base, k: Case)
    requires IsNumeral([c], base, k)
    ensures DigitValue(c, k).Some? && Value([c], base, k) == DigitValue(c, k).value
    ensures Value([c], base, k) == 0 <==> c == '0'
  {
    assert [c][0] == c;
    assert [c][..0] == [];
  }

  /** Appending a digit multiplies the value by the base and adds the digit. */
  lemma ValueSnoc(p: string, c: char, base: Base, k: Case)
    requires IsNumeral(p, base, k)
    requires DigitValue(c, k).Some? && DigitValue(c, k).value < base
    ensures IsNumeral(p + [c], base, k)
    ensures Value(p + [c], base, k) == Value(p, base, k) * base + DigitValue(c, k).value
  {
    assert (p + [c])[..|p|] == p;
  }

  /** The shortest numeral for `x`: no leading zeros, "0" for zero. This is
      what `{}`, `{:x}` and `{:X}` print before any padding. */
  function Digits(x: nat, base: Base, k: Case): (s: string)
    ensures IsNumeral(s, base, k) && 1 <= |s|
    decreases x
  {
    if x < base then [Digit(x, k)]
    else
      DivModSplit(x, base);
      var p := Digits(x / base, base, k);
      ValueSnoc(p, Digit(x % base, k), base, k);
      p + [Digit(x % base, k)]
  }

  /** `Digits` writes `x` exactly, in shortest form. */
  lemma {:induction false} DigitsValue(x: nat, base: Base, k: Case)
    ensures Value(Digits(x, base, k), base, k) == x
    ensures Canonical(Digits(x, base, k))
    decreases x
  {
    var s := Digits(x, base, k);
    if x < base {
      ValueOfDigit(Digit(x, k), base, k);
    } else {
      DivModSplit(x, base);
      var p := Digits(x / base, base, k);
      DigitsValue(x / base, base, k);
      ValueSnoc(p, Digit(x % base, k), base, k);
      assert s == p + [Digit(x % base, k)];
      assert s[0] == p[0];
      if |p| == 1 {
        ValueOfDigit(p[0], base, k);
      }
    }
  }

  /** `n` zero characters. */
  function Zeros(n: nat): (s: string)
    ensures |s| == n
    ensures forall i :: 0 <= i < n ==> s[i] == '0'
  {
    if n == 0 then [] else ['0'] + Zeros(n - 1)
  }

  /** `x` in `base`, left-padded with '0' to at least `width` characters:
      Rust's `{:0width}`, `{:0widthx}` and `{:0widthX}`. */
  function Padded(x: nat, width: nat, base: Base, k: Case): (s: string)
    ensures IsNumeral(s, base, k) && Value(s, base, k) == x
    ensures width <= |s|
    ensures 1 <= width && x < Pow(base, width) ==> |s| == width
    ensures |s| > width ==> Canonical(s)
  {
    var d := Digits(x, base, k);
    DigitsValue(x, base, k);
    if |d| >= width then
      if width >= 1 then
        DigitsLength(x, base, k, width - 1);
        d
      else d
    else
      LeadingZeros(width - |d|, d, base, k);
      Zeros(width - |d|) + d
  }

  /** A six-digit hex numeral, digit by digit. */
  lemma ValueOfSix(s: string, k: Case)
    requires |s| == 6 && IsNumeral(s, 16, k)
    ensures Value(s, 16, k) ==
      DigitValue(s[0], k).value * 0x10_0000 + DigitValue(s[1], k).value * 0x1_0000 +
      DigitValue(s[2], k).value * 0x1000 + DigitValue(s[3], k).value * 0x100 +
      DigitValue(s[4], k).value * 0x10 + DigitValue(s[5], k).value
  {
    var d0, d1, d2 := DigitValue(s[0], k).value, DigitValue(s[1], k).value, DigitValue(s[2], k).value;
    var d3, d4, d5 := DigitValue(s[3], k).value, DigitValue(s[4], k).value, DigitValue(s[5], k).value;
    assert s[..1][..0] == [];
    assert Value(s[..1], 16, k) == d0;
    assert s[..2][..1] == s[..1];
    assert Value(s[..2], 16, k) == d0 * 0x10 + d1;
    assert s[..3][..2] == s[..2];
    assert Value(s[..3], 16, k) == d0 * 0x100 + d1 * 0x10 + d2;
    assert s[..4][..3] == s[..3];
    assert Value(s[..4], 16, k) == d0 * 0x1000 + d1 * 0x100 + d2 * 0x10 + d3;
    assert s[..5][..4] == s[..4];
    assert Value(s[..5], 16, k) == d0 * 0x1_0000 + d1 * 0x1000 + d2 * 0x100 + d3 * 0x10 + d4;
  }

  /** Read a numeral of exactly `width` digits, as a fixed-width field. */
  function ParseFixed(s: string, width: nat, base: Base, k: Case): (r: Option<nat>)
    ensures r.Some? ==> r.value < Pow(base, width)
  {
    if |s| == width && IsNumeral(s, base, k) then
      ValueBound(s, base, k);
      Some(Value(s, base, k))
    else None
  }

  /** Read a numeral in shortest form; any leading zero or stray character is rejected. */
  function ParseCanonical(s: string, base: Base, k: Case): (r: Option<nat>)
    ensures r.Some? ==> |s| >= 1 && r.value < Pow(base, |s|)
  {
    if Canonical(s) && IsNumeral(s, base, k) then
      ValueBound(s, base, k);
      Some(Value(s, base, k))
    else None
  }

  // ---------------------------------------------------------------------
  // Arithmetic helpers

  lemma MulDistrib(a: int, m: int, b: int)
    ensures (a + m) * b == a * b + m * b
  {
  }

  lemma MulAtLeast(m: nat, b: nat)
    requires m >= 1
    ensures m * b >= b
  {
    MulDistrib(1, m - 1, b);
  }

  lemma MulMonotone(a: nat, a': nat, b: nat)
    requires a <= a'
    ensures a * b <= a' * b
  {
    MulDistrib(a, a' - a, b);
  }

  lemma PowStep(b: nat, w: nat)
    requires b >= 1
    ensures Pow(b, w + 1) == b * Pow(b, w) && Pow(b, w + 1) >= b
  {
    MulMonotone(1, Pow(b, w), b);
  }

  /** One more digit multiplies the bound by the base. */
  lemma StepBound(v: nat, d: nat, q: nat, b: nat)
    requires v < q && d < b
    ensures v * b + d < b * q
  {
    MulMonotone(v, q - 1, b);
    MulDistrib(q - 1, 1, b);
  }

  /** Euclidean division by `b >= 1` splits `x` into quotient and remainder. */
  lemma DivModSplit(x: nat, b: nat)
    requires b >= 1
    ensures x == (x / b) * b + x % b && x % b < b
    ensures x >= b ==> x / b >= 1
    ensures b >= 2 && x >= 1 ==> x / b < x
  {
  }

  /** Quotient and remainder by `b` are unique. */
  lemma DivModUnique(q: nat, r: nat, q': nat, r': nat, b: nat)
    requires r < b && r' < b
    requires q * b + r == q' * b + r'
    ensures q == q' && r == r'
  {
    if q < q' {
      MulDistrib(q, q' - q, b);
      MulAtLeast(q' - q, b);
    } else if q' < q {
      MulDistrib(q', q - q', b);
      MulAtLeast(q - q', b);
    }
  }

  /** Euclidean division by `b` recovers the two parts of `q * b + r`. */
  lemma DivModOf(q: nat, r: nat, b: nat)
    requires r < b
    ensures (q * b + r) / b == q && (q * b + r) % b == r
  {
    var x := q * b + r;
    DivModUnique(x / b, x % b, q, r, b);
  }

  /** `x / b < p` exactly when `x < b * p`. */
  lemma DivLess(x: nat, b: nat, p: nat)
    requires b >= 1
    ensures x / b < p <==> x < b * p
  {
    var q, r := x / b, x % b;
    assert x == q * b + r;
    if q < p {
      assert q * b <= (p - 1) * b;
      assert (p - 1) * b == b * p - b;
    } else {
      assert q * b >= p * b;
    }
  }

  // ---------------------------------------------------------------------
  // Facts about numerals

  /** A numeral of `n` digits is worth less than `base^n`. */
  lemma {:induction false} ValueBound(s: string, base: Base, k: Case)
    requires IsNumeral(s, base, k)
    ensures Value(s, base, k) < Pow(base, |s|)
    decreases |s|
  {
    if |s| > 0 {
      var p := s[..|s| - 1];
      ValueBound(p, base, k);
      StepBound(Value(p, base, k), DigitValue(s[|s| - 1], k).value, Pow(base, |p|), base);
    }
  }

  /** The shortest numeral for `x` has at most `w` digits exactly when `x < base^w`. */
  lemma {:induction false} DigitsLength(x: nat, base: Base, k: Case, w: nat)
    ensures |Digits(x, base, k)| <= w + 1 <==> x < Pow(base, w + 1)
    decreases x
  {
    PowStep(base, w);
    if x >= base {
      DivModSplit(x, base);
      DivLess(x, base, Pow(base, w));
      if w >= 1 {
        DigitsLength(x / base, base, k, w - 1);
      }
    }
  }

  /** A numeral of value zero is all '0' characters. */
  lemma {:induction false} ValueZero(s: string, base: Base, k: Case)
    requires IsNumeral(s, base, k) && Value(s, base, k) == 0
    ensures forall i :: 0 <= i < |s| ==> s[i] == '0'
    decreases |s|
  {
    if |s| > 0 {
      var p := s[..|s| - 1];
      ValueZero(p, base, k);
      DigitInverse(s[|s| - 1], 0, k);
      forall i | 0 <= i < |s|
        ensures s[i] == '0'
      {
        if i < |s| - 1 {
          assert s[i] == p[i];
        }
      }
    }
  }

  /** Leading zeros do not change a numeral's value. */
  lemma {:induction false} LeadingZeros(n: nat, s: string, base: Base, k: Case)
    requires IsNumeral(s, base, k)
    ensures IsNumeral(Zeros(n) + s, base, k)
    ensures Value(Zeros(n) + s, base, k) == Value(s, base, k)
    decreases |s| + n
  {
    var z := Zeros(n) + s;
    assert IsNumeral(z, base, k) by {
      forall i | 0 <= i < |z|
        ensures DigitValue(z[i], k).Some? && DigitValue(z[i], k).value < base
      {
        if i >= n {
          assert z[i] == s[i - n];
        }
      }
    }
    if |s| == 0 {
      if n > 0 {
        assert z[..|z| - 1] == Zeros(n - 1) + s;
        LeadingZeros(n - 1, s, base, k);
      }
    } else {
      var p := s[..|s| - 1];
      assert z[..|z| - 1] == Zeros(n) + p;
      LeadingZeros(n, p, base, k);
    }
  }

  /** Two numerals of the same length and value are the same text. */
  lemma {:induction false} ValueInjective(s: string, t: string, base: Base, k: Case)
    requires IsNumeral(s, base, k) && IsNumeral(t, base, k) && |s| == |t|
    requires Value(s, base, k) == Value(t, base, k)
    ensures s == t
    decreases |s|
  {
    if |s| > 0 {
      var n := |s| - 1;
      var ds, dt := DigitValue(s[n], k).value, DigitValue(t[n], k).value;
      DivModUnique(Value(s[..n], base, k), ds, Value(t[..n], base, k), dt, base);
      ValueInjective(s[..n], t[..n], base, k);
      DigitInverse(s[n], ds, k);
      DigitInverse(t[n], dt, k);
      assert s == s[..n] + [s[n]] && t == t[..n] + [t[n]];
    }
  }

  /** A canonical numeral is the shortest numeral of its value. */
  lemma {:induction false} CanonicalIsDigits(s: string, base: Base, k: Case)
    requires IsNumeral(s, base, k) && Canonical(s)
    ensures Digits(Value(s, base, k), base, k) == s
    decreases |s|
  {
    var n := |s| - 1;
    var p := s[..n];
    var d := DigitValue(s[n], k).value;
    var v := Value(s, base, k);
    DigitInverse(s[n], d, k);
    if n == 0 {
      assert p == [];
      assert Value(p, base, k) == 0;
    } else {
      assert Canonical(p) by { assert p[0] == s[0]; }
      if Value(p, base, k) == 0 {
        ValueZero(p, base, k);
        assert false;
      }
      MulAtLeast(Value(p, base, k), base);
      DivModOf(Value(p, base, k), d, base);
      CanonicalIsDigits(p, base, k);
      assert s == p + [s[n]];
    }
  }

  /** A fixed-width field reads back exactly the padded numerals of that width. */
  lemma ParseFixedIff(s: string, x: nat, width: nat, base: Base, k: Case)
    requires 1 <= width && x < Pow(base, width)
    ensures ParseFixed(s, width, base, k) == Some(x) <==> s == Padded(x, width, base, k)
  {
    if ParseFixed(s, width, base, k) == Some(x) {
      ValueInjective(s, Padded(x, width, base, k), base, k);
    }
  }

  /** The canonical reader accepts exactly the shortest numerals. */
  lemma ParseCanonicalIff(s: string, x: nat, base: Base, k: Case)
    ensures ParseCanonical(s, base, k) == Some(x) <==> s == Digits(x, base, k)
  {
    DigitsValue(x, base, k);
    if ParseCanonical(s, base, k) == Some(x) {
      CanonicalIsDigits(s, base, k);
    }
  }
}

// Exact decimal numbers. The statement pipeline only ever produces numbers by
// reading a decimal literal (parseFloat on a cleaned string) or carries the
// numbers JSON.parse produced; both are modelled as mantissa / 10^scale
// rather than as IEEE-754 doubles.
module Decimals {

  function Pow10(n: nat): (r: nat)
    ensures r >= 1
  {
    if n == 0 then 1 else 10 * Pow10(n - 1)
  }

  /** The number mantissa / 10^scale. */
  datatype Decimal = Decimal(mantissa: int, scale: nat)

  function Value(d: Decimal): real
  {
    d.mantissa as real / Pow10(d.scale) as real
  }

  predicate IsDigit(ch: char)
  {
    '0' <= ch <= '9'
  }

  predicate AllDigits(s: string)
  {
    forall i :: 0 <= i < |s| ==> IsDigit(s[i])
  }

  function DigitValue(ch: char): nat
    requires IsDigit(ch)
  {
    ch as int - '0' as int
  }

  function DigitChar(n: nat): (ch: char)
    requires n < 10
    ensures IsDigit(ch) && DigitValue(ch) == n
  {
    ('0' as int + n) as char
  }

  /** The natural number a string of decimal digits denotes (most significant first). */
  function DigitsValue(s: string): nat
    requires AllDigits(s)
  {
    if s == [] then 0 else 10 * DigitsValue(s[..|s| - 1]) + DigitValue(s[|s| - 1])
  }

  lemma {:induction false} DigitsValueAppend(a: string, b: string)
    requires AllDigits(a) && AllDigits(b)
    ensures AllDigits(a + b)
    ensures DigitsValue(a + b) == DigitsValue(a) * Pow10(|b|) + DigitsValue(b)
  {
    AllDigitsAppend(a, b);
    if b != [] {
      var b' := b[..|b| - 1];
      assert (a + b)[..|a + b| - 1] == a + b';
      DigitsValueAppend(a, b');
      var x, y, z, c := DigitsValue(a), DigitsValue(b'), Pow10(|b'|), DigitValue(b[|b| - 1]);
      assert DigitsValue(a + b) == 10 * (x * z + y) + c;
      assert DigitsValue(b) == 10 * y + c;
      ShiftDigit(x, y, z, c);
    } else {
      assert a + b == a;
    }
  }

  lemma AllDigitsAppend(a: string, b: string)
    requires AllDigits(a) && AllDigits(b)
    ensures AllDigits(a + b)
  {
    forall i | 0 <= i < |a + b| ensures IsDigit((a + b)[i]) {
      if i >= |a| { assert (a + b)[i] == b[i - |a|]; }
    }
  }

  /** Appending one more digit multiplies the part before by ten. */
  lemma ShiftDigit(x: int, y: int, z: int, c: int)
    ensures 10 * (x * z + y) + c == x * (10 * z) + (10 * y + c)
  {
    MulAssoc10(x, z);
  }

  lemma MulAssoc10(x: int, z: int)
    ensures 10 * (x * z) == x * (10 * z)
  {
  }

  /** The shortest decimal numeral of n ("0" for zero). */
  function DigitsOf(n: nat): (s: string)
    ensures |s| > 0 && AllDigits(s)
    ensures DigitsValue(s) == n
  {
    if n < 10 then [DigitChar(n)]
    else
      var s := DigitsOf(n / 10) + [DigitChar(n % 10)];
      assert s[..|s| - 1] == DigitsOf(n / 10);
      s
  }

  lemma {:induction false} DigitsOfLength(n: nat, w: nat)
    requires 1 <= w && n < Pow10(w)
    ensures |DigitsOf(n)| <= w
  {
    if n >= 10 {
      assert w >= 2;
      assert n / 10 < Pow10(w - 1);
      DigitsOfLength(n / 10, w - 1);
    }
  }

  function Zeros(k: nat): (s: string)
    ensures |s| == k && AllDigits(s) && DigitsValue(s) == 0
  {
    if k == 0 then []
    else
      var s := Zeros(k - 1) + ['0'];
      assert s[..|s| - 1] == Zeros(k - 1);
      s
  }

  /** The numeral of n left-padded with zeros to width w. */
  function PaddedDigits(n: nat, w: nat): (s: string)
    requires 1 <= w && n < Pow10(w)
    ensures |s| == w && AllDigits(s) && DigitsValue(s) == n
  {
    DigitsOfLength(n, w);
    var z := Zeros(w - |DigitsOf(n)|);
    DigitsValueAppend(z, DigitsOf(n));
    z + DigitsOf(n)
  }

  /** The same number with trailing zero digits of the fraction removed. */
  function Normalized(d: Decimal): (r: Decimal)
    ensures Value(r) == Value(d)
    ensures r.scale <= d.scale
    ensures r.scale > 0 ==> r.mantissa % 10 != 0
    decreases d.scale
  {
    if d.scale > 0 && d.mantissa % 10 == 0 then
      var smaller := Decimal(d.mantissa / 10, d.scale - 1);
      ScaleDown(d.mantissa, d.scale);
      Normalized(smaller)
    else d
  }

  /** Zero normalises to the plain integer 0, whatever its scale. */
  lemma {:induction false} NormalizedZero(d: Decimal)
    requires d.mantissa == 0
    ensures Normalized(d) == Decimal(0, 0)
    decreases d.scale
  {
    if d.scale > 0 {
      NormalizedZero(Decimal(0, d.scale - 1));
    }
  }

  lemma ScaleDown(m: int, s: nat)
    requires s > 0 && m % 10 == 0
    ensures Value(Decimal(m / 10, s - 1)) == Value(Decimal(m, s))
  {
    var q := m / 10;
    var p := Pow10(s - 1) as real;
    assert m == 10 * q;
    assert Pow10(s) as real == 10.0 * p;
    assert (10 * q) as real == 10.0 * (q as real);
    assert p > 0.0;
    calc {
      Value(Decimal(m, s));
      (10.0 * q as real) / (10.0 * p);
      q as real / p;
    }
  }

  function Abs(m: int): nat
  {
    if m < 0 then -m else m
  }

  /** Integer part and remainder of a / p. */
  function Split(a: nat, p: nat): (r: (nat, nat))
    requires p >= 1
    ensures r.1 < p && a == r.0 * p + r.1
  {
    (a / p, a % p)
  }

  /**
   * JavaScript's String(x) for a finite number that is an exact decimal:
   * an optional "-", the integer part, and when the number is not an integer
   * "." followed by the fraction without trailing zeros. Negative zero and
   * zero both print as "0".
   */
  function NumberText(d: Decimal): string
  {
    var n := Normalized(d);
    (if n.mantissa < 0 then "-" else "") + MagnitudeText(Abs(n.mantissa), n.scale)
  }

  /** The numeral of a / 10^scale: integer part, and "." with exactly scale fraction digits when scale > 0. */
  function MagnitudeText(a: nat, scale: nat): string
  {
    if scale == 0 then DigitsOf(a)
    else
      var (whole, fraction) := Split(a, Pow10(scale));
      DigitsOf(whole) + "." + PaddedDigits(fraction, scale)
  }
}

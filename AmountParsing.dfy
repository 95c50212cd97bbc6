// safeParseFloat of backend/services/pdfExtractor.js: delete every character
// that is not a digit, "." or "-", read the longest leading decimal literal
// the way parseFloat (ECMA-262, section 19.2.4) does, and answer null when
// there is none. Because letters (and so exponent markers and "Infinity")
// are deleted first, the literal is always of the form -?digits[.digits] or
// -?.digits and its value is an exact decimal.
module AmountParsing {
  import opened Wrappers
  import opened Decimals
  import opened JsValues

  predicate IsNumericChar(ch: char)
  {
    IsDigit(ch) || ch == '.' || ch == '-'
  }

  predicate AllNumeric(s: string)
  {
    forall i :: 0 <= i < |s| ==> IsNumericChar(s[i])
  }

  // ---------------------------------------------------------------------
  // Cleaning: String(value).replace(/[^0-9.-]+/g, '')
  // ---------------------------------------------------------------------

  /** s with every character other than 0-9, "." and "-" deleted. */
  function Clean(s: string): (r: string)
    ensures |r| <= |s|
    ensures AllNumeric(r)
  {
    if s == [] then []
    else (if IsNumericChar(s[0]) then [s[0]] else []) + Clean(s[1..])
  }

  /** Cleaning works character by character: it distributes over concatenation. */
  lemma {:induction false} CleanConcat(a: string, b: string)
    ensures Clean(a + b) == Clean(a) + Clean(b)
  {
    if a == [] {
      assert a + b == b;
    } else {
      var c := a + b;
      var head := if IsNumericChar(a[0]) then [a[0]] else [];
      assert c != [] && c[0] == a[0];
      assert c[1..] == a[1..] + b;
      assert Clean(c) == head + Clean(a[1..] + b);
      CleanConcat(a[1..], b);
      AppendAssoc(head, Clean(a[1..]), Clean(b));
    }
  }

  lemma AppendAssoc(x: string, y: string, z: string)
    ensures x + (y + z) == (x + y) + z
  {
  }

  lemma DropAppend(x: string, y: string)
    ensures (x + y)[|x|..] == y
  {
  }

  /** A single character survives cleaning exactly when it is numeric. */
  lemma CleanChar(ch: char)
    ensures Clean([ch]) == if IsNumericChar(ch) then [ch] else []
  {
    assert [ch][1..] == [];
  }

  /** A string made only of kept characters is left as it is. */
  lemma {:induction false} CleanKeepsNumeric(s: string)
    requires AllNumeric(s)
    ensures Clean(s) == s
  {
    if s != [] {
      CleanKeepsNumeric(s[1..]);
      assert s == [s[0]] + s[1..];
    }
  }

  /** Cleaning changes nothing exactly when every character is 0-9, "." or "-". */
  lemma CleanFixedPoint(s: string)
    ensures Clean(s) == s <==> AllNumeric(s)
  {
    if AllNumeric(s) { CleanKeepsNumeric(s); }
  }

  /** Cleaning is idempotent. */
  lemma CleanIdempotent(s: string)
    ensures Clean(Clean(s)) == Clean(s)
  {
    CleanKeepsNumeric(Clean(s));
  }

  // ---------------------------------------------------------------------
  // The literal grammar parseFloat accepts on a cleaned string
  // ---------------------------------------------------------------------

  /** An unsigned decimal literal: digits, or digits "." digits with at least one digit. */
  ghost predicate IsUnsignedLiteral(b: string)
  {
    (b != [] && AllDigits(b))
    || (|b| >= 2 && exists k :: 0 <= k < |b| && b[k] == '.' && AllDigits(b[..k]) && AllDigits(b[k + 1..]))
  }

  /** A decimal literal with an optional leading "-". */
  ghost predicate IsLiteral(p: string)
  {
    if p != [] && p[0] == '-' then IsUnsignedLiteral(p[1..]) else IsUnsignedLiteral(p)
  }

  /** The digits of s with every "." removed. */
  ghost function Undotted(s: string): string
  {
    if s == [] then [] else (if s[0] == '.' then [] else [s[0]]) + Undotted(s[1..])
  }

  /** The number of characters after the first "." of s (0 when there is none). */
  ghost function FractionDigits(s: string): nat
  {
    if s == [] then 0 else if s[0] == '.' then |s| - 1 else FractionDigits(s[1..])
  }

  lemma {:induction false} UndottedDigits(x: string)
    requires AllDigits(x)
    ensures Undotted(x) == x && FractionDigits(x) == 0
  {
    if x != [] {
      UndottedDigits(x[1..]);
      assert x == [x[0]] + x[1..];
    }
  }

  lemma {:induction false} UndottedSplit(x: string, y: string)
    requires AllDigits(x) && AllDigits(y)
    ensures Undotted(x + ['.'] + y) == x + y
    ensures FractionDigits(x + ['.'] + y) == |y|
  {
    if x == [] {
      assert x + ['.'] + y == ['.'] + y;
      assert (['.'] + y)[1..] == y;
      UndottedDigits(y);
    } else {
      assert (x + ['.'] + y)[1..] == x[1..] + ['.'] + y;
      UndottedSplit(x[1..], y);
      assert x + y == [x[0]] + (x[1..] + y);
    }
  }

  lemma UndottedLiteral(b: string)
    requires IsUnsignedLiteral(b)
    ensures AllDigits(Undotted(b))
  {
    if b != [] && AllDigits(b) {
      UndottedDigits(b);
    } else {
      var k :| 0 <= k < |b| && b[k] == '.' && AllDigits(b[..k]) && AllDigits(b[k + 1..]);
      var x, y := b[..k], b[k + 1..];
      assert b == x + ['.'] + y;
      UndottedSplit(x, y);
      AllDigitsConcat(x, y);
    }
  }

  /** The exact value a literal denotes. */
  ghost function LiteralValue(p: string): Decimal
    requires IsLiteral(p)
  {
    var neg := p != [] && p[0] == '-';
    var b := if neg then p[1..] else p;
    UndottedLiteral(b);
    var m: int := DigitsValue(Undotted(b));
    Decimal(if neg then -m else m, FractionDigits(b))
  }

  /** Some non-empty prefix of c is a literal. */
  ghost predicate HasLiteralPrefix(c: string)
  {
    exists j :: 0 <= j <= |c| && IsLiteral(c[..j])
  }

  /** c[..len] is a literal and no longer prefix of c is one. */
  ghost predicate IsLongestLiteral(c: string, len: nat)
  {
    0 < len <= |c| && IsLiteral(c[..len]) && forall j :: len < j <= |c| ==> !IsLiteral(c[..j])
  }

  /** d is the value of the longest literal at the start of c. */
  ghost predicate LongestLiteralPrefix(c: string, d: Decimal)
  {
    exists len: nat :: IsLongestLiteral(c, len) && d == LiteralValue(c[..len])
  }

  // ---------------------------------------------------------------------
  // parseFloat on a cleaned string
  // ---------------------------------------------------------------------

  /** Length of the longest all-digit prefix of s. */
  function DigitRun(s: string): (n: nat)
    ensures n <= |s|
    ensures AllDigits(s[..n])
    ensures n < |s| ==> !IsDigit(s[n])
  {
    if s != [] && IsDigit(s[0]) then 1 + DigitRun(s[1..]) else 0
  }

  lemma AllDigitsConcat(x: string, y: string)
    requires AllDigits(x) && AllDigits(y)
    ensures AllDigits(x + y)
  {
    forall i | 0 <= i < |x + y| ensures IsDigit((x + y)[i]) {
      if i >= |x| { assert (x + y)[i] == y[i - |x|]; }
    }
  }

  /** No all-digit prefix is longer than DigitRun. */
  lemma {:induction false} DigitRunLongest(s: string, m: nat)
    requires m <= |s| && AllDigits(s[..m])
    ensures m <= DigitRun(s)
  {
    if m > 0 {
      assert IsDigit(s[..m][0]);
      assert s[1..][..m - 1] == s[..m][1..];
      DigitRunLongest(s[1..], m - 1);
    }
  }

  /** Digits followed by a non-digit (or nothing): DigitRun stops exactly there. */
  lemma DigitRunOf(x: string, rest: string)
    requires AllDigits(x)
    requires rest == [] || !IsDigit(rest[0])
    ensures DigitRun(x + rest) == |x|
  {
    assert (x + rest)[..|x|] == x;
    DigitRunLongest(x + rest, |x|);
    if |x| < |x + rest| {
      assert (x + rest)[|x|] == rest[0];
    }
  }

  /**
   * The longest unsigned literal at the start of b, as
   * (digits value, number of fraction digits, length).
   */
  function ParseUnsigned(b: string): Option<(nat, nat, nat)>
  {
    var n := DigitRun(b);
    if n < |b| && b[n] == '.' then WithFraction(b[..n], b[n + 1..])
    else if n == 0 then None
    else Some((DigitsValue(b[..n]), 0, n))
  }

  /** The literal made of the digits w, a ".", and the digits at the start of rest. */
  function WithFraction(w: string, rest: string): Option<(nat, nat, nat)>
    requires AllDigits(w)
  {
    var f := DigitRun(rest);
    if w == [] && f == 0 then None
    else
      AllDigitsConcat(w, rest[..f]);
      Some((DigitsValue(w + rest[..f]), f, |w| + 1 + f))
  }

  /**
   * parseFloat(c) for a cleaned string c: the value of the longest leading
   * literal and that literal's length, or None where parseFloat gives NaN.
   */
  function ParseFloatPrefix(c: string): Option<(Decimal, nat)>
  {
    var neg := c != [] && c[0] == '-';
    var b := if neg then c[1..] else c;
    match ParseUnsigned(b)
    case None => None
    case Some((digits, scale, len)) =>
      var m: int := digits;
      Some((Decimal(if neg then -m else m, scale), if neg then len + 1 else len))
  }

  /** Every unsigned literal at the start of b is found by ParseUnsigned and is no longer than its answer. */
  lemma UnsignedLiteralBound(b: string, m: nat)
    requires m <= |b| && IsUnsignedLiteral(b[..m])
    ensures ParseUnsigned(b).Some? && m <= ParseUnsigned(b).value.2
  {
    var p := b[..m];
    if p != [] && AllDigits(p) {
      IntegerLiteralBound(b, m);
    } else {
      var k :| 0 <= k < |p| && p[k] == '.' && AllDigits(p[..k]) && AllDigits(p[k + 1..]);
      assert p[..k] == b[..k] && p[k + 1..] == b[k + 1..m];
      FractionLiteralBound(b, m, k);
    }
  }

  lemma IntegerLiteralBound(b: string, m: nat)
    requires 0 < m <= |b| && AllDigits(b[..m])
    ensures ParseUnsigned(b).Some? && m <= ParseUnsigned(b).value.2
  {
    var n := DigitRun(b);
    DigitRunLongest(b, m);
    if n < |b| && b[n] == '.' {
      var f := DigitRun(b[n + 1..]);
      assert ParseUnsigned(b).value.2 == n + 1 + f;
    }
  }

  lemma FractionLiteralBound(b: string, m: nat, k: nat)
    requires m <= |b| && k < m && b[k] == '.' && AllDigits(b[..k]) && AllDigits(b[k + 1..m])
    requires m >= 2
    ensures ParseUnsigned(b).Some? && m <= ParseUnsigned(b).value.2
  {
    var n := DigitRun(b);
    DigitRunLongest(b, k);
    assert k == n;
    var s := b[n + 1..];
    assert s[..m - n - 1] == b[k + 1..m];
    DigitRunLongest(s, m - n - 1);
  }

  /** What ParseUnsigned answers is an unsigned literal with the stated digits and scale. */
  lemma ParseUnsignedSound(b: string)
    requires ParseUnsigned(b).Some?
    ensures var (mant, scale, len) := ParseUnsigned(b).value;
      len <= |b| && IsUnsignedLiteral(b[..len])
      && AllDigits(Undotted(b[..len])) && DigitsValue(Undotted(b[..len])) == mant
      && FractionDigits(b[..len]) == scale
  {
    var n := DigitRun(b);
    var (mant, scale, len) := ParseUnsigned(b).value;
    if n < |b| && b[n] == '.' {
      var rest := b[n + 1..];
      var f := DigitRun(rest);
      var x, y := b[..n], rest[..f];
      assert b[..len] == x + ['.'] + y;
      UndottedSplit(x, y);
      var p := b[..len];
      assert p[..n] == x && p[n + 1..] == y && p[n] == '.';
    } else {
      UndottedDigits(b[..n]);
    }
  }

  /**
   * parseFloat's contract on a cleaned string (ECMA-262, section 19.2.4): it
   * gives NaN exactly when no prefix is a decimal literal, and otherwise the
   * value of the longest prefix that is one.
   */
  lemma ParseFloatPrefixSpec(c: string)
    ensures ParseFloatPrefix(c).None? <==> !HasLiteralPrefix(c)
    ensures ParseFloatPrefix(c).Some? ==>
      var (d, len) := ParseFloatPrefix(c).value;
      IsLongestLiteral(c, len) && d == LiteralValue(c[..len])
  {
    var neg := c != [] && c[0] == '-';
    var b := if neg then c[1..] else c;
    var sgn := if neg then 1 else 0;
    // every literal prefix of c is a sign followed by an unsigned literal prefix of b
    forall j | 0 <= j <= |c| && IsLiteral(c[..j])
      ensures ParseUnsigned(b).Some? && j <= ParseUnsigned(b).value.2 + sgn
    {
      assert c[..j] != [];
      if neg {
        assert c[..j][1..] == b[..j - 1];
        UnsignedLiteralBound(b, j - 1);
      } else {
        assert c[..j] == b[..j];
        UnsignedLiteralBound(b, j);
      }
    }
    if ParseUnsigned(b).Some? {
      ParseUnsignedSound(b);
      var (mant, scale, len) := ParseUnsigned(b).value;
      var p := c[..len + sgn];
      if neg {
        assert p[1..] == b[..len];
      } else {
        assert p == b[..len];
        assert b[..len] != [] by { assert IsUnsignedLiteral(b[..len]); }
        assert p[0] == c[0];
      }
    }
  }

  // ---------------------------------------------------------------------
  // safeParseFloat
  // ---------------------------------------------------------------------

  /**
   * safeParseFloat(value): null for null and undefined, otherwise parseFloat
   * of String(value) with every character but 0-9, "." and "-" deleted, and
   * null where that is NaN. String() throws for an object with its own
   * toString key, and the exception leaves safeParseFloat.
   */
  function SafeParseFloat(v: JsValue): Result<Option<Decimal>, string>
  {
    if IsNullish(v) then Ok(None)
    else
      match ToString(v)
      case Err(e) => Err(e)
      case Ok(text) =>
        match ParseFloatPrefix(Clean(text))
        case None => Ok(None)
        case Some((d, _)) => Ok(Some(d))
  }

  /**
   * The whole contract of safeParseFloat: null for null/undefined; the
   * String() TypeError exactly for a value String() throws on; otherwise
   * null exactly when the cleaned text has no leading literal, and else the
   * value of its longest leading literal.
   */
  lemma SafeParseFloatSpec(v: JsValue)
    ensures IsNullish(v) ==> SafeParseFloat(v) == Ok(None)
    ensures SafeParseFloat(v).Err? <==> !Printable(v)
    ensures SafeParseFloat(v).Err? ==> SafeParseFloat(v).error == ToPrimitiveError
    ensures !IsNullish(v) && Printable(v) ==>
      (SafeParseFloat(v) == Ok(None) <==> !HasLiteralPrefix(Clean(Printed(v))))
    ensures SafeParseFloat(v).Ok? && SafeParseFloat(v).value.Some? ==>
      LongestLiteralPrefix(Clean(Printed(v)), SafeParseFloat(v).value.value)
  {
    if !IsNullish(v) && Printable(v) {
      var c := Clean(Printed(v));
      ParseFloatPrefixSpec(c);
      if SafeParseFloat(v).value.Some? {
        var len := ParseFloatPrefix(c).value.1;
        assert IsLongestLiteral(c, len);
      }
    }
  }

  lemma NumberTextNumeric(d: Decimal)
    ensures AllNumeric(NumberText(d))
  {
  }

  /** Digits followed by something other than a digit or ".": the literal is those digits. */
  lemma ParseUnsignedInteger(w: string, rest: string)
    requires w != [] && AllDigits(w)
    requires rest == [] || (!IsDigit(rest[0]) && rest[0] != '.')
    ensures ParseUnsigned(w + rest) == Some((DigitsValue(w), 0, |w|))
  {
    DigitRunOf(w, rest);
    assert (w + rest)[..|w|] == w;
  }

  /**
   * Digits, ".", digits (at least one digit in all), then something other
   * than a digit: the literal runs up to that point and its scale is the
   * number of digits after the ".".
   */
  lemma ParseUnsignedFraction(w: string, f: string, rest: string)
    requires w != [] || f != []
    requires AllDigits(w) && AllDigits(f)
    requires rest == [] || !IsDigit(rest[0])
    ensures AllDigits(w + f)
    ensures ParseUnsigned(w + ['.'] + f + rest) == Some((DigitsValue(w + f), |f|, |w| + 1 + |f|))
  {
    FractionRuns(w, f, rest);
    ParseUnsignedDot(w + ['.'] + f + rest, |w|, |f|, w + f);
  }

  lemma FractionRuns(w: string, f: string, rest: string)
    requires AllDigits(w) && AllDigits(f)
    requires rest == [] || !IsDigit(rest[0])
    ensures var body := w + ['.'] + f + rest;
      && DigitRun(body) == |w| && |w| < |body| && body[|w|] == '.'
      && DigitRun(body[|w| + 1..]) == |f|
      && body[..|w|] + body[|w| + 1..][..|f|] == w + f
  {
    var body := w + ['.'] + f + rest;
    var n := |w|;
    assert DigitRun(body) == n && body[n] == '.' && body[..n] == w by {
      assert body == w + (['.'] + f + rest);
      DigitRunOf(w, ['.'] + f + rest);
    }
    var after := body[n + 1..];
    assert after == f + rest by {
      AppendAssoc(w + ['.'], f, rest);
      DropAppend(w + ['.'], f + rest);
    }
    assert DigitRun(after) == |f| && after[..|f|] == f by {
      DigitRunOf(f, rest);
    }
  }

  /** The shape of ParseUnsigned's answer when the digits are followed by ".". */
  lemma ParseUnsignedDot(b: string, n: nat, f: nat, d: string)
    requires n == DigitRun(b) && n < |b| && b[n] == '.'
    requires f == DigitRun(b[n + 1..]) && (n > 0 || f > 0)
    requires d == b[..n] + b[n + 1..][..f]
    ensures AllDigits(d)
    ensures ParseUnsigned(b) == Some((DigitsValue(d), f, n + 1 + f))
  {
    var w, rest := b[..n], b[n + 1..];
    assert ParseUnsigned(b) == WithFraction(w, rest);
    AllDigitsConcat(w, rest[..f]);
  }

  /** parseFloat reads the numeral of a / 10^scale back as exactly that mantissa and scale. */
  lemma ParseMagnitude(a: nat, scale: nat)
    ensures ParseUnsigned(MagnitudeText(a, scale)) == Some((a, scale, |MagnitudeText(a, scale)|))
  {
    var text := MagnitudeText(a, scale);
    if scale == 0 {
      ParseUnsignedInteger(text, []);
      assert text + [] == text;
    } else {
      var p := Pow10(scale);
      var (whole, fraction) := Split(a, p);
      ParseFractionDigits(a, scale, whole, fraction);
    }
  }

  lemma ParseFractionDigits(a: nat, scale: nat, whole: nat, fraction: nat)
    requires scale > 0 && (whole, fraction) == Split(a, Pow10(scale))
    ensures ParseUnsigned(MagnitudeText(a, scale)) == Some((a, scale, |MagnitudeText(a, scale)|))
  {
    var w, f := DigitsOf(whole), PaddedDigits(fraction, scale);
    var text := w + ['.'] + f + [];
    assert MagnitudeText(a, scale) == text;
    ParseUnsignedFraction(w, f, []);
    assert DigitsValue(w + f) == a by {
      DigitsValueAppend(w, f);
    }
  }

  /** parseFloat reads String(x) of a decimal x back as x, in normalised form. */
  lemma ParseNumberText(d: Decimal)
    ensures ParseFloatPrefix(NumberText(d)).Some?
    ensures ParseFloatPrefix(NumberText(d)).value.0 == Normalized(d)
  {
    var n := Normalized(d);
    var body := MagnitudeText(Abs(n.mantissa), n.scale);
    ParseMagnitude(Abs(n.mantissa), n.scale);
    var text := NumberText(d);
    assert body[0] != '-';
    if n.mantissa < 0 {
      assert text[0] == '-' && text[1..] == body;
    } else {
      assert text == body;
    }
  }

  /**
   * A JSON number passes through safeParseFloat unchanged: String() prints it
   * as a decimal that cleaning leaves alone and parseFloat reads back.
   */
  lemma SafeParseFloatNumber(d: Decimal)
    ensures SafeParseFloat(Num(d)) == Ok(Some(Normalized(d)))
    ensures Value(SafeParseFloat(Num(d)).value.value) == Value(d)
  {
    var text := NumberText(d);
    assert ToString(Num(d)) == Ok(text);
    NumberTextNumeric(d);
    CleanKeepsNumeric(text);
    ParseNumberText(d);
    assert Clean(text) == text;
  }


  // ---------------------------------------------------------------------
  // Worked cases
  // ---------------------------------------------------------------------

  /** A string none of whose characters survives cleaning. */
  predicate NoNumeric(t: string)
  {
    forall i :: 0 <= i < |t| ==> !IsNumericChar(t[i])
  }

  lemma {:induction false} CleanDropsAll(t: string)
    requires NoNumeric(t)
    ensures Clean(t) == []
  {
    if t != [] {
      CleanDropsAll(t[1..]);
    }
  }

  /**
   * A thousands separator and a trailing marker such as "CR" or "DR" are
   * deleted: digits, ",", digits, marker clean to the two digit runs joined.
   */
  lemma CleanSeparated(w: string, f: string, t: string)
    requires AllNumeric(w) && AllNumeric(f) && NoNumeric(t)
    ensures Clean(w + [','] + f + t) == w + f
  {
    var a := w + [','];
    assert Clean(a) == w by {
      CleanConcat(w, [',']);
      CleanChar(',');
      CleanKeepsNumeric(w);
    }
    var b := a + f;
    assert Clean(b) == w + f by {
      CleanConcat(a, f);
      CleanKeepsNumeric(f);
    }
    CleanConcat(b, t);
    CleanDropsAll(t);
    assert Clean(b + t) == Clean(b) + [];
  }

  /** The value of the first k + 1 digits of d from that of the first k. */
  lemma DigitsValuePrefix(d: string, k: nat)
    requires AllDigits(d) && k < |d|
    ensures AllDigits(d[..k]) && AllDigits(d[..k + 1])
    ensures DigitsValue(d[..k + 1]) == 10 * DigitsValue(d[..k]) + DigitValue(d[k])
  {
    assert d[..k + 1][..k] == d[..k];
  }

  /** The value of a run of one or two digits, digit by digit. */
  lemma DigitsValueShort(d: string)
    requires AllDigits(d) && 1 <= |d| <= 2
    ensures |d| == 1 ==> DigitsValue(d) == DigitValue(d[0])
    ensures |d| == 2 ==> DigitsValue(d) == 10 * DigitValue(d[0]) + DigitValue(d[1])
  {
    DigitsValuePrefix(d, 0);
    assert d[..0] == [];
    if |d| == 2 {
      DigitsValuePrefix(d, 1);
      assert d[..2] == d;
    } else {
      assert d[..1] == d;
    }
  }

  /** The value of a run of six digits, digit by digit. */
  lemma DigitsValueSix(d: string)
    requires AllDigits(d) && |d| == 6
    ensures DigitsValue(d) == 100000 * DigitValue(d[0]) + 10000 * DigitValue(d[1])
      + 1000 * DigitValue(d[2]) + 100 * DigitValue(d[3]) + 10 * DigitValue(d[4]) + DigitValue(d[5])
  {
    assert d[..0] == [];
    DigitsValuePrefix(d, 0);
    DigitsValuePrefix(d, 1);
    DigitsValuePrefix(d, 2);
    DigitsValuePrefix(d, 3);
    DigitsValuePrefix(d, 4);
    DigitsValuePrefix(d, 5);
    assert d[..6] == d;
  }

  /** A cleaned text that starts with digits then "." reads as digits, ".", digits. */
  lemma ParseFloatFraction(w: string, f: string, rest: string)
    requires w != [] || f != []
    requires AllDigits(w) && AllDigits(f)
    requires rest == [] || !IsDigit(rest[0])
    ensures AllDigits(w + f)
    ensures ParseFloatPrefix(w + ['.'] + f + rest) == Some((Decimal(DigitsValue(w + f), |f|), |w| + 1 + |f|))
  {
    ParseUnsignedFraction(w, f, rest);
    var c := w + ['.'] + f + rest;
    assert c[0] != '-' by {
      assert w != [] ==> c[0] == w[0];
    }
  }

  /** A cleaned text that starts with digits followed by neither a digit nor "." reads as those digits. */
  lemma ParseFloatInteger(w: string, rest: string)
    requires w != [] && AllDigits(w)
    requires rest == [] || (!IsDigit(rest[0]) && rest[0] != '.')
    ensures ParseFloatPrefix(w + rest) == Some((Decimal(DigitsValue(w), 0), |w|))
  {
    ParseUnsignedInteger(w, rest);
    assert (w + rest)[0] == w[0];
  }

  // The worked cases below take their text as a parameter fixed by the
  // precondition and reason about its slices, so that the verifier applies
  // the general lemmas instead of evaluating every function on a literal.

  /** A statement amount with a thousands separator and a CR marker. */
  lemma CleanExample(s: string)
    requires s == "1,234.56CR"
    ensures Clean(s) == "1234.56"
  {
    var w, f, t := s[..1], s[2..8], s[8..];
    assert s == w + [','] + f + t;
    assert AllNumeric(w) && AllNumeric(f) && NoNumeric(t);
    CleanSeparated(w, f, t);
    assert w + f == "1234.56";
  }

  /** parseFloat reads up to the end of a literal with a fraction. */
  lemma ParseFloatFractionExample(s: string)
    requires s == "1234.56"
    ensures ParseFloatPrefix(s) == Some((Decimal(123456, 2), 7))
  {
    var w, f, rest := FractionExampleParts(s);
    ParseFloatFraction(w, f, rest);
    FractionExampleValue(w + f);
  }

  lemma FractionExampleParts(s: string) returns (w: string, f: string, rest: string)
    requires s == "1234.56"
    ensures s == w + ['.'] + f + rest && |f| == 2 && rest == []
    ensures AllDigits(w) && AllDigits(f) && w + f == "123456"
  {
    w, f, rest := s[..4], s[5..7], s[7..];
    assert s == w + ['.'] + f + rest;
    assert AllDigits(w) && AllDigits(f);
  }

  lemma FractionExampleValue(d: string)
    requires d == "123456"
    ensures DigitsValue(d) == 123456
  {
    assert AllDigits(d);
    assert d[0] == '1' && d[1] == '2' && d[2] == '3' && d[3] == '4' && d[4] == '5' && d[5] == '6';
    DigitsValueSix(d);
  }

  /** parseFloat stops at a second ".". */
  lemma ParseFloatSecondDotExample(s: string)
    requires s == "1.2.3"
    ensures ParseFloatPrefix(s) == Some((Decimal(12, 1), 3))
  {
    var w, f, rest := s[..1], s[2..3], s[3..];
    assert s == w + ['.'] + f + rest;
    assert AllDigits(w) && AllDigits(f) && rest[0] == '.';
    ParseFloatFraction(w, f, rest);
    var d := w + f;
    assert d[0] == '1' && d[1] == '2';
    DigitsValueShort(d);
  }

  /** parseFloat stops at a "-" after digits. */
  lemma ParseFloatInnerMinusExample(s: string)
    requires s == "12-5"
    ensures ParseFloatPrefix(s) == Some((Decimal(12, 0), 2))
  {
    var w, rest := s[..2], s[2..];
    assert s == w + rest;
    assert AllDigits(w) && rest[0] == '-';
    ParseFloatInteger(w, rest);
    DigitsValueShort(w);
  }

  /** A literal may lack its integer digits. */
  lemma ParseFloatLeadingDotExample(s: string)
    requires s == ".5"
    ensures ParseFloatPrefix(s) == Some((Decimal(5, 1), 2))
  {
    var w, f, rest := s[..0], s[1..], s[2..];
    assert s == w + ['.'] + f + rest;
    assert w == [] && AllDigits(f) && rest == [];
    ParseFloatFraction(w, f, rest);
    assert w + f == f;
    DigitsValueShort(f);
  }

  /** A literal may lack its fraction digits. */
  lemma ParseFloatTrailingDotExample(s: string)
    requires s == "5."
    ensures ParseFloatPrefix(s) == Some((Decimal(5, 0), 2))
  {
    var w, f, rest := s[..1], s[2..], s[2..];
    assert s == w + ['.'] + f + rest;
    assert AllDigits(w) && f == [] && rest == [];
    ParseFloatFraction(w, f, rest);
    assert w + f == w;
    DigitsValueShort(w);
  }

  /** Texts with no leading literal give NaN. */
  lemma ParseFloatPrefixNaN(s: string)
    requires s == "" || s == "." || s == "-" || s == "--5"
    ensures ParseFloatPrefix(s) == None
  {
    var neg := s != [] && s[0] == '-';
    var b := if neg then s[1..] else s;
    assert b == [] || b[0] == '.' || b[0] == '-';
    assert b != [] && b[0] == '.' ==> b[1..] == [];
    assert DigitRun(b) == 0;
  }

  /** "1,234.56CR" reads as 1234.56; the CR marker carries no sign. */
  lemma SafeParseFloatStatementAmount(v: JsValue)
    requires v == Str("1,234.56CR")
    ensures SafeParseFloat(v) == Ok(Some(Decimal(123456, 2)))
  {
    var text := Printed(v);
    CleanExample(text);
    ParseFloatFractionExample(Clean(text));
  }

  /** null and undefined read as null. */
  lemma SafeParseFloatNullish()
    ensures SafeParseFloat(Null) == Ok(None) && SafeParseFloat(Undefined) == Ok(None)
  {
  }

  /** A text without digits reads as null. */
  lemma SafeParseFloatNoDigits(v: JsValue)
    requires v == Str("N/A")
    ensures SafeParseFloat(v) == Ok(None)
  {
    assert NoNumeric(v.s);
    CleanDropsAll(v.s);
    ParseFloatPrefixNaN([]);
  }

  /** Two leading minus signs leave no literal. */
  lemma SafeParseFloatDoubleMinus(v: JsValue)
    requires v == Str("--5")
    ensures SafeParseFloat(v) == Ok(None)
  {
    assert AllNumeric(v.s);
    CleanKeepsNumeric(v.s);
    ParseFloatPrefixNaN(v.s);
  }

  /**
   * An amount parsed from {"toString": ...} makes safeParseFloat throw:
   * String() finds the own toString property, which cannot be called.
   */
  lemma SafeParseFloatToStringKey(fields: map<string, JsValue>)
    requires "toString" in fields
    ensures SafeParseFloat(Obj(fields)) == Err(ToPrimitiveError)
  {
  }

  /** Every other object reads as null: "[object Object]" holds no digit. */
  lemma SafeParseFloatPlainObject(fields: map<string, JsValue>)
    requires "toString" !in fields
    ensures SafeParseFloat(Obj(fields)) == Ok(None)
  {
    var text := Printed(Obj(fields));
    assert NoNumeric(text);
    CleanDropsAll(text);
    ParseFloatPrefixNaN([]);
  }
}

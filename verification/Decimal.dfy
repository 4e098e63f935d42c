/** The shape checks on money, currencies and countries, decided on the literal's bytes. */
module Decimal {
  import opened Bytes
  import Utf8

  predicate AllDigits(s: Bytes) {
    s != [] && forall i | 0 <= i < |s| :: IsDigit(s[i])
  }

  /** The source ranges over runes; a rune above ASCII is not a digit, so this is the byte-wise
      question. */
  method IsDigits(s: Bytes) returns (ok: bool)
    ensures ok <==> AllDigits(s)
  {
    if s == [] {
      return false;
    }
    var i := 0;
    while i < |s|
      invariant 0 <= i <= |s|
      invariant forall k | 0 <= k < i :: IsDigit(s[k])
    {
      var r := Utf8.DecodeRune(s[i..]);
      if r.value < 0x30 || r.value > 0x39 {
        NotAsciiDigit(s[i..]);
        return false;
      }
      NotAsciiDigit(s[i..]);
      i := i + r.width;
    }
    return true;
  }

  lemma NotAsciiDigit(s: Bytes)
    requires s != []
    ensures 0x30 <= Utf8.DecodeRune(s).value <= 0x39 <==> IsDigit(s[0])
    ensures IsDigit(s[0]) ==> Utf8.DecodeRune(s).width == 1
  {
  }

  predicate UpperAlpha(s: Bytes, n: nat) {
    |s| == n && forall i | 0 <= i < n :: IsUpper(s[i])
  }

  method IsUpperAlpha(s: Bytes, n: nat) returns (ok: bool)
    ensures ok <==> UpperAlpha(s, n)
  {
    if |s| != n {
      return false;
    }
    for i := 0 to n
      invariant forall k | 0 <= k < i :: IsUpper(s[k])
    {
      if s[i] < 0x41 || s[i] > 0x5A {
        return false;
      }
    }
    return true;
  }

  function TrimZeros(s: Bytes): (r: Bytes)
    ensures |r| <= |s|
  {
    if s != [] && s[0] == ZERO then TrimZeros(s[1..]) else s
  }

  function TrimSign(s: Bytes): Bytes {
    if s != [] && s[0] == MINUS then s[1..] else s
  }

  /** An optional minus sign, digits, and optionally a point and more digits, within the room that
      the column has for each. */
  predicate FitsDecimal(literal: Bytes, precision: int, scale: int) {
    var s := TrimSign(literal);
    var intPart, fracPart := Before(s, DOT), After(s, DOT);
    && AllDigits(intPart)
    && (DOT in s ==> AllDigits(fracPart))
    && |fracPart| <= scale
    && |TrimZeros(intPart)| + scale <= precision
  }

  method CheckDecimal(literal: Bytes, precision: int, scale: int) returns (fits: bool)
    ensures fits <==> FitsDecimal(literal, precision, scale)
  {
    var s := TrimSign(literal);
    var intPart, fracPart := Before(s, DOT), After(s, DOT);
    var ok := IsDigits(intPart);
    if !ok {
      return false;
    }
    if DOT in s {
      ok := IsDigits(fracPart);
      if !ok {
        return false;
      }
    }
    if |fracPart| > scale {
      return false;
    }
    return |TrimZeros(intPart)| + scale <= precision;
  }

  // ---- What the literal denotes ----

  function Pow10(n: nat): (r: nat)
    ensures r > 0
  {
    if n == 0 then 1 else 10 * Pow10(n - 1)
  }

  /** The number a string of digits denotes. */
  function Value(digits: Bytes): int {
    if digits == [] then 0
    else Value(digits[..|digits| - 1]) * 10 + (digits[|digits| - 1] as int - 0x30)
  }

  /** A decimal literal by its parts: an optional sign, an integer part, an optional fraction. */
  datatype Literal = Literal(negative: bool, integer: Bytes, fraction: Option<Bytes>) {
    predicate WellFormed() {
      AllDigits(integer) && (fraction.Some? ==> AllDigits(fraction.value))
    }

    function Fraction(): Bytes { if fraction.Some? then fraction.value else [] }

    function Text(): Bytes {
      (if negative then [MINUS] else []) + integer + (if fraction.Some? then [DOT] + fraction.value else [])
    }

    /** The absolute value in units of 10^-scale. */
    function Magnitude(scale: nat): int
      requires |Fraction()| <= scale
    {
      Value(integer) * Pow10(scale) + Value(Fraction()) * Pow10(scale - |Fraction()|)
    }
  }

  lemma {:induction false} Pow10Sum(m: nat, n: nat)
    ensures Pow10(m + n) == Pow10(m) * Pow10(n)
  {
    if m > 0 {
      Pow10Sum(m - 1, n);
      assert Pow10(m + n) == 10 * (Pow10(m - 1) * Pow10(n)) == (10 * Pow10(m - 1)) * Pow10(n);
    }
  }

  lemma {:induction false} Pow10Monotone(m: nat, n: nat)
    requires m <= n
    ensures Pow10(m) <= Pow10(n)
    decreases n
  {
    if m < n {
      Pow10Monotone(m, n - 1);
    }
  }

  /** k digits denote less than 10^k, and at least 10^(k-1) unless the first digit is a zero. */
  lemma {:induction false} ValueBounds(digits: Bytes)
    requires forall i | 0 <= i < |digits| :: IsDigit(digits[i])
    ensures 0 <= Value(digits) < Pow10(|digits|)
    ensures digits != [] && digits[0] != ZERO ==> Pow10(|digits| - 1) <= Value(digits)
  {
    if |digits| > 1 {
      ValueBounds(digits[..|digits| - 1]);
    }
  }

  lemma {:induction false} LeadingZero(digits: Bytes)
    requires digits != [] && digits[0] == ZERO
    ensures Value(digits) == Value(digits[1..])
  {
    if |digits| > 1 {
      LeadingZero(digits[..|digits| - 1]);
      assert digits[1..][..|digits| - 2] == digits[..|digits| - 1][1..];
    }
  }

  lemma {:induction false} TrimZerosKeepsValue(digits: Bytes)
    ensures Value(TrimZeros(digits)) == Value(digits)
    ensures TrimZeros(digits) != [] ==> TrimZeros(digits)[0] != ZERO
    ensures TrimZeros(digits) == digits[|digits| - |TrimZeros(digits)|..]
  {
    if digits != [] && digits[0] == ZERO {
      LeadingZero(digits);
      TrimZerosKeepsValue(digits[1..]);
    }
  }

  /** Counting the digits after the leading zeros bounds the number. */
  lemma DigitCount(digits: Bytes, k: nat)
    requires forall i | 0 <= i < |digits| :: IsDigit(digits[i])
    ensures |TrimZeros(digits)| <= k <==> Value(digits) < Pow10(k)
  {
    var t := TrimZeros(digits);
    TrimZerosKeepsValue(digits);
    ValueBounds(t);
    if |t| <= k {
      Pow10Monotone(|t|, k);
    } else {
      Pow10Monotone(k, |t| - 1);
    }
  }

  lemma ScaledBound(i: int, f: int, unit: int, bound: int)
    requires 0 <= i && 0 <= f < unit && 0 <= bound
    ensures i * unit + f < bound * unit <==> i < bound
  {
    if i < bound {
      assert (i + 1) * unit <= bound * unit;
    } else {
      assert i * unit >= bound * unit;
    }
  }

  lemma FractionBelowUnit(digits: Bytes, scale: nat)
    requires forall i | 0 <= i < |digits| :: IsDigit(digits[i])
    requires |digits| <= scale
    ensures 0 <= Value(digits) * Pow10(scale - |digits|) < Pow10(scale)
  {
    var v, p := Value(digits), Pow10(scale - |digits|);
    ValueBounds(digits);
    Pow10Sum(|digits|, scale - |digits|);
    ScaledBound(v, 0, p, Pow10(|digits|));
    assert 0 <= v * p;
  }

  /** The digit count is the numeric bound: |value| * 10^scale < 10^precision. */
  lemma MagnitudeBound(l: Literal, precision: nat, scale: nat)
    requires l.WellFormed() && |l.Fraction()| <= scale <= precision
    ensures |TrimZeros(l.integer)| + scale <= precision <==> l.Magnitude(scale) < Pow10(precision)
  {
    var i, f, unit := Value(l.integer), Value(l.Fraction()) * Pow10(scale - |l.Fraction()|), Pow10(scale);
    DigitCount(l.integer, precision - scale);
    ValueBounds(l.integer);
    FractionBelowUnit(l.Fraction(), scale);
    Pow10Sum(precision - scale, scale);
    ScaledBound(i, f, unit, Pow10(precision - scale));
  }

  /** A well-formed literal is taken apart exactly as it was put together. */
  lemma LiteralParts(l: Literal)
    requires l.WellFormed()
    ensures var s := TrimSign(l.Text());
            Before(s, DOT) == l.integer && After(s, DOT) == l.Fraction() && (DOT in s <==> l.fraction.Some?)
  {
    var s := TrimSign(l.Text());
    assert l.integer[0] != MINUS;
    if l.fraction.Some? {
      assert s == l.integer + [DOT] + l.fraction.value;
      CutUnique(l.integer, DOT, l.fraction.value);
    } else {
      assert s == l.integer;
    }
  }

  /** The literal `s` spells, if it spells one. */
  function Parts(s: Bytes): Literal {
    var t := TrimSign(s);
    Literal(t != s, Before(t, DOT), if DOT in t then Some(After(t, DOT)) else None)
  }

  lemma PartsText(s: Bytes)
    ensures Parts(s).Text() == s
  {
    var t := TrimSign(s);
    var sign: Bytes := if t != s then [MINUS] else [];
    assert s == sign + t;
    TextOfParts(sign, t, Before(t, DOT), After(t, DOT));
  }

  lemma TextOfParts(sign: Bytes, t: Bytes, a: Bytes, b: Bytes)
    ensures t == a + [DOT] + b ==> sign + a + ([DOT] + b) == sign + t
    ensures sign + a + [] == sign + a
  {
  }

  ghost predicate Denotes(s: Bytes, l: Literal) {
    l.WellFormed() && l.Text() == s
  }

  /** The verdict on a literal is the numeric one, for every literal. */
  lemma FitsLiteral(l: Literal, precision: nat, scale: nat)
    requires l.WellFormed() && scale <= precision
    ensures FitsDecimal(l.Text(), precision, scale) <==>
            |l.Fraction()| <= scale && l.Magnitude(scale) < Pow10(precision)
  {
    LiteralParts(l);
    if |l.Fraction()| <= scale {
      MagnitudeBound(l, precision, scale);
    }
  }

  /** What fits is exactly what spells a literal -?digits(.digits)? of at most `scale` decimals
      whose magnitude is below 10^precision units of 10^-scale. */
  lemma FitsDecimalExact(s: Bytes, precision: nat, scale: nat)
    requires scale <= precision
    ensures FitsDecimal(s, precision, scale) <==>
            exists l: Literal :: Denotes(s, l) && |l.Fraction()| <= scale && l.Magnitude(scale) < Pow10(precision)
  {
    if FitsDecimal(s, precision, scale) {
      PartsText(s);
      FitsLiteral(Parts(s), precision, scale);
      assert Denotes(s, Parts(s));
    }
    forall l: Literal | Denotes(s, l) ensures FitsDecimal(s, precision, scale) <==>
        |l.Fraction()| <= scale && l.Magnitude(scale) < Pow10(precision)
    {
      FitsLiteral(l, precision, scale);
    }
  }

  /** A column with fewer digits than decimals holds nothing at all, whatever its value. */
  lemma NoRoomForScale(s: Bytes, precision: int, scale: int)
    requires precision < scale
    ensures !FitsDecimal(s, precision, scale)
  {
  }

  /** Neither a sign nor leading zeros change the verdict. */
  lemma SignAndZerosAreFree(l: Literal, zeros: nat, precision: int, scale: int)
    requires l.WellFormed()
    ensures var padded := Literal(!l.negative, seq(zeros, _ => ZERO) + l.integer, l.fraction);
            FitsDecimal(padded.Text(), precision, scale) <==> FitsDecimal(l.Text(), precision, scale)
  {
    var z: Bytes := seq(zeros, _ => ZERO);
    var padded := Literal(!l.negative, z + l.integer, l.fraction);
    assert padded.WellFormed();
    LiteralParts(l);
    LiteralParts(padded);
    TrimZerosAfterZeros(z, l.integer);
  }

  lemma {:induction false} TrimZerosAfterZeros(z: Bytes, s: Bytes)
    requires forall i | 0 <= i < |z| :: z[i] == ZERO
    ensures TrimZeros(z + s) == TrimZeros(s)
  {
    if z == [] {
      assert z + s == s;
    } else {
      assert (z + s)[1..] == z[1..] + s;
      TrimZerosAfterZeros(z[1..], s);
    }
  }
}

/** Double to integer conversion truncates and saturates, and it undoes the
    integer to double conversion exactly where nothing was rounded away. */
module FpuTrunc {
  import opened Words
  import opened Tags
  import opened Rounding
  import opened Fpu
  import opened FpuInt

  const INFINITY64: nat := 0x7FF0_0000_0000_0000

  /** The integer part of a finite nonzero double, all ones when too large. */
  function IntegerPart(e: nat, m: nat): nat {
    var sig := if e == 0 then m else Pow2(52) + m;
    if e >= 1075 then
      var wide := if e - 1075 >= 64 then Pow2(128) - 1 else ShiftLeft(sig, e - 1075);
      if wide >= TWO64 then TWO64 - 1 else wide
    else if e == 0 || 1075 - e >= 53 then 0
    else ShiftRight(sig, 1075 - e)
  }

  function MaxPositive(word: bool): nat {
    if word then TWO31 - 1 else TWO63 - 1
  }

  function MinNegative(word: bool): nat {
    if word then TWO64 - TWO31 else TWO63
  }

  function MaxUnsigned(word: bool): nat {
    if word then TWO32 - 1 else TWO64 - 1
  }

  /** The sign applied, and the target's bounds. */
  function Saturated(sign: bool, mag: nat, signed: bool, word: bool): int {
    if signed then
      if sign then (if mag > MaxPositive(word) + 1 then MinNegative(word) else Wrap(0 - mag))
      else (if mag > MaxPositive(word) then MaxPositive(word) else mag)
    else if sign then 0
    else if mag > MaxUnsigned(word) then MaxUnsigned(word) else mag
  }

  /** Double to integer, with the pattern given as its sign and its other bits. */
  function DoubleToInt(sign: bool, b: nat, signed: bool, word: bool): int {
    var e, m := Exponent(52, b), Mantissa(52, b);
    if e == 0x7FF && m != 0 then (if signed then MaxPositive(word) else MaxUnsigned(word))
    else if e == 0x7FF then
      if signed then (if sign then MinNegative(word) else MaxPositive(word))
      else (if sign then 0 else MaxUnsigned(word))
    else if b == 0 then 0
    else Saturated(sign, IntegerPart(e, m), signed, word)
  }

  function Min(a: int, b: int): int {
    if a <= b then a else b
  }

  /** The integer part is the floor of the value, saturated at 64 ones. */
  lemma IntegerPartIsFloor(b: nat)
    requires Exponent(52, b) < 0x7FF
    ensures IntegerPart(Exponent(52, b), Mantissa(52, b)) == Min(Value(52, b) / One(F64()), TWO64 - 1)
  {
    var e, m := Exponent(52, b), Mantissa(52, b);
    FloorOfFields(e, m, 1075);
  }

  lemma FloorOfFields(e: nat, m: nat, c: nat)
    requires m < Pow2(52) && c == 1075
    ensures IntegerPart(e, m)
         == Min((if e == 0 then m else (Pow2(52) + m) * Pow2(e - 1)) / Pow2(c - 1), TWO64 - 1)
  {
    hide ShiftLeft, Pow2;
    var sig := Pow2(52) + m;
    Pow2Step(52);
    if e >= c {
      WholeFloor(sig, e, c);
      if e - c >= 64 { HugeShift(sig, e - c); }
    } else if e == 0 {
      SmallQuotient(m, 52, c - 1);
    } else {
      FractionFloor(sig, e, c);
      if c - e >= 53 { SmallQuotient(sig, 53, c - e); }
      ShiftRightBound(sig, c - e);
    }
  }

  lemma ShiftRightBound(x: nat, n: nat)
    requires n > 0 && x < Pow2(53)
    ensures ShiftRight(x, n) < TWO64
  {
    Pow2Mono(53, 64);
    Pow2Values();
    QuotientAtMost(x, Pow2(n));
  }

  lemma QuotientAtMost(x: nat, d: nat)
    requires d > 0
    ensures x / d <= x
  {
    MulMono(1, d, x / d);
    Division(x, d);
  }

  lemma WholeFloor(sig: nat, e: nat, c: nat)
    requires e >= c >= 1
    ensures sig * Pow2(e - 1) / Pow2(c - 1) == ShiftLeft(sig, e - c)
  {
    var k := Pow2(c - 1);
    Pow2Add(e - c, c - 1);
    Assoc(sig, Pow2(e - c), k);
    DivModIs(sig * Pow2(e - 1), sig * Pow2(e - c), 0, k);
  }

  lemma HugeShift(sig: nat, n: nat)
    requires n >= 64 && sig > 0
    ensures ShiftLeft(sig, n) >= TWO64 && Pow2(128) - 1 >= TWO64
  {
    Pow2Mono(64, n);
    Pow2Mono(65, 128);
    Pow2Values();
    MulMono(1, sig, Pow2(n));
  }

  lemma SmallQuotient(x: nat, k: nat, n: nat)
    requires x < Pow2(k) && k <= n
    ensures x / Pow2(n) == 0
  {
    Pow2Mono(k, n);
    DivModIs(x, 0, x, Pow2(n));
  }

  lemma FractionFloor(sig: nat, e: nat, c: nat)
    requires 1 <= e < c
    ensures sig * Pow2(e - 1) / Pow2(c - 1) == ShiftRight(sig, c - e)
  {
    Pow2Add(c - e, e - 1);
    CancelFloor(sig, Pow2(c - e), Pow2(e - 1));
  }

  lemma CancelFloor(x: nat, d: nat, k: nat)
    requires d > 0 && k > 0
    ensures d * k > 0 && (x * k) / (d * k) == x / d
  {
    var q, r := x / d, x % d;
    Division(x, d);
    Distribute(q * d, r, k);
    Assoc(q, d, k);
    ProductBounds(r, 0, d, k);
    QuotientIs(x * k, q, r * k, d * k);
  }

  lemma QuotientIs(x: nat, q: nat, r: nat, n: nat)
    requires r < n && x == q * n + r
    ensures x / n == q
  {
    DivModIs(x, q, r, n);
  }

  // ---- Converting there and back -----------------------------------------

  /** The magnitude needs no more than the 53 significand bits of a double. */
  predicate Representable(mag: nat) {
    mag == 0 || Msb(mag) <= 52 || mag % Pow2(Msb(mag) - 52) == 0
  }

  /** The 53-bit significand after the rounding increment. */
  function RoundedSig(mag: nat): nat
    requires mag > 0
  {
    Shifted(52, mag, Msb(mag)) + (if IntRoundsUp(52, mag, Msb(mag), false) then 1 else 0)
  }

  /** The integer a magnitude becomes when it is rounded to a double. */
  function RoundedInt(mag: nat): nat {
    if mag == 0 || Msb(mag) <= 52 then mag else ShiftLeft(RoundedSig(mag), Msb(mag) - 52)
  }

  lemma RoundedIntExact(mag: nat)
    ensures RoundedInt(mag) == mag <==> Representable(mag)
  {
    if mag > 0 && Msb(mag) > 52 {
      RightShiftRounds(52, mag, false);
      Distribute(Shifted(52, mag, Msb(mag)), 1, Pow2(Msb(mag) - 52));
    }
  }

  lemma RoundedIntBound(mag: nat)
    requires mag > 0
    ensures RoundedInt(mag) <= Pow2(Msb(mag) + 1)
  {
    var msb := Msb(mag);
    if msb > 52 {
      ShiftedIsSignificand(52, mag);
      Pow2Add(53, msb - 52);
      MulMono(RoundedSig(mag), Pow2(53), Pow2(msb - 52));
    }
  }

  /** The pattern's value is the rounded integer, whole units of one. */
  lemma PatternValue(f: Format, mag: nat)
    requires mag > 0 && f.mant == 52 && f.bias > 0
    ensures Value(52, IntPattern(f, mag, false)) == RoundedInt(mag) * One(f)
  {
    IncrementedValue(f, mag);
    PatternUnits(f, mag);
  }

  lemma IncrementedValue(f: Format, mag: nat)
    requires mag > 0 && f.mant == 52 && f.bias > 0
    ensures Value(52, IntPattern(f, mag, false)) == RoundedSig(mag) * Pow2(Msb(mag) + f.bias - 1)
  {
    TruncatedValue(f, mag);
    IncrementCarries(f, mag, false);
    AddUlp(52, Truncated(f, mag), IntPattern(f, mag, false),
           Shifted(52, mag, Msb(mag)), RoundedSig(mag), Pow2(Msb(mag) + f.bias - 1));
  }

  lemma TruncatedValue(f: Format, mag: nat)
    requires mag > 0 && f.mant == 52 && f.bias > 0
    ensures Value(52, Truncated(f, mag)) == Shifted(52, mag, Msb(mag)) * Pow2(Msb(mag) + f.bias - 1)
    ensures Ulp(52, Truncated(f, mag)) == Pow2(Msb(mag) + f.bias - 1)
  {
    ShiftedIsSignificand(52, mag);
    NormalValue(52, Msb(mag) + f.bias, Shifted(52, mag, Msb(mag)));
  }

  lemma AddUlp(p: nat, x: nat, b: nat, s: nat, t: nat, unit: nat)
    requires Value(p, x) == s * unit && Ulp(p, x) == unit
    requires x <= b <= x + 1 && b - x == t - s
    ensures Value(p, b) == t * unit
  {
    ValueNext(p, x);
    Distribute(s, 1, unit);
  }

  lemma PatternUnits(f: Format, mag: nat)
    requires mag > 0 && f.bias > 0 && f.mant == 52
    ensures RoundedSig(mag) * Pow2(Msb(mag) + f.bias - 1) == RoundedInt(mag) * One(f)
  {
    var msb := Msb(mag);
    if msb <= 52 {
      Pow2Add(52 - msb, msb + f.bias - 1);
      Assoc(mag, Pow2(52 - msb), Pow2(msb + f.bias - 1));
      ExactBelow(mag, 52);
    } else {
      Pow2Add(msb - 52, f.bias - 1 + 52);
      Assoc(RoundedSig(mag), Pow2(msb - 52), One(f));
    }
  }

  lemma ExactBelow(mag: nat, p: nat)
    requires mag > 0 && Msb(mag) <= p
    ensures !IntRoundsUp(p, mag, Msb(mag), false)
    ensures Shifted(p, mag, Msb(mag)) == mag * Pow2(p - Msb(mag))
  {
  }

  lemma PatternIsFinite(f: Format, mag: Word)
    requires mag > 0 && f == F64()
    ensures 0 < Exponent(52, IntPattern(f, mag, false)) < 0x7FF
  {
    IncrementCarries(f, mag, false);
    ShiftedIsSignificand(52, mag);
    NormalFields(52, Msb(mag) + f.bias, Shifted(52, mag, Msb(mag)));
    NextExponent(52, Truncated(f, mag));
    Pow2Values();
    TopBelow(mag, 64);
  }

  lemma NextExponent(p: nat, b: nat)
    ensures Exponent(p, b) <= Exponent(p, b + 1) <= Exponent(p, b) + 1
  {
    DivModNext(b, Pow2(p));
  }

  lemma TopBelow(mag: nat, n: nat)
    requires 0 < mag < Pow2(n)
    ensures Msb(mag) < n
  {
    if Msb(mag) >= n { Pow2Mono(n, Msb(mag)); }
  }

  lemma IntegerPartOfConverted(f: Format, mag: Word)
    requires mag > 0 && f == F64()
    ensures var b := IntPattern(f, mag, false);
            IntegerPart(Exponent(52, b), Mantissa(52, b)) == Min(RoundedInt(mag), TWO64 - 1)
  {
    PatternIsFinite(f, mag);
    IntegerPartIsFloor(IntPattern(f, mag, false));
    PatternValue(f, mag);
    DivModIs(RoundedInt(mag) * One(f), RoundedInt(mag), 0, One(f));
  }

  /** On a finite nonzero double only the saturation bounds are left. */
  lemma ToIntOfFinite(sign: bool, b: nat, signed: bool)
    requires 0 < Exponent(52, b) < 0x7FF
    ensures DoubleToInt(sign, b, signed, false)
         == Saturated(sign, IntegerPart(Exponent(52, b), Mantissa(52, b)), signed, false)
  {
    hide IntegerPart, Saturated, Mantissa;
    if b == 0 { ZeroDivided(Pow2(52)); }
  }

  lemma ZeroDivided(d: nat)
    requires d > 0
    ensures Quot(0, d) == 0
  {
    DivModIs(0, 0, 0, d);
  }

  lemma SaturatedIs(sign: bool, mag: nat, signed: bool)
    ensures Saturated(sign, mag, signed, false)
         == (if signed then (if sign then Wrap(0 - Min(mag, TWO63)) else Min(mag, TWO63 - 1))
             else if sign then 0 else Min(mag, TWO64 - 1))
  {
  }

  lemma ZeroToInt(sign: bool, signed: bool)
    ensures DoubleToInt(sign, 0, signed, false) == 0
  {
    DivModIs(0, 0, 0, Pow2(52));
  }

  /** Signed 64-bit, from magnitude and sign as the unit splits it: the double
      converts back to the integer exactly when that has at most 53 significant
      bits, or is the largest one, where the saturated result happens to be
      right. */
  lemma SignedRoundTripIff(mag: Word, negative: bool)
    requires mag <= TWO63 && (mag == TWO63 ==> negative)
    ensures DoubleToInt(negative, IntPattern(F64(), mag, false), true, false) == Wrap(if negative then 0 - mag else mag)
            <==> Representable(mag) || (mag == TWO63 - 1 && !negative)
  {
    if mag > 0 {
      hide DoubleToInt, RoundedInt, IntPattern, Representable, F64;
      Converted(F64(), mag, negative, true);
      WrapInjective(RoundedInt(mag), mag);
      hide Wrap;
      assert Min(RoundedInt(mag), TWO63) == RoundedInt(mag);
    } else {
      ZeroToInt(negative, true);
    }
  }

  lemma WrapInjective(a: int, b: int)
    requires 0 <= a <= TWO63 && 0 <= b <= TWO63
    ensures Wrap(0 - a) == Wrap(0 - b) <==> a == b
    ensures Wrap(b) == b
  {
    WrapMinus(a);
    WrapMinus(b);
  }

  lemma WrapMinus(a: int)
    requires 0 <= a <= TWO63
    ensures Wrap(0 - a) == if a == 0 then 0 else TWO64 - a
  {
  }

  lemma Converted(f: Format, mag: Word, sign: bool, signed: bool)
    requires mag > 0 && f == F64()
    ensures DoubleToInt(sign, IntPattern(f, mag, false), signed, false)
         == (if signed then (if sign then Wrap(0 - Min(RoundedInt(mag), TWO63)) else Min(RoundedInt(mag), TWO63 - 1))
             else if sign then 0 else Min(RoundedInt(mag), TWO64 - 1))
    ensures RoundedInt(mag) == mag <==> Representable(mag)
    ensures mag <= TWO63 ==> RoundedInt(mag) <= TWO63
    ensures mag == TWO63 - 1 ==> RoundedInt(mag) == TWO63
    ensures mag == TWO64 - 1 ==> RoundedInt(mag) == TWO64
    ensures RoundedInt(mag) <= TWO64
  {
    hide DoubleToInt, RoundedInt, IntPattern, IntegerPart, Exponent, Mantissa, Representable, Saturated;
    PatternIsFinite(f, mag);
    ToIntOfFinite(sign, IntPattern(f, mag, false), signed);
    SaturatedIs(sign, Min(RoundedInt(mag), TWO64 - 1), signed);
    IntegerPartOfConverted(f, mag);
    RoundedIntExact(mag);
    RoundedWithin(mag);
  }

  /** Unsigned 64-bit: likewise, with the all-ones word the saturated case. */
  lemma UnsignedRoundTripIff(mag: Word)
    ensures DoubleToInt(false, IntPattern(F64(), mag, false), false, false) == mag
            <==> Representable(mag) || mag == TWO64 - 1
  {
    if mag > 0 { Converted(F64(), mag, false, false); } else { ZeroToInt(false, false); }
  }

  /** Rounding up past a power of two stops at that power. */
  lemma RoundedWithin(mag: Word)
    requires mag > 0
    ensures mag <= TWO63 ==> RoundedInt(mag) <= TWO63
    ensures mag == TWO63 - 1 ==> RoundedInt(mag) == TWO63
    ensures mag == TWO64 - 1 ==> RoundedInt(mag) == TWO64
    ensures RoundedInt(mag) <= TWO64
  {
    Pow2Values();
    TopBelow(mag, 64);
    RoundedIntBound(mag);
    Pow2Mono(Msb(mag) + 1, 64);
    if mag < TWO63 {
      TopBelow(mag, 63);
      Pow2Mono(Msb(mag) + 1, 63);
    }
    if mag == TWO63 { PowerOfTwoFits(mag, 63); }
    if mag == TWO63 - 1 { AllOnesRoundUp(mag, 63); }
    if mag == TWO64 - 1 { AllOnesRoundUp(mag, 64); }
  }

  lemma PowerOfTwoFits(mag: nat, n: nat)
    requires n > 52 && mag == Pow2(n)
    ensures RoundedInt(mag) == mag
  {
    MsbIs(mag, n);
    Pow2Add(52, n - 52);
    DivModIs(mag, Pow2(52), 0, Pow2(n - 52));
    RoundedIntExact(mag);
  }

  lemma AllOnesRoundUp(mag: nat, n: nat)
    requires n >= 55 && mag == Pow2(n) - 1
    ensures RoundedInt(mag) == Pow2(n)
  {
    assert Msb(mag) == n - 1 by { MsbIs(mag, n - 1); }
    assert ShiftLeft(Pow2(53), n - 53) == Pow2(53) * Pow2(n - 53);
    hide IntRoundsUp, Shifted, ShiftLeft, RoundedSig;
    assert Pow2(n) == Pow2(53) * Pow2(n - 53) by { Pow2Add(53, n - 53); }
    assert Pow2(n - 53) > 2 by { Pow2Mono(2, n - 53); }
    AllOnesFields(mag, Pow2(53) - 1, Pow2(n - 53));
    AllOnesSig(mag, n);
  }

  lemma AllOnesSig(mag: nat, n: nat)
    requires n >= 55 && mag > 0 && Msb(mag) == n - 1
    requires var unit := Pow2(n - 53);
             unit > 2 && mag / unit == Pow2(53) - 1 && mag % unit == unit - 1
    ensures RoundedSig(mag) == Pow2(53)
  {
    RightShiftRounds(52, mag, false);
  }

  lemma AllOnesFields(mag: nat, s: nat, unit: nat)
    requires unit > 0 && mag == (s + 1) * unit - 1
    ensures mag / unit == s && mag % unit == unit - 1
  {
    Distribute(s, 1, unit);
    DivModIs(mag, s, unit - 1, unit);
  }

  /** So every integer of magnitude up to 2^53 survives. */
  lemma SmallIsRepresentable(mag: nat)
    requires mag <= Pow2(53)
    ensures Representable(mag)
  {
    if mag > 0 {
      Pow2Step(53);
      TopBelow(mag, 54);
      if Msb(mag) == 53 { Pow2Step(52); Parity(Pow2(52)); }
    }
  }
}

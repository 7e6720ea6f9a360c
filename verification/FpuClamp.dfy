/** Double to integer on every input: the value truncated toward zero and
    clamped to the target's range; what happens to infinities and NaNs in all
    three conversions. */
module FpuClamp {
  import opened Words
  import opened Tags
  import opened Rounding
  import opened Fpu
  import opened FpuTrunc
  import FpuInt
  import opened FpuWidth
  import opened FpuWidthTheorems

  function Least(signed: bool, word: bool): int {
    if !signed then 0 else if word then -TWO31 else -TWO63
  }

  function Greatest(signed: bool, word: bool): int {
    if signed then (if word then TWO31 - 1 else TWO63 - 1) else if word then TWO32 - 1 else TWO64 - 1
  }

  function Clamp(x: int, signed: bool, word: bool): int {
    if x < Least(signed, word) then Least(signed, word)
    else if x > Greatest(signed, word) then Greatest(signed, word)
    else x
  }

  /** The whole part of a finite double's magnitude. */
  function Whole(b: nat): nat {
    Quot(Value(52, b), Pow2(1074))
  }

  /** The value of a finite double, truncated toward zero. */
  function Truncated64(sign: bool, b: nat): int {
    if sign then 0 - Whole(b) else Whole(b)
  }

  /** How the target register is read. */
  function Read(signed: bool, result: int): int
    requires 0 <= result < TWO64
  {
    if signed then Signed(result) else result
  }

  /** Every finite double, both signs, all four targets. */
  lemma FiniteIsClamped(sign: bool, b: nat, signed: bool, word: bool)
    requires Exponent(52, b) < 0x7FF
    ensures 0 <= DoubleToInt(sign, b, signed, word) < TWO64
    ensures Read(signed, DoubleToInt(sign, b, signed, word)) == Clamp(Truncated64(sign, b), signed, word)
  {
    hide IntegerPart, Exponent, Mantissa, Whole;
    WholeIs(b);
    if b == 0 { ZeroIsWhole(); }
    SaturationClamps(sign, Whole(b), signed, word);
  }

  lemma WholeIs(b: nat)
    requires Exponent(52, b) < 0x7FF
    ensures IntegerPart(Exponent(52, b), Mantissa(52, b)) == Min(Whole(b), TWO64 - 1)
  {
    hide IntegerPart, Exponent, Mantissa, Value, Pow2;
    IntegerPartIsFloor(b);
  }

  lemma ZeroIsWhole()
    ensures Whole(0) == 0
  {
    hide Pow2;
    ZeroDivided(Pow2(52));
    ZeroDivided(Pow2(1074));
    ZeroRemainder(Pow2(52));
  }

  lemma SaturationClamps(sign: bool, n: nat, signed: bool, word: bool)
    ensures 0 <= Saturated(sign, Min(n, TWO64 - 1), signed, word) < TWO64
    ensures Read(signed, Saturated(sign, Min(n, TWO64 - 1), signed, word)) == Clamp(if sign then 0 - n else n, signed, word)
  {
    hide Wrap;
    NegatedPattern(Min(n, TWO64 - 1));
  }

  lemma NegatedPattern(m: nat)
    requires m < TWO64
    ensures Wrap(0 - m) == if m == 0 then 0 else TWO64 - m
  {
    if m > 0 { ModUnique(0 - m, -1, TWO64 - m, TWO64); }
  }

  /** An infinity is clamped like a number beyond the range; a NaN of either
      sign becomes the greatest value. */
  lemma SpecialIsClamped(sign: bool, b: nat, signed: bool, word: bool)
    requires Exponent(52, b) == 0x7FF
    ensures 0 <= DoubleToInt(sign, b, signed, word) < TWO64
    ensures Read(signed, DoubleToInt(sign, b, signed, word))
         == if Mantissa(52, b) == 0 && sign then Least(signed, word) else Greatest(signed, word)
  {
    hide Exponent, Mantissa;
  }

  // ---- Infinities and NaNs between the widths ------------------------------

  /** Narrowing keeps an infinity an infinity, a NaN a NaN with its top 23
      payload bits (the quiet bit when those are zero), and makes neither out
      of a NaN nor a NaN out of anything else. */
  lemma NarrowKeepsClass(b: nat)
    requires b < TWO63
    ensures Narrow(b) > INFINITY32 <==> b > INFINITY64
    ensures b == INFINITY64 ==> Narrow(b) == INFINITY32
    ensures b > INFINITY64 ==>
      var payload := Quot(Mantissa(52, b), Pow2(29));
      Narrow(b) == INFINITY32 + if payload == 0 then 0x40_0000 else payload
  {
    SpecialBoundary(b);
    if Exponent(52, b) < 0x7FF { NarrowIsFinite(b); } else { PayloadFits(b); }
  }

  lemma SpecialBoundary(b: nat)
    requires b < TWO63
    ensures Exponent(52, b) == 0x7FF <==> b >= INFINITY64
    ensures Exponent(52, b) == 0x7FF ==> Mantissa(52, b) == b - INFINITY64
    ensures Exponent(52, b) <= 0x7FF
  {
    Pow52();
    Division(b, Pow2(52));
    hide Pow2;
    Binade(b, Quot(b, 0x10_0000_0000_0000), b % 0x10_0000_0000_0000);
  }

  lemma Binade(b: nat, e: nat, m: nat)
    requires b < TWO63 && m < 0x10_0000_0000_0000 && b == e * 0x10_0000_0000_0000 + m
    ensures e == 0x7FF <==> b >= INFINITY64
    ensures e == 0x7FF ==> m == b - INFINITY64
    ensures e <= 0x7FF
  {
  }

  lemma NarrowIsFinite(b: nat)
    requires Exponent(52, b) < 0x7FF
    ensures Narrow(b) <= INFINITY32
  {
    var e, m := Exponent(52, b), Mantissa(52, b);
    hide Exponent, Mantissa, NarrowNormal, NarrowSubnormal, Pow2, Cut, CutUp;
    FractionFits(b);
    if 896 < e < 1151 { NarrowIncrements(e, m); }
    if 0 < e <= 896 { SubnormalIsHalved(e, m); SmallPower(); }
  }

  lemma FractionFits(b: nat)
    ensures Mantissa(52, b) < Pow2(52)
  {
    ModBelow(b, Pow2(52));
  }

  lemma SmallPower()
    ensures Pow2(23) <= INFINITY32
  {
    Power23();
  }

  lemma PayloadFits(b: nat)
    ensures Quot(Mantissa(52, b), Pow2(29)) < Pow2(23) == 0x80_0000
  {
    FractionFits(b);
    Pow2Add(23, 29);
    hide Pow2;
    FpuInt.QuotientBounds(Mantissa(52, b), 0, Pow2(23), Pow2(29));
    Power23();
  }

  lemma Power23()
    ensures Pow2(23) == 0x80_0000
  {
    Shift23(0);
  }

  /** Widening keeps infinities and NaNs, payload in the top bits. */
  lemma WidenKeepsClass(a: nat)
    requires a < 0x8000_0000
    ensures a == INFINITY32 ==> Widen(a) == INFINITY64
    ensures a > INFINITY32 ==> Widen(a) == INFINITY64 + (a - INFINITY32) * 0x2000_0000
  {
    if a >= INFINITY32 {
      SingleSpecial(a);
      SpecialShift(a - INFINITY32);
      hide Pow2;
    }
  }

  lemma SingleSpecial(a: nat)
    requires INFINITY32 <= a < 0x8000_0000
    ensures Exponent(23, a) == 255 && Mantissa(23, a) == a - INFINITY32
  {
    Power23();
    hide Pow2;
    DivModIs(a, 255, a - INFINITY32, 0x80_0000);
  }

  lemma SpecialShift(m: nat)
    ensures ShiftLeft(0x7FF, 52) == INFINITY64 && ShiftLeft(m, 29) == m * 0x2000_0000
  {
    Pow52();
    hide Pow2;
    Power29();
  }

  lemma Power29()
    ensures Pow2(29) == 0x2000_0000
  {
    Pow2Values();
    Power23();
    Pow2Add(6, 23);
  }

  // ---- A subnormal single, widened -----------------------------------------

  /** The normalised fraction with its top bit dropped. */
  lemma DroppedFraction(m: nat)
    requires 0 < m < Pow2(23)
    ensures Msb(m) <= 22 && Pow2(Msb(m)) <= m
    ensures Normalised(m) % Pow2(22) == (2 * (m - Pow2(Msb(m)))) % Pow2(Msb(m)) * Pow2(22 - Msb(m))
  {
    hide *;
    NormalisedIs(m);
    var k := Msb(m);
    var f: nat := m - Pow2(k);
    Pow2Add(k, 23 - k);
    Pow2Add(k, 22 - k);
    Pow2Step(22 - k);
    FractionShift(m, Pow2(k), Pow2(22 - k), Pow2(23), Normalised(m));
    ScaledMod(2 * f, Pow2(k), Pow2(22 - k));
  }

  lemma FractionShift(m: nat, top: nat, p: nat, whole: nat, n: nat)
    requires top <= m && whole == top * (2 * p) && m * (2 * p) == whole + n
    ensures n == 2 * (m - top) * p
  {
  }

  lemma ScaledMod(x: nat, d: nat, p: nat)
    requires d > 0 && p > 0
    ensures d * p > 0 && (x * p) % (d * p) == x % d * p
  {
    Division(x, d);
    Regrouped(x / d, d, x % d, p);
    FieldBound(x % d, d, 0, p);
    DivModIs(x * p, x / d, x % d * p, d * p);
  }

  /** Exactly what is lost: of a subnormal's bits below its top one, the first
      is dropped and the others move up one place. */
  lemma WidenSubnormalIs(m: nat)
    requires 0 < m < Pow2(23)
    ensures Value(52, WidenSubnormal(m)) == (Pow2(Msb(m)) + (2 * (m - Pow2(Msb(m)))) % Pow2(Msb(m))) * Unit()
  {
    hide *;
    DroppedFraction(m);
    WidenSubnormalValue(m);
    ValueOfNormal(52, WidenSubnormal(m));
    UnitIs();
    var k := Msb(m);
    var r := (2 * (m - Pow2(k))) % Pow2(k);
    ShiftIs(Normalised(m) % Pow2(22), 30);
    Pow2Add(22 - k, 30);
    Pow2Add(52 - k, 873 + k);
    Pow2Add(52, 873 + k);
    Pow2Add(k, 925);
    Reassemble(r, Pow2(22 - k), Pow2(30), Pow2(873 + k), Pow2(52 - k), Pow2(925));
    Distribute(Pow2(52), r * Pow2(22 - k) * Pow2(30), Pow2(873 + k));
    Distribute(Pow2(k), r, Pow2(925));
  }

  lemma Reassemble(r: int, a: int, b: int, c: int, ab: int, abc: int)
    requires a * b == ab && ab * c == abc
    ensures r * a * b * c == r * abc
  {
    Threefold(r, a, b);
    Threefold(r, ab, c);
  }

  lemma Threefold(r: int, a: int, b: int)
    ensures r * a * b == r * (a * b)
  {
  }
}

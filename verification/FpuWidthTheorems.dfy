/** Exactly which doubles narrow correctly, which singles widen exactly, and
    which singles survive the round trip. */
module FpuWidthTheorems {
  import opened Words
  import opened Tags
  import opened Rounding
  import opened Fpu
  import opened FpuInt
  import opened FpuTrunc
  import opened FpuWidth

  /** Zero to 2^-150; strictly between 2^-149 and one and a half times that;
      and everything from the least normal single up. */
  predicate NarrowsWell(b: nat) {
    || b <= 0x3690_0000_0000_0000
    || 0x36A0_0000_0000_0000 < b < 0x36A8_0000_0000_0000
    || b >= 0x3810_0000_0000_0000
  }

  lemma WellByFields(b: nat)
    ensures var e, m := Exponent(52, b), Mantissa(52, b);
            NarrowsWell(b) == (e < 873 || (e == 873 && m == 0)
                               || (e == 874 && 0 < m < 0x8_0000_0000_0000) || e >= 897)
    ensures Mantissa(52, b) < 0x10_0000_0000_0000
  {
    Pow52();
  }

  lemma Pow52()
    ensures Pow2(51) == 0x8_0000_0000_0000 && Pow2(52) == 0x10_0000_0000_0000
  {
    Pow2Values();
    Pow2Add(31, 20);
    assert Pow2(20) == 0x10_0000 by {
      Pow2Add(8, 8);
      Pow2Add(16, 4);
    }
  }

  /** Where a double below the single range lies against the least single. */
  lemma TinyRanges(e: nat, m: nat, c: nat)
    requires 0 < e <= 896 && m < Pow2(52) && c == 873
    ensures var num, unit := NormalUnits(e, m), Pow2(c + 52);
            && (e < c || (e == c && m == 0) ==> 2 * num <= unit)
            && (e == c && m > 0 ==> unit < 2 * num && num < unit)
            && (e == c + 1 ==> num == unit + m * Pow2(c) && unit == Pow2(52) * Pow2(c))
            && (e > c + 1 ==> num >= 2 * unit)
  {
    var sig, k := Pow2(52) + m, Pow2(e - 1);
    Pow2Add(53, e - 1);
    Pow2Add(52, e - 1);
    Distribute(Pow2(52), m, k);
    ProductBounds(sig, Pow2(52), Pow2(53), k);
    if e < c { Pow2Mono(52 + e, c + 51); }
    if e > c + 1 { Pow2Mono(c + 53, 51 + e); }
    if e == c { Pow2Add(52, c - 1); MulAtLeast(m, k); }
  }

  lemma SmallValue(b: nat)
    requires b <= Pow2(23)
    ensures Value(23, b) == b
  {
    if b < Pow2(23) { DivModIs(b, 0, b, Pow2(23)); } else { DivModIs(b, 1, 0, Pow2(23)); }
  }

  /** A half rounded to nearest is farther from the number than its successor. */
  lemma HalfIsFarther(r: nat, low: nat, unit: nat, num: nat)
    requires unit > 0 && (r == 0 ==> low == 0) && (r == 1 ==> low == unit) && (r >= 2 ==> low >= 2 * unit)
    requires 2 * low - unit <= num && (r % 2 == 1 ==> 2 * low - unit < num)
    requires (unit < 2 * num && num <= unit) || 2 * num >= 3 * unit
    ensures Gap(low + unit, num) < Gap(low, num) || (Gap(low + unit, num) == Gap(low, num) && r % 2 == 1)
  {
  }

  lemma HalvedLoses(r: nat, unit: nat, num: nat)
    requires unit > 0 && r < Pow2(23) && NearHalf(r, unit, num)
    requires (unit < 2 * num && num <= unit) || 2 * num >= 3 * unit
    ensures !NearestEven(23, num, unit, r)
  {
    hide Value, Pow2;
    SmallValue(r);
    SmallValue(r + 1);
    Distribute(r, 1, unit);
    DoubleStep(r, unit);
    if r >= 2 { MulMono(2, r, unit); }
    HalfIsFarther(r, r * unit, unit, num);
    assert !Beats(23, num, unit, r, r + 1);
  }

  lemma DoubleStep(r: int, unit: int)
    ensures (2 * r - 1) * unit == 2 * (r * unit) - unit
  {
  }

  /** At most half the least single: zero is nearest. */
  lemma ZeroWins(num: nat, unit: nat)
    requires unit > 0 && 2 * num <= unit
    ensures NearestEven(23, num, unit, 0)
  {
    SmallValue(0);
    SmallValue(1);
    BracketedBy(23, num, unit, 0, false, 0, unit);
    BracketRounds(23, num, unit, 0, false);
  }

  /** Between one and one and a half times the least single: one is nearest. */
  lemma OneWins(num: nat, unit: nat)
    requires unit > 0 && unit < num && 2 * num < 3 * unit
    ensures NearestEven(23, num, unit, 1)
  {
    SmallValue(1);
    SmallValue(2);
    BracketedBy(23, num, unit, 1, false, unit, 2 * unit);
    BracketRounds(23, num, unit, 1, false);
  }

  /** ... and half of it rounds to one as well. */
  lemma OneFromHalf(m: nat)
    requires 0 < m < 0x8_0000_0000_0000
    ensures NarrowSubnormal(874, m) == 1
  {
    Pow52();
    var wide := Wide(874, m);
    assert wide == 2 * (Pow2(52) + m) by { WideAt874(Pow2(52) + m); }
    assert Quot(wide, Pow2(53)) == 1 && wide % Pow2(53) == 2 * m by { DivModIs(wide, 1, 2 * m, Pow2(53)); }
    assert Quot(wide, Pow2(54)) == 0 by { DivModIs(wide, 0, wide, Pow2(54)); }
    DivModIs(1, 0, 1, Pow2(23));
  }

  lemma WideAt874(sig: nat)
    ensures ShiftRight(ShiftLeft(sig, 24), 23) == 2 * sig
  {
    Pow2Add(23, 1);
    DivModIs(ShiftLeft(sig, 24), 2 * sig, 0, Pow2(23));
  }

  lemma FiniteMeansNearest(b: nat, r: nat)
    requires r < Pow2(23)
    ensures NarrowsTo(b, r) <==> NearestEven(23, Value(52, b), Unit(), r)
  {
    Shift23(0);
    if NearestEven(23, Value(52, b), Unit(), r) {
      assert r == Min(r, INFINITY32);
    }
  }

  lemma TinyToZero(r: nat, unit: nat, num: nat)
    requires unit > 0 && NearHalf(r, unit, num) && 2 * num <= unit
    ensures r == 0
  {
    DoubleStep(r, unit);
    if r > 0 { MulMono(1, r, unit); }
  }

  /** A subnormal double is nearest to zero. */
  lemma DoubleSubnormalIsTiny(m: nat, n: nat)
    requires m < Pow2(52) && n >= 53
    ensures 2 * m <= Pow2(n)
  {
    Pow2Mono(53, n);
  }

  lemma BelowRange(e: nat, m: nat)
    requires 0 < e <= 896 && m < Pow2(52)
    ensures NarrowSubnormal(e, m) < Pow2(23)
    ensures NearestEven(23, NormalUnits(e, m), Unit(), NarrowSubnormal(e, m))
            <==> e < 873 || (e == 873 && m == 0) || (e == 874 && 0 < m < Pow2(51))
  {
    hide *;
    UnitIs();
    var r, num, unit := NarrowSubnormal(e, m), NormalUnits(e, m), Unit();
    SubnormalIsHalved(e, m);
    TinyRanges(e, m, 873);
    if e < 873 || (e == 873 && m == 0) {
      TinyToZero(r, unit, num);
      ZeroWins(num, unit);
    } else {
      if e == 874 { NearOne(m, 873, num, unit); }
      if e == 874 && 0 < m < Pow2(51) {
        Pow52();
        OneFromHalf(m);
        OneWins(num, unit);
      } else {
        HalvedLoses(r, unit, num);
      }
    }
  }

  lemma NearOne(m: nat, c: nat, num: nat, unit: nat)
    requires num == unit + m * Pow2(c) && unit == Pow2(52) * Pow2(c)
    ensures 0 < m < Pow2(51) ==> unit < num && 2 * num < 3 * unit
    ensures m >= Pow2(51) ==> 2 * num >= 3 * unit
    ensures m == 0 ==> num == unit
  {
    Assoc(2, Pow2(51), Pow2(c));
    if m >= Pow2(51) { MulMono(Pow2(51), m, Pow2(c)); }
    if 0 < m < Pow2(51) { MulAtLeast(m, Pow2(c)); Scaled(m, Pow2(51), Pow2(c)); }
  }

  /** Narrowing a finite double is correctly rounded, overflow to infinity
      included, exactly outside the range where the subnormal path halves it. */
  lemma NarrowIsNearestIff(b: nat)
    requires Exponent(52, b) < 0x7FF
    ensures NarrowsTo(b, Narrow(b)) <==> NarrowsWell(b)
  {
    var e, m := Exponent(52, b), Mantissa(52, b);
    WellByFields(b);
    Pow52();
    if e > 896 {
      NarrowNormalIsNearest(b);
    } else if e == 0 {
      DoubleSubnormalIsTiny(m, 925);
      ZeroWins(Value(52, b), Unit());
      FiniteMeansNearest(b, 0);
    } else {
      BelowRange(e, m);
      FiniteMeansNearest(b, Narrow(b));
    }
  }

  // ---- Single to double --------------------------------------------------

  /** The subnormal's fraction, its top one at bit 22 and then shifted out. */
  function Normalised(m: nat): nat
    requires m > 0
  {
    if Msb(m) >= 23 then 0 else ShiftLeft(m, 23 - Msb(m)) % Pow2(23)
  }

  function WidenSubnormal(m: nat): nat
    requires 0 < m < Pow2(23)
  {
    TopBelow(m, 23);
    ShiftLeft(874 + Msb(m), 52) + ShiftLeft(Normalised(m) % Pow2(22), 30)
  }

  function Widen(a: nat): nat {
    var e, m := Exponent(23, a), Mantissa(23, a);
    if e == 255 then ShiftLeft(0x7FF, 52) + ShiftLeft(m, 29)
    else if e == 0 && m == 0 then 0
    else if e == 0 then WidenSubnormal(m)
    else ShiftLeft(e + 896, 52) + ShiftLeft(m, 29)
  }

  /** The normalising loop: shift left until bit 22 is set, counting. */
  method Normalise(m: nat) returns (ms: nat, lz: nat)
    requires 0 < m < Pow2(23)
    ensures ms == Normalised(m) && lz == 22 - Msb(m)
  {
    TopBelow(m, 23);
    ms, lz := m, 0;
    while ms < Pow2(22)
      invariant ms == ShiftLeft(m, lz) < Pow2(23)
      invariant lz <= 22 - Msb(m)
      decreases 22 - lz
    {
      Pow2Add(1, lz);
      ShiftStep(m, lz);
      if lz == 22 - Msb(m) { TopReached(m, lz); }
      ms, lz := 2 * ms, lz + 1;
    }
    if lz < 22 - Msb(m) { TopNotReached(m, lz); }
    ShiftStep(m, lz);
    ms := 2 * ms % Pow2(23);
  }

  lemma ShiftStep(m: nat, n: nat)
    ensures ShiftLeft(m, n + 1) == 2 * ShiftLeft(m, n)
  {
    Assoc(m, 2, Pow2(n));
    Assoc(2, m, Pow2(n));
  }

  lemma TopReached(m: nat, n: nat)
    requires m > 0 && Msb(m) <= 22 && n == 22 - Msb(m)
    ensures ShiftLeft(m, n) >= Pow2(22)
  {
    Pow2Add(Msb(m), n);
    MulMono(Pow2(Msb(m)), m, Pow2(n));
  }

  lemma TopNotReached(m: nat, n: nat)
    requires m > 0 && Msb(m) <= 22 && n < 22 - Msb(m)
    ensures ShiftLeft(m, n) < Pow2(22)
  {
    Pow2Add(Msb(m) + 1, n);
    Scaled(m, Pow2(Msb(m) + 1), Pow2(n));
    Pow2Mono(Msb(m) + 1 + n, 22);
  }

  /** Both paths give the double the fields they compute. */
  lemma FieldsOf(p: nat, e: nat, m: nat)
    requires m < Pow2(p)
    ensures Exponent(p, ShiftLeft(e, p) + m) == e && Mantissa(p, ShiftLeft(e, p) + m) == m
  {
    DivModIs(ShiftLeft(e, p) + m, e, m, Pow2(p));
  }

  lemma ShiftFits(m: nat, q: nat, n: nat)
    requires m < Pow2(q)
    ensures ShiftLeft(m, n) < Pow2(q + n)
  {
    Pow2Add(q, n);
    Scaled(m, Pow2(q), Pow2(n));
  }

  /** Appending `n` zero bits to the mantissa and rebiasing keeps the value. */
  lemma AppendedZeros(q: nat, n: nat, lift: nat, e: nat, m: nat, unit: nat)
    requires e > 0 && m < Pow2(q) && unit == Pow2(lift + n)
    ensures Value(q + n, ShiftLeft(e + lift, q + n) + ShiftLeft(m, n)) == (Pow2(q) + m) * Pow2(e - 1) * unit
  {
    ShiftFits(m, q, n);
    FieldsOf(q + n, e + lift, ShiftLeft(m, n));
    Pow2Add(q, n);
    Distribute(Pow2(q), m, Pow2(n));
    Pow2Add(n, e + lift - 1);
    Pow2Add(e - 1, lift + n);
    Rescale(Pow2(q) + m, Pow2(n), Pow2(e + lift - 1), Pow2(e - 1), unit);
  }

  lemma WidenNormalIsExact(a: nat)
    requires 0 < Exponent(23, a) < 255
    ensures Value(52, Widen(a)) == Value(23, a) * Unit()
  {
    AppendedZeros(23, 29, 896, Exponent(23, a), Mantissa(23, a), Unit());
  }

  /** Normalising multiplies up to a 24-bit significand. */
  lemma NormalisedIs(m: nat)
    requires 0 < m < Pow2(23)
    ensures Msb(m) <= 22 && m * Pow2(23 - Msb(m)) == Pow2(23) + Normalised(m) && Normalised(m) < Pow2(23)
    ensures Normalised(m) == 0 <==> m == Pow2(Msb(m))
  {
    TopBelow(m, 23);
    var k := Msb(m);
    var d := Pow2(23 - k);
    Pow2Add(k, 23 - k);
    Pow2Add(k + 1, 23 - k);
    ProductBounds(m, Pow2(k), Pow2(k + 1), d);
    DivModIs(m * d, 1, m * d - Pow2(23), Pow2(23));
    if m > Pow2(k) { Scaled(Pow2(k), m, d); }
  }

  lemma ModBelow(x: nat, d: nat)
    requires d > 0
    ensures x % d < d
  {
  }

  lemma WidenSubnormalValue(m: nat)
    requires 0 < m < Pow2(23)
    ensures Exponent(52, WidenSubnormal(m)) == 874 + Msb(m)
    ensures Mantissa(52, WidenSubnormal(m)) == ShiftLeft(Normalised(m) % Pow2(22), 30)
  {
    hide Normalised, ShiftLeft, Pow2, Msb;
    SubnormalFields(874 + Msb(m), Normalised(m));
  }

  lemma SubnormalFields(e: nat, ms: nat)
    ensures var f, b := ShiftLeft(ms % Pow2(22), 30), ShiftLeft(e, 52) + ShiftLeft(ms % Pow2(22), 30);
            Exponent(52, b) == e && Mantissa(52, b) == f
  {
    hide *;
    ModBelow(ms, Pow2(22));
    ShiftFits(ms % Pow2(22), 22, 30);
    FieldsOf(52, e, ShiftLeft(ms % Pow2(22), 30));
  }

  /** The exact widening of a subnormal would keep the whole fraction. */
  lemma SubnormalUnits(m: nat, c: nat)
    requires 0 < m < Pow2(23)
    ensures m * Pow2(c + 52) == (Pow2(52) + ShiftLeft(Normalised(m), 29)) * Pow2(c + Msb(m))
  {
    hide Normalised, ShiftLeft, Pow2;
    NormalisedUnits(m, c + 52);
    HiddenShift(Normalised(m));
    Pow2Add(29, c + Msb(m));
    Regroup(Pow2(23) + Normalised(m), Pow2(29), Pow2(c + Msb(m)), Pow2(52) + ShiftLeft(Normalised(m), 29));
  }

  lemma NormalisedUnits(m: nat, n: nat)
    requires 0 < m < Pow2(23) && n >= 23
    ensures m * Pow2(n) == (Pow2(23) + Normalised(m)) * Pow2(n + Msb(m) - 23)
  {
    NormalisedIs(m);
    Pow2Add(23 - Msb(m), n + Msb(m) - 23);
    Regroup(m, Pow2(23 - Msb(m)), Pow2(n + Msb(m) - 23), Pow2(23) + Normalised(m));
  }

  lemma Regroup(a: int, x: int, y: int, ax: int)
    requires a * x == ax
    ensures a * (x * y) == ax * y
  {
    Assoc(a, x, y);
  }

  lemma HiddenShift(f: nat)
    ensures (Pow2(23) + f) * Pow2(29) == Pow2(52) + ShiftLeft(f, 29)
  {
    hide *;
    ShiftIs(f, 29);
    Pow2Add(23, 29);
    Distribute(Pow2(23), f, Pow2(29));
  }

  lemma ShiftIs(x: nat, n: nat)
    ensures ShiftLeft(x, n) == x * Pow2(n)
  {
  }

  lemma LostBit(ms: nat)
    requires ms < Pow2(23)
    ensures ShiftLeft(ms % Pow2(22), 30) == ShiftLeft(ms, 29) <==> ms == 0
  {
    hide *;
    var h := Pow2(22);
    Pow2Step(22);
    ShiftStep(ms % h, 29);
    ShiftIs(ms, 29);
    ShiftIs(ms % h, 29);
    if ms < h { DivModIs(ms, 0, ms, h); } else { DivModIs(ms, 1, ms - h, h); }
    CancelEq(2 * (ms % h), ms, Pow2(29));
  }

  lemma CancelEq(a: int, b: int, k: nat)
    requires k > 0
    ensures a * k == b * k <==> a == b
  {
    if a < b { ScaledInt(a, b, k); }
    if b < a { ScaledInt(b, a, k); }
  }

  lemma ValueOfNormal(p: nat, b: nat)
    requires Exponent(p, b) > 0
    ensures Value(p, b) == (Pow2(p) + Mantissa(p, b)) * Pow2(Exponent(p, b) - 1)
  {
  }

  lemma WidenSubnormalExact(m: nat)
    requires 0 < m < Pow2(23)
    ensures Value(52, WidenSubnormal(m)) == m * Unit() <==> m == Pow2(Msb(m))
  {
    hide *;
    WidenSubnormalValue(m);
    ValueOfNormal(52, WidenSubnormal(m));
    SubnormalUnits(m, 873);
    UnitIs();
    NormalisedIs(m);
    LostBit(Normalised(m));
    CancelEq(Pow2(52) + ShiftLeft(Normalised(m) % Pow2(22), 30), Pow2(52) + ShiftLeft(Normalised(m), 29), Pow2(873 + Msb(m)));
  }

  /** Widening a finite single keeps its value exactly, but for a subnormal
      whose fraction is not zero once normalised. */
  lemma WidenIsExactIff(a: nat)
    requires Exponent(23, a) < 255
    ensures Value(52, Widen(a)) == Value(23, a) * Unit()
            <==> a == 0 || a >= 0x80_0000 || a == Pow2(Msb(a))
  {
    Shift23(0);
    hide Widen, WidenSubnormal;
    if Exponent(23, a) > 0 {
      WidenNormalIsExact(a);
    } else if a == 0 {
      DivModIs(0, 0, 0, Pow2(52));
    } else {
      WidenSubnormalExact(a);
    }
  }

  // ---- There and back ----------------------------------------------------

  lemma CutOfAppended(e: nat, m: nat)
    requires 0 < e < 255 && m < Pow2(23)
    ensures NarrowNormal(e + 896, ShiftLeft(m, 29)) == ShiftLeft(e, 23) + m
  {
    ShiftFits(m, 23, 29);
    NarrowIncrements(e + 896, ShiftLeft(m, 29));
    CutIs(e + 896, ShiftLeft(m, 29));
    Shift23(e);
    AppendedZerosDrop(m, 29);
    SplitMantissa(23, 29, ShiftLeft(m, 29));
  }

  lemma AppendedZerosDrop(m: nat, n: nat)
    ensures Quot(ShiftLeft(m, n), Pow2(n)) == m && ShiftLeft(m, n) % Pow2(n) == 0
  {
    DivModIs(ShiftLeft(m, n), m, 0, Pow2(n));
  }

  /** A widened subnormal narrows to something smaller than it was. */
  lemma SubnormalNeverReturns(m: nat)
    requires 0 < m < Pow2(23)
    ensures Narrow(WidenSubnormal(m)) != m
  {
    hide Normalised, ShiftLeft, NarrowSubnormal, WidenSubnormal, Pow2;
    NormalisedIs(m);
    WidenSubnormalValue(m);
    ZeroRemainder(Pow2(22));
    WidenedHalves(m, Normalised(m) % Pow2(22));
  }

  lemma ZeroRemainder(d: nat)
    requires d > 0
    ensures 0 % d == 0
  {
  }

  lemma ZeroShift(n: nat)
    ensures ShiftLeft(0, n) == 0
  {
  }

  lemma WidenedHalves(m: nat, f: nat)
    requires 0 < m < Pow2(23) && Msb(m) <= 22 && f < Pow2(22) && (m == Pow2(Msb(m)) ==> f == 0)
    ensures ShiftLeft(f, 30) < Pow2(52)
    ensures NarrowSubnormal(874 + Msb(m), ShiftLeft(f, 30)) != m
  {
    hide NearHalf, ShiftLeft, Pow2, NarrowSubnormal;
    var k, mant := Msb(m), ShiftLeft(f, 30);
    assert f == 0 ==> mant == 0 by { ZeroShift(30); }
    ShiftFits(f, 22, 30);
    SubnormalIsHalved(874 + k, mant);
    BinadeBound(mant, 52, k + 925);
    Pow2Add(k, 925);
    TooSmall(NarrowSubnormal(874 + k, mant), m, Pow2(k), Unit(), Pow2(k + 925), NormalUnits(874 + k, mant));
  }

  lemma BinadeBound(mant: nat, p: nat, n: nat)
    requires mant < Pow2(p) && p <= n
    ensures ShiftLeft(Pow2(p) + mant, n - p) < 2 * Pow2(n)
    ensures mant == 0 ==> ShiftLeft(Pow2(p) + mant, n - p) == Pow2(n)
  {
    hide *;
    Pow2Add(p, n - p);
    ShiftIs(Pow2(p) + mant, n - p);
    Distribute(Pow2(p), mant, Pow2(n - p));
    Scaled(mant, Pow2(p), Pow2(n - p));
  }

  /** Half of less than twice a power of two cannot reach past the power. */
  lemma TooSmall(r: nat, m: nat, pow: nat, unit: nat, top: nat, num: nat)
    requires unit > 0 && NearHalf(r, unit, num) && 0 < pow <= m && top == pow * unit
    requires num < 2 * top && (m == pow ==> num == top)
    ensures r != m
  {
    DoubleStep(r, unit);
    if r == m {
      if r > pow { MulMono(pow + 1, r, unit); Distribute(pow, 1, unit); }
      else if r > 1 { MulMono(2, r, unit); }
    }
  }

  /** Widening then narrowing gives back the single, bit for bit, exactly when
      it is not a nonzero subnormal; infinities and NaN payloads included. */
  lemma RoundTripIff(a: nat)
    requires a < 0x8000_0000
    ensures Narrow(Widen(a)) == a <==> a == 0 || a >= 0x80_0000
  {
    var e, m := Exponent(23, a), Mantissa(23, a);
    Shift23(e);
    if e == 255 {
      SpecialReturns(m);
    } else if e > 0 {
      NormalReturns(e, m);
    } else if m == 0 {
      DivModIs(0, 0, 0, Pow2(52));
    } else {
      SubnormalNeverReturns(m);
    }
  }

  lemma SpecialReturns(m: nat)
    requires m < Pow2(23)
    ensures Narrow(ShiftLeft(0x7FF, 52) + ShiftLeft(m, 29)) == INFINITY32 + m
  {
    ShiftFits(m, 23, 29);
    FieldsOf(52, 0x7FF, ShiftLeft(m, 29));
    SpecialMantissa(m, ShiftLeft(m, 29));
  }

  lemma SpecialMantissa(m: nat, mant: nat)
    requires mant == ShiftLeft(m, 29)
    ensures Quot(mant, Pow2(29)) == m && (mant == 0 <==> m == 0)
  {
    AppendedZerosDrop(m, 29);
    if m > 0 { MulMono(1, m, Pow2(29)); }
  }

  lemma NormalReturns(e: nat, m: nat)
    requires 0 < e < 255 && m < Pow2(23)
    ensures Narrow(ShiftLeft(e + 896, 52) + ShiftLeft(m, 29)) == ShiftLeft(e, 23) + m
  {
    ShiftFits(m, 23, 29);
    FieldsOf(52, e + 896, ShiftLeft(m, 29));
    CutOfAppended(e, m);
  }
}

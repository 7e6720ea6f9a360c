/** The two float width conversions, on the bits below the sign (which both
    copy), with their exact domains of correctness. */
module FpuWidth {
  import opened Words
  import opened Tags
  import opened Rounding
  import opened Fpu
  import opened FpuInt
  import opened FpuTrunc

  const INFINITY32: nat := 0x7F80_0000

  function If(b: bool): nat {
    if b then 1 else 0
  }

  // ---- Double to single --------------------------------------------------

  /** The guard, sticky and odd bits of a mantissa losing its low `drop` bits. */
  predicate CutUp(drop: nat, m: nat)
    requires drop > 0
  {
    RoundUp(Bit(m, drop - 1, false), m % Pow2(drop - 1) != 0, Quot(m, Pow2(drop)) % 2 == 1)
  }

  /** A double whose rebiased exponent is in the single range. */
  function NarrowNormal(e: nat, m: nat): nat
    requires e > 896
  {
    var mrounded := Quot(m, Pow2(29)) + If(CutUp(29, m));
    if mrounded >= Pow2(23) then (if e - 895 >= 255 then INFINITY32 else ShiftLeft(e - 895, 23))
    else ShiftLeft(e - 896, 23) + mrounded
  }

  /** A double below the single range: its significand at the top of 77 bits,
      shifted right. */
  function Wide(e: nat, m: nat): nat
    requires e <= 896
  {
    ShiftRight(ShiftLeft(Pow2(52) + m, 24), 897 - e)
  }

  /** Bits 76 to 54 kept, bit 53 the guard, the rest sticky. */
  function WideRounded(wide: nat): nat {
    var kept := Quot(wide, Pow2(54));
    kept + If(RoundUp(Bit(wide, 53, false), wide % Pow2(53) != 0, kept % 2 == 1))
  }

  function NarrowSubnormal(e: nat, m: nat): nat
    requires e <= 896
  {
    if 897 - e > 25 then 0
    else
      var mrounded := WideRounded(Wide(e, m));
      if Bit(mrounded, 23, false) then Pow2(23) else mrounded % Pow2(23)
  }

  function Narrow(b: nat): nat {
    var e, m := Exponent(52, b), Mantissa(52, b);
    if e == 0x7FF then
      if m == 0 then INFINITY32
      else INFINITY32 + (if Quot(m, Pow2(29)) == 0 then 0x40_0000 else Quot(m, Pow2(29)))
    else if e == 0 then 0
    else if e >= 896 + 255 then INFINITY32
    else if e <= 896 then NarrowSubnormal(e, m)
    else NarrowNormal(e, m)
  }

  /** The least single subnormal, counted in least double subnormals. */
  ghost function Unit(): nat {
    Pow2(925)
  }

  /** Nearest even with the exponent unbounded, infinity from there upward. */
  ghost predicate NarrowsTo(b: nat, r: nat) {
    exists q: nat :: NearestEven(23, Value(52, b), Unit(), q) && r == Min(q, INFINITY32)
  }

  lemma HiddenBit(p: nat, kept: nat)
    requires p > 0
    ensures (Pow2(p) + kept) % 2 == kept % 2
  {
  }

  /** The neighbour below when `drop` mantissa bits are cut off and the
      exponent is rebiased down by `lift`. */
  function Cut(q: nat, drop: nat, lift: nat, e: nat, m: nat): nat
    requires e >= lift
  {
    Normal(q, e - lift, Pow2(q) + Quot(m, Pow2(drop)))
  }

  lemma SplitMantissa(q: nat, drop: nat, m: nat)
    requires drop > 0 && m < Pow2(q + drop)
    ensures var kept, rest := Quot(m, Pow2(drop)), m % Pow2(drop);
            && kept < Pow2(q) && rest < Pow2(drop)
            && Pow2(q + drop) + m == (Pow2(q) + kept) * Pow2(drop) + rest
            && CutUp(drop, m) == (2 * rest > Pow2(drop) || (2 * rest == Pow2(drop) && kept % 2 == 1))
  {
    Pow2Add(q, drop);
    QuotientBounds(m, 0, Pow2(q), Pow2(drop));
    Division(m, Pow2(drop));
    Distribute(Pow2(q), Quot(m, Pow2(drop)), Pow2(drop));
    HalfRounds(m, Pow2(drop - 1), Quot(m, Pow2(drop)) % 2 == 1);
  }

  /** Cutting mantissa bits and rebiasing brackets the value, and the rounding
      decision picks the right side, whatever the two formats are. */
  lemma CutBrackets(q: nat, drop: nat, lift: nat, e: nat, m: nat, num: nat, den: nat)
    requires q > 0 && drop > 0 && e > lift && m < Pow2(q + drop)
    requires num == (Pow2(q + drop) + m) * Pow2(e - 1) && den == Pow2(lift + drop)
    ensures Bracketed(q, num, den, Cut(q, drop, lift, e, m), CutUp(drop, m))
  {
    SplitMantissa(q, drop, m);
    var kept, rest := Quot(m, Pow2(drop)), m % Pow2(drop);
    var s, k := Pow2(q) + kept, Pow2(e - 1);
    NormalValue(q, e - lift, s);
    HiddenBit(q, kept);
    CutScale(drop, lift, e);
    Rescale(s, Pow2(e - lift - 1), den, Pow2(drop), k);
    DroppedBits(q, num, den, Cut(q, drop, lift, e, m), s, Pow2(drop), rest, k, CutUp(drop, m));
  }

  lemma CutScale(drop: nat, lift: nat, e: nat)
    requires e > lift
    ensures Pow2(e - lift - 1) * Pow2(lift + drop) == Pow2(drop) * Pow2(e - 1)
  {
    Pow2Add(e - lift - 1, lift + drop);
    Pow2Add(drop, e - 1);
  }

  lemma Rescale(s: int, a: int, b: int, c: int, d: int)
    requires a * b == c * d
    ensures s * a * b == s * c * d
  {
    Assoc(s, a, b);
    Assoc(s, c, d);
  }

  /** A double at or above the least normal single lies between its truncation
      and the next single. */
  lemma NarrowBrackets(b: nat)
    requires Exponent(52, b) > 896
    ensures Bracketed(23, Value(52, b), Unit(), Cut(23, 29, 896, Exponent(52, b), Mantissa(52, b)),
                      CutUp(29, Mantissa(52, b)))
  {
    CutBrackets(23, 29, 896, Exponent(52, b), Mantissa(52, b), Value(52, b), Unit());
  }

  lemma Shift23(e: nat)
    ensures Pow2(23) == 0x80_0000 && ShiftLeft(e, 23) == e * 0x80_0000
  {
    Pow2Add(8, 8);
    Pow2Add(16, 7);
  }

  lemma CutIs(e: nat, m: nat)
    requires e >= 896
    ensures Cut(23, 29, 896, e, m) == (e - 896) * 0x80_0000 + Quot(m, Pow2(29))
  {
    Shift23(e - 896);
  }

  /** The normal path adds the increment to the whole pattern, into the next
      binade and up to infinity. */
  lemma NarrowIncrements(e: nat, m: nat)
    requires 896 < e < 1151 && m < Pow2(52)
    ensures NarrowNormal(e, m) == Cut(23, 29, 896, e, m) + If(CutUp(29, m)) <= INFINITY32
  {
    hide Quot, CutUp;
    var kept := Quot(m, Pow2(29));
    assert kept < 0x80_0000 by {
      SplitMantissa(23, 29, m);
      Shift23(0);
    }
    assert Cut(23, 29, 896, e, m) == (e - 896) * 0x80_0000 + kept by { CutIs(e, m); }
    Shift23(e - 896);
    Shift23(e - 895);
  }

  /** Past the single range the truncation is already infinity or above. */
  lemma CutOverflows(e: nat, m: nat)
    requires e >= 1151
    ensures Cut(23, 29, 896, e, m) >= INFINITY32
  {
    CutIs(e, m);
  }

  lemma NarrowNormalIsNearest(b: nat)
    requires 896 < Exponent(52, b) < 0x7FF
    ensures NarrowsTo(b, Narrow(b))
  {
    var e, m := Exponent(52, b), Mantissa(52, b);
    var q := Cut(23, 29, 896, e, m) + If(CutUp(29, m));
    NarrowBrackets(b);
    BracketRounds(23, Value(52, b), Unit(), Cut(23, 29, 896, e, m), CutUp(29, m));
    if e < 1151 { NarrowIncrements(e, m); } else { CutOverflows(e, m); }
    assert Narrow(b) == Min(q, INFINITY32);
  }

  // ---- Below the single range: the value comes out halved -----------------

  /** At most half a step above half the number, and strictly when odd. */
  predicate NearHalf(r: nat, unit: nat, num: nat) {
    && (2 * r - 1) * unit <= num
    && (r % 2 == 1 ==> (2 * r - 1) * unit < num)
  }

  /** Half the number rounded to nearest, ties to even: within half a step on
      both sides, and strictly when odd. */
  predicate Halved(r: nat, unit: nat, num: nat) {
    && NearHalf(r, unit, num)
    && num <= (2 * r + 1) * unit
    && (r % 2 == 1 ==> num < (2 * r + 1) * unit)
  }

  lemma HalvedIsUnique(r: nat, s: nat, unit: nat, num: nat)
    requires unit > 0 && Halved(r, unit, num) && Halved(s, unit, num)
    ensures r == s
  {
    if r < s { HalvedApart(r, s, unit, num); }
    if s < r { HalvedApart(s, r, unit, num); }
  }

  lemma HalvedApart(r: nat, s: nat, unit: nat, num: nat)
    requires unit > 0 && Halved(r, unit, num) && r < s
    ensures !Halved(s, unit, num)
  {
    MulMono(2 * r + 1, 2 * s - 1, unit);
    if 2 * r + 1 < 2 * s - 1 { ScaledInt(2 * r + 1, 2 * s - 1, unit); }
  }

  lemma RoundedAbove(wide: nat, half: nat, top: nat, r: nat)
    requires half > 0 && top == Quot(wide, 2 * half)
    requires r == top + If(RoundUp(Quot(wide, half) % 2 == 1, wide % half != 0, top % 2 == 1))
    ensures wide <= (2 * r + 1) * half && (r % 2 == 1 ==> wide < (2 * r + 1) * half)
  {
    HalfRounds(wide, half, top % 2 == 1);
    Division(wide, 2 * half);
    PairedSteps(top, half);
    PairedSteps(top + 1, half);
    PairedSteps(r + 1, half);
  }

  lemma RoundedPairs(wide: nat, half: nat, top: nat, r: nat)
    requires half > 0 && top == Quot(wide, 2 * half)
    requires r == top + If(RoundUp(Quot(wide, half) % 2 == 1, wide % half != 0, top % 2 == 1))
    ensures NearHalf(r, half, wide)
  {
    HalfRounds(wide, half, top % 2 == 1);
    Division(wide, 2 * half);
    PairedSteps(top, half);
  }

  lemma PairedSteps(top: nat, half: nat)
    ensures top * (2 * half) == 2 * top * half
    ensures (2 * top - 1) * half == 2 * top * half - half
    ensures (2 * (top + 1) - 1) * half == 2 * top * half + half
  {
  }

  lemma Rescaled(r: nat, small: nat, wide: nat, p: nat, sig: nat, q: nat, k: nat, unit: nat)
    requires NearHalf(r, small, wide) && wide * p <= sig * q && p > 0 && q > 0 && k > 0
    requires unit * q == small * p * k
    ensures NearHalf(r, unit, sig * k)
  {
    var c := 2 * r - 1;
    RescaleBound(c, small, wide, p, sig, q, k, unit);
  }

  lemma RescaleBound(c: int, small: nat, wide: nat, p: nat, sig: nat, q: nat, k: nat, unit: nat)
    requires wide * p <= sig * q && p > 0 && q > 0 && k > 0 && unit * q == small * p * k
    ensures c * small <= wide ==> c * unit <= sig * k
    ensures c * small < wide ==> c * unit < sig * k
  {
    assert c * unit * q == c * small * p * k by {
      Assoc(c, unit, q);
      Assoc(small, p, k);
      Assoc(c, small, p * k);
      Assoc(c * small, p, k);
    }
    assert sig * k * q == sig * q * k by { Swap(sig, k, q); }
    MulMono(wide * p, sig * q, k);
    if c * small < wide { Scaled2(c * small, wide, p, k); }
    if c * small <= wide { MulMono(c * small, wide, p); MulMono(c * small * p, wide * p, k); }
    Cancel(c * unit, sig * k, q);
  }

  lemma Swap(a: int, b: int, c: int)
    ensures a * b * c == a * c * b
  {
    Assoc(a, b, c);
    Assoc(a, c, b);
  }

  lemma Scaled2(a: int, b: int, p: nat, k: nat)
    requires a < b && p > 0 && k > 0
    ensures a * p * k < b * p * k
  {
    ScaledInt(a, b, p);
    ScaledInt(a * p, b * p, k);
  }

  lemma ScaledInt(a: int, b: int, k: nat)
    requires a < b && k > 0
    ensures a * k < b * k
  {
    assert b * k == a * k + (b - a) * k;
  }

  lemma Cancel(a: int, b: int, k: nat)
    requires k > 0
    ensures a * k <= b * k ==> a <= b
    ensures a * k < b * k ==> a < b
  {
    if a > b { ScaledInt(b, a, k); }
  }

  lemma WideBound(e: nat, m: nat)
    requires 872 <= e <= 896 && m < Pow2(52)
    ensures Wide(e, m) < Pow2(76)
    ensures Wide(e, m) * Pow2(897 - e) <= (Pow2(52) + m) * Pow2(24)
  {
    hide *;
    WideIs(e, m);
    Pow2Step(52);
    Pow2Add(53, 24);
    Scaled(Pow2(52) + m, Pow2(53), Pow2(24));
    ShiftedDown(ShiftLeft(Pow2(52) + m, 24), 897 - e);
  }

  lemma WideIs(e: nat, m: nat)
    requires e <= 896
    ensures Wide(e, m) == ShiftRight(ShiftLeft(Pow2(52) + m, 24), 897 - e)
    ensures ShiftLeft(Pow2(52) + m, 24) == (Pow2(52) + m) * Pow2(24)
  {
  }

  lemma ShiftedDown(t: nat, shift: nat)
    requires t < Pow2(77) && shift > 0
    ensures ShiftRight(t, shift) < Pow2(76)
    ensures ShiftRight(t, shift) * Pow2(shift) <= t
  {
    Division(t, Pow2(shift));
    Pow2Mono(1, shift);
    MulMono(2, Pow2(shift), ShiftRight(t, shift));
  }

  /** No subnormal result reaches bit 23, so the carry test never fires. */
  lemma CarryIsDead(wide: nat)
    requires wide < Pow2(76)
    ensures WideRounded(wide) < Pow2(23)
    ensures !Bit(WideRounded(wide), 23, false) && WideRounded(wide) % Pow2(23) == WideRounded(wide)
  {
    assert Quot(wide, Pow2(54)) < Pow2(22) by {
      Pow2Add(22, 54);
      QuotientBounds(wide, 0, Pow2(22), Pow2(54));
    }
    var x := WideRounded(wide);
    DivModIs(x, 0, x, Pow2(23));
  }

  /** The value of a normal double, in least double subnormals. */
  function NormalUnits(e: nat, m: nat): nat
    requires e > 0
  {
    ShiftLeft(Pow2(52) + m, e - 1)
  }

  /** Below the least normal single the result is the double's value halved,
      rounded to nearest even. */
  lemma SubnormalIsHalved(e: nat, m: nat)
    requires 0 < e <= 896 && m < Pow2(52)
    ensures NarrowSubnormal(e, m) < Pow2(23)
    ensures NearHalf(NarrowSubnormal(e, m), Unit(), NormalUnits(e, m))
    ensures Halved(NarrowSubnormal(e, m), Unit(), NormalUnits(e, m))
  {
    hide Halved, NearHalf, Unit, NormalUnits, Pow2, WideRounded, Wide, Bit;
    if e >= 872 {
      WideBound(e, m);
      CarryIsDead(Wide(e, m));
      WideIsHalved(e, m);
    } else {
      ZeroNearHalf(Unit(), NormalUnits(e, m));
    }
    SmallPower23();
    HalvedAbove(e, m);
  }

  lemma SmallPower23()
    ensures 0 < Pow2(23)
  {
  }

  lemma HalvedAbove(e: nat, m: nat)
    requires 0 < e <= 896 && m < Pow2(52) && NearHalf(NarrowSubnormal(e, m), Unit(), NormalUnits(e, m))
    ensures Halved(NarrowSubnormal(e, m), Unit(), NormalUnits(e, m))
  {
    hide NearHalf, Unit, NormalUnits, Pow2, WideRounded, Wide, Bit;
    if e <= 872 {
      TinyUnits(e, m);
      ZeroIsHalved(NarrowSubnormal(e, m), Unit(), NormalUnits(e, m));
    } else {
      WideBound(e, m);
      CarryIsDead(Wide(e, m));
      WideAbove(e, m);
    }
  }

  lemma ZeroIsHalved(r: nat, unit: nat, num: nat)
    requires unit > 0 && NearHalf(r, unit, num) && num < unit
    ensures Halved(r, unit, num)
  {
    if r > 0 { MulMono(1, 2 * r - 1, unit); }
  }

  lemma TinyUnits(e: nat, m: nat)
    requires 0 < e <= 872 && m < Pow2(52)
    ensures NormalUnits(e, m) < Unit()
  {
    hide *;
    NormalUnitsIs(e, m);
    UnitIs();
    Pow2Step(52);
    Pow2Add(53, e - 1);
    Pow2Mono(53 + (e - 1), 924);
    Pow2Step(924);
    Scaled(Pow2(52) + m, Pow2(53), Pow2(e - 1));
    PositivePower(924);
  }

  lemma PositivePower(n: nat)
    ensures Pow2(n) > 0
  {
  }

  lemma WideAbove(e: nat, m: nat)
    requires 873 <= e <= 896 && m < Pow2(52)
    ensures var r := WideRounded(Wide(e, m));
            && NormalUnits(e, m) <= (2 * r + 1) * Unit()
            && (r % 2 == 1 ==> NormalUnits(e, m) < (2 * r + 1) * Unit())
  {
    hide *;
    var wide := Wide(e, m);
    var r := WideRounded(wide);
    WideRoundedAbove(wide);
    NormalUnitsIs(e, m);
    WideIsExact(e, m);
    HalvedUnits(e);
    RescaleAbove(2 * r + 1, Pow2(53), wide, Pow2(897 - e), Pow2(52) + m, Pow2(24), Pow2(e - 1), Unit());
  }

  lemma WideRoundedAbove(wide: nat)
    ensures var r := WideRounded(wide);
            wide <= (2 * r + 1) * Pow2(53) && (r % 2 == 1 ==> wide < (2 * r + 1) * Pow2(53))
  {
    Pow2Step(53);
    RoundedAbove(wide, Pow2(53), Quot(wide, Pow2(54)), WideRounded(wide));
  }

  /** At most 24 places shift nothing out. */
  lemma WideIsExact(e: nat, m: nat)
    requires 873 <= e <= 896
    ensures Wide(e, m) * Pow2(897 - e) == (Pow2(52) + m) * Pow2(24)
  {
    hide *;
    var sig, s := Pow2(52) + m, 897 - e;
    WideIs(e, m);
    Pow2Add(24 - s, s);
    Assoc(sig, Pow2(24 - s), Pow2(s));
    ExactShift(sig * Pow2(24 - s), ShiftLeft(sig, 24), s);
  }

  lemma ExactShift(x: nat, t: nat, s: nat)
    requires t == x * Pow2(s)
    ensures ShiftRight(t, s) * Pow2(s) == t
  {
    DivModIs(t, x, 0, Pow2(s));
  }

  lemma RescaleAbove(c: int, small: nat, wide: nat, p: nat, sig: nat, q: nat, k: nat, unit: nat)
    requires wide * p == sig * q && p > 0 && q > 0 && k > 0 && unit * q == small * p * k
    ensures wide <= c * small ==> sig * k <= c * unit
    ensures wide < c * small ==> sig * k < c * unit
  {
    assert c * unit * q == c * small * p * k by {
      Assoc(c, unit, q);
      Assoc(small, p, k);
      Assoc(c, small, p * k);
      Assoc(c * small, p, k);
    }
    assert sig * k * q == sig * q * k by { Swap(sig, k, q); }
    if wide < c * small { Scaled2(wide, c * small, p, k); }
    if wide <= c * small { MulMono(wide, c * small, p); MulMono(wide * p, c * small * p, k); }
    Cancel(sig * k, c * unit, q);
  }

  lemma WideIsHalved(e: nat, m: nat)
    requires 872 <= e <= 896 && m < Pow2(52)
    ensures NearHalf(WideRounded(Wide(e, m)), Unit(), NormalUnits(e, m))
  {
    hide *;
    var wide := Wide(e, m);
    WideNearHalf(wide);
    NormalUnitsIs(e, m);
    WideBound(e, m);
    HalvedUnits(e);
    Rescaled(WideRounded(wide), Pow2(53), wide, Pow2(897 - e), Pow2(52) + m, Pow2(24), Pow2(e - 1), Unit());
  }

  lemma ZeroNearHalf(unit: nat, num: nat)
    ensures NearHalf(0, unit, num)
  {
  }

  lemma WideNearHalf(wide: nat)
    ensures NearHalf(WideRounded(wide), Pow2(53), wide)
  {
    Pow2Step(53);
    RoundedPairs(wide, Pow2(53), Quot(wide, Pow2(54)), WideRounded(wide));
  }

  lemma NormalUnitsIs(e: nat, m: nat)
    requires e > 0
    ensures NormalUnits(e, m) == (Pow2(52) + m) * Pow2(e - 1)
  {
  }

  lemma UnitIs()
    ensures Unit() == Pow2(925)
  {
  }

  lemma HalvedUnits(e: nat)
    requires 0 < e <= 897
    ensures Unit() * Pow2(24) == Pow2(53) * Pow2(897 - e) * Pow2(e - 1)
  {
    hide *;
    UnitIs();
    Pow2Add(925, 24);
    Pow2Add(53, 897 - e);
    Pow2Add(950 - e, e - 1);
  }
}

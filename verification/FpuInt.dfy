/** Integer to float conversion rounds to nearest even, and converting back. */
module FpuInt {
  import opened Words
  import opened Tags
  import opened Rounding
  import opened Fpu

  /** The pattern with exponent field `e` and significand `s`, hidden bit on. */
  function Normal(p: nat, e: nat, s: nat): nat
    requires s >= Pow2(p)
  {
    ShiftLeft(e, p) + (s - Pow2(p))
  }

  lemma NormalFields(p: nat, e: nat, s: nat)
    requires Pow2(p) <= s < Pow2(p + 1)
    ensures Exponent(p, Normal(p, e, s)) == e && Mantissa(p, Normal(p, e, s)) == s - Pow2(p)
  {
    DivModIs(Normal(p, e, s), e, s - Pow2(p), Pow2(p));
  }

  lemma NormalValue(p: nat, e: nat, s: nat)
    requires p > 0 && e > 0 && Pow2(p) <= s < Pow2(p + 1)
    ensures Value(p, Normal(p, e, s)) == s * Pow2(e - 1)
    ensures Ulp(p, Normal(p, e, s)) == Pow2(e - 1)
    ensures Normal(p, e, s) % 2 == s % 2
  {
    NormalFields(p, e, s);
    EvenPlus(e, Pow2(p - 1), s);
  }

  lemma EvenPlus(e: nat, h: nat, s: int)
    ensures (e * (2 * h) + (s - 2 * h)) % 2 == s % 2
  {
    assert e * (2 * h) == 2 * (e * h);
  }

  /** The shifted magnitude is a significand with its top bit set. */
  lemma ShiftedIsSignificand(p: nat, mag: nat)
    requires mag > 0
    ensures Pow2(p) <= Shifted(p, mag, Msb(mag)) < Pow2(p + 1)
  {
    var msb := Msb(mag);
    if msb >= p {
      Pow2Add(p, msb - p);
      Pow2Add(p + 1, msb - p);
      QuotientBounds(mag, Pow2(p), Pow2(p + 1), Pow2(msb - p));
    } else {
      Pow2Add(msb, p - msb);
      Pow2Add(msb + 1, p - msb);
      ProductBounds(mag, Pow2(msb), Pow2(msb + 1), Pow2(p - msb));
    }
  }

  lemma QuotientBounds(x: nat, lo: nat, hi: nat, d: nat)
    requires d > 0 && lo * d <= x < hi * d
    ensures lo <= x / d < hi
  {
    var q := x / d;
    assert x == q * d + x % d;
    Distribute(q, 1, d);
    if q < lo { Scaled(q, lo, d); MulMono(q + 1, lo, d); }
    if hi <= q { MulMono(hi, q, d); }
  }

  lemma ProductBounds(x: nat, lo: nat, hi: nat, d: nat)
    requires d > 0 && lo <= x < hi
    ensures lo * d <= x * d < hi * d
  {
    MulMono(lo, x, d);
    Scaled(x, hi, d);
  }

  /** The neighbour below the magnitude, before the rounding increment. */
  function Truncated(f: Format, mag: nat): nat
    requires mag > 0
  {
    ShiftedIsSignificand(f.mant, mag);
    Normal(f.mant, Msb(mag) + f.bias, Shifted(f.mant, mag, Msb(mag)))
  }

  /** Both ways of assembling the fields add the increment to the whole
      pattern: a mantissa carry moves into the exponent. */
  lemma IncrementCarries(f: Format, mag: nat, below: bool)
    requires mag > 0
    ensures IntPattern(f, mag, below)
         == Truncated(f, mag) + (if IntRoundsUp(f.mant, mag, Msb(mag), below) then 1 else 0)
  {
    ShiftedIsSignificand(f.mant, mag);
    var n := Pow2(f.mant);
    var s := Shifted(f.mant, mag, Msb(mag));
    var t := s + (if IntRoundsUp(f.mant, mag, Msb(mag), below) then 1 else 0);
    Distribute(Msb(mag) + f.bias, 1, n);
    if t < 2 * n { DivModIs(t, 1, t - n, n); }
  }

  /** What the right shift drops, and when the rounding increment fires:
      past half of it, or at half with the last kept bit set. */
  lemma RightShiftRounds(p: nat, mag: nat, below: bool)
    requires mag > 0 && Msb(mag) >= p && (Msb(mag) == p ==> !below)
    ensures var unit := Pow2(Msb(mag) - p);
            var rest := mag % unit;
            && mag == Shifted(p, mag, Msb(mag)) * unit + rest
            && IntRoundsUp(p, mag, Msb(mag), below)
               == (2 * rest > unit || (2 * rest == unit && Shifted(p, mag, Msb(mag)) % 2 == 1))
  {
    var sh := Msb(mag) - p;
    Division(mag, Pow2(sh));
    if sh > 0 {
      HalfRounds(mag, Pow2(sh - 1), Shifted(p, mag, Msb(mag)) % 2 == 1);
      assert sh == 1 ==> mag % Pow2(sh - 1) == 0;
    }
  }

  lemma HalfRounds(x: nat, half: nat, odd: bool)
    requires half > 0
    ensures var rest := x % (2 * half);
            RoundUp(x / half % 2 == 1, x % half != 0, odd) == (rest > half || (rest == half && odd))
  {
    GuardSticky(x, half);
  }

  lemma Assoc(a: int, b: int, c: int)
    ensures a * b * c == a * (b * c)
  {
  }

  /** The magnitude sits between the truncated pattern and the next one. */
  lemma IntBrackets(f: Format, mag: nat, below: bool)
    requires mag > 0 && f.mant > 0 && f.bias > 0
    requires below ==> Msb(mag) != f.mant
    ensures Bracketed(f.mant, mag * One(f), 1, Truncated(f, mag), IntRoundsUp(f.mant, mag, Msb(mag), below))
  {
    var p, msb, x := f.mant, Msb(mag), Truncated(f, mag);
    var s := Shifted(p, mag, msb);
    var up := IntRoundsUp(p, mag, msb, below);
    ShiftedIsSignificand(p, mag);
    NormalValue(p, msb + f.bias, s);
    if msb >= p {
      RightShiftRounds(p, mag, below);
      Pow2Add(msb - p, f.bias - 1 + p);
      hide *;
      RightBrackets(p, mag, x, s, Pow2(msb - p), mag % Pow2(msb - p), One(f), up);
    } else {
      assert s == mag * Pow2(p - msb) && !up;
      assert One(f) == Pow2(p - msb) * Pow2(msb + f.bias - 1) by { Pow2Add(p - msb, msb + f.bias - 1); }
      hide *;
      LeftBrackets(p, mag, x, s, Pow2(p - msb), Pow2(msb + f.bias - 1), One(f));
    }
  }

  lemma RightBrackets(p: nat, mag: nat, x: nat, s: nat, unit: nat, rest: nat, one: nat, up: bool)
    requires one > 0 && rest < unit && mag == s * unit + rest
    requires Value(p, x) == s * (unit * one) && Ulp(p, x) == unit * one && x % 2 == s % 2
    requires up == (2 * rest > unit || (2 * rest == unit && s % 2 == 1))
    ensures Bracketed(p, mag * one, 1, x, up)
  {
    hide *;
    Assoc(s, unit, one);
    DroppedBits(p, mag * one, 1, x, s, unit, rest, one, up);
  }

  lemma LeftBrackets(p: nat, mag: nat, x: nat, s: nat, shift: nat, k: nat, one: nat)
    requires k > 0 && s == mag * shift && one == shift * k
    requires Value(p, x) == s * k && Ulp(p, x) == k
    ensures Bracketed(p, mag * one, 1, x, false)
  {
    hide *;
    Assoc(mag, shift, k);
    DroppedBits(p, mag * one, 1, x, s, 1, 0, k, false);
  }

  // ---- The rounding theorems -------------------------------------------

  /** Integer to double is round-to-nearest-even for every magnitude. */
  lemma IntToDoubleIsNearest(mag: Word)
    ensures NearestEven(52, mag * One(F64()), 1, IntPattern(F64(), mag, false))
  {
    if mag == 0 { ZeroIsNearest(52, 1); } else {
      IntBrackets(F64(), mag, false);
      IncrementCarries(F64(), mag, false);
      BracketRounds(52, mag * One(F64()), 1, Truncated(F64(), mag), IntRoundsUp(52, mag, Msb(mag), false));
    }
  }

  lemma ZeroIsNearest(p: nat, den: nat)
    requires den > 0
    ensures NearestEven(p, 0, den, 0)
  {
    assert Value(p, 0) == 0 by { DivModIs(0, 0, 0, Pow2(p)); }
    assert Value(p, 1) == 1 by { ValueNext(p, 0); }
    BracketedBy(p, 0, den, 0, false, 0, den);
    BracketRounds(p, 0, den, 0, false);
  }

  /** ... and so larger integers never convert to smaller doubles. */
  lemma IntToDoubleIsMonotone(m: Word, n: Word)
    requires m <= n
    ensures IntPattern(F64(), m, false) <= IntPattern(F64(), n, false)
  {
    IntToDoubleIsNearest(m);
    IntToDoubleIsNearest(n);
    ScaledMonotone(52, m, n, One(F64()), IntPattern(F64(), m, false), IntPattern(F64(), n, false));
  }

  lemma ScaledMonotone(p: nat, m: nat, n: nat, k: nat, r: nat, s: nat)
    requires m <= n && NearestEven(p, m * k, 1, r) && NearestEven(p, n * k, 1, s)
    ensures r <= s
  {
    MulMono(m, n, k);
    NearestEvenIsMonotone(p, m * k, n * k, 1, r, s);
  }

  /** Integer to single is round-to-nearest-even exactly when the guard read of
      bit -1 does not matter: the top bit is not bit 23, or that read gives
      zero, or the magnitude is even. */
  lemma IntToSingleIsNearestIff(mag: Word, below: bool)
    ensures NearestEven(23, mag * One(F32()), 1, IntPattern(F32(), mag, below))
       <==> !(below && mag % 2 == 1 && 0x80_0000 <= mag < 0x100_0000)
  {
    if mag == 0 { ZeroIsNearest(23, 1); } else {
      BelowMatters(F32(), mag, below);
      Msb23(mag);
    }
  }

  /** With the low read one and the top bit at the mantissa width, an odd
      magnitude is pushed off its own exact pattern. */
  lemma BelowMatters(f: Format, mag: nat, below: bool)
    requires mag > 0 && f.mant > 0 && f.bias > 0
    ensures NearestEven(f.mant, mag * One(f), 1, IntPattern(f, mag, below))
       <==> !(below && mag % 2 == 1 && Msb(mag) == f.mant)
  {
    var p, num, x := f.mant, mag * One(f), Truncated(f, mag);
    var read := below && Msb(mag) != p;
    var up := IntRoundsUp(p, mag, Msb(mag), read);
    IntBrackets(f, mag, read);
    IncrementCarries(f, mag, below);
    BracketRounds(p, num, 1, x, up);
    OtherNeighbour(p, num, 1, x, up);
    assert Msb(mag) == p ==> Shifted(p, mag, p) == mag;
  }

  lemma Msb23(mag: nat)
    requires mag > 0
    ensures Msb(mag) == 23 <==> 0x80_0000 <= mag < 0x100_0000
  {
    assert Pow2(23) == 0x80_0000 by {
      Pow2Add(8, 8);
      Pow2Add(16, 7);
    }
    if 0x80_0000 <= mag < 0x100_0000 { MsbIs(mag, 23); }
  }
}

/** Round-to-nearest-even, stated over integers (section 4.3.1 of IEEE 754-2008).
    A nonnegative binary float with `p` mantissa bits is its bit pattern,
    exponent field above mantissa field; its value is counted in units of the
    least subnormal, with the exponent range unbounded above. */
module Rounding {
  import opened Words
  import opened Tags

  function Exponent(p: nat, b: nat): nat {
    Quot(b, Pow2(p))
  }

  function Mantissa(p: nat, b: nat): nat {
    b % Pow2(p)
  }

  function Value(p: nat, b: nat): nat {
    var e, m := Exponent(p, b), Mantissa(p, b);
    if e == 0 then m else (Pow2(p) + m) * Pow2(e - 1)
  }

  /** The gap between a pattern's value and the next one's. */
  function Ulp(p: nat, b: nat): nat {
    var e := Exponent(p, b);
    if e == 0 then 1 else Pow2(e - 1)
  }

  lemma DivModNext(b: nat, n: nat)
    requires n > 0
    ensures b % n + 1 < n ==> (b + 1) / n == b / n && (b + 1) % n == b % n + 1
    ensures b % n + 1 == n ==> (b + 1) / n == b / n + 1 && (b + 1) % n == 0
  {
    var q, r := b / n, b % n;
    assert b == q * n + r;
    if r + 1 < n {
      DivModIs(b + 1, q, r + 1, n);
    } else {
      assert b + 1 == (q + 1) * n;
      DivModIs(b + 1, q + 1, 0, n);
    }
  }

  /** Consecutive patterns have consecutive values, across binades too. */
  lemma ValueNext(p: nat, b: nat)
    ensures Value(p, b + 1) == Value(p, b) + Ulp(p, b)
  {
    var n := Pow2(p);
    var e, m := b / n, b % n;
    DivModNext(b, n);
    if m + 1 < n {
      if e > 0 { assert (n + m + 1) * Pow2(e - 1) == (n + m) * Pow2(e - 1) + Pow2(e - 1); }
    } else if e > 0 {
      assert Pow2(e) == 2 * Pow2(e - 1);
      assert (n + m) * Pow2(e - 1) + Pow2(e - 1) == (n + m + 1) * Pow2(e - 1);
      assert (2 * n) * Pow2(e - 1) == n * (2 * Pow2(e - 1));
    }
  }

  lemma {:induction false} ValueMono(p: nat, a: nat, b: nat)
    requires a < b
    ensures Value(p, a) < Value(p, b)
    decreases b
  {
    ValueNext(p, b - 1);
    if a < b - 1 { ValueMono(p, a, b - 1); }
  }

  // ---- Nearest, ties to even --------------------------------------------

  function Gap(v: int, num: int): nat {
    if v <= num then num - v else v - num
  }

  function Distance(p: nat, num: nat, den: nat, b: nat): nat {
    Gap(Value(p, b) * den, num)
  }

  /** No other pattern is nearer to num / den, and a tie is won by an even one. */
  ghost predicate NearestEven(p: nat, num: nat, den: nat, r: nat) {
    forall b: nat :: b != r ==> Beats(p, num, den, r, b)
  }

  predicate Beats(p: nat, num: nat, den: nat, r: nat, b: nat) {
    || Distance(p, num, den, r) < Distance(p, num, den, b)
    || (Distance(p, num, den, r) == Distance(p, num, den, b) && r % 2 == 0)
  }

  lemma NearestEvenIsUnique(p: nat, num: nat, den: nat, r: nat, s: nat)
    requires NearestEven(p, num, den, r) && NearestEven(p, num, den, s)
    requires den > 0
    ensures r == s
  {
    if r != s {
      assert Beats(p, num, den, r, s) && Beats(p, num, den, s, r);
      if r < s { NoTwoWinners(p, num, den, r, s); } else { NoTwoWinners(p, num, den, s, r); }
    }
  }

  /** Two even patterns at equal distance have a nearer one between them. */
  lemma NoTwoWinners(p: nat, num: nat, den: nat, lo: nat, hi: nat)
    requires den > 0 && lo < hi && lo % 2 == 0 && hi % 2 == 0
    requires Distance(p, num, den, lo) == Distance(p, num, den, hi)
    ensures !NearestEven(p, num, den, lo)
  {
    ValueMono(p, lo, lo + 1);
    ValueMono(p, lo + 1, hi);
    Between(Value(p, lo), Value(p, lo + 1), Value(p, hi), den);
    assert !Beats(p, num, den, lo, lo + 1);
  }

  lemma Between(a: nat, b: nat, c: nat, den: nat)
    requires a < b < c && den > 0
    ensures a * den < b * den < c * den
  {
    assert b * den == a * den + (b - a) * den;
    assert c * den == b * den + (c - b) * den;
  }

  /** num / den lies between the patterns x and x + 1, and `up` says it is
      nearer to x + 1, or half way with x odd. */
  ghost predicate Bracketed(p: nat, num: nat, den: nat, x: nat, up: bool) {
    var lo, hi := Value(p, x) * den, Value(p, x + 1) * den;
    && den > 0 && lo <= num < hi
    && (up <==> 2 * (num - lo) > hi - lo || (2 * (num - lo) == hi - lo && x % 2 == 1))
  }

  /** Rounding the neighbour below up exactly when the rest is past half an
      ulp, or at half with an odd neighbour, is rounding to nearest even. */
  lemma BracketRounds(p: nat, num: nat, den: nat, x: nat, up: bool)
    requires Bracketed(p, num, den, x, up)
    ensures NearestEven(p, num, den, if up then x + 1 else x)
  {
    var r := if up then x + 1 else x;
    forall b: nat | b != r
      ensures Beats(p, num, den, r, b)
    {
      BracketBeats(p, num, den, x, up, b);
    }
  }

  lemma BracketBeats(p: nat, num: nat, den: nat, x: nat, up: bool, b: nat)
    requires Bracketed(p, num, den, x, up) && b != if up then x + 1 else x
    ensures Beats(p, num, den, if up then x + 1 else x, b)
  {
    if b < x {
      ValueMono(p, b, x);
      Scaled(Value(p, b), Value(p, x), den);
    } else if b > x + 1 {
      ValueMono(p, x + 1, b);
      Scaled(Value(p, x + 1), Value(p, b), den);
    }
    NeighbourWins(Value(p, x) * den, Value(p, x + 1) * den, Value(p, b) * den, num, up, x, b);
  }

  /** The comparison of the two neighbours with any third value. */
  lemma NeighbourWins(vx: int, vn: int, vb: int, num: int, up: bool, x: nat, b: nat)
    requires vx <= num < vn
    requires up <==> 2 * (num - vx) > vn - vx || (2 * (num - vx) == vn - vx && x % 2 == 1)
    requires b < x ==> vb < vx
    requires b > x + 1 ==> vn < vb
    requires b == x ==> vb == vx
    requires b == x + 1 ==> vb == vn
    requires b != if up then x + 1 else x
    ensures var r, vr := if up then x + 1 else x, if up then vn else vx;
            Gap(vr, num) < Gap(vb, num) || (Gap(vr, num) == Gap(vb, num) && r % 2 == 0)
  {
  }

  lemma Scaled(a: nat, b: nat, den: nat)
    requires a < b && den > 0
    ensures a * den < b * den
  {
    assert b * den == a * den + (b - a) * den;
  }

  /** The converse: rounding the wrong way is not nearest even. */
  lemma OtherNeighbour(p: nat, num: nat, den: nat, x: nat, up: bool)
    requires Bracketed(p, num, den, x, up)
    ensures !NearestEven(p, num, den, if up then x else x + 1)
  {
    BracketRounds(p, num, den, x, up);
    if NearestEven(p, num, den, if up then x else x + 1) {
      NearestEvenIsUnique(p, num, den, x, x + 1);
    }
  }

  /** Nearest-even rounding is monotone in the number rounded. */
  lemma NearestEvenIsMonotone(p: nat, m: nat, n: nat, den: nat, r: nat, s: nat)
    requires den > 0 && m <= n && NearestEven(p, m, den, r) && NearestEven(p, n, den, s)
    ensures r <= s
  {
    if s < r {
      ValueMono(p, s, r);
      Scaled(Value(p, s), Value(p, r), den);
      assert Beats(p, m, den, r, s) && Beats(p, n, den, s, r);
      NoTwoWinners(p, m, den, s, r);
    }
  }

  lemma HalfSplit(x: nat, half: nat)
    requires half > 0
    ensures var q, r := x / (2 * half), x % (2 * half);
            if r < half then x / half == 2 * q && x % half == r
            else x / half == 2 * q + 1 && x % half == r - half
  {
    hide *;
    Division(x, 2 * half);
    var q, r := x / (2 * half), x % (2 * half);
    Doubled(q, half);
    if r < half { DivModIs(x, 2 * q, r, half); } else { DivModIs(x, 2 * q + 1, r - half, half); }
  }

  lemma Doubled(q: int, half: int)
    ensures q * (2 * half) == 2 * q * half
    ensures (2 * q + 1) * half == 2 * q * half + half
  {
  }

  /** The guard bit and the sticky OR below it, against the remainder they
      summarise when 2 * half units are dropped. */
  lemma GuardSticky(x: nat, half: nat)
    requires half > 0
    ensures x / half % 2 == 1 <==> x % (2 * half) >= half
    ensures x % half != 0 <==> x % (2 * half) != 0 && x % (2 * half) != half
    ensures x % (2 * half) == x % half + (if x / half % 2 == 1 then half else 0)
  {
    HalfSplit(x, half);
    Parity(x / (2 * half));
  }

  lemma Parity(q: int)
    ensures (2 * q) % 2 == 0 && (2 * q + 1) % 2 == 1
  {
  }

  /** Dropping `rest` of `unit` from a significand, with the last kept bit
      worth one ulp of the pattern, brackets the number. */
  lemma DroppedBits(p: nat, num: nat, den: nat, x: nat, kept: nat, unit: nat, rest: nat, k: nat, up: bool)
    requires den > 0 && k > 0 && rest < unit
    requires num == (kept * unit + rest) * k
    requires Value(p, x) * den == (kept * unit) * k && Ulp(p, x) * den == unit * k
    requires up <==> 2 * rest > unit || (2 * rest == unit && x % 2 == 1)
    ensures Bracketed(p, num, den, x, up)
  {
    var lo := (kept * unit) * k;
    ValueNext(p, x);
    Distribute(Value(p, x), Ulp(p, x), den);
    Distribute(kept * unit, rest, k);
    ScaleCompare(rest, unit, k);
    BracketedBy(p, num, den, x, up, lo, lo + unit * k);
  }

  lemma BracketedBy(p: nat, num: nat, den: nat, x: nat, up: bool, lo: int, hi: int)
    requires den > 0 && lo == Value(p, x) * den && hi == Value(p, x + 1) * den
    requires lo <= num < hi
    requires up <==> 2 * (num - lo) > hi - lo || (2 * (num - lo) == hi - lo && x % 2 == 1)
    ensures Bracketed(p, num, den, x, up)
  {
  }

  lemma Distribute(a: int, b: int, k: int)
    ensures (a + b) * k == a * k + b * k
  {
  }

  lemma ScaleCompare(rest: nat, unit: nat, k: nat)
    requires k > 0
    ensures rest < unit <==> rest * k < unit * k
    ensures 2 * rest > unit <==> 2 * (rest * k) > unit * k
    ensures 2 * rest == unit <==> 2 * (rest * k) == unit * k
  {
    var a, b := rest * k, unit * k;
    assert (unit - rest) * k == b - a;
    assert (2 * rest - unit) * k == 2 * a - b;
    Sign(unit - rest, k);
    Sign(2 * rest - unit, k);
  }

  lemma Sign(d: int, k: nat)
    requires k > 0
    ensures d > 0 <==> d * k > 0
    ensures d == 0 <==> d * k == 0
  {
    if d > 0 { MulAtLeast(d, k); } else { MulAtLeast(0 - d, k); }
  }
}

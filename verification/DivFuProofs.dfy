/** The restoring divider refines execute.v's direct division, on a fixed
    schedule, for every operand, width and signedness. */
module DivFuProofs {
  import opened Words
  import opened Divide
  import opened DivFu
  import opened Tags

  // ---- The loop invariant -----------------------------------------------

  /** The dividend without its low `k` bits. */
  function Prefix(A: nat, k: nat): nat {
    if k == 0 then A else Prefix(A, k - 1) / 2
  }

  /** The low `k` bits of the dividend, at the top of a 64-bit register. */
  function Aligned(A: nat, k: nat): nat {
    if k == 0 then 0 else (Prefix(A, k - 1) % 2) * TWO63 + Aligned(A, k - 1) / 2
  }

  /** With `k` dividend bits still in the top of Q: the bits consumed so far
      divide as q * D + R, and the rest of the dividend is untouched. */
  ghost predicate Partial(A: nat, D: nat, R: nat, Q: nat, k: nat, q: nat) {
    && k <= 64 && R < D < TWO64 && q < Pow2(64 - k)
    && Prefix(A, k) == q * D + R
    && Q == Aligned(A, k) + q
  }

  lemma PrefixStep(A: nat, k: nat)
    requires 0 < k <= 64
    ensures Prefix(A, k - 1) == 2 * Prefix(A, k) + Prefix(A, k - 1) % 2
    ensures Aligned(A, k) == Prefix(A, k - 1) % 2 * TWO63 + Aligned(A, k - 1) / 2
    ensures Pow2(k) == 2 * Pow2(k - 1) && Pow2(64 - (k - 1)) == 2 * Pow2(64 - k)
  {
  }

  lemma {:induction false} AlignedValue(A: nat, k: nat) returns (m: nat)
    requires k <= 64
    ensures A == Prefix(A, k) * Pow2(k) + m && m < Pow2(k)
    ensures Aligned(A, k) == m * Pow2(64 - k)
    decreases k
  {
    if k == 0 {
      m := 0;
    } else {
      var m' := AlignedValue(A, k - 1);
      var pre, bit, h, P := Prefix(A, k), Prefix(A, k - 1) % 2, Pow2(k - 1), Pow2(64 - k);
      m := bit * h + m';
      PrefixStep(A, k);
      hide *;
      Pow2Add(k - 1, 64 - k);
      Pow2Values();
      Regroup(pre, bit, h);
      Realign(bit, h, P, m', Aligned(A, k - 1));
      BitBound(bit, h, m');
    }
  }

  lemma Regroup(pre: nat, bit: nat, h: nat)
    ensures (2 * pre + bit) * h == pre * (2 * h) + bit * h
  {
  }

  lemma BitBound(bit: nat, h: nat, m: nat)
    requires bit <= 1 && m < h
    ensures bit * h + m < 2 * h
  {
  }

  lemma Realign(bit: nat, h: nat, P: nat, m: nat, aligned: nat)
    requires h * P == TWO63 && aligned == m * (2 * P) && bit <= 1
    ensures bit * TWO63 + aligned / 2 == (bit * h + m) * P
  {
    Doubling(m, P);
    if bit == 1 { assert (h + m) * P == h * P + m * P; }
  }

  lemma Doubling(x: nat, m: nat)
    ensures x * (2 * m) == 2 * (x * m)
  {
  }

  /** Q's top bit is the next dividend bit; the shift leaves the rest aligned. */
  lemma NextBit(A: nat, k: nat, q: nat) returns (bit: nat, low: nat)
    requires 0 < k <= 64 && q < Pow2(64 - k)
    ensures Prefix(A, k - 1) == 2 * Prefix(A, k) + bit && bit <= 1
    ensures Aligned(A, k) + q == bit * TWO63 + low && low < TWO63
    ensures 2 * low == Aligned(A, k - 1) + 2 * q
  {
    var m := AlignedValue(A, k - 1);
    var P := Pow2(64 - k);
    assert Pow2(64 - (k - 1)) == 2 * P;
    Doubling(m, P);
    bit, low := Prefix(A, k - 1) % 2, m * P + q;
    assert Pow2(k - 1) * P == TWO63 by { Pow2Add(k - 1, 64 - k); Pow2Values(); }
    BelowProduct(m, Pow2(k - 1), P, q);
  }

  lemma BelowProduct(m: nat, h: nat, P: nat, q: nat)
    requires m < h && q < P
    ensures m * P + q < h * P
  {
    assert m * P <= (h - 1) * P == h * P - P;
  }

  lemma TrialBorrows(top: Wide, D: Wide)
    requires 0 < D < TWO64 && top < 2 * D
    ensures Trial(top, D) >= TWO64 <==> top < D
    ensures top >= D ==> Trial(top, D) == top - D
  {
  }

  /** One iteration seen from outside: Q's top bit enters R. */
  predicate Shifts(p: Path, t: Path) {
    var top := 2 * p.R + p.Q / TWO63;
    && t.D == p.D
    && t.R == (if top < p.D then top else top - p.D)
    && t.Q == 2 * (p.Q % TWO63) + (if top < p.D then 0 else 1)
  }

  lemma IterateShifts(p: Path)
    requires p.R < p.D < TWO64
    ensures Shifts(p, Iterate(p))
  {
    TrialBorrows(ShiftedTop(p.R, p.Q), p.D);
  }

  lemma TopAndLow(Q: nat, bit: nat, low: nat)
    requires Q == bit * TWO63 + low && low < TWO63
    ensures Q / TWO63 == bit && Q % TWO63 == low
  {
  }

  /** One iteration consumes one dividend bit and keeps the invariant. */
  lemma ShiftKeepsPartial(A: nat, p: Path, t: Path, k: nat, q: nat) returns (q': nat)
    requires 0 < k && Partial(A, p.D, p.R, p.Q, k, q) && Shifts(p, t)
    ensures Partial(A, t.D, t.R, t.Q, k - 1, q')
  {
    var bit, low := NextBit(A, k, q);
    TopAndLow(p.Q, bit, low);
    q' := if 2 * p.R + bit < p.D then 2 * q else 2 * q + 1;
    assert Pow2(64 - (k - 1)) == 2 * Pow2(64 - k);
    TakeBit(p.D, p.R, q, bit);
  }

  lemma TakeBit(D: nat, R: nat, q: nat, bit: nat)
    ensures 2 * (q * D + R) + bit == (2 * q) * D + (2 * R + bit)
    ensures 2 * (q * D + R) + bit == (2 * q + 1) * D + (2 * R + bit - D)
  {
  }

  // ---- The schedule -----------------------------------------------------

  predicate Special(job: Job) {
    DivByZero(job) || Overflow(job)
  }

  /** Clock edges from acceptance to `done`, counting the accepting edge. */
  function Latency(job: Job): nat {
    if Special(job) then 2 else Width(job) + 2
  }

  /** What the unit must deliver. */
  function Quotient(job: Job): Word {
    ExecuteDiv(if job.isSigned then Div else Divu, job.isWord, job.dividend, job.divisor)
  }

  /** The remainder as the unit computes it: unsigned word division by zero
      returns the zero-extended dividend. */
  function Remainder(job: Job): Word {
    if DivByZero(job) then Effective(job, job.dividend)
    else ExecuteDiv(if job.isSigned then Rem else Remu, job.isWord, job.dividend, job.divisor)
  }

  ghost predicate RunningOk(p: Path, job: Job, k: nat) {
    && !Special(job) && p.D == Magnitude(job, job.divisor)
    && p.target == Width(job) && p.count + k == p.target
    && exists q :: Partial(Magnitude(job, job.dividend), p.D, p.R, p.Q, k, q)
  }

  /** The unit is working on `job` and `left` edges remain until `done`. */
  ghost predicate Phase(s: Fu, job: Job, left: nat) {
    if left == 0 then
      s.state == Idle && !s.busy && s.done && s.quotient == Quotient(job) && s.remainder == Remainder(job)
    else
      && s.busy && !s.done && s.held == HeldFor(job)
      && if left == 1 then s.state == Finish && (!Special(job) ==> RunningOk(s.path, job, 0))
         else s.state == Run && RunningOk(s.path, job, left - 1)
  }

  lemma MagnitudeBounds(job: Job, x: Word)
    ensures Magnitude(job, x) == 0 <==> Effective(job, x) == 0
    ensures job.isWord ==> Magnitude(job, x) < TWO32
  {
  }

  // ---- The delivered result ---------------------------------------------

  lemma LoopResult(s: Path, job: Job)
    requires RunningOk(s, job, 0)
    ensures s.D > 0 && s.Q == Magnitude(job, job.dividend) / s.D && s.R == Magnitude(job, job.dividend) % s.D
  {
    var A := Magnitude(job, job.dividend);
    var q :| Partial(A, s.D, s.R, s.Q, 0, q);
    assert A == s.Q * s.D + s.R;
    DivisionIsUnique(A, s.D, s.Q, s.R);
  }

  lemma DivisionIsUnique(A: nat, D: nat, q: nat, r: nat)
    requires A == q * D + r && r < D
    ensures q == A / D && r == A % D
  {
    MulAtLeast(q - A / D, D);
    assert (q - A / D) * D == A % D - r;
  }

  /** The operand as the mathematical number the division is about. */
  function Number(job: Job, x: Word): int {
    if job.isSigned then Signed(Effective(job, x)) else Effective(job, x)
  }

  lemma MagnitudeIsAbs(job: Job, x: Word)
    ensures Magnitude(job, x) == Abs(Number(job, x))
    ensures Negative(job, x) <==> Number(job, x) < 0
  {
  }

  lemma NumberOfWord(job: Job, x: Word)
    requires job.isWord
    ensures Number(job, x) == if job.isSigned then SignedHalf(Low(x)) else Low(x)
  {
  }

  lemma NegateIsMinus(x: int)
    requires 0 <= x < TWO64
    ensures Negate(x) == Wrap(0 - x)
  {
  }

  /** The sign fix-up turns the magnitudes' quotient into the truncated one. */
  lemma SignFix(p: Path, job: Job)
    requires RunningOk(p, job, 0)
    ensures Number(job, job.divisor) != 0
    ensures var h := HeldFor(job);
            && (if h.quotientNeg then Negate(p.Q) else p.Q) ==
               Wrap(TruncDiv(Number(job, job.dividend), Number(job, job.divisor)))
            && (if h.remainderNeg then Negate(p.R % TWO64) else p.R % TWO64) ==
               Wrap(TruncRem(Number(job, job.dividend), Number(job, job.divisor)))
  {
    var a, b := Number(job, job.dividend), Number(job, job.divisor);
    assert Abs(a) < TWO64 && Abs(b) < TWO64 && p.D == Abs(b) &&
           Magnitude(job, job.dividend) == Abs(a) && HeldFor(job).quotientNeg == ((a < 0) != (b < 0)) &&
           HeldFor(job).remainderNeg == (a < 0) by {
      MagnitudeIsAbs(job, job.dividend);
      MagnitudeIsAbs(job, job.divisor);
    }
    LoopResult(p, job);
    SignCases(a, b, p.Q, p.R);
  }

  lemma SignCases(a: int, b: int, q: Word, r: nat)
    requires b != 0 && Abs(b) < TWO64 && q == Abs(a) / Abs(b) && r == Abs(a) % Abs(b)
    ensures r % TWO64 == r < TWO64
    ensures (if (a < 0) != (b < 0) then Negate(q) else q) == Wrap(TruncDiv(a, b))
    ensures (if a < 0 then Negate(r % TWO64) else r % TWO64) == Wrap(TruncRem(a, b))
  {
    NaturalDivision(Abs(a), Abs(b));
    NegateIsMinus(q);
    NegateIsMinus(r);
  }

  lemma LowOfWrap(x: int)
    ensures Low(Wrap(x)) == WrapHalf(x)
  {
  }

  lemma SpecialResults(job: Job)
    requires Special(job)
    ensures DivByZero(job) ==> Quotient(job) == TWO64 - 1
    ensures !DivByZero(job) ==> Quotient(job) == Effective(job, job.dividend) && Remainder(job) == 0
  {
    hide TruncDiv, TruncRem;
    if job.isWord { ZeroWord(job); }
  }

  /** A word job is special by its low halves. */
  lemma ZeroWord(job: Job)
    requires job.isWord
    ensures DivByZero(job) <==> Low(job.divisor) == 0
    ensures Overflow(job) <==> job.isSigned && Low(job.dividend) == TWO31 && Low(job.divisor) == TWO32 - 1
    ensures SignExtend(TWO32 - 1) == TWO64 - 1 && SignExtend(TWO31) == TWO64 - TWO31
  {
  }

  lemma PlainResults(job: Job)
    requires !Special(job)
    ensures Number(job, job.divisor) != 0
    ensures var q := Wrap(TruncDiv(Number(job, job.dividend), Number(job, job.divisor)));
            Quotient(job) == if job.isWord then SignExtend(Low(q)) else q
    ensures var r := Wrap(TruncRem(Number(job, job.dividend), Number(job, job.divisor)));
            Remainder(job) == if job.isWord then SignExtend(Low(r)) else r
  {
    var a, b := Number(job, job.dividend), Number(job, job.divisor);
    if job.isWord {
      NumberOfWord(job, job.dividend);
      NumberOfWord(job, job.divisor);
      LowOfWrap(TruncDiv(a, b));
      LowOfWrap(TruncRem(a, b));
    }
  }

  lemma DeliverIsRight(p: Path, job: Job)
    requires !Special(job) ==> RunningOk(p, job, 0)
    ensures QuotientOut(HeldFor(job), p) == Quotient(job)
    ensures RemainderOut(HeldFor(job), p) == Remainder(job)
  {
    if Special(job) {
      SpecialResults(job);
    } else {
      SignFix(p, job);
      PlainResults(job);
    }
  }

  lemma BelowIsZero(pre: nat, p: nat, m: nat, A: nat)
    requires A == pre * p + m && A < p
    ensures pre == 0 && m == A
  {
  }

  lemma StartsRunning(job: Job)
    requires !Special(job)
    ensures RunningOk(PathFor(job), job, Width(job))
  {
    var mag, D, w := Magnitude(job, job.dividend), Magnitude(job, job.divisor), Width(job);
    MagnitudeBounds(job, job.dividend);
    MagnitudeBounds(job, job.divisor);
    StartsPartial(mag, D, InitialQ(job), w);
    assert Partial(mag, D, 0, InitialQ(job), w, 0);
  }

  lemma StartsPartial(mag: Word, D: Word, Q: Word, w: nat)
    requires D > 0 && ((w == 64 && Q == mag) || (w == 32 && mag < TWO32 && Q == mag * TWO32))
    ensures Partial(mag, D, 0, Q, w, 0)
  {
    hide Prefix, Aligned;
    Pow2Values();
    var m := AlignedValue(mag, w);
    BelowIsZero(Prefix(mag, w), Pow2(w), m, mag);
  }

  /** Accepting `start` begins the job's schedule. */
  lemma AcceptStarts(s: Fu, inp: FuIn)
    requires s.state == Idle && inp.start
    ensures Phase(FuStep(s, inp), inp.job, Latency(inp.job) - 1)
  {
    if !Special(inp.job) { StartsRunning(inp.job); }
  }

  lemma RunningShift(p: Path, t: Path, job: Job, k: nat)
    requires k > 0 && RunningOk(p, job, k)
    requires Shifts(p, t) && t.target == p.target && t.count == p.count + 1
    ensures RunningOk(t, job, k - 1)
  {
    var A := Magnitude(job, job.dividend);
    var q :| Partial(A, p.D, p.R, p.Q, k, q);
    var q' := ShiftKeepsPartial(A, p, t, k, q);
  }

  lemma CountStep(p: Path, k: nat)
    requires k > 0 && p.count + k == p.target <= 64
    ensures Iterate(p).count == p.count + 1 && Iterate(p).target == p.target
    ensures LastIteration(p) <==> k == 1
  {
  }

  lemma RunAdvances(p: Path, job: Job, k: nat)
    requires k > 0 && RunningOk(p, job, k)
    ensures RunningOk(Iterate(p), job, k - 1) && (LastIteration(p) <==> k == 1)
  {
    assert p.R < p.D < TWO64 && p.count + k == Width(job);
    CountStep(p, k);
    hide Partial;
    IterateShifts(p);
    RunningShift(p, Iterate(p), job, k);
  }

  /** Every edge moves the schedule on by one, whatever the inputs are. */
  lemma PhaseAdvances(s: Fu, job: Job, left: nat, inp: FuIn)
    requires left > 0 && Phase(s, job, left)
    ensures Phase(FuStep(s, inp), job, left - 1)
  {
    if left == 1 {
      DeliverIsRight(s.path, job);
    } else {
      RunAdvances(s.path, job, left - 1);
    }
  }
}

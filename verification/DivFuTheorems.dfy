/** What the divider guarantees over whole runs. */
module DivFuTheorems {
  import opened Words
  import opened Divide
  import opened DivFu
  import opened DivFuProofs
  import opened DivRs

  /** The unit after `n` edges of an input trace. */
  function After(s: Fu, ins: seq<FuIn>, n: nat): Fu
    requires n <= |ins|
  {
    if n == 0 then s else FuStep(After(s, ins, n - 1), ins[n - 1])
  }

  lemma {:induction false} PhaseAfter(s: Fu, ins: seq<FuIn>, n: nat)
    requires s.state == Idle && 0 < |ins| && ins[0].start
    requires 1 <= n <= Latency(ins[0].job) && n <= |ins|
    ensures Phase(After(s, ins, n), ins[0].job, Latency(ins[0].job) - n)
  {
    if n == 1 {
      AcceptStarts(s, ins[0]);
    } else {
      PhaseAfter(s, ins, n - 1);
      PhaseAdvances(After(s, ins, n - 1), ins[0].job, Latency(ins[0].job) - (n - 1), ins[n - 1]);
    }
  }

  /** From an idle unit that is started: busy and silent until edge 2, 34 or
      66, then exactly one `done` with the right results, whatever is presented
      on the inputs meanwhile. */
  lemma DividerSchedule(s: Fu, ins: seq<FuIn>)
    requires s.state == Idle && 0 < |ins| && ins[0].start
    requires |ins| > Latency(ins[0].job)
    ensures var job := ins[0].job;
            && Latency(job) == (if Special(job) then 2 else if job.isWord then 34 else 66)
            && (forall n :: 1 <= n < Latency(job) ==> After(s, ins, n).busy && !After(s, ins, n).done)
            && !After(s, ins, Latency(job) + 1).done
    ensures var end := After(s, ins, Latency(ins[0].job));
            end.done && !end.busy && end.quotient == Quotient(ins[0].job) && end.remainder == Remainder(ins[0].job)
  {
    var job := ins[0].job;
    forall n | 1 <= n <= Latency(job)
      ensures Phase(After(s, ins, n), job, Latency(job) - n)
    {
      PhaseAfter(s, ins, n);
    }
    DoneDrops(After(s, ins, Latency(job)), job, ins[Latency(job)]);
  }

  lemma DoneDrops(s: Fu, job: Job, inp: FuIn)
    requires Phase(s, job, 0)
    ensures !FuStep(s, inp).done
  {
  }

  /** Which jobs take the two-edge path: a zero divisor, or the most negative
      number divided by minus one, in the job's own width. */
  lemma EarlyIff(job: Job)
    ensures var (a, b) := (job.dividend, job.divisor);
            Latency(job) == 2
            <==> if job.isWord then Low(b) == 0 || (job.isSigned && Low(a) == TWO31 && Low(b) == TWO32 - 1)
                 else b == 0 || (job.isSigned && a == TWO63 && b == TWO64 - 1)
  {
    if job.isWord { ZeroWord(job); }
  }

  /** The value div_rs takes from the finished unit. */
  function UnitResult(op: DivOp, wordOp: bool, a: Word, b: Word): Word {
    if op == Rem || op == Remu then Remainder(JobOf(op, wordOp, a, b)) else Quotient(JobOf(op, wordOp, a, b))
  }

  predicate RemuwByZeroHigh(op: DivOp, wordOp: bool, a: Word, b: Word) {
    op == Remu && wordOp && Low(b) == 0 && Low(a) >= TWO31
  }

  /** The iterative unit agrees with execute.v on every operand pair except
      REMUW by zero of a dividend with bit 31 set, where it never does. */
  lemma UnitMatchesExecute(op: DivOp, wordOp: bool, a: Word, b: Word)
    ensures UnitResult(op, wordOp, a, b) == ExecuteDiv(op, wordOp, a, b) <==> !RemuwByZeroHigh(op, wordOp, a, b)
  {
    var job := JobOf(op, wordOp, a, b);
    assert DivByZero(job) <==> if wordOp then Low(b) == 0 else b == 0;
  }

  /** The one differing case, in numbers: 0x80000000 remuw 0. */
  lemma RemuwByZeroDiffers()
    ensures UnitResult(Remu, true, TWO31, 0) == TWO31
    ensures ExecuteDiv(Remu, true, TWO31, 0) == TWO64 - TWO31
  {
  }

  /** execute.v's 64-bit signed results satisfy the division identity except on
      the two architecturally defined inputs. */
  lemma SignedDivideIdentity(a: Word, b: Word)
    requires b != 0 && !(a == TWO63 && b == TWO64 - 1)
    ensures var q, r := Signed(ExecuteDiv(Div, false, a, b)), Signed(ExecuteDiv(Rem, false, a, b));
            && Signed(a) == q * Signed(b) + r
            && Abs(r) < Abs(Signed(b)) && (r != 0 ==> (r < 0 <==> Signed(a) < 0))
  {
    var x, y := Signed(a), Signed(b);
    TruncatedDivision(x, y);
    QuotientFits(x, y);
    assert Signed(Wrap(TruncDiv(x, y))) == TruncDiv(x, y);
    assert Signed(Wrap(TruncRem(x, y))) == TruncRem(x, y);
  }

  lemma QuotientFits(x: int, y: int)
    requires y != 0 && -TWO63 <= x < TWO63 && -TWO63 <= y < TWO63 && !(x == -TWO63 && y == -1)
    ensures -TWO63 <= TruncDiv(x, y) < TWO63 && -TWO63 <= TruncRem(x, y) < TWO63
  {
    var m, n := Abs(x), Abs(y);
    DivisionFits(m, n);
  }

  lemma DivisionFits(m: nat, n: nat)
    requires n > 0
    ensures 0 <= m / n <= m && 0 <= m % n <= m && (n >= 2 ==> 2 * (m / n) <= m) && (n == 1 ==> m / n == m)
  {
    NaturalDivision(m, n);
    MagnitudesFit(m, n, m / n, m % n);
  }

  lemma MagnitudesFit(m: nat, n: nat, q: nat, r: nat)
    requires n > 0 && m == q * n + r && r < n
    ensures q <= m && r <= m && (n >= 2 ==> 2 * q <= m) && (n == 1 ==> q == m)
  {
    QuotientShrinks(q, n, m);
  }

  lemma QuotientShrinks(q: nat, n: nat, m: nat)
    requires n > 0 && q * n <= m
    ensures q <= m && (n >= 2 ==> 2 * q <= m)
  {
    assert q * n >= q;
    if n >= 2 { assert q * n >= q * 2; }
  }
}

/** The iterative restoring divider, one clock edge of div_fu.v at a time. */
module DivFu {
  import opened Words
  import opened Divide

  const TWO65: int := 0x2_0000_0000_0000_0000

  type Wide = x: int | 0 <= x < 0x2_0000_0000_0000_0000

  datatype State = Idle | Run | Finish

  /** The operands sampled when `start` is accepted. */
  datatype Job = Job(isSigned: bool, isWord: bool, dividend: Word, divisor: Word)

  datatype FuIn = FuIn(start: bool, job: Job)

  /** What is latched on acceptance and used again only in Finish. */
  datatype Held = Held(isWord: bool, quotientNeg: bool, remainderNeg: bool,
                       byZero: bool, overflow: bool, effDividend: Word)

  /** The restoring-division datapath and its iteration counter. */
  datatype Path = Path(R: Wide, Q: Word, D: Wide, count: nat, target: nat)

  /** Every register of the unit. */
  datatype Fu = Fu(state: State, busy: bool, done: bool, quotient: Word, remainder: Word,
                   held: Held, path: Path)

  // ---- Operand setup ----------------------------------------------------

  function Effective(job: Job, x: Word): Word {
    if job.isWord then (if job.isSigned then SignExtend(Low(x)) else Low(x)) else x
  }

  function Negative(job: Job, x: Word): bool {
    job.isSigned && Effective(job, x) >= TWO63
  }

  function Negate(x: Word): Word {
    Wrap(TWO64 - x)
  }

  function Magnitude(job: Job, x: Word): Word {
    if Negative(job, x) then Negate(Effective(job, x)) else Effective(job, x)
  }

  predicate DivByZero(job: Job) {
    Effective(job, job.divisor) == 0
  }

  predicate Overflow(job: Job) {
    && job.isSigned
    && Effective(job, job.dividend) == (if job.isWord then TWO64 - TWO31 else TWO63)
    && Effective(job, job.divisor) == TWO64 - 1
  }

  function Width(job: Job): nat {
    if job.isWord then 32 else 64
  }

  /** The dividend, left-justified in the 64-bit quotient register. */
  function InitialQ(job: Job): Word {
    if job.isWord then Low(Magnitude(job, job.dividend)) * TWO32 else Magnitude(job, job.dividend)
  }

  function HeldFor(job: Job): Held {
    Held(job.isWord, Negative(job, job.dividend) != Negative(job, job.divisor), Negative(job, job.dividend),
         DivByZero(job), Overflow(job), Effective(job, job.dividend))
  }

  function PathFor(job: Job): Path {
    Path(0, InitialQ(job), Magnitude(job, job.divisor), 0, Width(job))
  }

  // ---- The clock edge ---------------------------------------------------

  /** Bits 128:64 of {R, Q} << 1, that is {R[63:0], Q[63]}. */
  function ShiftedTop(r: Wide, q: Word): Wide {
    2 * (r % TWO64) + q / TWO63
  }

  /** Bits 63:1 of {R, Q} << 1 and a new quotient bit, that is {Q[62:0], bit}. */
  function ShiftedLow(q: Word, bit: bool): Word {
    2 * (q % TWO63) + (if bit then 1 else 0)
  }

  function Trial(top: Wide, d: Wide): Wide {
    (top - d) % TWO65
  }

  function Accept(s: Fu, job: Job): Fu {
    if DivByZero(job) || Overflow(job)
    then Fu(Finish, true, false, s.quotient, s.remainder, HeldFor(job), s.path)
    else Fu(Run, true, false, s.quotient, s.remainder, HeldFor(job), PathFor(job))
  }

  /** One trial subtraction: shift a dividend bit into R, keep or restore. */
  function Iterate(p: Path): Path {
    var top := ShiftedTop(p.R, p.Q);
    var trial := Trial(top, p.D);
    if trial >= TWO64
    then Path(top, ShiftedLow(p.Q, false), p.D, (p.count + 1) % 128, p.target)
    else Path(trial, ShiftedLow(p.Q, true), p.D, (p.count + 1) % 128, p.target)
  }

  predicate LastIteration(p: Path) {
    p.count == (p.target - 1) % 128
  }

  function QuotientOut(h: Held, p: Path): Word {
    var q := if h.quotientNeg then Negate(p.Q) else p.Q;
    if h.byZero then TWO64 - 1
    else if h.overflow then h.effDividend
    else if h.isWord then SignExtend(Low(q)) else q
  }

  function RemainderOut(h: Held, p: Path): Word {
    var r := if h.remainderNeg then Negate(p.R % TWO64) else p.R % TWO64;
    if h.byZero then h.effDividend
    else if h.overflow then 0
    else if h.isWord then SignExtend(Low(r)) else r
  }

  function FuStep(s: Fu, inp: FuIn): Fu {
    match s.state
    case Idle => if inp.start then Accept(s, inp.job) else s.(done := false)
    case Run =>
      s.(state := if LastIteration(s.path) then Finish else Run, done := false, path := Iterate(s.path))
    case Finish =>
      Fu(Idle, false, true, QuotientOut(s.held, s.path), RemainderOut(s.held, s.path), s.held, s.path)
  }

  /** The clocked unit. */
  class Divider {
    var state: State
    var busy: bool
    var done: bool
    var quotient: Word
    var remainder: Word
    var held: Held
    var path: Path

    constructor (held: Held, path: Path)
      ensures View() == Fu(Idle, false, false, 0, 0, held, path)
    {
      state, busy, done, quotient, remainder := Idle, false, false, 0, 0;
      this.held, this.path := held, path;
    }

    function View(): Fu
      reads this
    {
      Fu(state, busy, done, quotient, remainder, held, path)
    }

    method Tick(inp: FuIn)
      modifies this
      ensures View() == FuStep(old(View()), inp)
    {
      done := false;
      match state
      case Idle =>
        if inp.start {
          busy, held := true, HeldFor(inp.job);
          if DivByZero(inp.job) || Overflow(inp.job) {
            state := Finish;
          } else {
            path := PathFor(inp.job);
            state := Run;
          }
        }
      case Run =>
        state := if LastIteration(path) then Finish else Run;
        path := Iterate(path);
      case Finish =>
        done, busy, state := true, false, Idle;
        quotient, remainder := QuotientOut(held, path), RemainderOut(held, path);
    }
  }
}

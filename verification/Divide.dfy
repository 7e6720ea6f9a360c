/** The direct divide and remainder of execute.v, the architectural reference. */
module Divide {
  import opened Words

  datatype DivOp = Div | Divu | Rem | Remu

  function Abs(x: int): nat {
    if x < 0 then -x else x
  }

  /** Integer division truncated toward zero, as Verilog's signed `/`. */
  function TruncDiv(a: int, b: int): int
    requires b != 0
  {
    if (a < 0) != (b < 0) then -(Abs(a) / Abs(b)) else Abs(a) / Abs(b)
  }

  /** The remainder with the dividend's sign, as Verilog's signed `%`. */
  function TruncRem(a: int, b: int): int
    requires b != 0
  {
    if a < 0 then -(Abs(a) % Abs(b)) else Abs(a) % Abs(b)
  }

  /** Truncated division is pinned down by the division identity, the size and
      the sign of the remainder. */
  lemma TruncatedDivision(a: int, b: int)
    requires b != 0
    ensures a == TruncDiv(a, b) * b + TruncRem(a, b)
    ensures Abs(TruncRem(a, b)) < Abs(b)
    ensures TruncRem(a, b) != 0 ==> (TruncRem(a, b) < 0 <==> a < 0)
  {
    var m, n := Abs(a), Abs(b);
    NaturalDivision(m, n);
    SignedIdentity(a, b, m / n, m % n);
  }

  lemma SignedIdentity(a: int, b: int, q: int, r: int)
    requires Abs(a) == q * Abs(b) + r
    ensures a == (if (a < 0) != (b < 0) then -q else q) * b + (if a < 0 then -r else r)
  {
    MulSigns(q, Abs(b));
  }

  lemma NaturalDivision(m: nat, n: nat)
    requires n > 0
    ensures m == (m / n) * n + m % n && 0 <= m % n < n
  {
  }

  lemma MulSigns(q: int, n: int)
    ensures (-q) * n == -(q * n) && q * (-n) == -(q * n) && (-q) * (-n) == q * n
  {
  }

  function FullResult(op: DivOp, a: Word, b: Word): Word {
    var overflow := a == TWO63 && b == TWO64 - 1;
    match op
    case Div => if b == 0 then TWO64 - 1 else if overflow then TWO63 else Wrap(TruncDiv(Signed(a), Signed(b)))
    case Divu => if b == 0 then TWO64 - 1 else Wrap(a / b)
    case Rem => if b == 0 then a else if overflow then 0 else Wrap(TruncRem(Signed(a), Signed(b)))
    case Remu => if b == 0 then a else Wrap(a % b)
  }

  function WordResult(op: DivOp, a: Half, b: Half): Half {
    var overflow := a == TWO31 && b == TWO32 - 1;
    match op
    case Div => if b == 0 then TWO32 - 1 else if overflow then TWO31 else WrapHalf(TruncDiv(SignedHalf(a), SignedHalf(b)))
    case Divu => if b == 0 then TWO32 - 1 else WrapHalf(a / b)
    case Rem => if b == 0 then a else if overflow then 0 else WrapHalf(TruncRem(SignedHalf(a), SignedHalf(b)))
    case Remu => if b == 0 then a else WrapHalf(a % b)
  }

  /** What execute.v writes back for a divide-class instruction. */
  function ExecuteDiv(op: DivOp, wordOp: bool, a: Word, b: Word): Word {
    if wordOp then SignExtend(WordResult(op, Low(a), Low(b))) else FullResult(op, a, b)
  }
}

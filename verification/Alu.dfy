/** The integer ALU shared by the single-cycle core and the out-of-order bank. */
module Alu {
  import opened Words

  datatype AluOp = Add | Sub | And | Or | Xor | Sll | Srl | Sra | Slt | Sltu | NoAluOp

  function FullResult(op: AluOp, a: Word, b: Word): Word {
    match op
    case Add => Wrap(a + b)
    case Sub => Wrap(a - b)
    case And => Combine(AndBits, a, b)
    case Or => Combine(OrBits, a, b)
    case Xor => Combine(XorBits, a, b)
    case Sll => Wrap(a * Pow2(b % 64))
    case Srl => Wrap(a / Pow2(b % 64))
    case Sra => Wrap(Signed(a) / Pow2(b % 64))
    case Slt => if Signed(a) < Signed(b) then 1 else 0
    case Sltu => if a < b then 1 else 0
    case NoAluOp => 0
  }

  function WordResult(op: AluOp, a: Half, b: Half): Half {
    match op
    case Add => WrapHalf(a + b)
    case Sub => WrapHalf(a - b)
    case Sll => WrapHalf(a * Pow2(b % 32))
    case Srl => WrapHalf(a / Pow2(b % 32))
    case Sra => WrapHalf(SignedHalf(a) / Pow2(b % 32))
    case _ => 0
  }

  /** The 64-bit result, or the sign-extended 32-bit one for the *W forms. */
  function AluExec(op: AluOp, wordOp: bool, a: Word, b: Word): Word {
    if wordOp then SignExtend(WordResult(op, Low(a), Low(b))) else FullResult(op, a, b)
  }
}

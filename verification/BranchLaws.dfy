/** The branch conditions, through the subtraction and the two set-less-than
    results of the same operands. */
module BranchLaws {
  import opened Words
  import opened Alu
  import AluLaws
  import opened Execute

  /** BEQ and BNE test whether the difference is zero. */
  lemma EqualityBranches(a: Word, b: Word)
    ensures BranchTaken(0, a, b) <==> AluExec(Sub, false, a, b) == 0
    ensures BranchTaken(1, a, b) <==> AluExec(Sub, false, a, b) != 0
  {
    hide AluExec;
    AluLaws.CarryAndBorrow(a, b);
    CompareIsBit(a, b);
  }

  lemma CompareIsBit(a: Word, b: Word)
    ensures AluExec(Sltu, false, a, b) <= 1 && AluExec(Slt, false, a, b) <= 1
  {
  }

  /** BLTU and BGEU test the borrow of the difference; BLT and BGE the borrow
      once both sign bits are flipped; the two remaining codes never branch. */
  lemma OrderBranches(a: Word, b: Word)
    ensures BranchTaken(6, a, b) <==> AluExec(Sub, false, a, b) == a - b + TWO64
    ensures BranchTaken(7, a, b) <==> AluExec(Sub, false, a, b) == a - b
    ensures BranchTaken(4, a, b) <==> AluExec(Slt, false, a, b) == 1
    ensures BranchTaken(5, a, b) <==> AluExec(Slt, false, a, b) == 0
    ensures BranchTaken(6, a, b) <==> AluExec(Sltu, false, a, b) == 1
    ensures BranchTaken(7, a, b) <==> AluExec(Sltu, false, a, b) == 0
    ensures !BranchTaken(2, a, b) && !BranchTaken(3, a, b)
  {
    AluLaws.CarryAndBorrow(a, b);
  }

  /** Signed order is unsigned order with both sign bits flipped. */
  lemma SignedBranches(a: Word, b: Word)
    ensures BranchTaken(4, a, b) <==> BranchTaken(6, Wrap(a + TWO63), Wrap(b + TWO63))
    ensures BranchTaken(5, a, b) <==> BranchTaken(7, Wrap(a + TWO63), Wrap(b + TWO63))
  {
    AluLaws.FlippedSign(a);
    AluLaws.FlippedSign(b);
  }
}

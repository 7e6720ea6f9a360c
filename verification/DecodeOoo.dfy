/** The out-of-order decoder, which classifies each instruction by reservation
    station, against the single-cycle decoder and execute stage. */
module DecodeOoo {
  import opened Words
  import opened Encode
  import opened Execute
  import Alu
  import Divide
  import DivFuTheorems

  datatype Class = ToAlu | ToMul | ToDiv | ToBranch | ToJal | ToJalr | ToLoad | ToStore | Nowhere

  datatype Dispatch = Dispatch(class_: Class, aluOp: AluOp, wordOp: bool, mulDivOp: Field3, regWrite: bool,
                               src2IsImm: bool, src1IsZero: bool, src1IsPc: bool)

  const BLANK: Dispatch := Dispatch(Nowhere, Alu.Add, false, 0, false, false, false, false)

  function MulDivClass(f3: Field3): Class {
    if f3 < 4 then ToMul else ToDiv
  }

  /** The R-type table, on {func7, func3}. */
  function RegisterTable(key: nat): AluOp {
    match key
    case 0 => Alu.Add
    case 0x100 => Alu.Sub
    case 7 => Alu.And
    case 6 => Alu.Or
    case 4 => Alu.Xor
    case 1 => Alu.Sll
    case 5 => Alu.Srl
    case 0x105 => Alu.Sra
    case 2 => Alu.Slt
    case 3 => Alu.Sltu
    case _ => Alu.Add
  }

  function WordRegisterTable(key: nat): AluOp {
    match key
    case 0x100 => Alu.Sub
    case 1 => Alu.Sll
    case 5 => Alu.Srl
    case 0x105 => Alu.Sra
    case _ => Alu.Add
  }

  function ImmediateTable(f3: Field3, f6: nat): AluOp {
    match f3
    case 2 => Alu.Slt
    case 3 => Alu.Sltu
    case 4 => Alu.Xor
    case 6 => Alu.Or
    case 7 => Alu.And
    case 1 => Alu.Sll
    case 5 => if f6 == 0x10 then Alu.Sra else Alu.Srl
    case _ => Alu.Add
  }

  /** This decoder's immediate generator, without the vector and float cases. */
  function ScalarImm(w: Half): Word {
    var op := Opcode(w);
    if op == OP_LOAD || op == OP_I || op == OP_JALR || op == OP_IMM_32 then ImmI(w)
    else if op == OP_S then ImmS(w)
    else if op == OP_B then ImmB(w)
    else if op == OP_JAL then ImmJ(w)
    else if op == OP_LUI || op == OP_AUIPC then ImmU(w)
    else 0
  }

  /** The decode_ooo.v table, scalar opcodes. */
  function Classify(w: Half): Dispatch {
    var op, f3, f7 := Opcode(w), Func3(w), Func7(w);
    if op == OP_R then
      if f7 == 1 then BLANK.(class_ := MulDivClass(f3), mulDivOp := f3, regWrite := true)
      else BLANK.(class_ := ToAlu, regWrite := true, aluOp := RegisterTable(f7 * 8 + f3))
    else if op == OP_32 then
      if f7 == 1 then BLANK.(class_ := MulDivClass(f3), mulDivOp := f3, regWrite := true, wordOp := true)
      else BLANK.(class_ := ToAlu, regWrite := true, wordOp := true, aluOp := WordRegisterTable(f7 * 8 + f3))
    else if op == OP_I then
      BLANK.(class_ := ToAlu, regWrite := true, src2IsImm := true, aluOp := ImmediateTable(f3, f7 / 2))
    else if op == OP_IMM_32 then
      BLANK.(class_ := ToAlu, regWrite := true, src2IsImm := true, wordOp := true,
             aluOp := if f3 == 1 then Alu.Sll
                      else if f3 == 5 then (if f7 == 0x20 then Alu.Sra else Alu.Srl) else Alu.Add)
    else if op == OP_LOAD then BLANK.(class_ := ToLoad, regWrite := true)
    else if op == OP_S then BLANK.(class_ := ToStore)
    else if op == OP_B then BLANK.(class_ := ToBranch)
    else if op == OP_JAL then BLANK.(class_ := ToJal, regWrite := true)
    else if op == OP_JALR then BLANK.(class_ := ToJalr, regWrite := true, src2IsImm := true)
    else if op == OP_LUI then BLANK.(class_ := ToAlu, regWrite := true, src2IsImm := true, src1IsZero := true)
    else if op == OP_AUIPC then BLANK.(class_ := ToAlu, regWrite := true, src2IsImm := true, src1IsPc := true)
    else if op == OP_SYSTEM then BLANK.(class_ := ToAlu, src1IsZero := true, src2IsImm := true)
    else BLANK
  }

  // ---- What the two cores do with an instruction ---------------------------

  /** The architectural effect: the destination value if there is one, and the
      next pc. */
  datatype Effect = Effect(rdValue: Option<Word>, nextPc: Word)

  /** The single-cycle core, for an uncompressed instruction. */
  function InOrder(w: Half, rs1: Word, rs2: Word, pc: Word): Effect {
    var c := Decode(w);
    var r := Run(w, c, rs1, rs2, pc, 4);
    Effect(if c.regWrite then Some(r.aluResult) else None, r.nextPc)
  }

  /** branch_rs.v's target. */
  function Target(class_: Class, f3: Field3, pc: Word, imm: Word, s1: Word, s2: Word): Word {
    if class_ == ToJal then Wrap(pc + imm)
    else if class_ == ToJalr then Wrap(s1 + imm) / 2 * 2
    else if class_ == ToBranch && BranchTaken(f3, s1, s2) then Wrap(pc + imm)
    else Wrap(pc + 4)
  }

  /** What div_rs.v reads from its operation code: bit 0 clear is signed, bit 1
      set is a remainder. */
  function StationOp(op: Field3): Divide.DivOp {
    if op / 2 % 2 == 1 then (if op % 2 == 0 then Divide.Rem else Divide.Remu)
    else if op % 2 == 0 then Divide.Div
    else Divide.Divu
  }

  /** The value the instruction's station broadcasts, and the next pc. */
  function OutOfOrder(w: Half, rs1: Word, rs2: Word, pc: Word): Effect {
    var d, imm := Classify(w), ScalarImm(w);
    var s1 := if d.src1IsZero then 0 else if d.src1IsPc then pc else rs1;
    var s2 := if d.src2IsImm then imm else rs2;
    var value := match d.class_
                 case ToAlu => Alu.AluExec(d.aluOp, d.wordOp, s1, s2)
                 case ToDiv => DivFuTheorems.UnitResult(StationOp(d.mulDivOp), d.wordOp, s1, s2)
                 case _ => Wrap(pc + 4);
    Effect(if d.regWrite then Some(value) else None, Target(d.class_, Func3(w), pc, imm, rs1, rs2))
  }

  /** The opcodes both decoders handle outside memory and multiply. */
  predicate Covered(w: Half) {
    var op := Opcode(w);
    || op == OP_I || op == OP_IMM_32 || op == OP_B || op == OP_JAL || op == OP_JALR || op == OP_LUI || op == OP_AUIPC
    || ((op == OP_R || op == OP_32) && (Func7(w) == 1 ==> Func3(w) >= 4))
  }

  /** Right-shift immediates whose upper bits are neither defined pattern. */
  predicate ReservedShift(w: Half) {
    && Func3(w) == 5
    && ((Opcode(w) == OP_I && Func7(w) / 2 != 0 && Func7(w) / 2 != 0x10)
        || (Opcode(w) == OP_IMM_32 && Func7(w) != 0 && Func7(w) != 0x20))
  }

  /** REMUW by zero of a dividend with bit 31 set. */
  predicate RemuwByZero(w: Half, rs1: Word, rs2: Word) {
    && Opcode(w) == OP_32 && Func7(w) == 1 && Func3(w) == 7
    && DivFuTheorems.RemuwByZeroHigh(Divide.Remu, true, rs1, rs2)
  }

  /** The two decoders pick the same ALU operation exactly on the encodings that
      are not reserved. */
  lemma SameAluOpIff(w: Half)
    requires Covered(w) && Classify(w).class_ == ToAlu
    ensures Classify(w).aluOp == Decode(w).aluOp <==> !ReservedShift(w)
  {
    hide Opcode, Func3, Func7;
  }

  lemma SameImmediate(w: Half)
    requires Covered(w)
    ensures ScalarImm(w) == Imm(w)
  {
    hide Opcode, ImmI, ImmS, ImmB, ImmU, ImmJ;
  }

  lemma DivideAgrees(f3: Field3, wordOp: bool, a: Word, b: Word)
    requires f3 >= 4
    ensures (DivFuTheorems.UnitResult(StationOp(f3), wordOp, a, b)
             == if wordOp then SignExtend(MulDivWord(f3, a, b)) else MulDivFull(f3, a, b))
            <==> !DivFuTheorems.RemuwByZeroHigh(DivOpOf(f3), wordOp, a, b)
  {
    hide Product, Sext128, HighHalf, DivFuTheorems.UnitResult, Divide.FullResult, Divide.WordResult;
    DivFuTheorems.UnitMatchesExecute(DivOpOf(f3), wordOp, a, b);
  }

  /** Beyond what is compared value by value: both decoders see a load, a store
      and a multiply in the same words, with the same width, operation,
      immediate and destination. */
  lemma ClassesAgree(w: Half)
    requires Opcode(w) !in {OP_AMO, OP_LOAD_FP, OP_STORE_FP, OP_V}
    ensures Classify(w).class_ == ToLoad <==> Decode(w).memToReg
    ensures Classify(w).class_ == ToStore <==> Decode(w).memWrite
    ensures Classify(w).class_ == ToMul <==> Decode(w).mulDiv.Some? && Decode(w).mulDiv.value < 4
    ensures Classify(w).class_ == ToDiv <==> Decode(w).mulDiv.Some? && Decode(w).mulDiv.value >= 4
    ensures Decode(w).mulDiv.Some? ==> Classify(w).mulDivOp == Decode(w).mulDiv.value
    ensures Classify(w).wordOp == Decode(w).wordOp && Classify(w).regWrite == Decode(w).regWrite
    ensures ScalarImm(w) == Imm(w)
  {
    hide Opcode, Func3, Func7, ImmI, ImmS, ImmB, ImmU, ImmJ, RegisterOp, WordRegisterOp, ImmediateOp, WordImmediateOp,
      RegisterTable, WordRegisterTable, ImmediateTable;
  }

  lemma SameNextPc(w: Half, rs1: Word, rs2: Word, pc: Word)
    requires Covered(w)
    ensures InOrder(w, rs1, rs2, pc).nextPc == OutOfOrder(w, rs1, rs2, pc).nextPc
    ensures InOrder(w, rs1, rs2, pc).rdValue.Some? <==> OutOfOrder(w, rs1, rs2, pc).rdValue.Some?
  {
    SameImmediate(w);
    hide Opcode, Func3, Func7, Imm, ScalarImm, BranchTaken, AluResult, Alu.AluExec, DivFuTheorems.UnitResult;
  }

  lemma SameAluValue(w: Half, rs1: Word, rs2: Word, pc: Word)
    requires Covered(w) && Classify(w).class_ == ToAlu && !ReservedShift(w)
    ensures InOrder(w, rs1, rs2, pc).rdValue == OutOfOrder(w, rs1, rs2, pc).rdValue
  {
    SameAluOpIff(w);
    SameImmediate(w);
    hide Opcode, Func3, Func7, Imm, ScalarImm, BranchTaken, Alu.AluExec, DivFuTheorems.UnitResult, RegisterOp,
      WordRegisterOp, ImmediateOp, WordImmediateOp, RegisterTable, WordRegisterTable, ImmediateTable, ReservedShift, Target;
  }

  lemma SameDivideValue(w: Half, rs1: Word, rs2: Word, pc: Word)
    requires Covered(w) && Classify(w).class_ == ToDiv
    ensures InOrder(w, rs1, rs2, pc).rdValue == OutOfOrder(w, rs1, rs2, pc).rdValue <==> !RemuwByZero(w, rs1, rs2)
  {
    DivideAgrees(Func3(w), Opcode(w) == OP_32, rs1, rs2);
    hide Opcode, Func3, Func7, Imm, BranchTaken, Alu.AluExec, DivFuTheorems.UnitResult, RegisterOp, WordRegisterOp,
      ImmediateOp, WordImmediateOp, MulDivWord, MulDivFull, Target, DivFuTheorems.RemuwByZeroHigh;
    assert DivOpOf(7) == Divide.Remu;
    OnlyRemuw(Func3(w), Opcode(w) == OP_32, rs1, rs2);
  }

  lemma OnlyRemuw(f3: Field3, wordOp: bool, a: Word, b: Word)
    requires f3 >= 4
    ensures DivFuTheorems.RemuwByZeroHigh(DivOpOf(f3), wordOp, a, b)
            <==> f3 == 7 && wordOp && DivFuTheorems.RemuwByZeroHigh(Divide.Remu, true, a, b)
  {
  }

  lemma SameLink(w: Half, rs1: Word, rs2: Word, pc: Word)
    requires Covered(w) && Classify(w).class_ != ToAlu && Classify(w).class_ != ToDiv
    ensures InOrder(w, rs1, rs2, pc).rdValue == OutOfOrder(w, rs1, rs2, pc).rdValue
  {
    hide Opcode, Func3, Func7, Imm, BranchTaken, Alu.AluExec, DivFuTheorems.UnitResult, RegisterOp, WordRegisterOp,
      ImmediateOp, WordImmediateOp, Target;
  }

  /** For every covered encoding that is not a reserved shift, every register
      state and every pc, both cores write the same value and go to the same
      next instruction, except for REMUW by zero with bit 31 set. */
  lemma CoresAgreeIff(w: Half, rs1: Word, rs2: Word, pc: Word)
    requires Covered(w) && !ReservedShift(w)
    ensures InOrder(w, rs1, rs2, pc) == OutOfOrder(w, rs1, rs2, pc) <==> !RemuwByZero(w, rs1, rs2)
  {
    hide InOrder, OutOfOrder, ReservedShift, Opcode, Func3, Func7;
    SameNextPc(w, rs1, rs2, pc);
    if Classify(w).class_ == ToAlu {
      SameAluValue(w, rs1, rs2, pc);
      NotRemuw(w, rs1, rs2);
    } else if Classify(w).class_ == ToDiv {
      SameDivideValue(w, rs1, rs2, pc);
    } else {
      SameLink(w, rs1, rs2, pc);
      NotRemuw(w, rs1, rs2);
    }
  }

  lemma NotRemuw(w: Half, rs1: Word, rs2: Word)
    requires Covered(w) && Classify(w).class_ != ToDiv
    ensures !RemuwByZero(w, rs1, rs2)
  {
    hide Opcode, Func3, Func7, DivFuTheorems.RemuwByZeroHigh;
  }
}

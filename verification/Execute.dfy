/** The control tables of decode_control_unit.v, for the integer, multiply,
    divide, atomic and vector configuration and memory opcodes, and the execute
    stage they drive. */
module Execute {
  import opened Words
  import opened Encode
  import Alu
  import Divide

  type AluOp = Alu.AluOp

  /** What the integer datapath is told to do. */
  datatype Control = Control(regWrite: bool, memRead: bool, memWrite: bool, memToReg: bool,
                             aluOp: AluOp, aluSrc: bool, wordOp: bool, mulDiv: Option<Field3>)

  const IDLE: Control := Control(false, false, false, false, Alu.Add, false, false, None)

  /** The case on {func7, func3}; anything else leaves the default, add. */
  function RegisterOp(f7: Field7, f3: Field3): AluOp {
    if f7 == 0x20 then (if f3 == 0 then Alu.Sub else if f3 == 5 then Alu.Sra else Alu.Add)
    else if f7 != 0 then Alu.Add
    else if f3 == 0 then Alu.Add
    else if f3 == 1 then Alu.Sll
    else if f3 == 2 then Alu.Slt
    else if f3 == 3 then Alu.Sltu
    else if f3 == 4 then Alu.Xor
    else if f3 == 5 then Alu.Srl
    else if f3 == 6 then Alu.Or
    else Alu.And
  }

  function WordRegisterOp(f7: Field7, f3: Field3): AluOp {
    if f7 == 0x20 then (if f3 == 0 then Alu.Sub else if f3 == 5 then Alu.Sra else Alu.Add)
    else if f7 != 0 then Alu.Add
    else if f3 == 1 then Alu.Sll
    else if f3 == 5 then Alu.Srl
    else Alu.Add
  }

  function ImmediateOp(f3: Field3, f6: nat): AluOp {
    if f3 == 0 then Alu.Add
    else if f3 == 1 then Alu.Sll
    else if f3 == 2 then Alu.Slt
    else if f3 == 3 then Alu.Sltu
    else if f3 == 4 then Alu.Xor
    else if f3 == 5 then (if f6 == 0 then Alu.Srl else if f6 == 0x10 then Alu.Sra else Alu.Add)
    else if f3 == 6 then Alu.Or
    else Alu.And
  }

  function WordImmediateOp(f3: Field3, f7: Field7): AluOp {
    if f3 == 1 then Alu.Sll
    else if f3 == 5 then (if f7 == 0 then Alu.Srl else if f7 == 0x20 then Alu.Sra else Alu.Add)
    else Alu.Add
  }

  const AMO_LR: nat := 2
  const AMO_SC: nat := 3

  function Decode(w: Half): Control {
    var op, f3, f7 := Opcode(w), Func3(w), Func7(w);
    if op == OP_R then
      if f7 == 1 then IDLE.(regWrite := true, mulDiv := Some(f3))
      else IDLE.(regWrite := true, aluOp := RegisterOp(f7, f3))
    else if op == OP_32 then
      if f7 == 1 then IDLE.(regWrite := true, wordOp := true, mulDiv := Some(f3))
      else IDLE.(regWrite := true, wordOp := true, aluOp := WordRegisterOp(f7, f3))
    else if op == OP_I then IDLE.(regWrite := true, aluSrc := true, aluOp := ImmediateOp(f3, f7 / 2))
    else if op == OP_IMM_32 then
      IDLE.(regWrite := true, aluSrc := true, wordOp := true, aluOp := WordImmediateOp(f3, f7))
    else if op == OP_LOAD then IDLE.(regWrite := true, memRead := true, memToReg := true, aluSrc := true)
    else if op == OP_S then IDLE.(memWrite := true, aluSrc := true)
    else if op == OP_AMO then
      IDLE.(regWrite := true, memRead := true, memToReg := true, memWrite := f7 / 4 != AMO_LR && f7 / 4 != AMO_SC)
    else if op == OP_B then IDLE.(aluOp := Alu.Sub)
    else if op == OP_JAL then IDLE.(regWrite := true)
    else if op == OP_JALR || op == OP_LUI || op == OP_AUIPC then IDLE.(regWrite := true, aluSrc := true)
    else if op == OP_V && f3 == 7 then IDLE.(regWrite := true)
    else if op == OP_LOAD_FP || op == OP_STORE_FP then
      IDLE.(aluSrc := true, memRead := op == OP_LOAD_FP && f3 != 6, memWrite := op == OP_STORE_FP && f3 != 6)
    else IDLE
  }

  // ---- Multiply and divide -------------------------------------------------

  const TWO128: int := TWO64 * TWO64

  /** {{64{x[63]}}, x} */
  function Sext128(x: Word): nat {
    if x >= TWO63 then TWO128 - TWO64 + x else x
  }

  /** The 128-bit product register, for two 128-bit operand registers. */
  function Product(x: nat, y: nat): nat {
    (x * y) % TWO128
  }

  function DivOpOf(f3: Field3): Divide.DivOp
    requires f3 >= 4
  {
    if f3 == 4 then Divide.Div else if f3 == 5 then Divide.Divu else if f3 == 6 then Divide.Rem else Divide.Remu
  }

  function HighHalf(x: nat): Word
    requires x < TWO128
  {
    x / TWO64
  }

  function MulDivFull(f3: Field3, a: Word, b: Word): Word {
    if f3 == 0 then Wrap(Product(Sext128(a), Sext128(b)))
    else if f3 == 1 then HighHalf(Product(Sext128(a), Sext128(b)))
    else if f3 == 2 then HighHalf(Product(Sext128(a), b))
    else if f3 == 3 then HighHalf(Product(a, b))
    else Divide.FullResult(DivOpOf(f3), a, b)
  }

  function MulDivWord(f3: Field3, a: Word, b: Word): Half {
    if f3 == 0 then WrapHalf(Product(Sext128(a), Sext128(b)))
    else if f3 >= 4 then Divide.WordResult(DivOpOf(f3), Low(a), Low(b))
    else 0
  }

  // ---- The stage -----------------------------------------------------------

  datatype Result = Result(aluResult: Word, memAddr: Word, nextPc: Word)

  predicate BranchTaken(f3: Field3, a: Word, b: Word) {
    if f3 == 0 then a == b
    else if f3 == 1 then a != b
    else if f3 == 4 then Signed(a) < Signed(b)
    else if f3 == 5 then Signed(a) >= Signed(b)
    else if f3 == 6 then a < b
    else if f3 == 7 then a >= b
    else false
  }

  function AluResult(c: Control, a: Word, b: Word): Word {
    match c.mulDiv
    case Some(f3) => if c.wordOp then SignExtend(MulDivWord(f3, a, b)) else MulDivFull(f3, a, b)
    case None => Alu.AluExec(c.aluOp, c.wordOp, a, b)
  }

  predicate UsesMemory(op: Field7) {
    op == OP_LOAD || op == OP_S || op == OP_AMO || op == OP_LOAD_FP || op == OP_STORE_FP
  }

  function Run(w: Half, c: Control, rs1: Word, rs2: Word, pc: Word, size: nat): Result {
    var op, imm := Opcode(w), Imm(w);
    var a := if op == OP_LUI then 0 else if op == OP_AUIPC then pc else rs1;
    var b := if c.aluSrc then imm else rs2;
    var link := Wrap(pc + size);
    var nextPc :=
      if op == OP_B && BranchTaken(Func3(w), rs1, rs2) then Wrap(pc + imm)
      else if op == OP_JAL then Wrap(pc + imm)
      else if op == OP_JALR then Wrap(rs1 + imm) / 2 * 2
      else link;
    Result(if op == OP_JAL || op == OP_JALR then link else AluResult(c, a, b),
           if UsesMemory(op) then Wrap(rs1 + imm) else 0, nextPc)
  }
}

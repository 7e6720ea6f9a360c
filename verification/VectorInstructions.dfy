/** The vector instructions end to end: the assembler's tables and format
    (asm64.py) against the core's decoder, lane by lane. */
module VectorInstructions {
  import opened Words
  import opened Tags
  import opened Encode
  import opened AluLaws
  import opened VectorAlu
  import opened Core
  import opened Execute
  import DataMemory
  import opened MemoryBytes
  import Masks
  import Reduce

  datatype VOp =
    | VAdd | VSub | VAnd | VOr | VXor | VMul
    | VMseq | VMsne | VMslt | VMsltu | VMsle | VMsleu
    | VMin | VMinu | VMax | VMaxu
    | VDivu | VDiv | VRemu | VRem | VSll | VSrl | VSra

  datatype RedOp = RedSum | RedAnd | RedOr | RedXor | RedMinu | RedMin | RedMaxu | RedMax

  /** The last operand: a vector, a scalar register, or an immediate. */
  datatype Form = VV(vs1: Reg) | VX(rs1: Reg) | VI(imm: int)

  // ---- The assembler -------------------------------------------------------

  /** V_FUNCT6 */
  function Funct6Of(op: VOp): nat {
    match op
    case VAdd => 0 case VSub => 0x02 case VAnd => 0x09 case VOr => 0x0A case VXor => 0x0B case VMul => 0x25
    case VMseq => 0x18 case VMsne => 0x19 case VMslt => 0x1B case VMsltu => 0x1A case VMsle => 0x1D case VMsleu => 0x1C
    case VMin => 0x05 case VMinu => 0x04 case VMax => 0x07 case VMaxu => 0x06
    case VDivu => 0x20 case VDiv => 0x21 case VRemu => 0x22 case VRem => 0x23
    case VSll => 0x25 case VSrl => 0x28 case VSra => 0x29
  }

  /** V_RED_FUNCT6 */
  function ReduceFunct6(op: RedOp): nat {
    match op
    case RedSum => 0 case RedAnd => 1 case RedOr => 2 case RedXor => 3
    case RedMinu => 4 case RedMin => 5 case RedMaxu => 6 case RedMax => 7
  }

  predicate MulDivGroup(op: VOp) {
    op.VMul? || op.VDivu? || op.VDiv? || op.VRemu? || op.VRem?
  }

  predicate IsCompareOp(op: VOp) {
    op.VMseq? || op.VMsne? || op.VMslt? || op.VMsltu? || op.VMsle? || op.VMsleu?
  }

  predicate NoImmediate(op: VOp) {
    MulDivGroup(op) || op.VSub? || op.VMin? || op.VMinu? || op.VMax? || op.VMaxu?
  }

  /** V_FORM_FUNC3; None where the table has no entry or the immediate does not
      fit five bits. */
  function FormFunc3(op: VOp, form: Form): Option<Field3> {
    match form
    case VV(_) => Some(if MulDivGroup(op) then 2 else 0)
    case VX(_) => Some(if MulDivGroup(op) then 6 else 4)
    case VI(imm) => if NoImmediate(op) || !(-16 <= imm < 16) then None else Some(3)
  }

  function FormField(form: Form): Reg {
    match form
    case VV(vs1) => vs1
    case VX(rs1) => rs1
    case VI(imm) => imm % 32
  }

  /** v_type */
  function VType(f6: nat, vm: bool, vs2: Reg, field: Reg, f3: Field3, vd: Reg): Half
    requires f6 < 64
  {
    f6 * 0x400_0000 + (if vm then 0x200_0000 else 0) + vs2 * 0x10_0000 + field * 0x8000 + f3 * 0x1000 + vd * 0x80 + OP_V
  }

  /** The word of `op.form vd, vs2, operand`, masked by v0 unless `vm`. */
  function Assemble(op: VOp, form: Form, vm: bool, vs2: Reg, vd: Reg): Option<Half> {
    var f3 := FormFunc3(op, form);
    if f3.Some? then Some(VType(Funct6Of(op), vm, vs2, FormField(form), f3.value, vd)) else None
  }

  function AssembleReduce(op: RedOp, vm: bool, vs2: Reg, vs1: Reg, vd: Reg): Half {
    VType(ReduceFunct6(op), vm, vs2, vs1, 2, vd)
  }

  /** The word of vsetvli for 32-bit elements. */
  function AssembleVsetvli(rd: Reg, rs1: Reg): Half {
    0x10 * 0x10_0000 + rs1 * 0x8000 + 7 * 0x1000 + rd * 0x80 + OP_V
  }

  // ---- The operations by name ----------------------------------------------

  /** The operation code of the vector ALU. */
  function LaneCode(op: VOp): nat {
    match op
    case VAdd => 0 case VSub => 1 case VAnd => 2 case VOr => 3 case VXor => 4 case VMul => 5
    case VMseq => 6 case VMsne => 7 case VMslt => 8 case VMsltu => 9 case VMsle => 10 case VMsleu => 11
    case VMin => 12 case VMinu => 13 case VMax => 14 case VMaxu => 15
    case VDivu => 16 case VDiv => 17 case VRemu => 18 case VRem => 19
    case VSll => 20 case VSrl => 21 case VSra => 22
  }

  function FoldCode(op: RedOp): nat {
    match op
    case RedSum => 0 case RedAnd => 2 case RedOr => 3 case RedXor => 4
    case RedMinu => 13 case RedMin => 12 case RedMaxu => 15 case RedMax => 14
  }

  /** Lane i of the last operand. */
  function OperandLane(s: State, form: Form, i: nat): Half
    requires |s.x| == 32 && |s.v| == 32 && (form.VV? ==> i < |s.v[form.vs1]|)
  {
    match form
    case VV(vs1) => s.v[vs1][i]
    case VX(rs1) => if rs1 == 0 then 0 else s.x[rs1] % TWO32
    case VI(imm) => WrapHalf(imm)
  }

  /** Below vl, and unmasked or with its bit of v0 set. */
  predicate Enabled(s: State, vm: bool, i: nat)
    requires |s.v| == 32 && i / 32 < |s.v[0]|
  {
    i < s.vl && (vm || BitAt(s.v[0][i / 32], i % 32))
  }

  // ---- Decoding what was assembled -----------------------------------------

  lemma VFields(f6: nat, vm: bool, vs2: Reg, field: Reg, f3: Field3, vd: Reg)
    requires f6 < 64
    ensures var w := VType(f6, vm, vs2, field, f3, vd);
            && Opcode(w) == OP_V && Rd(w) == vd && Func3(w) == f3 && Rs1(w) == field && Rs2(w) == vs2
            && Funct6(w) == f6 && Unmasked(w) == vm
  {
    SharedFields(VType(f6, vm, vs2, field, f3, vd), f6 * 2 + (if vm then 1 else 0), vs2, field, f3, vd, OP_V);
  }

  /** The decoder's two tables undo the assembler's: same operation, same
      operand form, compare and reduction recognised as such. */
  lemma DecodesOperation(op: VOp, form: Form, vm: bool, vs2: Reg, vd: Reg)
    requires Assemble(op, form, vm, vs2, vd).Some?
    ensures var w := Assemble(op, form, vm, vs2, vd).value;
            && Opcode(w) == OP_V && Rd(w) == vd && Rs2(w) == vs2 && Unmasked(w) == vm && Func3(w) != 7
            && VectorCode(w) == LaneCode(op) && !IsReduce(w) && (IsCompare(w) <==> IsCompareOp(op))
            && Rs1(w) == FormField(form)
            && (form.VX? <==> Func3(w) == 4 || Func3(w) == 6) && (form.VI? <==> Func3(w) == 3)
  {
    hide VType, Opcode, Rd, Rs1, Rs2, Func3, Func7, Unmasked, Funct6;
    VFields(Funct6Of(op), vm, vs2, FormField(form), FormFunc3(op, form).value, vd);
  }

  lemma DecodesReduction(op: RedOp, vm: bool, vs2: Reg, vs1: Reg, vd: Reg)
    ensures var w := AssembleReduce(op, vm, vs2, vs1, vd);
            && Opcode(w) == OP_V && Rd(w) == vd && Rs2(w) == vs2 && Rs1(w) == vs1 && Unmasked(w) == vm && Func3(w) == 2
            && VectorCode(w) == FoldCode(op) && IsReduce(w)
  {
    hide VType, Opcode, Rd, Rs1, Rs2, Func3, Func7, Unmasked, Funct6;
    VFields(ReduceFunct6(op), vm, vs2, vs1, 2, vd);
  }

  lemma OperandDecoded(s: State, w: Half, form: Form, i: nat)
    requires |s.x| == 32 && |s.v| == 32 && i < |s.v[Rs1(w)]|
    requires Rs1(w) == FormField(form) && (form.VI? ==> -16 <= form.imm < 16)
    requires (form.VX? <==> Func3(w) == 4 || Func3(w) == 6) && (form.VI? <==> Func3(w) == 3)
    ensures (form.VV? ==> i < |s.v[form.vs1]|) && Operand2(s, w, i) == OperandLane(s, form, i)
  {
    hide Rs1, Func3;
    if form.VI? { FiveBits(form.imm); }
  }

  lemma FiveBits(imm: int)
    requires -16 <= imm < 16
    ensures SignExtend5(imm % 32) == WrapHalf(imm)
  {
    if imm < 0 {
      ModUnique(imm, -1, imm + 32, 32);
      ModUnique(imm, -1, imm + TWO32, TWO32);
    }
  }

  lemma EnabledIsActive(s: State, vm: bool, lanes: nat, i: nat)
    requires Wf(s, lanes) && i < lanes
    ensures i / 32 < |s.v[0]| && (Enabled(s, vm, i) <==> Active(s.vl, vm, s.v[0], i))
  {
    assert i / 32 <= i;
  }

  // ---- What one instruction does -------------------------------------------

  /** Everything a vector arithmetic instruction leaves alone. */
  predicate OnlyVector(s: State, t: State, vd: Reg)
    requires |s.v| == 32
  {
    |t.v| == 32 && t == s.(pc := Wrap(s.pc + 4), v := s.v[vd := t.v[vd]])
  }

  lemma VectorStep(s: State, w: Half, lanes: nat)
    requires Wf(s, lanes) && lanes < TWO64 && Opcode(w) == OP_V && Func3(w) != 7
    ensures Supported(w) && OnlyVector(s, StepWord(s, w, 4, lanes), Rd(w))
    ensures StepWord(s, w, 4, lanes).v[Rd(w)] == ArithmeticResult(s, w, lanes)
  {
    hide Opcode, Func3, Func7, Rd, Rs1, Rs2, ArithmeticResult, AluResult, BranchTaken, Imm, Wrap, DataMemory.Store,
      DataMemory.VWrite, DataMemory.Load, StoreData, LoadResult, NewVl;
  }

  /** Every elementwise instruction, in every form, masked or not: each enabled
      lane of vd becomes the operation of that lane of vs2 and of the operand,
      every other lane zero, and nothing else changes but the pc. */
  lemma ElementwiseInstruction(s: State, op: VOp, form: Form, vm: bool, vs2: Reg, vd: Reg, lanes: nat, i: nat)
    requires Wf(s, lanes) && lanes < TWO64 && i < lanes
    requires Assemble(op, form, vm, vs2, vd).Some? && !IsCompareOp(op)
    ensures var w := Assemble(op, form, vm, vs2, vd).value;
            && Supported(w) && OnlyVector(s, StepWord(s, w, 4, lanes), vd)
            && var r := StepWord(s, w, 4, lanes).v[vd];
               |r| == lanes && i / 32 < |s.v[0]|
               && r[i] == if Enabled(s, vm, i) then LaneOp(LaneCode(op), s.v[vs2][i], OperandLane(s, form, i)) else 0
  {
    hide Assemble, Opcode, Func3, Rd, Rs1, Rs2, Unmasked, VectorCode, IsReduce, IsCompare, LaneOp, LaneCode, Active, Enabled,
      Operand2, OperandLane, OnlyVector, StepWord, Supported, Funct6Of;
    var w := Assemble(op, form, vm, vs2, vd).value;
    DecodesOperation(op, form, vm, vs2, vd);
    ImmediateFits(op, form, vm, vs2, vd);
    VectorStep(s, w, lanes);
    EnabledIsActive(s, vm, lanes, i);
    OperandDecoded(s, w, form, i);
  }

  lemma ImmediateFits(op: VOp, form: Form, vm: bool, vs2: Reg, vd: Reg)
    requires Assemble(op, form, vm, vs2, vd).Some?
    ensures form.VI? ==> -16 <= form.imm < 16
  {
  }

  /** Every compare, in every form: bit i of vd, 32 to a word, is set exactly
      when lane i is enabled and passes. */
  lemma CompareInstruction(s: State, op: VOp, form: Form, vm: bool, vs2: Reg, vd: Reg, lanes: nat, i: nat)
    requires Wf(s, lanes) && lanes < TWO64 && i < lanes
    requires Assemble(op, form, vm, vs2, vd).Some? && IsCompareOp(op)
    ensures var w := Assemble(op, form, vm, vs2, vd).value;
            && Supported(w) && OnlyVector(s, StepWord(s, w, 4, lanes), vd)
            && var r := StepWord(s, w, 4, lanes).v[vd];
               |r| == lanes && i / 32 < |s.v[0]|
               && (BitAt(r[i / 32], i % 32)
                   <==> Enabled(s, vm, i) && LaneCompare(LaneCode(op), s.v[vs2][i], OperandLane(s, form, i)))
  {
    hide Assemble, Opcode, Func3, Rd, Rs1, Rs2, Unmasked, VectorCode, IsReduce, IsCompare, LaneCompare, LaneCode, Active, Enabled,
      Operand2, OperandLane, OnlyVector, StepWord, Supported, Funct6Of, ArithmeticResult, Pow2;
    var w := Assemble(op, form, vm, vs2, vd).value;
    DecodesOperation(op, form, vm, vs2, vd);
    ImmediateFits(op, form, vm, vs2, vd);
    VectorStep(s, w, lanes);
    EnabledIsActive(s, vm, lanes, i);
    OperandDecoded(s, w, form, i);
    Masks.CompareSelects(s, w, lanes, i);
  }

  /** The enabled elements of the first n lanes of vs2, in order. */
  function EnabledElements(s: State, vm: bool, vs2: Reg, n: nat): seq<Half>
    requires |s.v| == 32 && n <= |s.v[vs2]| == |s.v[0]|
  {
    if n == 0 then []
    else EnabledElements(s, vm, vs2, n - 1) + if Enabled(s, vm, n - 1) then [s.v[vs2][n - 1]] else []
  }

  lemma {:induction false} EnabledAreActive(s: State, vm: bool, vs2: Reg, lanes: nat, n: nat)
    requires Wf(s, lanes) && n <= lanes
    ensures EnabledElements(s, vm, vs2, n) == Reduce.ActiveOf(s.vl, vm, s.v[0], s.v[vs2], n)
  {
    if n > 0 {
      EnabledIsActive(s, vm, lanes, n - 1);
      EnabledAreActive(s, vm, vs2, lanes, n - 1);
    }
  }

  /** Every reduction: element 0 of vd is the fold of the enabled elements of
      vs2, seeded by element 0 of vs1, and the rest of vd is zero. */
  lemma ReductionInstruction(s: State, op: RedOp, vm: bool, vs2: Reg, vs1: Reg, vd: Reg, lanes: nat, i: nat)
    requires Wf(s, lanes) && lanes < TWO64 && i < lanes
    ensures var w := AssembleReduce(op, vm, vs2, vs1, vd);
            && Supported(w) && OnlyVector(s, StepWord(s, w, 4, lanes), vd)
            && var r := StepWord(s, w, 4, lanes).v[vd];
               |r| == lanes
               && r[i] == if i == 0 then Reduce.Fold(FoldCode(op), s.v[vs1][0], EnabledElements(s, vm, vs2, lanes)) else 0
  {
    hide AssembleReduce, Opcode, Func3, Rd, Rs1, Rs2, Unmasked, VectorCode, IsReduce, IsCompare, Active, Enabled, EnabledElements,
      Reduce.Fold, Reduce.ActiveOf, FoldCode, OnlyVector, StepWord, Supported;
    var w := AssembleReduce(op, vm, vs2, vs1, vd);
    DecodesReduction(op, vm, vs2, vs1, vd);
    VectorStep(s, w, lanes);
    EnabledAreActive(s, vm, vs2, lanes, lanes);
  }

  /** vsetvli: vl and rd become the smaller of the requested length and the
      number of lanes, all lanes when the request is x0. */
  lemma VsetvliInstruction(s: State, rd: Reg, rs1: Reg, lanes: nat)
    requires Wf(s, lanes) && lanes < TWO64
    ensures var w := AssembleVsetvli(rd, rs1);
            && Supported(w)
            && var t := StepWord(s, w, 4, lanes);
               && t == s.(pc := Wrap(s.pc + 4), vl := t.vl, x := t.x)
               && t.vl <= lanes && (t.vl == lanes || (rs1 != 0 && t.vl == s.x[rs1]))
               && (rs1 == 0 || s.x[rs1] >= lanes ==> t.vl == lanes)
               && t.x == if rd == 0 then s.x else s.x[rd := t.vl]
  {
    var w := AssembleVsetvli(rd, rs1);
    SharedFields(w, 0, 16, rs1, 7, rd, OP_V);
    hide Opcode, Func3, Func7, Rd, Rs1, Rs2, AluResult, BranchTaken, Imm, Wrap, AssembleVsetvli;
  }

  // ---- Vector memory instructions ------------------------------------------

  function AssembleVle(vd: Reg, rs1: Reg): Half {
    0x200_0000 + rs1 * 0x8000 + 6 * 0x1000 + vd * 0x80 + OP_LOAD_FP
  }

  function AssembleVse(vs3: Reg, rs1: Reg): Half {
    0x200_0000 + rs1 * 0x8000 + 6 * 0x1000 + vs3 * 0x80 + OP_STORE_FP
  }

  lemma MemoryFields(op: Field7, r: Reg, rs1: Reg)
    ensures var w := 0x200_0000 + rs1 * 0x8000 + 6 * 0x1000 + r * 0x80 + op;
            w < TWO32 && Opcode(w) == op && Rd(w) == r && Func3(w) == 6 && Rs1(w) == rs1
  {
    SharedFields(0x200_0000 + rs1 * 0x8000 + 6 * 0x1000 + r * 0x80 + op, 1, 0, rs1, 6, r, op);
  }

  /** vle32.v: each lane below vl is the four bytes at its address, every other
      lane zero, and nothing else changes. */
  lemma VectorLoadInstruction(s: State, vd: Reg, rs1: Reg, lanes: nat, i: nat)
    requires Wf(s, lanes) && lanes < TWO64 && i < lanes
    requires AlignedTo(ReadReg(s, rs1), 8) + 4 * i + 4 <= 8 * |s.mem|
    ensures var w, base := AssembleVle(vd, rs1), AlignedTo(ReadReg(s, rs1), 8);
            && Supported(w) && OnlyVector(s, StepWord(s, w, 4, lanes), vd)
            && var r := StepWord(s, w, 4, lanes).v[vd];
               |r| == lanes && r[i] == if i < s.vl then LittleEndian(s.mem, base + 4 * i, 4) else 0
  {
    hide Opcode, Func3, Rd, Rs1, Rs2, AluResult, BranchTaken, Wrap, LittleEndian, DataMemory.Store, DataMemory.VWrite,
      DataMemory.Load, DataMemory.Lane, StoreData, ArithmeticResult, NewVl;
    var addr := ReadReg(s, rs1);
    MemoryFields(OP_LOAD_FP, vd, rs1);
    AddressIs(addr);
    SmallIndex(addr / 8, |s.mem|);
    LaneIsBytes(s.mem, 2 * (addr / 8) + i);
  }

  lemma AddressIs(addr: Word)
    ensures Wrap(addr + 0) == addr && AlignedTo(addr, 8) == 8 * (addr / 8)
  {
  }

  /** vse32.v: the bytes of the lanes below vl are stored at their addresses and
      every other byte of memory, and every register, is as it was. */
  lemma VectorStoreInstruction(s: State, vs3: Reg, rs1: Reg, lanes: nat, b: nat)
    requires Wf(s, lanes) && lanes < TWO64 && lanes % 2 == 0
    requires InRange(s.mem, ReadReg(s, rs1)) && b / 8 < |s.mem|
    ensures var w, base := AssembleVse(vs3, rs1), AlignedTo(ReadReg(s, rs1), 8);
            && Supported(w)
            && var t := StepWord(s, w, 4, lanes);
               && t == s.(pc := Wrap(s.pc + 4), mem := t.mem) && |t.mem| == |s.mem|
               && ByteAt(t.mem, b)
                  == if base <= b < base + 4 * s.vl then ByteOf(s.v[vs3][(b - base) / 4], (b - base) % 4) else ByteAt(s.mem, b)
  {
    var addr := ReadReg(s, rs1);
    MemoryFields(OP_STORE_FP, vs3, rs1);
    AddressIs(addr);
    StoreStep(s, AssembleVse(vs3, rs1), lanes);
    StoredByte(s, vs3, addr, lanes, b);
    hide Opcode, Func3, Rd, Rs1, StepWord;
  }

  lemma StoreStep(s: State, w: Half, lanes: nat)
    requires Wf(s, lanes) && lanes < TWO64 && Opcode(w) == OP_STORE_FP && Func3(w) == 6
    ensures var addr := ReadReg(s, Rs1(w));
            Supported(w) && StepWord(s, w, 4, lanes)
            == s.(pc := Wrap(s.pc + 4), mem := DataMemory.VWrite(s.mem, addr, StoreData(s, Rd(w), addr, lanes)))
  {
    hide Opcode, Func3, Rd, Rs1, Rs2, AluResult, BranchTaken, Wrap, DataMemory.Store, DataMemory.VWrite, DataMemory.Load, StoreData,
      ArithmeticResult, LoadResult, NewVl;
    AddressIs(ReadReg(s, Rs1(w)));
  }

  lemma StoredByte(s: State, r: Reg, addr: Word, lanes: nat, b: nat)
    requires Wf(s, lanes) && lanes % 2 == 0 && InRange(s.mem, addr) && b / 8 < |s.mem|
    ensures var base := AlignedTo(addr, 8);
            ByteAt(DataMemory.VWrite(s.mem, addr, StoreData(s, r, addr, lanes)), b)
            == if base <= b < base + 4 * s.vl then ByteOf(s.v[r][(b - base) / 4], (b - base) % 4) else ByteAt(s.mem, b)
  {
    hide ByteOf, ByteAt, DataMemory.VWrite, DataMemory.Lane;
    VectorStoreWritesBytes(s.mem, addr, StoreData(s, r, addr, lanes), b);
    AddressIs(addr);
    SmallIndex(addr / 8, |s.mem|);
    var base := AlignedTo(addr, 8);
    if base <= b < base + 4 * lanes {
      var i, j := (b - base) / 4, (b - base) % 4;
      assert b == 4 * (2 * (addr / 8) + i) + j;
      assert (2 * (addr / 8) + i) / 2 == b / 8;
      LaneByte(s.mem, 2 * (addr / 8) + i, j);
    }
  }
}

/** The compiled vadd loop, instruction by instruction on the core. */
module VaddSteps {
  import opened Words
  import opened Encode
  import opened Core
  import opened Execute
  import DataMemory
  import VectorAlu
  import Alu
  import Li64

  const WORDS: seq<Half> := [
    0x02d05863, 0x0d06f7d7, 0x0205e107, 0x02066087, 0x00279713, 0x40f686b3, 0x00e585b3,
    0x00e60633, 0x021100d7, 0x020560a7, 0x00e50533, 0xfc069ce3, 0x00008067]

  // The calling convention: destination, sources, count, and two temporaries.
  const RA: Reg := 1
  const A0: Reg := 10
  const A1: Reg := 11
  const A2: Reg := 12
  const A3: Reg := 13
  const A4: Reg := 14
  const A5: Reg := 15

  function At(s: State, pc: int): State {
    s.(pc := Wrap(pc))
  }

  function Set(s: State, pc: int, r: Reg, value: Word): State
    requires |s.x| == 32
  {
    s.(pc := Wrap(pc), x := s.x[r := value])
  }

  function Plus(a: int, b: int): Word {
    Wrap(a + b)
  }

  function Minus(a: int, b: int): Word {
    Wrap(a - b)
  }

  function Times4(a: int): Word {
    Wrap(a * 4)
  }

  predicate Steps(s: State, i: nat, t: State, lanes: nat)
    requires i < 13
  {
    Wf(s, lanes) && lanes < TWO64 && Supported(WORDS[i]) && StepWord(s, WORDS[i], 4, lanes) == t
  }

  /** A conditional branch with its fields known. */
  lemma BranchStep(s: State, w: Half, f3: Field3, rs1: Reg, rs2: Reg, lanes: nat)
    requires Wf(s, lanes) && lanes < TWO64
    requires Opcode(w) == OP_B && Func3(w) == f3 && Rs1(w) == rs1 && Rs2(w) == rs2
    ensures Supported(w)
    ensures StepWord(s, w, 4, lanes)
         == At(s, s.pc + if BranchTaken(f3, ReadReg(s, rs1), ReadReg(s, rs2)) then ImmB(w) else 4)
  {
    hide Opcode, Func3, Rs1, Rs2, Rd, Func7, ImmB, AluResult, BranchTaken, ReadReg, NewVl, ArithmeticResult, LoadResult,
      StoreData, DataMemory.Load, DataMemory.VWrite, DataMemory.Store;
  }

  lemma Blez(s: State, lanes: nat)
    requires Wf(s, lanes) && lanes < TWO64
    ensures Steps(s, 0, At(s, s.pc + if Signed(s.x[A3]) <= 0 then 48 else 4), lanes)
  {
    hide Opcode, Func3, Rs1, Rs2, ImmB, StepWord, Supported, Wf;
    assert |s.x| == 32 by { Registers(s, lanes); }
    BranchFields();
    BranchStep(s, 0x02d05863, 5, 0, 13, lanes);
  }

  lemma Registers(s: State, lanes: nat)
    requires Wf(s, lanes)
    ensures |s.x| == 32
  {
  }

  /** The fields of the two branches. */
  lemma BranchFields()
    ensures Opcode(0x02d05863) == OP_B && Func3(0x02d05863) == 5 && Rs1(0x02d05863) == 0 && Rs2(0x02d05863) == 13
    ensures ImmB(0x02d05863) == 48
    ensures Opcode(0xfc069ce3) == OP_B && Func3(0xfc069ce3) == 1 && Rs1(0xfc069ce3) == 13 && Rs2(0xfc069ce3) == 0
    ensures ImmB(0xfc069ce3) == TWO64 - 40
  {
  }

  lemma Vsetvli(s: State, lanes: nat)
    requires Wf(s, lanes) && lanes < TWO64
    ensures var vl := if s.x[A3] > lanes then lanes else s.x[A3];
            Steps(s, 1, Set(s, s.pc + 4, A5, vl).(vl := vl), lanes)
  {
    assert Opcode(0x0d06f7d7) == OP_V && Func3(0x0d06f7d7) == 7 && Rs1(0x0d06f7d7) == 13 && Rd(0x0d06f7d7) == 15;
    hide Opcode, Func3, Rs1, Rs2, Rd, Func7;
  }

  /** vle32.v with its fields known. */
  lemma VectorLoad(s: State, w: Half, rd: Reg, rs1: Reg, lanes: nat)
    requires Wf(s, lanes) && lanes < TWO64 && rs1 != 0
    requires Opcode(w) == OP_LOAD_FP && Func3(w) == 6 && Rs1(w) == rs1 && Rd(w) == rd
    ensures Supported(w)
    ensures StepWord(s, w, 4, lanes) == At(s, s.pc + 4).(v := s.v[rd := LoadResult(s, s.x[rs1], lanes)])
  {
    hide Opcode, Func3, Rs1, Rs2, Rd, Func7, LoadResult, AluResult, NewVl, ArithmeticResult, DataMemory.Load;
  }

  /** vse32.v with its fields known. */
  lemma VectorStore(s: State, w: Half, rd: Reg, rs1: Reg, lanes: nat)
    requires Wf(s, lanes) && lanes < TWO64 && rs1 != 0
    requires Opcode(w) == OP_STORE_FP && Func3(w) == 6 && Rs1(w) == rs1 && Rd(w) == rd
    ensures Supported(w)
    ensures StepWord(s, w, 4, lanes)
         == At(s, s.pc + 4).(mem := DataMemory.VWrite(s.mem, s.x[rs1], StoreData(s, rd, s.x[rs1], lanes)))
  {
    hide Opcode, Func3, Rs1, Rs2, Rd, Func7, StoreData, LoadResult, AluResult, NewVl, ArithmeticResult,
      DataMemory.Load, DataMemory.VWrite, DataMemory.Store;
  }

  lemma LoadA(s: State, lanes: nat)
    requires Wf(s, lanes) && lanes < TWO64
    ensures Steps(s, 2, At(s, s.pc + 4).(v := s.v[2 := LoadResult(s, s.x[A1], lanes)]), lanes)
  {
    assert Opcode(0x0205e107) == OP_LOAD_FP && Func3(0x0205e107) == 6 && Rs1(0x0205e107) == 11 && Rd(0x0205e107) == 2;
    hide Opcode, Func3, Rs1, Rs2, Rd, Func7, LoadResult, StepWord, Supported;
    VectorLoad(s, 0x0205e107, 2, 11, lanes);
  }

  lemma LoadB(s: State, lanes: nat)
    requires Wf(s, lanes) && lanes < TWO64
    ensures Steps(s, 3, At(s, s.pc + 4).(v := s.v[1 := LoadResult(s, s.x[A2], lanes)]), lanes)
  {
    assert Opcode(0x02066087) == OP_LOAD_FP && Func3(0x02066087) == 6 && Rs1(0x02066087) == 12 && Rd(0x02066087) == 1;
    hide Opcode, Func3, Rs1, Rs2, Rd, Func7, LoadResult, StepWord, Supported;
    VectorLoad(s, 0x02066087, 1, 12, lanes);
  }

  lemma Slli(s: State, lanes: nat)
    requires Wf(s, lanes) && lanes < TWO64
    ensures Steps(s, 4, Set(s, s.pc + 4, A4, Times4(s.x[A5])), lanes)
  {
    assert Opcode(0x00279713) == OP_I && Func3(0x00279713) == 1 && Rs1(0x00279713) == 15 && Rd(0x00279713) == 14;
    assert ImmI(0x00279713) == 2;
    hide Opcode, Func3, Rs1, Rs2, Rd, Func7, ImmI;
  }

  lemma Sub(s: State, lanes: nat)
    requires Wf(s, lanes) && lanes < TWO64
    ensures Steps(s, 5, Set(s, s.pc + 4, A3, Minus(s.x[A3], s.x[A5])), lanes)
  {
    assert WORDS[5] == RType(OP_R, 0, 0x20, A3, A3, A5);
    hide StepWord, Supported, RType;
    Li64.StepRegister(s, 0, 0x20, A3, A3, A5, lanes);
  }

  /** add r, r, a4 */
  lemma AddA4(s: State, w: Half, r: Reg, lanes: nat)
    requires Wf(s, lanes) && lanes < TWO64 && r != 0 && w == RType(OP_R, 0, 0, r, r, A4)
    ensures Supported(w) && StepWord(s, w, 4, lanes) == Set(s, s.pc + 4, r, Plus(s.x[r], s.x[A4]))
  {
    hide StepWord, Supported, RType;
    Li64.StepRegister(s, 0, 0, r, r, A4, lanes);
  }

  /** The three pointers move on by the bytes of the group. */
  lemma Add(s: State, i: nat, lanes: nat)
    requires Wf(s, lanes) && lanes < TWO64 && (i == 6 || i == 7 || i == 10)
    ensures var r := if i == 6 then A1 else if i == 7 then A2 else A0;
            Steps(s, i, Set(s, s.pc + 4, r, Plus(s.x[r], s.x[A4])), lanes)
  {
    var r := if i == 6 then A1 else if i == 7 then A2 else A0;
    assert WORDS[i] == RType(OP_R, 0, 0, r, r, A4);
    hide StepWord, Supported, RType, Plus;
    AddA4(s, WORDS[i], r, lanes);
  }

  /** Lane by lane, the active lanes added and the others zero. */
  function Added(s: State, lanes: nat): seq<Half>
    requires Wf(s, lanes)
  {
    seq<Half>(lanes, i requires 0 <= i => if i < s.vl && i < lanes then VectorAlu.LaneOp(0, s.v[1][i], s.v[2][i]) else 0)
  }

  lemma VaddVV(s: State, lanes: nat)
    requires Wf(s, lanes) && lanes < TWO64
    ensures Steps(s, 8, At(s, s.pc + 4).(v := s.v[1 := Added(s, lanes)]), lanes)
  {
    assert Opcode(0x021100d7) == OP_V && Func3(0x021100d7) == 0 && Func7(0x021100d7) == 1;
    assert Rs1(0x021100d7) == 2 && Rs2(0x021100d7) == 1 && Rd(0x021100d7) == 1;
    VaddLanes(s, 0x021100d7, lanes);
    hide Opcode, Func3, Rs1, Rs2, Rd, Func7, ArithmeticResult, Added;
  }

  lemma VaddLanes(s: State, w: Half, lanes: nat)
    requires Wf(s, lanes) && Func3(w) == 0 && Func7(w) == 1 && Rs1(w) == 2 && Rs2(w) == 1
    ensures ArithmeticResult(s, w, lanes) == Added(s, lanes)
  {
    hide Func3, Func7, Rs1, Rs2;
    assert VectorCode(w) == 0 && Unmasked(w) && !IsReduce(w) && !IsCompare(w);
    forall i | 0 <= i < lanes ensures LaneResult(s, w, lanes, i) == Added(s, lanes)[i] {
    }
  }

  lemma Vse(s: State, lanes: nat)
    requires Wf(s, lanes) && lanes < TWO64
    ensures Steps(s, 9, At(s, s.pc + 4).(mem := DataMemory.VWrite(s.mem, s.x[A0], StoreData(s, 1, s.x[A0], lanes))), lanes)
  {
    assert Opcode(0x020560a7) == OP_STORE_FP && Func3(0x020560a7) == 6 && Rs1(0x020560a7) == 10 && Rd(0x020560a7) == 1;
    hide Opcode, Func3, Rs1, Rs2, Rd, Func7, StoreData, DataMemory.VWrite, StepWord, Supported;
    VectorStore(s, 0x020560a7, 1, 10, lanes);
  }

  lemma Bnez(s: State, lanes: nat)
    requires Wf(s, lanes) && lanes < TWO64
    ensures Steps(s, 11, At(s, s.pc + if s.x[A3] != 0 then -40 else 4), lanes)
  {
    hide Opcode, Func3, Rs1, Rs2, ImmB, StepWord, Supported, Wf;
    assert |s.x| == 32 by { Registers(s, lanes); }
    BranchFields();
    BranchStep(s, 0xfc069ce3, 1, 13, 0, lanes);
    assert Wrap(s.pc + (TWO64 - 40)) == Wrap(s.pc - 40);
  }

  lemma Ret(s: State, lanes: nat)
    requires Wf(s, lanes) && lanes < TWO64
    ensures Steps(s, 12, At(s, s.x[RA] / 2 * 2), lanes)
  {
    hide Opcode, Rs1, Rd, Imm, StepWord, Supported;
    RetFields();
    ReturnStep(s, 0x00008067, lanes);
  }

  lemma RetFields()
    ensures Opcode(0x00008067) == OP_JALR && Rs1(0x00008067) == 1 && Rd(0x00008067) == 0 && Imm(0x00008067) == 0
  {
  }

  /** A jump to the return address that links nowhere. */
  lemma ReturnStep(s: State, w: Half, lanes: nat)
    requires Wf(s, lanes) && lanes < TWO64
    requires Opcode(w) == OP_JALR && Rs1(w) == RA && Rd(w) == 0 && Imm(w) == 0
    ensures Supported(w) && StepWord(s, w, 4, lanes) == At(s, s.x[RA] / 2 * 2)
  {
    hide Opcode, Func3, Rs1, Rs2, Rd, Func7, Imm, AluResult, NewVl, ArithmeticResult, LoadResult, StoreData,
      DataMemory.Load, DataMemory.VWrite, DataMemory.Store;
  }
}

/** What one step of the single-cycle core does with each scalar instruction,
    said through the byte memory, the out-of-order core and the exact products
    rather than through the core's own multiplexers. */
module CoreLaws {
  import opened Words
  import opened Encode
  import opened Core
  import opened Execute
  import opened MemoryBytes
  import DataMemory
  import DecodeOoo
  import Multiply

  function WithReg(s: State, rd: Reg, value: Word): seq<Word>
    requires |s.x| == 32
  {
    if rd == 0 then s.x else s.x[rd := value]
  }

  // ---- Loads and stores ----------------------------------------------------

  /** A scalar store leaves the low bytes of rs2 at rs1 plus the immediate, and
      every other byte and register as it was. */
  lemma StoreInstruction(s: State, w: Half, size: nat, lanes: nat, b: nat)
    requires Wf(s, lanes) && lanes < TWO64 && Opcode(w) == OP_S
    requires var addr := Wrap(ReadReg(s, Rs1(w)) + ImmS(w));
             InRange(s.mem, addr) && b / 8 < |s.mem|
    ensures Supported(w)
    ensures var t, addr := StepWord(s, w, size, lanes), Wrap(ReadReg(s, Rs1(w)) + ImmS(w));
            var base, bytes := AlignedTo(addr, StoreSize(Func3(w))), StoreSize(Func3(w));
            && t == s.(pc := Wrap(s.pc + size), mem := t.mem) && |t.mem| == |s.mem|
            && ByteAt(t.mem, b) == if base <= b < base + bytes then ByteOf(ReadReg(s, Rs2(w)), b - base) else ByteAt(s.mem, b)
  {
    hide Opcode, Func3, Rs1, Rs2, ImmS, ByteAt, ByteOf, AlignedTo, StoreSize, DataMemory.Store, AluResult, BranchTaken, Wrap;
    StoreWritesBytes(s.mem, Func3(w), Wrap(ReadReg(s, Rs1(w)) + ImmS(w)), ReadReg(s, Rs2(w)), b);
  }

  /** A scalar load leaves in rd the little-endian bytes at rs1 plus the
      immediate, extended as its function asks, and changes nothing else. */
  lemma LoadInstruction(s: State, w: Half, size: nat, lanes: nat)
    requires Wf(s, lanes) && lanes < TWO64 && Opcode(w) == OP_LOAD
    requires InRange(s.mem, Wrap(ReadReg(s, Rs1(w)) + ImmI(w)))
    ensures Supported(w)
    ensures var addr, bytes := Wrap(ReadReg(s, Rs1(w)) + ImmI(w)), LoadSize(Func3(w));
            && AlignedTo(addr, bytes) + bytes <= 8 * |s.mem|
            && StepWord(s, w, size, lanes)
               == s.(pc := Wrap(s.pc + size),
                     x := WithReg(s, Rd(w), Extended(Func3(w), LittleEndian(s.mem, AlignedTo(addr, bytes), bytes))))
  {
    hide Opcode, Func3, Rd, Rs1, Rs2, ImmI, LittleEndian, AlignedTo, LoadSize, Extended, DataMemory.Load, AluResult, BranchTaken,
      Wrap;
    LoadReadsBytes(s.mem, Func3(w), Wrap(ReadReg(s, Rs1(w)) + ImmI(w)));
  }

  // ---- Arithmetic and control ----------------------------------------------

  /** An uncompressed arithmetic, divide, branch or jump instruction does what
      the second decoder and the reservation stations do with it, and nothing
      more. */
  lemma StepIsOutOfOrder(s: State, w: Half, lanes: nat)
    requires Wf(s, lanes) && lanes < TWO64 && DecodeOoo.Covered(w) && !DecodeOoo.ReservedShift(w)
    requires !DecodeOoo.RemuwByZero(w, ReadReg(s, Rs1(w)), ReadReg(s, Rs2(w)))
    ensures Supported(w)
    ensures var o := DecodeOoo.OutOfOrder(w, ReadReg(s, Rs1(w)), ReadReg(s, Rs2(w)), s.pc);
            StepWord(s, w, 4, lanes)
            == s.(pc := o.nextPc, x := if o.rdValue.Some? then WithReg(s, Rd(w), o.rdValue.value) else s.x)
  {
    hide Opcode, Func3, Func7, Rd, Rs1, Rs2, Run, DecodeOoo.OutOfOrder, DecodeOoo.ReservedShift, DecodeOoo.RemuwByZero,
      RegisterOp, WordRegisterOp, ImmediateOp, WordImmediateOp;
    DecodeOoo.CoresAgreeIff(w, ReadReg(s, Rs1(w)), ReadReg(s, Rs2(w)), s.pc);
  }

  /** A multiply leaves its half of the exact product, or the extended word. */
  lemma MultiplyInstruction(s: State, w: Half, size: nat, lanes: nat)
    requires Wf(s, lanes) && lanes < TWO64 && Func7(w) == 1 && Func3(w) < 4
    requires Opcode(w) == OP_R || (Opcode(w) == OP_32 && Func3(w) == 0)
    ensures Supported(w)
    ensures var a, b := ReadReg(s, Rs1(w)), ReadReg(s, Rs2(w));
            var value := if Opcode(w) == OP_R then MulDivFull(Func3(w), a, b) else SignExtend(WrapHalf(Low(a) * Low(b)));
            StepWord(s, w, size, lanes) == s.(pc := Wrap(s.pc + size), x := WithReg(s, Rd(w), value))
  {
    hide Opcode, Func3, Func7, Rd, Rs1, Rs2, MulDivFull, MulDivWord, Imm, BranchTaken, Wrap, WrapHalf, Low, SignExtend,
      RegisterOp, WordRegisterOp, ImmediateOp, WordImmediateOp;
    Multiply.MulwIsWordProduct(ReadReg(s, Rs1(w)), ReadReg(s, Rs2(w)));
  }

  /** The size of the instruction shows only in the fall-through address and
      the link value. */
  lemma SizeOnlyMovesPc(s: State, w: Half, lanes: nat)
    requires Wf(s, lanes) && lanes < TWO64 && Supported(w)
    ensures var two, four := StepWord(s, w, 2, lanes), StepWord(s, w, 4, lanes);
            if Opcode(w) == OP_JAL || Opcode(w) == OP_JALR then
              && two == four.(x := two.x)
              && two.x == WithReg(s, Rd(w), Wrap(s.pc + 2)) && four.x == WithReg(s, Rd(w), Wrap(s.pc + 4))
            else if Opcode(w) == OP_B && BranchTaken(Func3(w), ReadReg(s, Rs1(w)), ReadReg(s, Rs2(w))) then
              two == four && two.pc == Wrap(s.pc + ImmB(w))
            else two == four.(pc := Wrap(s.pc + 2)) && four.pc == Wrap(s.pc + 4)
  {
    hide Opcode, Func3, Func7, Rd, Rs1, Rs2, AluResult, BranchTaken, Wrap, ImmB, ImmI, ImmJ, ImmS, ImmU, NewVl, DataMemory.Store,
      DataMemory.VWrite, DataMemory.Load, StoreData, LoadResult, ArithmeticResult, RegisterOp, WordRegisterOp, ImmediateOp,
      WordImmediateOp;
  }

  /** Any other supported opcode, system and fence instructions among them, only
      moves on. */
  lemma OtherInstruction(s: State, w: Half, size: nat, lanes: nat)
    requires Wf(s, lanes) && lanes < TWO64 && Supported(w)
    requires Opcode(w) !in {OP_R, OP_32, OP_I, OP_IMM_32, OP_LOAD, OP_S, OP_B, OP_JAL, OP_JALR, OP_LUI, OP_AUIPC,
                            OP_V, OP_LOAD_FP, OP_STORE_FP}
    ensures StepWord(s, w, size, lanes) == s.(pc := Wrap(s.pc + size))
  {
    hide Opcode, Func3, Func7, Rd, Rs1, Rs2, AluResult, BranchTaken, Wrap, NewVl, DataMemory.Store, DataMemory.VWrite,
      DataMemory.Load, StoreData, LoadResult, ArithmeticResult;
  }
}

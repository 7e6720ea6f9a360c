/** The single-cycle core: fetch, expand, decode, execute, memory, vector unit
    and write-back as one step. Atomics and floating point are left out. */
module Core {
  import opened Words
  import opened Encode
  import Compressed
  import Assembler
  import DataMemory
  import opened Execute
  import opened VectorAlu
  import Reduce

  /** The architectural registers and the data memory. */
  datatype State = State(pc: Word, x: seq<Word>, v: seq<seq<Half>>, vl: nat, mem: seq<Word>)

  predicate Wf(s: State, lanes: nat) {
    && lanes > 0 && |s.x| == 32 && |s.v| == 32 && |s.mem| > 0 && s.vl <= lanes
    && forall r :: 0 <= r < 32 ==> |s.v[r]| == lanes
  }

  /** Opcodes this model covers. */
  predicate Supported(w: Half) {
    var op := Opcode(w);
    && op != OP_AMO && (op == OP_LOAD_FP || op == OP_STORE_FP ==> Func3(w) == 6)
    && op !in {0x43, 0x47, 0x4B, 0x4F, 0x53}
  }

  function ReadReg(s: State, r: Reg): Word
    requires |s.x| == 32
  {
    if r == 0 then 0 else s.x[r]
  }

  // ---- Vector decode -------------------------------------------------------

  predicate IsVsetvli(w: Half) {
    Opcode(w) == OP_V && Func3(w) == 7
  }

  predicate IsVle(w: Half) {
    Opcode(w) == OP_LOAD_FP && Func3(w) == 6
  }

  predicate IsVse(w: Half) {
    Opcode(w) == OP_STORE_FP && Func3(w) == 6
  }

  predicate IsVectorOp(w: Half) {
    Opcode(w) == OP_V && Func3(w) != 7
  }

  function Funct6(w: Half): nat {
    Func7(w) / 2
  }

  predicate IsReduce(w: Half) {
    Func3(w) == 2 && Funct6(w) < 8
  }

  predicate IsCompare(w: Half) {
    Func3(w) != 2 && Func3(w) != 6 && 0x18 <= Funct6(w) <= 0x1D
  }

  function ReduceCode(f6: nat): nat {
    match f6
    case 0 => 0 case 1 => 2 case 2 => 3 case 3 => 4
    case 4 => 13 case 5 => 12 case 6 => 15 case 7 => 14
    case _ => 0
  }

  function MultiplyCode(f6: nat): nat {
    match f6
    case 0x25 => 5 case 0x20 => 16 case 0x21 => 17 case 0x22 => 18 case 0x23 => 19
    case _ => 0
  }

  function IntegerCode(f6: nat): nat {
    match f6
    case 0 => 0 case 2 => 1 case 9 => 2 case 0xA => 3 case 0xB => 4
    case 0x18 => 6 case 0x19 => 7 case 0x1B => 8 case 0x1A => 9 case 0x1D => 10 case 0x1C => 11
    case 5 => 12 case 4 => 13 case 7 => 14 case 6 => 15
    case 0x25 => 20 case 0x28 => 21 case 0x29 => 22
    case _ => 0
  }

  function VectorCode(w: Half): nat {
    if IsReduce(w) then ReduceCode(Funct6(w))
    else if Func3(w) == 2 || Func3(w) == 6 then MultiplyCode(Funct6(w))
    else IntegerCode(Funct6(w))
  }

  predicate Unmasked(w: Half) {
    Func7(w) % 2 == 1
  }

  // ---- Vector datapath -----------------------------------------------------

  /** min(AVL, lanes), or all lanes when rs1 is x0. */
  function NewVl(s: State, w: Half, lanes: nat): nat
    requires Wf(s, lanes)
  {
    if Rs1(w) == 0 || ReadReg(s, Rs1(w)) > lanes then lanes else ReadReg(s, Rs1(w))
  }

  function SignExtend5(v: Reg): Half {
    if v >= 16 then TWO32 - 32 + v else v
  }

  /** The second operand of lane i: a register, a scalar, or an immediate. */
  function Operand2(s: State, w: Half, i: nat): Half
    requires |s.x| == 32 && |s.v| == 32 && i < |s.v[Rs1(w)]|
  {
    if Func3(w) == 4 || Func3(w) == 6 then Low(ReadReg(s, Rs1(w)))
    else if Func3(w) == 3 then SignExtend5(Rs1(w))
    else s.v[Rs1(w)][i]
  }

  function LaneResult(s: State, w: Half, lanes: nat, i: nat): Half
    requires Wf(s, lanes)
  {
    if i < lanes && Active(s.vl, Unmasked(w), s.v[0], i)
    then LaneOp(VectorCode(w), s.v[Rs2(w)][i], Operand2(s, w, i)) else 0
  }

  /** Bits 32j and up of the packed compare mask, `n` of them. */
  function MaskBits(s: State, w: Half, lanes: nat, j: nat, n: nat): (r: nat)
    requires Wf(s, lanes)
    ensures r < Pow2(n)
  {
    if n == 0 then 0
    else
      var i := 32 * j + n - 1;
      var bit := && i < lanes && Active(s.vl, Unmasked(w), s.v[0], i)
                 && LaneCompare(VectorCode(w), s.v[Rs2(w)][i], Operand2(s, w, i));
      MaskBits(s, w, lanes, j, n - 1) + if bit then Pow2(n - 1) else 0
  }

  function MaskLane(s: State, w: Half, lanes: nat, j: nat): Half
    requires Wf(s, lanes)
  {
    Pow2Values();
    MaskBits(s, w, lanes, j, 32)
  }

  function ReduceResult(s: State, w: Half, lanes: nat): Half
    requires Wf(s, lanes)
  {
    Reduce.Fold(VectorCode(w), s.v[Rs1(w)][0],
                Reduce.ActiveOf(s.vl, Unmasked(w), s.v[0], s.v[Rs2(w)], lanes))
  }

  /** The register an arithmetic instruction writes. */
  function ArithmeticResult(s: State, w: Half, lanes: nat): (r: seq<Half>)
    requires Wf(s, lanes)
    ensures |r| == lanes
  {
    if IsReduce(w) then [ReduceResult(s, w, lanes)] + seq<Half>(lanes - 1, i => 0)
    else if IsCompare(w) then seq<Half>(lanes, i requires 0 <= i => MaskLane(s, w, lanes, i))
    else seq<Half>(lanes, i requires 0 <= i => LaneResult(s, w, lanes, i))
  }

  /** vle32.v: elements at or past vl are zero. */
  function LoadResult(s: State, addr: Word, lanes: nat): (r: seq<Half>)
    requires Wf(s, lanes)
    ensures |r| == lanes
  {
    var loaded := DataMemory.VRead(s.mem, addr, lanes);
    seq<Half>(lanes, i requires 0 <= i => if i < s.vl && i < lanes then loaded[i] else 0)
  }

  /** vse32.v: elements at or past vl keep what memory holds. */
  function StoreData(s: State, r: Reg, addr: Word, lanes: nat): (d: seq<Half>)
    requires Wf(s, lanes)
    ensures |d| == lanes
  {
    var held := DataMemory.VRead(s.mem, addr, lanes);
    seq<Half>(lanes, i requires 0 <= i => if i >= lanes then 0 else if i < s.vl then s.v[r][i] else held[i])
  }

  // ---- One instruction -----------------------------------------------------

  function WriteBack(s: State, w: Half, c: Control, r: Result, lanes: nat): Word
    requires Wf(s, lanes) && lanes < TWO64
  {
    if IsVsetvli(w) then NewVl(s, w, lanes)
    else if c.memToReg then DataMemory.Load(s.mem, Func3(w), r.memAddr)
    else r.aluResult
  }

  function NextMem(s: State, w: Half, c: Control, r: Result, lanes: nat): (m: seq<Word>)
    requires Wf(s, lanes)
    ensures |m| == |s.mem|
  {
    if c.memWrite then DataMemory.Store(s.mem, Func3(w), r.memAddr, ReadReg(s, Rs2(w)))
    else if IsVse(w) then DataMemory.VWrite(s.mem, r.memAddr, StoreData(s, Rd(w), r.memAddr, lanes))
    else s.mem
  }

  function NextV(s: State, w: Half, r: Result, lanes: nat): seq<seq<Half>>
    requires Wf(s, lanes)
  {
    if IsVle(w) then s.v[Rd(w) := LoadResult(s, r.memAddr, lanes)]
    else if IsVectorOp(w) then s.v[Rd(w) := ArithmeticResult(s, w, lanes)]
    else s.v
  }

  /** The effect of the expanded instruction `w`, fetched as `size` bytes. */
  function StepWord(s: State, w: Half, size: nat, lanes: nat): (t: State)
    requires Wf(s, lanes) && lanes < TWO64 && Supported(w)
    ensures Wf(t, lanes)
  {
    var c := Decode(w);
    var r := Run(w, c, ReadReg(s, Rs1(w)), ReadReg(s, Rs2(w)), s.pc, size);
    State(r.nextPc,
          if c.regWrite && Rd(w) != 0 then s.x[Rd(w) := WriteBack(s, w, c, r, lanes)] else s.x,
          NextV(s, w, r, lanes),
          if IsVsetvli(w) then NewVl(s, w, lanes) else s.vl,
          NextMem(s, w, c, r, lanes))
  }

  /** The word the core executes at pc, and its size. */
  function Expanded(imem: seq<Assembler.Short16>, pc: Word): Half
    requires |imem| > 0
  {
    Compressed.Expand(Assembler.Fetch(imem, pc))
  }

  function Size(imem: seq<Assembler.Short16>, pc: Word): nat
    requires |imem| > 0
  {
    if Assembler.Fetch(imem, pc) % 4 != 3 then 2 else 4
  }

  /** One clock edge. */
  function NextState(s: State, imem: seq<Assembler.Short16>, lanes: nat): (t: State)
    requires Wf(s, lanes) && lanes < TWO64 && |imem| > 0 && Supported(Expanded(imem, s.pc))
    ensures Wf(t, lanes)
  {
    StepWord(s, Expanded(imem, s.pc), Size(imem, s.pc), lanes)
  }

  /** The clocked core. */
  class Processor {
    const lanes: nat
    var pc: Word
    var x: seq<Word>
    var v: seq<seq<Half>>
    var vl: nat
    var mem: seq<Word>

    /** The state reset leaves, over a given data memory. */
    constructor (lanes: nat, mem: seq<Word>)
      requires 0 < lanes < TWO64 && |mem| > 0
      ensures this.lanes == lanes && Valid()
      ensures View() == State(0, seq<Word>(32, i => 0), seq(32, i => seq<Half>(lanes, j => 0)), lanes, mem)
    {
      this.lanes, this.mem := lanes, mem;
      pc, x, v, vl := 0, seq<Word>(32, i => 0), seq(32, i => seq<Half>(lanes, j => 0)), lanes;
    }

    predicate Valid()
      reads this
    {
      lanes < TWO64 && Wf(View(), lanes)
    }

    function View(): State
      reads this
    {
      State(pc, x, v, vl, mem)
    }

    method Clock(imem: seq<Assembler.Short16>)
      requires Valid() && |imem| > 0 && Supported(Expanded(imem, pc))
      modifies this
      ensures Valid() && View() == NextState(old(View()), imem, lanes)
    {
      hide Run, Decode, NewVl, NextV, NextMem, WriteBack, Expanded;
      var s := View();
      var w := Expanded(imem, pc);
      var c := Decode(w);
      var r := Run(w, c, ReadReg(s, Rs1(w)), ReadReg(s, Rs2(w)), pc, Size(imem, pc));
      pc := r.nextPc;
      if c.regWrite && Rd(w) != 0 {
        x := x[Rd(w) := WriteBack(s, w, c, r, lanes)];
      }
      v := NextV(s, w, r, lanes);
      if IsVsetvli(w) {
        vl := NewVl(s, w, lanes);
      }
      mem := NextMem(s, w, c, r, lanes);
      assert View() == NextState(s, imem, lanes);
    }
  }
}

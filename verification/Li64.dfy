/** The eight words of a load-immediate, run on the core. */
module Li64 {
  import opened Words
  import opened Encode
  import opened Assembler
  import opened Core
  import Execute
  import Alu

  /** Straight-line execution of full-size words. */
  function Exec(s: State, words: seq<Half>, lanes: nat): (t: State)
    requires Wf(s, lanes) && lanes < TWO64 && forall w :: w in words ==> Supported(w)
    ensures Wf(t, lanes)
  {
    if words == [] then s else StepWord(Exec(s, words[..|words| - 1], lanes), words[|words| - 1], 4, lanes)
  }

  /** Only the pc and one register change. */
  function Wrote(s: State, rd: Reg, value: Word): State
    requires |s.x| == 32
  {
    s.(pc := Wrap(s.pc + 4), x := s.x[rd := value])
  }

  lemma StepImmediate(s: State, f3: Field3, rd: Reg, rs1: Reg, v: int, lanes: nat)
    requires Wf(s, lanes) && lanes < TWO64 && rd != 0 && -0x800 <= v < 0x800
    ensures var w := IType(OP_I, f3, rd, rs1, v % 0x1000);
            Supported(w) && StepWord(s, w, 4, lanes)
            == Wrote(s, rd, Alu.AluExec(Execute.ImmediateOp(f3, Func7(w) / 2), false, ReadReg(s, rs1), Wrap(v)))
  {
    DecodeI(OP_I, f3, rd, rs1, v);
    hide IType, ImmI, Rs2, Func7, Alu.AluExec, Execute.ImmediateOp;
  }

  lemma StepAddi(s: State, rd: Reg, rs1: Reg, v: int, lanes: nat)
    requires Wf(s, lanes) && lanes < TWO64 && rd != 0 && -0x800 <= v < 0x800
    ensures var w := IType(OP_I, 0, rd, rs1, v % 0x1000);
            Supported(w) && StepWord(s, w, 4, lanes) == Wrote(s, rd, Wrap(ReadReg(s, rs1) + Wrap(v)))
  {
    StepImmediate(s, 0, rd, rs1, v, lanes);
    hide IType, StepWord, Supported;
  }

  /** Shift by 32: left for function 1, logical right for function 5. */
  function By32(f3: Field3, a: Word): Word {
    if f3 == 1 then Wrap(a * TWO32) else a / TWO32
  }

  lemma StepShift32(s: State, f3: Field3, r: Reg, lanes: nat)
    requires Wf(s, lanes) && lanes < TWO64 && r != 0 && (f3 == 1 || f3 == 5)
    ensures Supported(IType(OP_I, f3, r, r, 32))
    ensures StepWord(s, IType(OP_I, f3, r, r, 32), 4, lanes) == Wrote(s, r, By32(f3, ReadReg(s, r)))
  {
    StepImmediate(s, f3, r, r, 32, lanes);
    hide *;
    ShiftKind(f3, r);
    ShiftBy32(ReadReg(s, r));
    ShiftFacts(f3, ReadReg(s, r));
  }

  lemma ShiftFacts(f3: Field3, a: Word)
    ensures 32 % 0x1000 == 32 && Wrap(32) == 32
    ensures By32(f3, a) == if f3 == 1 then Wrap(a * TWO32) else a / TWO32
  {
  }

  /** The upper bits of the shift amount select the logical right shift. */
  lemma ShiftKind(f3: Field3, r: Reg)
    requires f3 == 1 || f3 == 5
    ensures Execute.ImmediateOp(f3, Func7(IType(OP_I, f3, r, r, 32)) / 2) == if f3 == 1 then Alu.Sll else Alu.Srl
  {
    SharedFields(IType(OP_I, f3, r, r, 32), 1, 0, r, f3, r, OP_I);
  }

  lemma ShiftBy32(a: Word)
    ensures Alu.AluExec(Alu.Sll, false, a, 32) == Wrap(a * TWO32)
    ensures Alu.AluExec(Alu.Srl, false, a, 32) == a / TWO32
  {
    Pow2Values();
    hide Pow2;
    assert 0 <= a / TWO32 < TWO64;
  }

  lemma StepLui(s: State, rd: Reg, upper: nat, lanes: nat)
    requires Wf(s, lanes) && lanes < TWO64 && rd != 0 && upper < TWO32 && upper % 0x1000 == 0
    ensures var w := UType(OP_LUI, rd, upper);
            Supported(w) && StepWord(s, w, 4, lanes) == Wrote(s, rd, SignExtend(upper))
  {
    DecodeU(OP_LUI, rd, upper);
    hide UType, ImmU, Rs1, Rs2, Func3, Func7, SignExtend;
  }

  lemma StepRegister(s: State, f3: Field3, f7: Field7, rd: Reg, rs1: Reg, rs2: Reg, lanes: nat)
    requires Wf(s, lanes) && lanes < TWO64 && rd != 0 && f7 != 1
    ensures var w := RType(OP_R, f3, f7, rd, rs1, rs2);
            Supported(w) && StepWord(s, w, 4, lanes)
            == Wrote(s, rd, Alu.AluExec(Execute.RegisterOp(f7, f3), false, ReadReg(s, rs1), ReadReg(s, rs2)))
  {
    DecodeR(OP_R, f3, f7, rd, rs1, rs2);
    hide RType, Alu.AluExec, Execute.RegisterOp;
  }

  lemma StepOr(s: State, rd: Reg, rs2: Reg, lanes: nat)
    requires Wf(s, lanes) && lanes < TWO64 && rd != 0 && rs2 != 0
    ensures var w := RType(OP_R, 6, 0, rd, rd, rs2);
            Supported(w) && StepWord(s, w, 4, lanes) == Wrote(s, rd, Combine(OrBits, s.x[rd], s.x[rs2]))
  {
    StepRegister(s, 6, 0, rd, rd, rs2, lanes);
    hide RType, Combine, StepWord, Supported, Wrote;
  }

  // ---- The values ----------------------------------------------------------

  /** lui and addi leave the wanted low 32 bits, whatever sign extension does
      to the rest. */
  lemma PairValue(v32: Half, upper: nat, low: int)
    requires upper == (v32 + 0x800) / 0x1000 * 0x1000 % TWO32
    requires -0x800 <= low < 0x800 && low % 0x1000 == (v32 - upper) % 0x1000
    ensures Wrap(SignExtend(upper) + Wrap(low)) % TWO32 == v32
  {
    assert (v32 + 0x800) / 0x1000 * 0x1000 == v32 - low by { RoundedUpper(v32, upper, low); }
    assert (upper + low - v32) % TWO32 == 0;
    LowOfSum(SignExtend(upper), Wrap(low), upper, low);
  }

  lemma RoundedUpper(v32: Half, upper: nat, low: int)
    requires upper == (v32 + 0x800) / 0x1000 * 0x1000 % TWO32
    requires -0x800 <= low < 0x800 && low % 0x1000 == (v32 - upper) % 0x1000
    ensures (v32 + 0x800) / 0x1000 * 0x1000 == v32 - low
  {
    var q, r := (v32 + 0x800) / 0x1000, (v32 + 0x800) % 0x1000;
    assert q * 0x1000 == v32 + 0x800 - r;
    assert low % 0x1000 == v32 % 0x1000;
  }

  /** The low half of a sum depends on the low halves only. */
  lemma LowOfSum(a: Word, b: Word, x: int, y: int)
    requires (a - x) % TWO32 == 0 && (b - y) % TWO32 == 0
    ensures Wrap(a + b) % TWO32 == (x + y) % TWO32
  {
  }

  lemma Recombined(hi: Word, lo: Word, u: Word)
    requires hi == u / TWO32 && lo == u % TWO32
    ensures hi * TWO32 < TWO64 && Combine(OrBits, hi * TWO32, lo) == u
  {
    Pow2Values();
    hide Pow2;
    OrDisjoint(32, hi, lo);
  }

  // ---- The sequence --------------------------------------------------------

  lemma ExecOne(s: State, words: seq<Half>, w: Half, lanes: nat)
    requires Wf(s, lanes) && lanes < TWO64 && Supported(w)
    requires forall u :: u in words ==> Supported(u)
    ensures forall u :: u in words + [w] ==> Supported(u)
    ensures Exec(s, words + [w], lanes) == StepWord(Exec(s, words, lanes), w, 4, lanes)
  {
    hide StepWord, Supported;
    assert (words + [w])[..|words|] == words;
  }

  /** The signed 12-bit reading of the addi field. */
  function LowPart(v32: Half): int {
    var d := (v32 - Upper(v32)) % 0x1000;
    if d >= 0x800 then d - 0x1000 else d
  }

  function Upper(v32: Half): nat {
    (v32 + 0x800) / 0x1000 * 0x1000 % TWO32
  }

  /** Running the pair leaves `v32` in the low half of rd. */
  lemma ExecPair(s: State, words: seq<Half>, rd: Reg, v32: Half, lanes: nat) returns (value: Word)
    requires Wf(s, lanes) && lanes < TWO64 && rd != 0 && forall u :: u in words ==> Supported(u)
    ensures forall u :: u in words + Build32Pair(rd, v32) ==> Supported(u)
    ensures var t := Exec(s, words, lanes);
            Exec(s, words + Build32Pair(rd, v32), lanes) == t.(pc := Wrap(t.pc + 8), x := t.x[rd := value])
    ensures value % TWO32 == v32
  {
    hide StepWord, Supported, IType, UType, Exec, SignExtend;
    var upper, low := Upper(v32), LowPart(v32);
    PairFields(v32);
    var lui, addi := UType(OP_LUI, rd, upper), IType(OP_I, 0, rd, rd, low % 0x1000);
    var t := Exec(s, words, lanes);
    StepLui(t, rd, upper, lanes);
    ExecOne(s, words, lui, lanes);
    var t' := Wrote(t, rd, SignExtend(upper));
    StepAddi(t', rd, rd, low, lanes);
    ExecOne(s, words + [lui], addi, lanes);
    assert words + [lui] + [addi] == words + Build32Pair(rd, v32);
    value := Wrap(SignExtend(upper) + Wrap(low));
    PairValue(v32, upper, low);
    WrapTwice(t.pc + 4, 4);
  }

  lemma PairFields(v32: Half)
    ensures Upper(v32) < TWO32 && Upper(v32) % 0x1000 == 0
    ensures -0x800 <= LowPart(v32) < 0x800 && LowPart(v32) % 0x1000 == (v32 - Upper(v32)) % 0x1000
  {
  }

  predicate AllSupported(words: seq<Half>) {
    forall w :: w in words ==> Supported(w)
  }

  /** One more shift by 32 at the end of a sequence. */
  lemma ExecShift(s: State, words: seq<Half>, f3: Field3, r: Reg, lanes: nat)
    requires Wf(s, lanes) && lanes < TWO64 && r != 0 && (f3 == 1 || f3 == 5) && AllSupported(words)
    ensures AllSupported(words + [IType(OP_I, f3, r, r, 32)])
    ensures var t := Exec(s, words, lanes);
            Exec(s, words + [IType(OP_I, f3, r, r, 32)], lanes)
            == Wrote(t, r, By32(f3, ReadReg(t, r)))
  {
    hide StepWord, Supported, IType, Wrote;
    StepShift32(Exec(s, words, lanes), f3, r, lanes);
    ExecOne(s, words, IType(OP_I, f3, r, r, 32), lanes);
  }

  function HighWords(rd: Reg, hi32: Half): seq<Half> {
    Build32Pair(rd, hi32) + [IType(OP_I, 1, rd, rd, 32)]
  }

  function LowWords(lo32: Half): seq<Half> {
    Build32Pair(SCRATCH, lo32) + [IType(OP_I, 1, SCRATCH, SCRATCH, 32), IType(OP_I, 5, SCRATCH, SCRATCH, 32)]
  }

  /** The first three words put the high half in place. */
  lemma ExecHigh(s: State, rd: Reg, hi32: Half, lanes: nat)
    requires Wf(s, lanes) && lanes < TWO64 && rd != 0
    ensures AllSupported(HighWords(rd, hi32))
    ensures Exec(s, HighWords(rd, hi32), lanes) == s.(pc := Wrap(s.pc + 12), x := s.x[rd := hi32 * TWO32])
  {
    hide StepWord, Supported, IType, Build32Pair;
    var pair := Build32Pair(rd, hi32);
    assert [] + pair == pair;
    var hi := ExecPair(s, [], rd, hi32, lanes);
    ExecShift(s, pair, 1, rd, lanes);
    ShiftedUp(hi, hi32);
    PcSteps(s.pc);
    assert s.x[rd := hi][rd := hi32 * TWO32] == s.x[rd := hi32 * TWO32];
  }

  /** The next four leave the zero-extended low half in the scratch register. */
  lemma ExecLow(s: State, words: seq<Half>, lo32: Half, lanes: nat)
    requires Wf(s, lanes) && lanes < TWO64 && AllSupported(words)
    ensures AllSupported(words + LowWords(lo32))
    ensures var t := Exec(s, words, lanes);
            Exec(s, words + LowWords(lo32), lanes) == t.(pc := Wrap(t.pc + 16), x := t.x[SCRATCH := lo32])
  {
    hide StepWord, Supported, IType, Build32Pair, By32, Exec;
    var t, pair := Exec(s, words, lanes), Build32Pair(SCRATCH, lo32);
    var lo := ExecPair(s, words, SCRATCH, lo32, lanes);
    var left, right := IType(OP_I, 1, SCRATCH, SCRATCH, 32), IType(OP_I, 5, SCRATCH, SCRATCH, 32);
    ExecShift(s, words + pair, 1, SCRATCH, lanes);
    ExecShift(s, words + pair + [left], 5, SCRATCH, lanes);
    assert words + pair + [left] + [right] == words + LowWords(lo32);
    ShiftedUp(lo, lo32);
    PcSteps(t.pc);
    ThreeWrites(t.x, lo, lo32 * TWO32, lo32);
  }

  /** The last write to a register is the one that counts. */
  lemma ThreeWrites(x: seq<Word>, a: Word, b: Word, c: Word)
    requires |x| == 32
    ensures x[SCRATCH := a][SCRATCH := b][SCRATCH := c] == x[SCRATCH := c]
    ensures x[SCRATCH := a][SCRATCH] == a && x[SCRATCH := a][SCRATCH := b][SCRATCH] == b
  {
  }

  lemma PcSteps(pc: Word)
    ensures Wrap(Wrap(pc + 8) + 4) == Wrap(pc + 12)
    ensures Wrap(Wrap(pc + 12) + 4) == Wrap(pc + 16)
    ensures Wrap(Wrap(Wrap(pc + 12) + 16) + 4) == Wrap(pc + 32)
  {
    hide *;
    WrapTwice(pc + 8, 4);
    WrapTwice(pc + 12, 4);
    WrapTwice(pc + 12, 16);
    WrapTwice(pc + 28, 4);
  }

  lemma WrapTwice(x: int, y: int)
    ensures Wrap(Wrap(x) + y) == Wrap(x + y)
  {
  }

  /** Loading any 64-bit constant into any register but x0 and the scratch
      register leaves exactly that constant in it, the constant's low half in
      the scratch register, and everything else as it was. */
  lemma LoadsConstant(s: State, rd: Reg, v: int, lanes: nat)
    requires Wf(s, lanes) && lanes < TWO64 && rd != 0 && rd != SCRATCH
    ensures AllSupported(Li64Words(rd, v))
    ensures Exec(s, Li64Words(rd, v), lanes)
         == s.(pc := Wrap(s.pc + 32), x := s.x[rd := Wrap(v)][SCRATCH := Wrap(v) % TWO32])
  {
    hide StepWord, Supported, IType, RType, Build32Pair, Combine;
    var u := Wrap(v);
    var hi32, lo32 := u / TWO32, u % TWO32;
    var high, last := HighWords(rd, hi32), RType(OP_R, 6, 0, rd, rd, SCRATCH);
    ExecHigh(s, rd, hi32, lanes);
    ExecLow(s, high, lo32, lanes);
    var words := high + LowWords(lo32);
    var t := Exec(s, words, lanes);
    assert t.x[rd] == hi32 * TWO32 && t.x[SCRATCH] == lo32;
    StepOr(t, rd, SCRATCH, lanes);
    ExecOne(s, words, last, lanes);
    assert Li64Words(rd, v) == words + [last];
    Recombined(hi32, lo32, u);
    PcSteps(s.pc);
    assert s.x[rd := hi32 * TWO32][SCRATCH := lo32][rd := u] == s.x[rd := u][SCRATCH := lo32];
  }

  lemma ShiftedUp(value: Word, low: Half)
    requires value % TWO32 == low
    ensures low * TWO32 < TWO64 && By32(1, value) == low * TWO32 && By32(5, low * TWO32) == low
  {
  }
}

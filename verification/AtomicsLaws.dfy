/** What atomics leave in memory, byte by byte and in any run, and what their
    operations mean through the scalar ALU. */
module AtomicsLaws {
  import opened Words
  import opened Encode
  import opened Alu
  import opened Atomics
  import opened MemoryBytes
  import AluLaws
  import DataMemory
  import Tags

  // ---- Operation codes -----------------------------------------------------

  /** The assembler's funct5 table. */
  function Funct5Of(op: AmoOp): nat {
    match op
    case Swap => 0x01 case AddOp => 0x00 case XorOp => 0x04 case AndOp => 0x0C case OrOp => 0x08
    case Min => 0x10 case Max => 0x14 case Minu => 0x18 case Maxu => 0x1C
  }

  /** The core's case on funct5; any other code swaps. */
  function OpOf(f5: nat): AmoOp {
    if f5 == 0x00 then AddOp
    else if f5 == 0x04 then XorOp
    else if f5 == 0x0C then AndOp
    else if f5 == 0x08 then OrOp
    else if f5 == 0x10 then Min
    else if f5 == 0x14 then Max
    else if f5 == 0x18 then Minu
    else if f5 == 0x1C then Maxu
    else Swap
  }

  lemma OperationDecoded(op: AmoOp)
    ensures OpOf(Funct5Of(op)) == op && Funct5Of(op) != 2 && Funct5Of(op) != 3
  {
  }

  // ---- Doubleword operations -----------------------------------------------

  /** The .D operations are the scalar ALU's; minimum and maximum are the two
      operands in order, signed and unsigned. */
  lemma AmoDoubleIs(a: Word, b: Word)
    ensures AmoData(Swap, false, a, b) == b
    ensures AmoData(AddOp, false, a, b) == AluExec(Add, false, a, b)
    ensures AmoData(XorOp, false, a, b) == AluExec(Xor, false, a, b)
    ensures AmoData(AndOp, false, a, b) == AluExec(And, false, a, b)
    ensures AmoData(OrOp, false, a, b) == AluExec(Or, false, a, b)
    ensures var lo, hi := AmoData(Min, false, a, b), AmoData(Max, false, a, b);
            multiset{lo, hi} == multiset{a, b} && AluExec(Slt, false, hi, lo) == 0
    ensures var lo, hi := AmoData(Minu, false, a, b), AmoData(Maxu, false, a, b);
            multiset{lo, hi} == multiset{a, b} && AluExec(Sltu, false, hi, lo) == 0
  {
    hide Combine;
    SignedInjective(a, b);
  }

  lemma SignedInjective(a: Word, b: Word)
    ensures Signed(a) == Signed(b) <==> a == b
  {
  }

  // ---- What an AMO leaves in memory ----------------------------------------

  /** The new bytes at an AMO's address are those of its operation on the old
      ones and rs2, in its own width; no other byte changes. */
  lemma AmoEffect(s: Machine, op: AmoOp, f3: Field3, addr: Word, data: Word, b: nat)
    requires |s.mem| > 0 && InRange(s.mem, addr) && b / 8 < |s.mem| && (f3 == 2 || f3 == 3)
    ensures var t, size := Step(s, Amo(op, f3, addr, data)), if f3 == 2 then 4 else 8;
            var base := AlignedTo(addr, size);
            && base + size <= 8 * |s.mem|
            && var was := LittleEndian(s.mem, base, size);
               && 0 <= was < (if f3 == 2 then TWO32 else TWO64)
               && var now := if f3 == 2 then AmoHalf(op, was, Low(data)) else AmoData(op, false, was, data);
                  ByteAt(t.mem, b) == if base <= b < base + size then ByteOf(now, b - base) else ByteAt(s.mem, b)
  {
    hide AmoData, AmoHalf, DataMemory.Store, DataMemory.Load, ByteOf, ByteAt, AlignedTo, LittleEndian, Extended, Low;
    var size := if f3 == 2 then 4 else 8;
    var base := AlignedTo(addr, size);
    LoadReadsBytes(s.mem, f3, addr);
    StoreWritesBytes(s.mem, f3, addr, AmoStored(s, op, f3, addr, data), b);
    SpellsBelow(s.mem, base, size);
    if f3 == 2 {
      var was := LittleEndian(s.mem, base, 4);
      ExtendedLow(was);
      AmoWordIsHalf(op, Extended(2, was), data);
      if base <= b < base + 4 { LowSpells(AmoStored(s, op, f3, addr, data), b - base); }
    } else {
      ExtendedDouble(LittleEndian(s.mem, base, 8));
    }
  }

  lemma SpellsBelow(mem: DataMemory.Mem, base: nat, size: nat)
    requires (size == 4 || size == 8) && base + size <= 8 * |mem|
    ensures 0 <= LittleEndian(mem, base, size) < (if size == 4 then TWO32 else TWO64)
  {
    LittleEndianBound(mem, base, size);
    WeightValues();
  }

  lemma {:induction false} LittleEndianBound(mem: DataMemory.Mem, base: nat, n: nat)
    requires base + n <= 8 * |mem|
    ensures 0 <= LittleEndian(mem, base, n) < DataMemory.Weight(n)
  {
    if n > 0 {
      hide DataMemory.Weight;
      LittleEndianBound(mem, base, n - 1);
      WeightNext(n);
      ByteBound(mem, base + n - 1);
      DigitBound(ByteAt(mem, base + n - 1), DataMemory.Weight(n - 1));
    } else {
      WeightZero();
    }
  }

  lemma WeightNext(n: nat)
    requires n > 0
    ensures DataMemory.Weight(n) == 256 * DataMemory.Weight(n - 1)
  {
  }

  lemma ByteBound(mem: DataMemory.Mem, b: nat)
    requires b / 8 < |mem|
    ensures 0 <= ByteAt(mem, b) < 256
  {
  }

  lemma DigitBound(d: int, w: nat)
    requires 0 <= d < 256
    ensures 0 <= d * w <= 256 * w - w
  {
    Tags.MulMono(d, 255, w);
    Tags.MulMono(0, d, w);
  }

  lemma ExtendedLow(was: int)
    requires 0 <= was < TWO32
    ensures Low(Extended(2, was)) == was
  {
    WeightValues();
    hide DataMemory.Weight;
    if 2 * was >= TWO32 {
      Tags.ModUnique(was - TWO32, -1, was - TWO32 + TWO64, TWO64);
    }
  }

  lemma ExtendedDouble(was: int)
    requires 0 <= was < TWO64
    ensures Extended(3, was) == was
  {
  }

  lemma LowSpells(x: Word, j: nat)
    requires j < 4
    ensures ByteOf(x, j) == ByteOf(Low(x), j)
  {
    hide ByteOf, DataMemory.Weight;
    WeightValues();
    LowByte(x, x / TWO32, x % TWO32, 4, j);
  }

  // ---- What an SC leaves in memory -----------------------------------------

  /** In any run from reset an SC stores its bytes and returns 0 exactly when
      the last LR, SC, AMO or store was an LR of its address; else it stores
      nothing and returns 1. Either way the reservation is gone. */
  lemma ScEffect(s: Machine, ops: seq<MemOp>, f3: Field3, addr: Word, data: Word, b: nat)
    requires |s.mem| > 0 && s.reserved == None && InRange(s.mem, addr) && b / 8 < |s.mem|
    ensures var was, now := After(s, ops), After(s, ops + [Sc(f3, addr, data)]);
            var stands := exists j: nat :: LastIsLr(ops, |ops|, j, addr);
            var base, size := AlignedTo(addr, StoreSize(f3)), StoreSize(f3);
            && |was.mem| == |now.mem| == |s.mem| && now.reserved == None
            && ScResult(was, addr) == (if stands then 0 else 1)
            && ByteAt(now.mem, b)
               == if stands && base <= b < base + size then ByteOf(data, b - base) else ByteAt(was.mem, b)
  {
    hide LastIsLr, DataMemory.Store, ByteAt, ByteOf, AlignedTo, StoreSize;
    var was := After(s, ops);
    var more := ops + [Sc(f3, addr, data)];
    assert more[..|more| - 1] == ops;
    ScSucceedsIff(s, ops, addr);
    StoreWritesBytes(was.mem, f3, addr, data, b);
  }

  /** A scalar store in a run leaves exactly its bytes. */
  lemma StoreEffect(s: Machine, f3: Field3, addr: Word, data: Word, b: nat)
    requires |s.mem| > 0 && InRange(s.mem, addr) && b / 8 < |s.mem|
    ensures var t := Step(s, StoreOp(f3, addr, data));
            var base, size := AlignedTo(addr, StoreSize(f3)), StoreSize(f3);
            ByteAt(t.mem, b) == if base <= b < base + size then ByteOf(data, b - base) else ByteAt(s.mem, b)
  {
    StoreWritesBytes(s.mem, f3, addr, data, b);
  }
}

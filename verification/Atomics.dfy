/** The A extension's state in riscv64_proc.v: the reservation register, and
    the data an atomic read-modify-write stores. */
module Atomics {
  import opened Words
  import opened Encode
  import AluLaws
  import DataMemory
  import Tags
  import VectorAlu

  // ---- AMO data ------------------------------------------------------------

  datatype AmoOp = Swap | AddOp | XorOp | AndOp | OrOp | Min | Max | Minu | Maxu

  /** The value written back, from the extended old value and rs2. */
  function AmoData(op: AmoOp, isWord: bool, old_: Word, rs2: Word): Word {
    var oldS := if isWord then SignExtend(Low(old_)) else old_;
    var rsS := if isWord then SignExtend(Low(rs2)) else rs2;
    var oldU := if isWord then Low(old_) else old_;
    var rsU := if isWord then Low(rs2) else rs2;
    match op
    case Swap => rs2
    case AddOp => Wrap(old_ + rs2)
    case XorOp => Combine(XorBits, old_, rs2)
    case AndOp => Combine(AndBits, old_, rs2)
    case OrOp => Combine(OrBits, old_, rs2)
    case Min => if Signed(oldS) < Signed(rsS) then old_ else rs2
    case Max => if Signed(oldS) > Signed(rsS) then old_ else rs2
    case Minu => if oldU < rsU then old_ else rs2
    case Maxu => if oldU > rsU then old_ else rs2
  }

  /** The 32-bit operation a .W instruction means. */
  function AmoHalf(op: AmoOp, a: Half, b: Half): Half {
    match op
    case Swap => b
    case AddOp => WrapHalf(a + b)
    case XorOp => VectorAlu.Combine32(XorBits, a, b)
    case AndOp => VectorAlu.Combine32(AndBits, a, b)
    case OrOp => VectorAlu.Combine32(OrBits, a, b)
    case Min => if SignedHalf(a) <= SignedHalf(b) then a else b
    case Max => if SignedHalf(a) >= SignedHalf(b) then a else b
    case Minu => if a <= b then a else b
    case Maxu => if a >= b then a else b
  }

  /** The low bits of a bitwise result come from the low bits alone. */
  lemma {:induction false} BitwiseLow(op: BitOp, n: nat, a: nat, b: nat)
    ensures Bitwise(op, a, b) % Pow2(n) == Bitwise(op, a % Pow2(n), b % Pow2(n))
    decreases n
  {
    if n > 0 {
      var m := Pow2(n - 1);
      BitwiseLow(op, n - 1, a / 2, b / 2);
      Halve(a, m);
      Halve(b, m);
      BitwiseStep(op, a, b);
      BitwiseStep(op, a % (2 * m), b % (2 * m));
      Doubled(Bitwise(op, a / 2, b / 2), if BitOf(op, a % 2 == 1, b % 2 == 1) then 1 else 0, m);
    }
  }

  lemma BitwiseStep(op: BitOp, a: nat, b: nat)
    ensures Bitwise(op, a, b) == 2 * Bitwise(op, a / 2, b / 2) + (if BitOf(op, a % 2 == 1, b % 2 == 1) then 1 else 0)
  {
    if a == 0 && b == 0 { assert Bitwise(op, 0, 0) == 0; }
  }

  lemma Halve(x: nat, m: nat)
    requires m > 0
    ensures x % (2 * m) % 2 == x % 2 && x % (2 * m) / 2 == x / 2 % m
  {
    var q, r := x / 2 / m, x / 2 % m;
    assert x / 2 == q * m + r;
    assert x == q * (2 * m) + (2 * r + x % 2) by { Twice(q, m); }
    RemainderIs(x, q, 2 * r + x % 2, 2 * m);
  }

  lemma Twice(q: int, m: int)
    ensures q * (2 * m) == 2 * (q * m)
  {
  }

  lemma RemainderIs(x: nat, q: nat, r: nat, n: nat)
    requires r < n && x == q * n + r
    ensures x % n == r
  {
    Tags.DivModIs(x, q, r, n);
  }

  lemma Doubled(x: nat, bit: nat, m: nat)
    requires m > 0 && bit <= 1
    ensures (2 * x + bit) % (2 * m) == 2 * (x % m) + bit
  {
    var q, r := x / m, x % m;
    assert x == q * m + r;
    Twice(q, m);
    RemainderIs(2 * x + bit, q, 2 * r + bit, 2 * m);
  }

  /** A .W atomic stores exactly the 32-bit operation on the low words, for all
      nine operations, although it is computed on 64 bits. */
  lemma AmoWordIsHalf(op: AmoOp, old_: Word, rs2: Word)
    ensures Low(AmoData(op, true, old_, rs2)) == AmoHalf(op, Low(old_), Low(rs2))
  {
    hide Bitwise, Combine, VectorAlu.Combine32, SignExtend, Signed;
    match op
    case AndOp => CombineLow(AndBits, old_, rs2);
    case OrOp => CombineLow(OrBits, old_, rs2);
    case XorOp => CombineLow(XorBits, old_, rs2);
    case AddOp => AluLaws.LowSum(old_, rs2);
    case _ =>
      SignedOfSignExtend(Low(old_));
      SignedOfSignExtend(Low(rs2));
  }

  lemma CombineLow(op: BitOp, a: Word, b: Word)
    ensures Low(Combine(op, a, b)) == VectorAlu.Combine32(op, Low(a), Low(b))
  {
    hide Bitwise, Pow2;
    Pow2Values();
    BitwiseLow(op, 32, a, b);
  }

  // ---- The reservation -----------------------------------------------------

  datatype MemOp =
    | Lr(addr: Word)
    | Sc(f3: Field3, addr: Word, data: Word)
    | Amo(op: AmoOp, f3: Field3, addr: Word, data: Word)
    | StoreOp(f3: Field3, addr: Word, data: Word)
    | VectorStore(addr: Word, elements: seq<Half>)
    | NoStore

  /** `reserved` holds reservation_addr when reservation_valid is set. */
  datatype Machine = Machine(reserved: Option<Word>, mem: DataMemory.Mem)

  predicate ScSuccess(s: Machine, addr: Word) {
    s.reserved == Some(addr)
  }

  /** What SC writes to rd. */
  function ScResult(s: Machine, addr: Word): Word {
    if ScSuccess(s, addr) then 0 else 1
  }

  /** The old value an AMO sees, as the LW or LD read path extends it. */
  function AmoStored(s: Machine, op: AmoOp, f3: Field3, addr: Word, data: Word): Word
    requires |s.mem| > 0
  {
    AmoData(op, f3 == 2, DataMemory.Load(s.mem, f3, addr), data)
  }

  function Step(s: Machine, op: MemOp): (t: Machine)
    requires |s.mem| > 0
    ensures |t.mem| == |s.mem|
  {
    match op
    case Lr(addr) => s.(reserved := Some(addr))
    case Sc(f3, addr, data) =>
      Machine(None, if ScSuccess(s, addr) then DataMemory.Store(s.mem, f3, addr, data) else s.mem)
    case Amo(op, f3, addr, data) =>
      Machine(None, DataMemory.Store(s.mem, f3, addr, AmoStored(s, op, f3, addr, data)))
    case StoreOp(f3, addr, data) => Machine(None, DataMemory.Store(s.mem, f3, addr, data))
    case VectorStore(addr, elements) => s.(mem := DataMemory.VWrite(s.mem, addr, elements))
    case NoStore => s
  }

  /** What the two registers hold after an edge with these strobes. */
  function NextReserved(was: Option<Word>, isLr: bool, isSc: bool, memWrite: bool, addr: Word): Option<Word> {
    if isLr then Some(addr) else if isSc || memWrite then None else was
  }

  /** The address an operation presents; 0 when it presents none. */
  function AddressOf(op: MemOp): Word {
    match op
    case Lr(addr) => addr
    case Sc(_, addr, _) => addr
    case Amo(_, _, addr, _) => addr
    case StoreOp(_, addr, _) => addr
    case VectorStore(addr, _) => addr
    case NoStore => 0
  }

  /** The machine's reservation is those registers: an AMO and a store raise
      mem_write, a vector store does not. */
  lemma ReservationFollows(s: Machine, op: MemOp)
    requires |s.mem| > 0
    ensures Step(s, op).reserved
         == NextReserved(s.reserved, op.Lr?, op.Sc?, op.Amo? || op.StoreOp?, AddressOf(op))
  {
    hide DataMemory.Store, DataMemory.VWrite, AmoStored;
  }

  /** The reservation registers with their clocked update. */
  class Reservation {
    var valid: bool
    var addr: Word

    constructor ()
      ensures !valid
    {
      valid, addr := false, 0;
    }

    function View(): Option<Word>
      reads this
    {
      if valid then Some(addr) else None
    }

    method Clock(isLr: bool, isSc: bool, memWrite: bool, memAddr: Word)
      modifies this
      ensures View() == NextReserved(old(View()), isLr, isSc, memWrite, memAddr)
    {
      if isLr {
        valid, addr := true, memAddr;
      } else if isSc || memWrite {
        valid := false;
      }
    }
  }

  // ---- Runs ----------------------------------------------------------------

  function After(s: Machine, ops: seq<MemOp>): (t: Machine)
    requires |s.mem| > 0
    ensures |t.mem| == |s.mem|
  {
    if ops == [] then s else Step(After(s, ops[..|ops| - 1]), ops[|ops| - 1])
  }

  /** An operation that sets or clears the reservation. */
  predicate Touches(op: MemOp) {
    op.Lr? || op.Sc? || op.Amo? || op.StoreOp?
  }

  /** The last reservation-touching operation before `n` is the LR of `addr`
      at `j`. */
  predicate LastIsLr(ops: seq<MemOp>, n: nat, j: nat, addr: Word)
    requires n <= |ops|
  {
    j < n && ops[j] == Lr(addr) && forall i :: j < i < n ==> !Touches(ops[i])
  }

  lemma {:induction false} ReservedMeansLr(s: Machine, ops: seq<MemOp>, addr: Word) returns (j: nat)
    requires |s.mem| > 0 && s.reserved == None && After(s, ops).reserved == Some(addr)
    ensures LastIsLr(ops, |ops|, j, addr)
  {
    hide DataMemory.Store, DataMemory.VWrite, AmoStored;
    var n := |ops| - 1;
    if ops[n] == Lr(addr) {
      j := n;
    } else {
      j := ReservedMeansLr(s, ops[..n], addr);
      assert forall i :: 0 <= i < n ==> ops[..n][i] == ops[i];
    }
  }

  predicate NoVectorStoreAfter(ops: seq<MemOp>, j: nat) {
    forall i :: j < i < |ops| ==> !ops[i].VectorStore?
  }

  /** The reservation stands from the LR on, and without a vector store memory
      is as the LR saw it. */
  lemma {:induction false} LrMeansReserved(s: Machine, ops: seq<MemOp>, j: nat, addr: Word)
    requires |s.mem| > 0 && LastIsLr(ops, |ops|, j, addr)
    ensures After(s, ops).reserved == Some(addr)
    ensures NoVectorStoreAfter(ops, j) ==> After(s, ops).mem == After(s, ops[..j + 1]).mem
  {
    hide DataMemory.Store, DataMemory.VWrite, AmoStored;
    var n := |ops| - 1;
    if j < n {
      assert ops[..n][..j + 1] == ops[..j + 1];
      LrMeansReserved(s, ops[..n], j, addr);
      assert !Touches(ops[n]);
    } else {
      assert ops[..j + 1] == ops;
    }
  }

  /** Over every run from reset, an SC succeeds exactly when the last LR, SC,
      AMO or scalar or floating-point store before it was an LR of its own
      address. */
  lemma ScSucceedsIff(s: Machine, ops: seq<MemOp>, addr: Word)
    requires |s.mem| > 0 && s.reserved == None
    ensures ScSuccess(After(s, ops), addr) <==> exists j: nat :: LastIsLr(ops, |ops|, j, addr)
  {
    hide After, LastIsLr;
    if ScSuccess(After(s, ops), addr) {
      var j := ReservedMeansLr(s, ops, addr);
    }
    forall j: nat | LastIsLr(ops, |ops|, j, addr) ensures After(s, ops).reserved == Some(addr) {
      LrMeansReserved(s, ops, j, addr);
    }
  }

  /** The exception: a vector store over the reserved doubleword leaves the
      reservation standing, so the SC succeeds although the value changed. */
  lemma VectorStoreKeepsReservation(mem: DataMemory.Mem)
    requires |mem| == 1 && mem[0] == 0
    ensures var ops := [Lr(0), VectorStore(0, [1, 0])];
            ScSuccess(After(Machine(None, mem), ops), 0) && After(Machine(None, mem), ops).mem != After(Machine(None, mem), ops[..1]).mem
  {
    var s := Machine(None, mem);
    var ops := [Lr(0), VectorStore(0, [1, 0])];
    assert ops[..1] == [Lr(0)] && ops[..1][..0] == [];
    assert After(s, [Lr(0)]) == s.(reserved := Some(0));
    assert After(s, ops) == Step(After(s, ops[..1]), ops[1]);
    assert DataMemory.VWrite(mem, 0, [1, 0])[0] == 1;
  }
}

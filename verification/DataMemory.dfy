/** The doubleword array behind both data ports. */
module DataMemory {
  import opened Words
  import opened Encode

  type Mem = seq<Word>

  // ---- The scalar port -----------------------------------------------------

  /** 256 to the k. */
  function Weight(k: nat): (r: nat)
    ensures r > 0
  {
    if k == 0 then 1 else 256 * Weight(k - 1)
  }

  /** word[lo*8 +: size*8] := data[size*8-1:0] */
  function Patch(word: int, lo: nat, size: nat, data: int): int {
    var unit, span := Weight(lo), Weight(size);
    word - word / unit % span * unit + data % span * unit
  }

  function WordAfter(word: Word, f3: Field3, offset: nat, data: Word): int
    requires offset < 8
  {
    if f3 == 0 then Patch(word, offset, 1, data)
    else if f3 == 1 then Patch(word, offset / 2 * 2, 2, data)
    else if f3 == 2 then Patch(word, offset / 4 * 4, 4, data)
    else data
  }

  function SignExtended(v: int, size: nat): int {
    if 2 * v >= Weight(size) then v - Weight(size) else v
  }

  /** word[lo*8 +: size*8] */
  function Part(word: int, lo: nat, size: nat): int {
    word / Weight(lo) % Weight(size)
  }

  function ReadData(word: Word, f3: Field3, offset: nat): Word
    requires offset < 8
  {
    if f3 == 0 then Wrap(SignExtended(Part(word, offset, 1), 1))
    else if f3 == 1 then Wrap(SignExtended(Part(word, offset / 2 * 2, 2), 2))
    else if f3 == 2 then Wrap(SignExtended(Part(word, offset / 4 * 4, 4), 4))
    else if f3 == 4 then Wrap(Part(word, offset, 1))
    else if f3 == 5 then Wrap(Part(word, offset / 2 * 2, 2))
    else if f3 == 6 then Wrap(Part(word, offset / 4 * 4, 4))
    else word
  }

  /** The doubleword index, wrapped to the index width. */
  function WordAddr(mem: Mem, addr: Word): (r: nat)
    requires |mem| > 0
    ensures r < |mem|
  {
    addr / 8 % |mem|
  }

  function Load(mem: Mem, f3: Field3, addr: Word): Word
    requires |mem| > 0
  {
    ReadData(mem[WordAddr(mem, addr)], f3, addr % 8)
  }

  function Store(mem: Mem, f3: Field3, addr: Word, data: Word): Mem
    requires |mem| > 0
  {
    mem[WordAddr(mem, addr) := Wrap(WordAfter(mem[WordAddr(mem, addr)], f3, addr % 8, data))]
  }

  // ---- The vector port -----------------------------------------------------

  /** The k-th 32-bit element of the memory. */
  function Lane(mem: Mem, k: nat): Half
    requires k / 2 < |mem|
  {
    if k % 2 == 0 then mem[k / 2] % TWO32 else mem[k / 2] / TWO32
  }

  /** An element, or zero past the end of the array. */
  function LaneOrZero(mem: Mem, k: nat): Half {
    if k / 2 < |mem| then Lane(mem, k) else 0
  }

  /** `lanes` elements from the doubleword addressed. */
  function VRead(mem: Mem, addr: Word, lanes: nat): (r: seq<Half>)
    requires |mem| > 0
    ensures |r| == lanes
  {
    var base := WordAddr(mem, addr);
    seq<Half>(lanes, i requires 0 <= i => LaneOrZero(mem, 2 * base + i))
  }

  /** Whole doublewords, two elements each; past the end nothing is written. */
  function VWrite(mem: Mem, addr: Word, data: seq<Half>): (r: Mem)
    requires |mem| > 0
    ensures |r| == |mem|
  {
    var base := WordAddr(mem, addr);
    seq(|mem|, j requires 0 <= j < |mem| =>
      if base <= j < base + |data| / 2 then data[2 * (j - base)] + data[2 * (j - base) + 1] * TWO32 else mem[j])
  }

  /** After a vector write the covered elements are the data, and no other
      element has changed. */
  lemma LaneOfVWrite(mem: Mem, addr: Word, data: seq<Half>, k: nat)
    requires |mem| > 0 && |data| % 2 == 0 && k / 2 < |mem|
    ensures var first := 2 * WordAddr(mem, addr);
            Lane(VWrite(mem, addr, data), k)
            == if first <= k < first + |data| then data[k - first] else Lane(mem, k)
  {
    var base, j := WordAddr(mem, addr), k / 2;
    if base <= j < base + |data| / 2 {
      var lo, hi := data[2 * (j - base)], data[2 * (j - base) + 1];
      assert (lo + hi * TWO32) % TWO32 == lo && (lo + hi * TWO32) / TWO32 == hi;
    }
  }

  // ---- The clocked array ---------------------------------------------------

  datatype ScalarPort = ScalarPort(write: bool, f3: Field3, addr: Word, data: Word)

  datatype VectorPort = VectorPort(write: bool, addr: Word, data: seq<Half>)

  /** The array after an edge; the vector port is assigned last. */
  function Clocked(mem: Mem, p: ScalarPort, q: VectorPort): Mem
    requires |mem| > 0
  {
    var after := if p.write then Store(mem, p.f3, p.addr, p.data) else mem;
    if q.write then VWrite(after, q.addr, q.data) else after
  }

  class Bank {
    const memory: array<Word>

    constructor (words: nat)
      requires words > 0
      ensures fresh(memory) && memory.Length == words && memory[..] == seq<Word>(words, i => 0)
    {
      memory := new Word[words](i => 0);
    }

    method Clock(p: ScalarPort, q: VectorPort)
      requires memory.Length > 0
      modifies memory
      ensures memory[..] == Clocked(old(memory[..]), p, q)
    {
      hide WordAfter;
      if p.write {
        var i := WordAddr(memory[..], p.addr);
        memory[i] := Wrap(WordAfter(memory[i], p.f3, p.addr % 8, p.data));
      }
      ghost var after := memory[..];
      if q.write {
        var base := WordAddr(memory[..], q.addr);
        for vi := 0 to |q.data| / 2
          invariant forall j :: 0 <= j < memory.Length ==>
            memory[j] == if base <= j < base + vi then q.data[2 * (j - base)] + q.data[2 * (j - base) + 1] * TWO32 else after[j]
        {
          if base + vi < memory.Length {
            memory[base + vi] := q.data[2 * vi] + q.data[2 * vi + 1] * TWO32;
          }
        }
      }
    }
  }
}

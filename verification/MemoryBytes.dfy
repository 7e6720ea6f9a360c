/** The doubleword array is a little-endian byte memory through every port. */
module MemoryBytes {
  import opened Words
  import opened Tags
  import opened Encode
  import opened DataMemory

  /** Byte j of a number. */
  function ByteOf(x: int, j: nat): int {
    x / Weight(j) % 256
  }

  // ---- Weights -------------------------------------------------------------

  lemma {:induction false} WeightAdd(m: nat, n: nat)
    ensures Weight(m + n) == Weight(m) * Weight(n)
  {
    if m > 0 {
      WeightAdd(m - 1, n);
      Grouped(256, Weight(m - 1), Weight(n));
    }
  }

  lemma Grouped(a: int, b: int, c: int)
    ensures a * b * c == a * (b * c)
  {
  }

  lemma WeightValues()
    ensures Weight(1) == 256 && Weight(2) == 0x1_0000 && Weight(4) == TWO32 && Weight(8) == TWO64
  {
    WeightAdd(1, 1);
    WeightAdd(2, 2);
    WeightAdd(4, 4);
  }

  // ---- Bytes of a number made of two parts ---------------------------------

  lemma HighByte(x: nat, h: nat, l: nat, k: nat, j: nat)
    requires x == h * Weight(k) + l && l < Weight(k) && k <= j
    ensures ByteOf(x, j) == ByteOf(h, j - k)
  {
    hide Weight;
    DivModIs(x, h, l, Weight(k));
    WeightAdd(k, j - k);
    Telescope(x, Weight(k), Weight(j - k));
  }

  lemma LowByte(x: nat, h: nat, l: nat, k: nat, j: nat)
    requires x == h * Weight(k) + l && l < Weight(k) && j < k
    ensures ByteOf(x, j) == ByteOf(l, j)
  {
    hide Weight;
    var u, r := Weight(j), k - j - 1;
    WeightAdd(j, 1 + r);
    WeightAdd(1, r);
    WeightOne();
    Regroup4(h, u, Weight(r));
    AddMultiple(x, h * Weight(r) * 256, l, u);
    Above256(h * Weight(r), l / u);
  }

  lemma WeightOne()
    ensures Weight(1) == 256
  {
  }

  lemma Regroup4(h: int, u: int, w: int)
    ensures h * (u * (256 * w)) == h * w * 256 * u
  {
    Grouped(u, 256, w);
    assert u * (256 * w) == w * (256 * u);
    Grouped(h, w, 256 * u);
    Grouped(h * w, 256, u);
  }

  lemma AddMultiple(x: nat, a: int, l: nat, u: nat)
    requires u > 0 && x == a * u + l
    ensures x / u == a + l / u
  {
    Division(l, u);
    Division(x, u);
    assert (a + l / u) * u == a * u + l / u * u;
    MulAtLeast(x / u - (a + l / u), u);
    assert (x / u - (a + l / u)) * u == x / u * u - (a + l / u) * u;
  }

  lemma Above256(c: int, y: int)
    ensures (c * 256 + y) % 256 == y % 256
  {
  }

  // ---- Stores --------------------------------------------------------------

  /** A patched word in three parts: above, the new field, and below. */
  lemma PatchParts(word: nat, lo: nat, size: nat, data: nat) returns (hi: nat, mid: nat, low: nat)
    ensures low < Weight(lo) && mid < Weight(size)
    ensures word == (hi * Weight(size) + mid) * Weight(lo) + low
    ensures Patch(word, lo, size, data) == (hi * Weight(size) + data % Weight(size)) * Weight(lo) + low
  {
    hide Weight;
    var u, s := Weight(lo), Weight(size);
    Division(word, u);
    Division(word / u, s);
    hi, mid, low := word / u / s, word / u % s, word % u;
    Replaced(hi * s, mid, data % s, u);
  }

  lemma Replaced(h: int, mid: int, d: int, u: int)
    ensures (h + mid) * u - mid * u + d * u == (h + d) * u
  {
  }

  /** Byte j of a patched word: the data's, or the old one. */
  lemma PatchedByte(word: nat, lo: nat, size: nat, data: nat, j: nat)
    ensures Patch(word, lo, size, data) >= 0
    ensures ByteOf(Patch(word, lo, size, data), j)
         == if lo <= j < lo + size then ByteOf(data, j - lo) else ByteOf(word, j)
  {
    hide Weight, Patch, ByteOf;
    var hi, mid, low := PatchParts(word, lo, size, data);
    var d := data % Weight(size);
    Division(data, Weight(size));
    var was, now := hi * Weight(size) + mid, hi * Weight(size) + d;
    var patched := Patch(word, lo, size, data);
    NonNegative(hi, Weight(size), d, Weight(lo), low);
    NonNegative(hi, Weight(size), mid, Weight(lo), low);
    if j < lo {
      LowByte(word, was, low, lo, j);
      LowByte(patched, now, low, lo, j);
    } else {
      HighByte(word, was, low, lo, j);
      HighByte(patched, now, low, lo, j);
      if j < lo + size {
        LowByte(now, hi, d, size, j - lo);
        LowByte(data, data / Weight(size), d, size, j - lo);
      } else {
        HighByte(was, hi, mid, size, j - lo);
        HighByte(now, hi, d, size, j - lo);
      }
    }
  }

  lemma NonNegative(h: nat, s: nat, d: nat, u: nat, low: nat)
    ensures h * s + d >= 0 && (h * s + d) * u + low >= 0
  {
  }

  /** A patch inside a doubleword stays a doubleword. */
  lemma PatchBound(word: nat, lo: nat, size: nat, data: nat)
    requires lo + size <= 8 && word < Weight(8)
    ensures 0 <= Patch(word, lo, size, data) < Weight(8)
  {
    hide Weight, Patch;
    var hi, mid, low := PatchParts(word, lo, size, data);
    var d, rest := data % Weight(size), 8 - lo - size;
    Division(data, Weight(size));
    WeightAdd(size, rest);
    WeightAdd(lo, size + rest);
    FitsBelow(hi, mid, low, Weight(size), Weight(lo), Weight(rest), word);
    StaysBelow(hi, d, low, Weight(size), Weight(lo), Weight(rest));
  }

  lemma FitsBelow(hi: nat, mid: nat, low: nat, s: nat, u: nat, r: nat, word: nat)
    requires s > 0 && u > 0 && r > 0 && word == (hi * s + mid) * u + low && word < u * (s * r)
    ensures hi < r
  {
    MulMono(r, hi, s);
    MulMono(r * s, hi * s + mid, u);
  }

  lemma StaysBelow(hi: nat, d: nat, low: nat, s: nat, u: nat, r: nat)
    requires hi < r && d < s && low < u
    ensures 0 <= (hi * s + d) * u + low < u * (s * r)
  {
    MulMono(hi + 1, r, s);
    Spread(hi, s);
    MulMono(hi * s + d + 1, r * s, u);
    Spread(hi * s + d, u);
    Grouped(u, s, r);
  }

  lemma Spread(a: int, k: int)
    ensures (a + 1) * k == a * k + k
  {
  }

  // ---- The byte view of a memory -------------------------------------------

  function ByteAt(mem: Mem, b: nat): int
    requires b / 8 < |mem|
  {
    ByteOf(mem[b / 8], b % 8)
  }

  /** The number whose little-endian bytes are those at base, base + 1, ... */
  function LittleEndian(mem: Mem, base: nat, n: nat): int
    requires base + n <= 8 * |mem|
  {
    if n == 0 then 0 else LittleEndian(mem, base, n - 1) + ByteAt(mem, base + n - 1) * Weight(n - 1)
  }

  function StoreSize(f3: Field3): nat {
    if f3 == 0 then 1 else if f3 == 1 then 2 else if f3 == 2 then 4 else 8
  }

  function LoadSize(f3: Field3): nat {
    if f3 % 4 == 0 then 1 else if f3 % 4 == 1 then 2 else if f3 % 4 == 2 then 4 else 8
  }

  /** The address with the bits below the access size dropped. */
  function AlignedTo(addr: nat, size: nat): nat
    requires size > 0
  {
    addr / size * size
  }

  predicate InRange(mem: Mem, addr: Word) {
    addr / 8 < |mem|
  }

  lemma AlignedInside(addr: nat, size: nat)
    requires size == 1 || size == 2 || size == 4 || size == 8
    ensures var base := AlignedTo(addr, size);
            && base / 8 == addr / 8 && base % 8 == addr % 8 / size * size && base % 8 + size <= 8
            && (addr % size == 0 ==> base == addr)
  {
    var q, r := addr / 8, addr % 8;
    assert addr == q * 8 + r;
    if size == 2 { assert addr / 2 == q * 4 + r / 2; }
    if size == 4 { assert addr / 4 == q * 2 + r / 4; }
  }

  lemma Inside(base: nat, size: nat, b: nat)
    requires base % 8 + size <= 8
    ensures base <= b < base + size <==> b / 8 == base / 8 && base % 8 <= b % 8 < base % 8 + size
    ensures base <= b < base + size ==> b % 8 - base % 8 == b - base
  {
  }

  /** A store changes exactly its own bytes, to the data's. */
  lemma StoreWritesBytes(mem: Mem, f3: Field3, addr: Word, data: Word, b: nat)
    requires InRange(mem, addr) && b / 8 < |mem|
    ensures var base := AlignedTo(addr, StoreSize(f3));
            ByteAt(Store(mem, f3, addr, data), b)
            == if base <= b < base + StoreSize(f3) then ByteOf(data, b - base) else ByteAt(mem, b)
  {
    hide ByteOf, Patch, Weight, AlignedTo, WordAfter;
    var size := StoreSize(f3);
    var base := AlignedTo(addr, size);
    AlignedInside(addr, size);
    Inside(base, size, b);
    SmallIndex(addr / 8, |mem|);
    var word := mem[addr / 8];
    WordAfterBytes(word, f3, addr % 8, data, b % 8);
  }

  lemma SmallIndex(x: nat, n: nat)
    requires x < n
    ensures x % n == x
  {
  }

  lemma WordAfterBytes(word: Word, f3: Field3, offset: nat, data: Word, j: nat)
    requires offset < 8 && j < 8
    ensures Wrap(WordAfter(word, f3, offset, data)) == WordAfter(word, f3, offset, data)
    ensures var size := StoreSize(f3);
            var lo := offset / size * size;
            ByteOf(WordAfter(word, f3, offset, data), j)
            == if lo <= j < lo + size then ByteOf(data, j - lo) else ByteOf(word, j)
  {
    hide ByteOf, Patch, Weight;
    WeightValues();
    var size := StoreSize(f3);
    var lo := offset / size * size;
    PatchedByte(word, lo, size, data, j);
    PatchBound(word, lo, size, data);
  }

  // ---- Loads ---------------------------------------------------------------

  /** A part of a word is the number its bytes spell. */
  lemma {:induction false} PartIsBytes(mem: Mem, base: nat, n: nat)
    requires base % 8 + n <= 8 && base / 8 < |mem|
    ensures base + n <= 8 * |mem| && Part(mem[base / 8], base % 8, n) == LittleEndian(mem, base, n)
  {
    var word, lo := mem[base / 8], base % 8;
    if n > 0 {
      hide Weight, ByteOf;
      PartIsBytes(mem, base, n - 1);
      PartStep(word, lo, n - 1);
      assert (base + n - 1) / 8 == base / 8 && (base + n - 1) % 8 == lo + n - 1;
    }
  }

  lemma PartStep(word: nat, lo: nat, n: nat)
    ensures Part(word, lo, n + 1) == Part(word, lo, n) + ByteOf(word, lo + n) * Weight(n)
  {
    hide Weight;
    Division(word, Weight(lo));
    var y, w := word / Weight(lo), Weight(n);
    WeightAdd(lo, n);
    WeightAdd(n, 1);
    WeightOne();
    Telescope(word, Weight(lo), w);
    Telescope(y, w, 256);
    Division(y, w);
    Division(y, w * 256);
  }

  /** The extension a load function applies to the bytes it reads. */
  function Extended(f3: Field3, v: int): Word {
    if f3 < 3 then Wrap(SignExtended(v, LoadSize(f3))) else Wrap(v)
  }

  /** A load returns the little-endian bytes at its address, extended. */
  lemma LoadReadsBytes(mem: Mem, f3: Field3, addr: Word)
    requires InRange(mem, addr)
    ensures var base := AlignedTo(addr, LoadSize(f3));
            base + LoadSize(f3) <= 8 * |mem|
            && Load(mem, f3, addr) == Extended(f3, LittleEndian(mem, base, LoadSize(f3)))
  {
    hide Weight, LittleEndian, SignExtended, AlignedTo, Part, Wrap;
    var size := LoadSize(f3);
    AlignedInside(addr, size);
    PartIsBytes(mem, AlignedTo(addr, size), size);
    SmallIndex(addr / 8, |mem|);
    WholeWord(mem[addr / 8]);
  }

  lemma WholeWord(word: Word)
    ensures Wrap(Part(word, 0, 8)) == word
  {
    WeightValues();
    hide Weight;
    WeightZero();
  }

  lemma WeightZero()
    ensures Weight(0) == 1
  {
  }

  // ---- The vector port -----------------------------------------------------

  /** A vector element is the four bytes at its address. */
  lemma LaneIsBytes(mem: Mem, k: nat)
    requires k / 2 < |mem|
    ensures 4 * k + 4 <= 8 * |mem| && Lane(mem, k) == LittleEndian(mem, 4 * k, 4)
  {
    hide LittleEndian, Weight;
    assert 4 * k / 8 == k / 2 && 4 * k % 8 == k % 2 * 4;
    PartIsBytes(mem, 4 * k, 4);
    LaneIsPart(mem, k);
  }

  lemma LaneIsPart(mem: Mem, k: nat)
    requires k / 2 < |mem|
    ensures Lane(mem, k) == Part(mem[k / 2], k % 2 * 4, 4)
  {
    WeightValues();
    WeightZero();
    hide Weight;
    var word: int := mem[k / 2];
    assert 0 <= word / TWO32 < TWO32;
  }

  lemma LaneByte(mem: Mem, k: nat, j: nat)
    requires k / 2 < |mem| && j < 4
    ensures (4 * k + j) / 8 == k / 2 && ByteAt(mem, 4 * k + j) == ByteOf(Lane(mem, k), j)
  {
    WeightValues();
    hide ByteOf, Weight;
    var word: int := mem[k / 2];
    assert (4 * k + j) / 8 == k / 2 && (4 * k + j) % 8 == k % 2 * 4 + j;
    if k % 2 == 0 {
      LowByte(word, word / TWO32, word % TWO32, 4, j);
    } else {
      HighByte(word, word / TWO32, word % TWO32, 4, j + 4);
    }
  }

  /** A vector store changes exactly its own bytes. */
  lemma VectorStoreWritesBytes(mem: Mem, addr: Word, data: seq<Half>, b: nat)
    requires InRange(mem, addr) && |data| % 2 == 0 && b / 8 < |mem|
    ensures var base := AlignedTo(addr, 8);
            ByteAt(VWrite(mem, addr, data), b)
            == if base <= b < base + 4 * |data| then ByteOf(data[(b - base) / 4], (b - base) % 4) else ByteAt(mem, b)
  {
    hide ByteOf, Weight;
    SmallIndex(addr / 8, |mem|);
    var first, j := addr / 8, b / 8;
    if first <= j < first + |data| / 2 {
      var lo, hi := data[2 * (j - first)], data[2 * (j - first) + 1];
      PairBytes(lo, hi, b % 8);
      var d := b - 8 * first;
      assert d / 4 == 2 * (j - first) + b % 8 / 4 && d % 4 == b % 8 % 4;
    }
  }

  lemma PairBytes(lo: Half, hi: Half, j: nat)
    requires j < 8
    ensures ByteOf(lo + hi * TWO32, j) == if j < 4 then ByteOf(lo, j) else ByteOf(hi, j - 4)
  {
    WeightValues();
    hide ByteOf, Weight;
    if j < 4 { LowByte(lo + hi * TWO32, hi, lo, 4, j); } else { HighByte(lo + hi * TWO32, hi, lo, 4, j); }
  }

  // ---- Refinement over sequences of accesses -------------------------------

  datatype Access = Scalar(f3: Field3, addr: Word, data: Word) | Vector(addr: Word, elements: seq<Half>)

  predicate AccessOk(a: Access, size: nat) {
    && a.addr / 8 < size
    && (a.Vector? ==> |a.elements| % 2 == 0)
  }

  function Apply(mem: Mem, a: Access): (m: Mem)
    requires |mem| > 0
    ensures |m| == |mem|
  {
    match a
    case Scalar(f3, addr, data) => Store(mem, f3, addr, data)
    case Vector(addr, data) => VWrite(mem, addr, data)
  }

  /** The flat byte memory. */
  function Flat(mem: Mem): (r: seq<int>)
    ensures |r| == 8 * |mem|
  {
    seq(8 * |mem|, b requires 0 <= b < 8 * |mem| => ByteAt(mem, b))
  }

  /** The reference memory: overwrite the bytes addressed. */
  function ApplyFlat(bytes: seq<int>, a: Access): (r: seq<int>)
    ensures |r| == |bytes|
  {
    var base := AlignedTo(a.addr, if a.Scalar? then StoreSize(a.f3) else 8);
    var size := if a.Scalar? then StoreSize(a.f3) else 4 * |a.elements|;
    seq(|bytes|, b requires 0 <= b < |bytes| => if base <= b < base + size then NewByte(a, b - base) else bytes[b])
  }

  function NewByte(a: Access, i: nat): int {
    match a
    case Scalar(_, _, data) => ByteOf(data, i)
    case Vector(_, data) => if i / 4 < |data| then ByteOf(data[i / 4], i % 4) else 0
  }

  lemma FlatByte(mem: Mem, a: Access, b: nat)
    requires |mem| > 0 && AccessOk(a, |mem|) && b < 8 * |mem|
    ensures ByteAt(Apply(mem, a), b) == ApplyFlat(Flat(mem), a)[b]
  {
    hide ByteOf, Weight, ByteAt, AlignedTo, Store, VWrite;
    assert Flat(mem)[b] == ByteAt(mem, b);
    var size := if a.Scalar? then StoreSize(a.f3) else 4 * |a.elements|;
    var base := AlignedTo(a.addr, if a.Scalar? then StoreSize(a.f3) else 8);
    assert ApplyFlat(Flat(mem), a)[b] == if base <= b < base + size then NewByte(a, b - base) else Flat(mem)[b];
    match a
    case Scalar(f3, addr, data) => StoreWritesBytes(mem, f3, addr, data, b);
    case Vector(addr, data) => VectorStoreWritesBytes(mem, addr, data, b);
  }

  lemma ApplyRefines(mem: Mem, a: Access)
    requires |mem| > 0 && AccessOk(a, |mem|)
    ensures Flat(Apply(mem, a)) == ApplyFlat(Flat(mem), a)
  {
    hide ByteAt, Apply, ApplyFlat, AccessOk;
    forall b: nat | b < 8 * |mem| ensures Flat(Apply(mem, a))[b] == ApplyFlat(Flat(mem), a)[b] {
      FlatByte(mem, a, b);
    }
  }

  function ApplyAll(mem: Mem, ops: seq<Access>): (m: Mem)
    requires |mem| > 0
    ensures |m| == |mem|
  {
    if ops == [] then mem else Apply(ApplyAll(mem, ops[..|ops| - 1]), ops[|ops| - 1])
  }

  function ApplyAllFlat(bytes: seq<int>, ops: seq<Access>): (r: seq<int>)
    ensures |r| == |bytes|
  {
    if ops == [] then bytes else ApplyFlat(ApplyAllFlat(bytes, ops[..|ops| - 1]), ops[|ops| - 1])
  }

  /** After any sequence of stores through both ports the array still is the
      byte memory that the same stores leave. */
  lemma {:induction false} RunRefines(mem: Mem, ops: seq<Access>)
    requires |mem| > 0 && forall a :: a in ops ==> AccessOk(a, |mem|)
    ensures Flat(ApplyAll(mem, ops)) == ApplyAllFlat(Flat(mem), ops)
  {
    if ops != [] {
      hide AccessOk, Apply, ApplyFlat, Flat;
      RunRefines(mem, ops[..|ops| - 1]);
      ApplyRefines(ApplyAll(mem, ops[..|ops| - 1]), ops[|ops| - 1]);
    }
  }

  /** The number bytes base .. base + n - 1 of a flat memory spell. */
  function Spelled(bytes: seq<int>, base: nat, n: nat): int
    requires base + n <= |bytes|
  {
    if n == 0 then 0 else Spelled(bytes, base, n - 1) + bytes[base + n - 1] * Weight(n - 1)
  }

  lemma {:induction false} SpelledIs(mem: Mem, base: nat, n: nat)
    requires base + n <= 8 * |mem|
    ensures Spelled(Flat(mem), base, n) == LittleEndian(mem, base, n)
  {
    if n > 0 {
      hide Weight, ByteAt;
      SpelledIs(mem, base, n - 1);
    }
  }

  /** Every load, after any sequence of stores, returns the latest bytes at its
      address with the extension its function asks for. */
  lemma LoadsSeeLatest(mem: Mem, ops: seq<Access>, f3: Field3, addr: Word)
    requires |mem| > 0 && InRange(mem, addr) && forall a :: a in ops ==> AccessOk(a, |mem|)
    ensures var base := AlignedTo(addr, LoadSize(f3));
            base + LoadSize(f3) <= 8 * |mem|
            && Load(ApplyAll(mem, ops), f3, addr)
               == Extended(f3, Spelled(ApplyAllFlat(Flat(mem), ops), base, LoadSize(f3)))
  {
    hide AccessOk, ApplyAll, ApplyAllFlat, Flat, Extended, Spelled, LittleEndian, Load, AlignedTo;
    var after := ApplyAll(mem, ops);
    RunRefines(mem, ops);
    LoadReadsBytes(after, f3, addr);
    SpelledIs(after, AlignedTo(addr, LoadSize(f3)), LoadSize(f3));
  }

  // ---- Preloaded arrays ----------------------------------------------------

  /** pack_i32_array: two values a doubleword, an odd last one zero-padded. */
  function PackArray(values: seq<int>): (r: seq<Word>)
    ensures |r| == (|values| + 1) / 2
  {
    seq<Word>((|values| + 1) / 2, i requires 0 <= i < (|values| + 1) / 2 =>
      WrapHalf(values[2 * i]) + (if 2 * i + 1 < |values| then WrapHalf(values[2 * i + 1]) else 0) * TWO32)
  }

  /** Every packed value is found at its element, wherever the image sits. */
  lemma PackedReadsBack(values: seq<int>, mem: Mem, base: nat, k: nat)
    requires k < |values| && base + |PackArray(values)| <= |mem|
    requires mem[base..base + |PackArray(values)|] == PackArray(values)
    ensures Lane(mem, 2 * base + k) == WrapHalf(values[k])
  {
    var i := k / 2;
    assert mem[base + i] == mem[base..base + |PackArray(values)|][i] == PackArray(values)[i];
    assert (2 * base + k) / 2 == base + i && (2 * base + k) % 2 == k % 2;
    var lo, hi := WrapHalf(values[2 * i]), if 2 * i + 1 < |values| then WrapHalf(values[2 * i + 1]) else 0;
    PairHalves(lo, hi);
  }

  /** An odd array's last doubleword is filled up with zero. */
  lemma PackedPadding(values: seq<int>, mem: Mem, base: nat)
    requires |values| % 2 == 1 && base + |PackArray(values)| <= |mem|
    requires mem[base..base + |PackArray(values)|] == PackArray(values)
    ensures Lane(mem, 2 * base + |values|) == 0
  {
    var i := |values| / 2;
    assert mem[base + i] == mem[base..base + |PackArray(values)|][i] == PackArray(values)[i];
    assert (2 * base + |values|) / 2 == base + i && (2 * base + |values|) % 2 == 1;
    PairHalves(WrapHalf(values[2 * i]), 0);
  }

  lemma PairHalves(lo: Half, hi: Half)
    ensures (lo + hi * TWO32) % TWO32 == lo && (lo + hi * TWO32) / TWO32 == hi
  {
  }

  /** An array and the doubleword it is placed at. */
  datatype Placed = Placed(base: nat, values: seq<int>)

  predicate Apart(p: Placed, q: Placed) {
    p.base + |PackArray(p.values)| <= q.base || q.base + |PackArray(q.values)| <= p.base
  }

  ghost predicate Holds(dmem: Mem, p: Placed) {
    var packed := PackArray(p.values);
    p.base + |packed| <= |dmem| && dmem[p.base..p.base + |packed|] == packed
  }

  /** Doubleword w belongs to one of the first n arrays. */
  predicate Covered(arrays: seq<Placed>, n: nat, w: int)
    requires n <= |arrays|
  {
    exists i :: 0 <= i < n && arrays[i].base <= w < arrays[i].base + |PackArray(arrays[i].values)|
  }

  /** preload_mem: pad with zeros up to the base, then assign the slice. */
  method PreloadMem(arrays: seq<Placed>) returns (dmem: Mem)
    requires forall i, j :: 0 <= i < j < |arrays| ==> Apart(arrays[i], arrays[j])
    ensures forall i :: 0 <= i < |arrays| ==> Holds(dmem, arrays[i])
    ensures forall w :: 0 <= w < |dmem| && !Covered(arrays, |arrays|, w) ==> dmem[w] == 0
  {
    hide PackArray;
    dmem := [];
    for n := 0 to |arrays|
      invariant forall i :: 0 <= i < n ==> Holds(dmem, arrays[i])
      invariant forall w :: 0 <= w < |dmem| && !Covered(arrays, n, w) ==> dmem[w] == 0
    {
      var base, packed := arrays[n].base, PackArray(arrays[n].values);
      ghost var start := dmem;
      while |dmem| < base
        invariant start <= dmem
        invariant forall w :: |start| <= w < |dmem| ==> dmem[w] == 0
        decreases base - |dmem|
      {
        dmem := dmem + [0];
      }
      ghost var before := dmem;
      var tail := if base + |packed| <= |dmem| then base + |packed| else |dmem|;
      dmem := dmem[..base] + packed + dmem[tail..];
      forall i | 0 <= i < n ensures Holds(dmem, arrays[i]) {
        StillHolds(start, before, arrays[i], arrays[n], tail);
      }
      forall w | 0 <= w < |dmem| && !Covered(arrays, n + 1, w) ensures dmem[w] == 0 {
        StillUncovered(arrays, n, w);
        assert dmem[w] == before[w];
      }
    }
  }

  lemma StillUncovered(arrays: seq<Placed>, n: nat, w: int)
    requires n < |arrays| && !Covered(arrays, n + 1, w)
    ensures !Covered(arrays, n, w) && !(arrays[n].base <= w < arrays[n].base + |PackArray(arrays[n].values)|)
  {
    hide PackArray;
  }

  /** Assigning a slice apart from an array leaves the array in place. */
  lemma StillHolds(start: Mem, before: Mem, p: Placed, q: Placed, tail: nat)
    requires Holds(start, p) && start <= before && Apart(p, q) && q.base <= |before|
    requires tail == if q.base + |PackArray(q.values)| <= |before| then q.base + |PackArray(q.values)| else |before|
    ensures Holds(before[..q.base] + PackArray(q.values) + before[tail..], p)
  {
    hide PackArray;
    var packed, mine := PackArray(q.values), PackArray(p.values);
    var after := before[..q.base] + packed + before[tail..];
    forall i | 0 <= i < |mine| ensures p.base + i < |after| && after[p.base + i] == mine[i] {
      assert start[p.base + i] == start[p.base..p.base + |mine|][i];
    }
  }
}

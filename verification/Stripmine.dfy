/** The memory effect of stripmined vector loops, group by group: every length,
    every even width, and arrays that may coincide. */
module Stripmine {
  import opened Words
  import opened Tags
  import DataMemory
  import VectorAlu

  /** What a loop body computes from an element of each source. */
  datatype Body = Binop(op: nat) | Axpy(scalar: Half)

  function Lanewise(f: Body, x: Half, y: Half): Half {
    match f
    case Binop(op) => VectorAlu.LaneOp(op, x, y)
    case Axpy(k) => VectorAlu.LaneOp(0, VectorAlu.LaneOp(5, x, k), y)
  }

  /** A loop call: the destination, the two sources by byte address, the
      length, the memory it starts with. */
  datatype Call = Call(f: Body, c: nat, a: nat, b: nat, n: nat, mem: DataMemory.Mem)

  /** The length rounded up to whole groups. */
  function Padded(n: nat, lanes: nat): nat
    requires lanes > 0
  {
    (n + lanes - 1) / lanes * lanes
  }

  /** The destination does not run into later elements of a source: it starts
      at or below the source, or past its end. */
  predicate Clear(c: nat, src: nat, n: nat) {
    c <= src || c >= src + 4 * n
  }

  /** Doubleword-aligned arrays, whole groups of them inside the memory. */
  predicate CallOk(q: Call, lanes: nat)
    requires lanes > 0
  {
    && lanes % 2 == 0 && q.n < TWO63 && 0 < 8 * |q.mem| <= TWO64
    && q.c % 8 == 0 && q.a % 8 == 0 && q.b % 8 == 0
    && q.c / 4 + Padded(q.n, lanes) <= 2 * |q.mem|
    && q.a / 4 + Padded(q.n, lanes) <= 2 * |q.mem|
    && q.b / 4 + Padded(q.n, lanes) <= 2 * |q.mem|
    && Clear(q.c, q.a, q.n) && Clear(q.c, q.b, q.n)
  }

  /** What element i of the destination must become. */
  function Result(q: Call, i: nat): Half {
    Lanewise(q.f, DataMemory.LaneOrZero(q.mem, q.a / 4 + i), DataMemory.LaneOrZero(q.mem, q.b / 4 + i))
  }

  /** The memory with the first `done` elements of the destination written. */
  function LaneAfter(q: Call, done: nat, k: nat): Half {
    if q.c / 4 <= k < q.c / 4 + done then Result(q, k - q.c / 4) else DataMemory.LaneOrZero(q.mem, k)
  }

  ghost predicate MemAfter(mem: DataMemory.Mem, q: Call, done: nat) {
    |mem| == |q.mem| && forall k: nat :: k / 2 < |mem| ==> DataMemory.Lane(mem, k) == LaneAfter(q, done, k)
  }

  // ---- One group -----------------------------------------------------------

  /** What the group's store writes: results below m, memory's own lanes above. */
  function GroupData(f: Body, mem: DataMemory.Mem, c: Word, a: Word, b: Word, m: nat, lanes: nat): (d: seq<Half>)
    requires |mem| > 0
    ensures |d| == lanes
  {
    var va, vb, held := DataMemory.VRead(mem, a, lanes), DataMemory.VRead(mem, b, lanes), DataMemory.VRead(mem, c, lanes);
    seq<Half>(lanes, i requires 0 <= i => if i >= lanes then 0 else if i < m then Lanewise(f, va[i], vb[i]) else held[i])
  }

  function GroupMem(f: Body, mem: DataMemory.Mem, c: Word, a: Word, b: Word, m: nat, lanes: nat): (r: DataMemory.Mem)
    requires |mem| > 0
    ensures |r| == |mem|
  {
    DataMemory.VWrite(mem, c, GroupData(f, mem, c, a, b, m, lanes))
  }

  predicate GroupFits(mem: DataMemory.Mem, p: nat, lanes: nat) {
    p % 8 == 0 && p / 4 + lanes <= 2 * |mem| && lanes > 0
  }

  lemma ReadLane(mem: DataMemory.Mem, p: Word, lanes: nat, i: nat)
    requires GroupFits(mem, p, lanes) && |mem| > 0 && i < lanes
    ensures (p / 4 + i) / 2 < |mem| && DataMemory.VRead(mem, p, lanes)[i] == DataMemory.Lane(mem, p / 4 + i)
    ensures 2 * DataMemory.WordAddr(mem, p) == p / 4
  {
    assert p / 8 < |mem| && p / 4 == 2 * (p / 8);
    SmallMod(p / 8, |mem|);
    var base := DataMemory.WordAddr(mem, p);
    assert 2 * base + i == p / 4 + i;
    assert DataMemory.VRead(mem, p, lanes)[i] == DataMemory.LaneOrZero(mem, 2 * base + i);
  }

  lemma SmallMod(x: nat, n: nat)
    requires x < n
    ensures x % n == x
  {
  }

  /** Element k after one group: a result, or untouched. */
  lemma GroupLane(f: Body, mem: DataMemory.Mem, c: Word, a: Word, b: Word, m: nat, lanes: nat, k: nat)
    requires |mem| > 0 && m <= lanes && lanes % 2 == 0 && k / 2 < |mem|
    requires GroupFits(mem, c, lanes) && GroupFits(mem, a, lanes) && GroupFits(mem, b, lanes)
    ensures DataMemory.Lane(GroupMem(f, mem, c, a, b, m, lanes), k)
         == if c / 4 <= k < c / 4 + m
            then Lanewise(f, DataMemory.LaneOrZero(mem, a / 4 + (k - c / 4)), DataMemory.LaneOrZero(mem, b / 4 + (k - c / 4)))
            else DataMemory.Lane(mem, k)
  {
    hide Lanewise, DataMemory.Lane, DataMemory.VRead, DataMemory.VWrite, DataMemory.WordAddr;
    var data := GroupData(f, mem, c, a, b, m, lanes);
    ReadLane(mem, c, lanes, 0);
    DataMemory.LaneOfVWrite(mem, c, data, k);
    if c / 4 <= k < c / 4 + lanes {
      var i := k - c / 4;
      ReadLane(mem, c, lanes, i);
      ReadLane(mem, a, lanes, i);
      ReadLane(mem, b, lanes, i);
    }
  }

  // ---- Between groups ------------------------------------------------------

  lemma PaddedCovers(n: nat, lanes: nat, done: nat)
    requires lanes > 0 && done % lanes == 0 && done < n
    ensures done + lanes <= Padded(n, lanes)
  {
    var q, p := done / lanes, (n + lanes - 1) / lanes;
    assert done == q * lanes;
    assert n + lanes - 1 == p * lanes + (n + lanes - 1) % lanes;
    assert (q + 1 - p) * lanes == done + lanes - p * lanes;
    MulAtLeast(q + 1 - p, lanes);
  }

  lemma EvenMultiple(x: nat, lanes: nat)
    requires lanes > 0 && lanes % 2 == 0 && x % lanes == 0
    ensures x % 2 == 0
  {
    var k, h := x / lanes, lanes / 2;
    assert x == k * (2 * h) == 2 * (k * h);
  }

  lemma NextMultiple(done: nat, lanes: nat)
    requires lanes > 0 && done % lanes == 0
    ensures (done + lanes) % lanes == 0
  {
    var k := done / lanes;
    assert done == k * lanes;
    assert done + lanes == (k + 1) * lanes;
    ModUnique(done + lanes, k + 1, 0, lanes);
  }

  /** The state of the arrays at the loop head: `done` elements finished and the
      three pointers that far on. */
  ghost predicate AtGroup(q: Call, mem: DataMemory.Mem, lanes: nat, done: nat, c: Word, a: Word, b: Word)
    requires lanes > 0
  {
    && done < q.n && done % lanes == 0 && MemAfter(mem, q, done)
    && c == q.c + 4 * done && a == q.a + 4 * done && b == q.b + 4 * done
  }

  lemma PointerFits(p: nat, done: nat, r: nat)
    requires p % 8 == 0 && done % 2 == 0 && r == p + 4 * done
    ensures r % 8 == 0 && r / 4 == p / 4 + done
  {
  }

  /** The group's addresses stay doubleword-aligned and in range. */
  lemma HeadFits(q: Call, mem: DataMemory.Mem, lanes: nat, done: nat, c: Word, a: Word, b: Word)
    requires lanes > 0 && CallOk(q, lanes) && AtGroup(q, mem, lanes, done, c, a, b)
    ensures |mem| > 0 && GroupFits(mem, c, lanes) && GroupFits(mem, a, lanes) && GroupFits(mem, b, lanes)
    ensures c / 4 == q.c / 4 + done && a / 4 == q.a / 4 + done && b / 4 == q.b / 4 + done
  {
    hide Padded, Clear, Result, DataMemory.Lane, LaneAfter;
    PaddedCovers(q.n, lanes, done);
    EvenMultiple(done, lanes);
    PointerFits(q.c, done, c);
    PointerFits(q.a, done, a);
    PointerFits(q.b, done, b);
  }

  /** The source elements of this group have not been overwritten. */
  lemma SourceIntact(q: Call, mem: DataMemory.Mem, done: nat, src: nat, i: nat)
    requires MemAfter(mem, q, done) && done + i < q.n && Clear(q.c, src, q.n) && src % 8 == 0 && q.c % 8 == 0
    ensures DataMemory.LaneOrZero(mem, src / 4 + done + i) == DataMemory.LaneOrZero(q.mem, src / 4 + (done + i))
  {
    hide Lanewise, DataMemory.Lane;
    var k := src / 4 + done + i;
    assert !(q.c / 4 <= k < q.c / 4 + done);
    if k / 2 < |mem| { assert DataMemory.Lane(mem, k) == LaneAfter(q, done, k); }
  }

  lemma LaneStep(q: Call, mem: DataMemory.Mem, lanes: nat, done: nat, c: Word, a: Word, b: Word, m: nat, k: nat)
    requires lanes > 0 && CallOk(q, lanes) && AtGroup(q, mem, lanes, done, c, a, b) && m <= lanes && done + m <= q.n
    requires |mem| > 0 && k / 2 < |mem|
    ensures DataMemory.Lane(GroupMem(q.f, mem, c, a, b, m, lanes), k) == LaneAfter(q, done + m, k)
  {
    hide Lanewise, DataMemory.Lane, GroupMem, DataMemory.LaneOrZero, GroupFits, Padded;
    HeadFits(q, mem, lanes, done, c, a, b);
    GroupLane(q.f, mem, c, a, b, m, lanes, k);
    var first := q.c / 4 + done;
    if first <= k < first + m {
      var i := k - first;
      SourceIntact(q, mem, done, q.a, i);
      SourceIntact(q, mem, done, q.b, i);
      assert q.a / 4 + done + i == q.a / 4 + (done + i) && q.b / 4 + done + i == q.b / 4 + (done + i);
    } else {
      assert DataMemory.Lane(mem, k) == LaneAfter(q, done, k);
    }
  }

  /** The memory after the group is the memory with `m` more results. */
  lemma GroupMemAfter(q: Call, mem: DataMemory.Mem, lanes: nat, done: nat, c: Word, a: Word, b: Word, m: nat)
    requires lanes > 0 && CallOk(q, lanes) && AtGroup(q, mem, lanes, done, c, a, b) && m <= lanes && done + m <= q.n
    ensures |mem| > 0 && MemAfter(GroupMem(q.f, mem, c, a, b, m, lanes), q, done + m)
  {
    hide CallOk, GroupFits, DataMemory.Lane, LaneAfter, GroupMem;
    HeadFits(q, mem, lanes, done, c, a, b);
    var after := GroupMem(q.f, mem, c, a, b, m, lanes);
    forall k: nat | k / 2 < |after| ensures DataMemory.Lane(after, k) == LaneAfter(q, done + m, k) {
      LaneStep(q, mem, lanes, done, c, a, b, m, k);
    }
  }

  lemma Untouched(mem: DataMemory.Mem, q: Call)
    requires q.mem == mem
    ensures MemAfter(mem, q, 0)
  {
    hide DataMemory.Lane;
  }

  /** Pointers at the next group, while there is one. */
  lemma NextPointers(q: Call, lanes: nat, done: nat, m: Word)
    requires lanes > 0 && CallOk(q, lanes) && done + m < q.n && (done + m) % lanes == 0
    ensures q.c + 4 * (done + m) < TWO64 && q.a + 4 * (done + m) < TWO64 && q.b + 4 * (done + m) < TWO64
  {
    hide Padded, Clear;
    PaddedCovers(q.n, lanes, done + m);
  }

  lemma Advance(p: nat, done: nat, m: Word, r: Word)
    requires r == p + 4 * done && p + 4 * (done + m) < TWO64
    ensures Wrap(r + Wrap(m * 4)) == p + 4 * (done + m)
  {
  }

  // ---- The emitted loops ---------------------------------------------------

  /** vsetvli's new vl. */
  function NewVl(avl: Word, lanes: nat): Word
    requires lanes < TWO64
  {
    if avl > lanes then lanes else avl
  }

  function MaskedLoad(mem: DataMemory.Mem, addr: Word, vl: nat, lanes: nat): (r: seq<Half>)
    requires |mem| > 0
    ensures |r| == lanes
  {
    var loaded := DataMemory.VRead(mem, addr, lanes);
    seq<Half>(lanes, i requires 0 <= i => if i < vl && i < lanes then loaded[i] else 0)
  }

  /** The body's vector instructions on two loaded registers. */
  function BodyResult(f: Body, v1: seq<Half>, v2: seq<Half>, vl: nat, lanes: nat): (r: seq<Half>)
    requires |v1| == lanes && |v2| == lanes
    ensures |r| == lanes
  {
    seq<Half>(lanes, i requires 0 <= i => if i < vl && i < lanes then Lanewise(f, v1[i], v2[i]) else 0)
  }

  function MergedStore(mem: DataMemory.Mem, addr: Word, v: seq<Half>, vl: nat, lanes: nat): (d: seq<Half>)
    requires |mem| > 0 && |v| == lanes
    ensures |d| == lanes
  {
    var held := DataMemory.VRead(mem, addr, lanes);
    seq<Half>(lanes, i requires 0 <= i => if i >= lanes then 0 else if i < vl then v[i] else held[i])
  }

  lemma MergedIsGroup(f: Body, mem: DataMemory.Mem, c: Word, a: Word, b: Word, vl: nat, lanes: nat)
    requires |mem| > 0
    ensures var v1, v2 := MaskedLoad(mem, a, vl, lanes), MaskedLoad(mem, b, vl, lanes);
            MergedStore(mem, c, BodyResult(f, v1, v2, vl, lanes), vl, lanes) == GroupData(f, mem, c, a, b, vl, lanes)
  {
    hide DataMemory.VRead, Lanewise;
    var v1, v2 := MaskedLoad(mem, a, vl, lanes), MaskedLoad(mem, b, vl, lanes);
    var d := MergedStore(mem, c, BodyResult(f, v1, v2, vl, lanes), vl, lanes);
    var g := GroupData(f, mem, c, a, b, vl, lanes);
    forall i | 0 <= i < lanes ensures d[i] == g[i] {
    }
  }

  /** The vector loop of the benchmarks, with its registers as variables: the
      element-wise one, and axpy when the destination is the second source. It
      ends, and leaves exactly the results of the original elements. */
  method VectorLoop(q: Call, lanes: nat) returns (mem: DataMemory.Mem)
    requires 0 < lanes < TWO64 && CallOk(q, lanes) && q.n > 0
    ensures MemAfter(mem, q, q.n)
  {
    hide GroupMem, GroupData, MaskedLoad, BodyResult, MergedStore, MemAfter, CallOk, Clear, Padded, Lanewise, DataMemory.VWrite;
    Untouched(q.mem, q);
    StartsInRange(q, lanes);
    mem := q.mem;
    var x5: Word, x6: Word, x7: Word, x9: Word := q.a, q.b, q.c, q.n;
    ghost var done := 0;
    while true
      invariant AtGroup(q, mem, lanes, done, x7, x5, x6) && x9 == q.n - done && |mem| > 0
      decreases q.n - done
    {
      var x10 := NewVl(x9, lanes);
      var v1, v2 := MaskedLoad(mem, x5, x10, lanes), MaskedLoad(mem, x6, x10, lanes);
      v1 := BodyResult(q.f, v1, v2, x10, lanes);
      MergedIsGroup(q.f, mem, x7, x5, x6, x10, lanes);
      GroupMemAfter(q, mem, lanes, done, x7, x5, x6, x10);
      GroupIsStore(q.f, mem, x7, x5, x6, x10, lanes);
      mem := DataMemory.VWrite(mem, x7, MergedStore(mem, x7, v1, x10, lanes));
      var x11 := Wrap(x10 * 4);
      NextMultiple(done, lanes);
      if done + x10 < q.n {
        NextPointers(q, lanes, done, x10);
        Advance(q.a, done, x10, x5);
        Advance(q.b, done, x10, x6);
        Advance(q.c, done, x10, x7);
      }
      x9 := x9 - x10;
      x5, x6, x7 := Wrap(x5 + x11), Wrap(x6 + x11), Wrap(x7 + x11);
      done := done + x10;
      if x9 == 0 { break; }
    }
  }

  lemma GroupIsStore(f: Body, mem: DataMemory.Mem, c: Word, a: Word, b: Word, m: nat, lanes: nat)
    requires |mem| > 0
    ensures GroupMem(f, mem, c, a, b, m, lanes) == DataMemory.VWrite(mem, c, GroupData(f, mem, c, a, b, m, lanes))
  {
    hide GroupData;
  }

  lemma StartsInRange(q: Call, lanes: nat)
    requires lanes > 0 && CallOk(q, lanes) && q.n > 0
    ensures |q.mem| > 0 && q.a < TWO64 && q.b < TWO64 && q.c < TWO64 && q.n < TWO63
  {
    hide Padded, Clear;
    PaddedCovers(q.n, lanes, 0);
  }
}

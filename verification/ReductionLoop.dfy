/** The stripmined reduction loops over memory: the plain reduction and the
    dot product, for every length, even width and reduction operation. */
module ReductionLoop {
  import opened Words
  import DataMemory
  import opened Reduce
  import opened Stripmine
  import VectorAlu

  /** What a group feeds to the reduction: an array, or two arrays multiplied. */
  datatype Feed = Plain | Product

  function Element(mem: DataMemory.Mem, feed: Feed, a: nat, b: nat, i: nat): Half {
    var x := DataMemory.LaneOrZero(mem, a / 4 + i);
    if feed.Plain? then x else VectorAlu.LaneOp(5, x, DataMemory.LaneOrZero(mem, b / 4 + i))
  }

  /** The numbers the loop reduces, first to last. */
  function Elements(mem: DataMemory.Mem, feed: Feed, a: nat, b: nat, n: nat): (r: seq<Half>)
    ensures |r| == n
  {
    seq<Half>(n, i requires 0 <= i => Element(mem, feed, a, b, i))
  }

  /** Doubleword-aligned sources, whole groups of them inside the memory. */
  predicate SourcesOk(mem: DataMemory.Mem, a: nat, b: nat, n: nat, lanes: nat)
    requires lanes > 0
  {
    && lanes % 2 == 0 && 0 < 8 * |mem| <= TWO64 && a % 8 == 0 && b % 8 == 0
    && a / 4 + Padded(n, lanes) <= 2 * |mem| && b / 4 + Padded(n, lanes) <= 2 * |mem|
  }

  /** At the loop head with `done` elements folded. */
  predicate AtHead(a: nat, b: nat, n: nat, lanes: nat, done: nat, x5: Word, x6: Word)
    requires lanes > 0
  {
    done < n && done % lanes == 0 && x5 == a + 4 * done && x6 == b + 4 * done
  }

  function Fed(feed: Feed, v1: seq<Half>, v2: seq<Half>, vl: nat, lanes: nat): (r: seq<Half>)
    requires |v1| == lanes && |v2| == lanes
    ensures |r| == lanes
  {
    if feed.Plain? then v1 else BodyResult(Binop(5), v1, v2, vl, lanes)
  }

  lemma HeadInRange(mem: DataMemory.Mem, a: nat, b: nat, n: nat, lanes: nat, done: nat, x5: Word, x6: Word)
    requires lanes > 0 && SourcesOk(mem, a, b, n, lanes) && AtHead(a, b, n, lanes, done, x5, x6)
    ensures GroupFits(mem, x5, lanes) && GroupFits(mem, x6, lanes)
    ensures x5 / 4 == a / 4 + done && x6 / 4 == b / 4 + done
  {
    hide Padded;
    PaddedCovers(n, lanes, done);
    EvenMultiple(done, lanes);
    PointerFits(a, done, x5);
    PointerFits(b, done, x6);
  }

  /** Lane i of what a group feeds is the array's element. */
  lemma FedLane(mem: DataMemory.Mem, feed: Feed, a: nat, b: nat, n: nat, lanes: nat, done: nat, x5: Word, x6: Word, vl: nat, i: nat)
    requires lanes > 0 && SourcesOk(mem, a, b, n, lanes) && AtHead(a, b, n, lanes, done, x5, x6)
    requires vl <= lanes && i < vl
    ensures Fed(feed, MaskedLoad(mem, x5, vl, lanes), MaskedLoad(mem, x6, vl, lanes), vl, lanes)[i]
         == Element(mem, feed, a, b, done + i)
  {
    hide DataMemory.VRead, DataMemory.Lane, DataMemory.WordAddr, SourcesOk, AtHead;
    HeadInRange(mem, a, b, n, lanes, done, x5, x6);
    ReadLane(mem, x5, lanes, i);
    ReadLane(mem, x6, lanes, i);
  }

  /** A group's active elements are the next ones of the array. */
  lemma FedElements(mem: DataMemory.Mem, feed: Feed, a: nat, b: nat, n: nat, lanes: nat, done: nat, x5: Word, x6: Word, vl: nat,
                    v0: seq<Half>)
    requires lanes > 0 && SourcesOk(mem, a, b, n, lanes) && AtHead(a, b, n, lanes, done, x5, x6)
    requires vl <= lanes && done + vl <= n && |v0| > 0
    ensures var v := Fed(feed, MaskedLoad(mem, x5, vl, lanes), MaskedLoad(mem, x6, vl, lanes), vl, lanes);
            Elements(mem, feed, a, b, done) + ActiveOf(vl, true, v0, v, lanes) == Elements(mem, feed, a, b, done + vl)
  {
    hide Fed, MaskedLoad, Element, SourcesOk, AtHead, ActiveOf;
    assert |mem| > 0 by { HeadInRange(mem, a, b, n, lanes, done, x5, x6); }
    var v := Fed(feed, MaskedLoad(mem, x5, vl, lanes), MaskedLoad(mem, x6, vl, lanes), vl, lanes);
    UnmaskedAreFirst(vl, v0, v, lanes);
    forall i | 0 <= i < vl ensures v[i] == Element(mem, feed, a, b, done + i) {
      FedLane(mem, feed, a, b, n, lanes, done, x5, x6, vl, i);
    }
  }

  lemma PointersFit(mem: DataMemory.Mem, a: nat, b: nat, n: nat, lanes: nat, done: nat)
    requires lanes > 0 && SourcesOk(mem, a, b, n, lanes) && done < n && done % lanes == 0
    ensures a + 4 * done < TWO64 && b + 4 * done < TWO64 && |mem| > 0
  {
    hide Padded;
    PaddedCovers(n, lanes, done);
  }

  /** The loop of the benchmarks, its registers as variables; `v0` is whatever
      the mask register holds. It ends on one sequential fold of the array. */
  method VectorReduction(op: nat, feed: Feed, seed: Half, mem: DataMemory.Mem, a: nat, b: nat, n: Word, lanes: nat, v0: seq<Half>)
    returns (v3: Half)
    requires 0 < lanes < TWO64 && n > 0 && |v0| > 0 && SourcesOk(mem, a, b, n, lanes)
    ensures v3 == Fold(op, seed, Elements(mem, feed, a, b, n))
  {
    hide Fold, Elements, Fed, MaskedLoad, ActiveOf, SourcesOk, VectorAlu.LaneOp;
    PointersFit(mem, a, b, n, lanes, 0);
    var x5: Word, x6: Word, x9: Word := a, b, n;
    v3 := seed;
    ghost var done := 0;
    StartsEmpty(op, seed, mem, feed, a, b);
    while true
      invariant AtHead(a, b, n, lanes, done, x5, x6) && x9 == n - done
      invariant v3 == Fold(op, seed, Elements(mem, feed, a, b, done))
      decreases n - done
    {
      var x10 := NewVl(x9, lanes);
      var v1, v2 := MaskedLoad(mem, x5, x10, lanes), MaskedLoad(mem, x6, x10, lanes);
      v1 := Fed(feed, v1, v2, x10, lanes);
      FedElements(mem, feed, a, b, n, lanes, done, x5, x6, x10, v0);
      FoldAppend(op, seed, Elements(mem, feed, a, b, done), ActiveOf(x10, true, v0, v1, lanes));
      v3 := ReduceLanes(op, x10, true, v0, v3, v1);
      var x11 := Wrap(x10 * 4);
      NextMultiple(done, lanes);
      if done + x10 < n {
        PointersFit(mem, a, b, n, lanes, done + x10);
        Advance(a, done, x10, x5);
        Advance(b, done, x10, x6);
      }
      x9 := x9 - x10;
      x5, x6 := Wrap(x5 + x11), Wrap(x6 + x11);
      done := done + x10;
      if x9 == 0 { break; }
    }
  }

  lemma StartsEmpty(op: nat, seed: Half, mem: DataMemory.Mem, feed: Feed, a: nat, b: nat)
    ensures Fold(op, seed, Elements(mem, feed, a, b, 0)) == seed
  {
  }

  // ---- What the two loops compute ------------------------------------------

  /** The exact dot product of the first n elements. */
  function Dot(mem: DataMemory.Mem, a: nat, b: nat, n: nat): int {
    if n == 0 then 0
    else Dot(mem, a, b, n - 1) + DataMemory.LaneOrZero(mem, a / 4 + (n - 1)) * DataMemory.LaneOrZero(mem, b / 4 + (n - 1))
  }

  /** Multiplying and folding lane by lane in 32 bits is the exact dot product,
      wrapped once. */
  lemma {:induction false} FoldIsDotProduct(seed: Half, mem: DataMemory.Mem, a: nat, b: nat, n: nat)
    ensures Fold(0, seed, Elements(mem, Product, a, b, n)) == WrapHalf(seed + Dot(mem, a, b, n))
  {
    hide Fold, Elements, WrapHalf, Dot, DataMemory.LaneOrZero;
    if n == 0 {
      NothingYet(seed, mem, a, b);
    } else {
      FoldIsDotProduct(seed, mem, a, b, n - 1);
      FoldOneMore(seed, mem, a, b, n);
      DotOneMore(seed, mem, a, b, n);
    }
  }

  lemma NothingYet(seed: Half, mem: DataMemory.Mem, a: nat, b: nat)
    ensures Fold(0, seed, Elements(mem, Product, a, b, 0)) == WrapHalf(seed + Dot(mem, a, b, 0))
  {
    StartsEmpty(0, seed, mem, Product, a, b);
  }

  lemma DotOneMore(seed: Half, mem: DataMemory.Mem, a: nat, b: nat, n: nat)
    requires n > 0
    ensures var x: int, y: int := DataMemory.LaneOrZero(mem, a / 4 + (n - 1)), DataMemory.LaneOrZero(mem, b / 4 + (n - 1));
            WrapHalf(WrapHalf(seed + Dot(mem, a, b, n - 1)) + WrapHalf(x * y)) == WrapHalf(seed + Dot(mem, a, b, n))
  {
    hide WrapHalf, DataMemory.LaneOrZero;
    var x: int, y: int := DataMemory.LaneOrZero(mem, a / 4 + (n - 1)), DataMemory.LaneOrZero(mem, b / 4 + (n - 1));
    WrapOnce(seed + Dot(mem, a, b, n - 1), x * y);
  }

  lemma FoldOneMore(seed: Half, mem: DataMemory.Mem, a: nat, b: nat, n: nat)
    requires n > 0
    ensures var x: int, y: int := DataMemory.LaneOrZero(mem, a / 4 + (n - 1)), DataMemory.LaneOrZero(mem, b / 4 + (n - 1));
            Fold(0, seed, Elements(mem, Product, a, b, n))
            == WrapHalf(Fold(0, seed, Elements(mem, Product, a, b, n - 1)) + WrapHalf(x * y))
  {
    hide WrapHalf, DataMemory.LaneOrZero;
    var xs := Elements(mem, Product, a, b, n);
    assert xs[..n - 1] == Elements(mem, Product, a, b, n - 1);
  }

  lemma WrapOnce(x: int, y: int)
    ensures WrapHalf(WrapHalf(x) + WrapHalf(y)) == WrapHalf(x + y)
  {
    AddModulo(x, WrapHalf(y));
    AddModulo(y, x);
  }
}

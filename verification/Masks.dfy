/** A vector compare and the mask register it leaves behind. */
module Masks {
  import opened Words
  import opened Encode
  import opened Tags
  import opened AluLaws
  import opened VectorAlu
  import opened Core

  /** Lane i passes the compare and was itself active. */
  predicate Passes(s: State, w: Half, lanes: nat, i: nat)
    requires Wf(s, lanes)
  {
    i < lanes && Active(s.vl, Unmasked(w), s.v[0], i) && LaneCompare(VectorCode(w), s.v[Rs2(w)][i], Operand2(s, w, i))
  }

  lemma MaskStep(s: State, w: Half, lanes: nat, j: nat, n: nat)
    requires Wf(s, lanes) && n > 0
    ensures MaskBits(s, w, lanes, j, n)
         == MaskBits(s, w, lanes, j, n - 1) + (if Passes(s, w, lanes, 32 * j + n - 1) then 1 else 0) * Pow2(n - 1)
  {
    hide LaneCompare, Active, VectorCode, Operand2, Pow2;
  }

  lemma {:induction false} MaskBitIs(s: State, w: Half, lanes: nat, j: nat, n: nat, k: nat)
    requires Wf(s, lanes) && k < n
    ensures BitAt(MaskBits(s, w, lanes, j, n), k) <==> Passes(s, w, lanes, 32 * j + k)
    decreases n
  {
    hide MaskBits, Passes, BitAt, Pow2, Wf;
    var low, bit := MaskBits(s, w, lanes, j, n - 1), if Passes(s, w, lanes, 32 * j + n - 1) then 1 else 0;
    MaskStep(s, w, lanes, j, n);
    if k < n - 1 {
      MaskBitIs(s, w, lanes, j, n - 1, k);
      LowerBit(low, bit, n - 1, k);
    } else {
      TopBitIs(low, bit, k);
    }
  }

  lemma TopBitIs(low: nat, bit: nat, k: nat)
    requires low < Pow2(k) && bit <= 1
    ensures low + bit * Pow2(k) >= 0 && (BitAt(low + bit * Pow2(k), k) <==> bit == 1)
  {
    DivModIs(low + bit * Pow2(k), bit, low, Pow2(k));
  }

  lemma LowerBit(low: nat, bit: nat, n: nat, k: nat)
    requires k < n && bit <= 1
    ensures low + bit * Pow2(n) >= 0 && (BitAt(low + bit * Pow2(n), k) <==> BitAt(low, k))
  {
    Pow2Add(n - k - 1, k + 1);
    Pow2Step(k);
    hide Pow2;
    var h, p := Pow2(n - k - 1), Pow2(k);
    assert bit * Pow2(n) == bit * (2 * h) * p by { Regrouped(bit, 2 * h, 0, p); Doubled(h, p); }
    SplitQuotient(low + bit * Pow2(n), bit * (2 * h), p, low);
    EvenPlus(bit, h, Quot(low, p));
  }

  /** The mask register a compare writes selects, when later read as v0, exactly
      the lanes that passed, for every width: one bit a lane, 32 to a word. */
  lemma CompareSelects(s: State, w: Half, lanes: nat, i: nat)
    requires Wf(s, lanes) && IsCompare(w) && i < lanes
    ensures MaskBit(ArithmeticResult(s, w, lanes), i) <==> Passes(s, w, lanes, i)
  {
    hide MaskBits, Passes, LaneCompare, Active;
    Pow2Values();
    MaskBitIs(s, w, lanes, i / 32, 32, i % 32);
    assert 32 * (i / 32) + i % 32 == i && i / 32 < lanes;
  }
}

/** The conversions of the floating-point unit that work on bit patterns:
    integer to float, double to integer, and the two float widths. */
module Fpu {
  import opened Words
  import opened Tags
  import opened Rounding

  datatype Format = Format(mant: nat, bias: nat)

  function F32(): Format {
    Format(23, 127)
  }

  function F64(): Format {
    Format(52, 1023)
  }

  /** Index of the highest set bit. */
  function Msb(x: nat): (r: nat)
    requires x > 0
    ensures Pow2(r) <= x < Pow2(r + 1)
  {
    if x == 1 then 0 else 1 + Msb(x / 2)
  }

  lemma MsbIs(x: nat, k: nat)
    requires Pow2(k) <= x < Pow2(k + 1)
    ensures x > 0 && Msb(x) == k
  {
    if Msb(x) < k { Pow2Mono(Msb(x) + 1, k); }
    if k < Msb(x) { Pow2Mono(k + 1, Msb(x)); }
  }

  /** A one-bit select; `below` is what an index under zero reads. */
  predicate Bit(x: nat, i: int, below: bool) {
    if i < 0 then below else x / Pow2(i) % 2 == 1
  }

  predicate RoundUp(guard: bool, sticky: bool, odd: bool) {
    guard && (sticky || odd)
  }

  // ---- Integer to float --------------------------------------------------

  function ShiftLeft(x: nat, n: nat): nat {
    var d := Pow2(n);
    x * d
  }

  function ShiftRight(x: nat, n: nat): nat {
    Quot(x, Pow2(n))
  }

  function Shifted(p: nat, mag: nat, msb: nat): nat {
    if msb >= p then ShiftRight(mag, msb - p) else ShiftLeft(mag, p - msb)
  }

  predicate IntRoundsUp(p: nat, mag: nat, msb: nat, below: bool) {
    var guard := msb >= p && Bit(mag, msb - p - 1, below);
    var sticky := msb >= p + 2 && mag % Pow2(msb - p - 1) != 0;
    RoundUp(guard, sticky, Shifted(p, mag, msb) % 2 == 1)
  }

  /** Exponent and mantissa fields of the converted magnitude. */
  function IntPattern(f: Format, mag: nat, below: bool): nat {
    if mag == 0 then 0
    else
      var msb := Msb(mag);
      var mtrunc := Shifted(f.mant, mag, msb) + (if IntRoundsUp(f.mant, mag, msb, below) then 1 else 0);
      var e := msb + f.bias;
      if mtrunc >= Pow2(f.mant + 1) then ShiftLeft(e + 1, f.mant)
      else ShiftLeft(e, f.mant) + mtrunc % Pow2(f.mant)
  }

  /** One unit of the integer, counted in the format's least subnormals. */
  function One(f: Format): nat
    requires f.bias > 0
  {
    Pow2(f.bias - 1 + f.mant)
  }

  /** `msb` is the top set bit of the bits scanned so far. */
  predicate IsTop(low: nat, msb: nat) {
    if low == 0 then msb == 0 else Pow2(msb) <= low < Pow2(msb + 1)
  }

  /** One more bit of the scan; a later hit replaces an earlier one. */
  lemma ScanBit(mag: nat, i: nat, msb: nat)
    requires IsTop(mag % Pow2(i), msb)
    ensures IsTop(mag % Pow2(i + 1), if Bit(mag, i, false) then i else msb)
  {
    GuardSticky(mag, Pow2(i));
    Pow2Step(i);
    ModBound(mag, Pow2(i));
    hide Pow2;
  }

  lemma ModBound(x: nat, d: nat)
    requires d > 0
    ensures 0 <= x % d < d
  {
  }

  method FindMsb(mag: Word) returns (msb: nat)
    requires mag > 0
    ensures msb == Msb(mag)
  {
    hide IsTop, Bit, Msb;
    msb := 0;
    StartsAtZero(mag);
    for i := 0 to 64
      invariant IsTop(mag % Pow2(i), msb)
    {
      ScanBit(mag, i, msb);
      if Bit(mag, i, false) { msb := i; }
    }
    WholeWord(mag, msb);
  }

  lemma StartsAtZero(mag: nat)
    ensures IsTop(mag % Pow2(0), 0)
  {
  }

  lemma WholeWord(mag: Word, msb: nat)
    requires mag > 0 && IsTop(mag % Pow2(64), msb)
    ensures Msb(mag) == msb
  {
    Pow2Values();
    MsbIs(mag, msb);
  }

  /** The search for the top set bit, then guard-and-sticky rounding. */
  method IntToFloat(f: Format, mag: Word, below: bool) returns (r: nat)
    ensures r == IntPattern(f, mag, below)
  {
    if mag == 0 { return 0; }
    var msb := FindMsb(mag);
    var roundup := IntRoundsUp(f.mant, mag, msb, below);
    var mtrunc := Shifted(f.mant, mag, msb) + (if roundup then 1 else 0);
    var e := msb + f.bias;
    r := if mtrunc >= Pow2(f.mant + 1) then ShiftLeft(e + 1, f.mant) else ShiftLeft(e, f.mant) + mtrunc % Pow2(f.mant);
  }
}

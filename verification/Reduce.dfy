/** The lane reduction of riscv64_proc.v, and chaining it over groups. */
module Reduce {
  import opened Words
  import opened VectorAlu
  import opened AluLaws

  /** One fold step; codes outside the reduction set leave the accumulator. */
  function FoldStep(op: nat, acc: Half, x: Half): Half {
    match op
    case 0 => WrapHalf(acc + x)
    case 2 => Combine32(AndBits, acc, x)
    case 3 => Combine32(OrBits, acc, x)
    case 4 => Combine32(XorBits, acc, x)
    case 12 => if SignedHalf(acc) < SignedHalf(x) then acc else x
    case 13 => if acc < x then acc else x
    case 14 => if SignedHalf(acc) > SignedHalf(x) then acc else x
    case 15 => if acc > x then acc else x
    case _ => acc
  }

  /** The sequential fold of a whole array. */
  function Fold(op: nat, seed: Half, xs: seq<Half>): Half {
    if xs == [] then seed else FoldStep(op, Fold(op, seed, xs[..|xs| - 1]), xs[|xs| - 1])
  }

  /** The active elements of the first n lanes, in order. */
  function ActiveOf(vl: nat, unmasked: bool, v0: seq<Half>, lanes: seq<Half>, n: nat): seq<Half>
    requires n <= |lanes| && |v0| > 0
  {
    if n == 0 then []
    else
      ActiveOf(vl, unmasked, v0, lanes, n - 1)
      + if Active(vl, unmasked, v0, n - 1) then [lanes[n - 1]] else []
  }

  /** The vreduce_acc loop over every lane of the register. */
  method ReduceLanes(op: nat, vl: nat, unmasked: bool, v0: seq<Half>, seed: Half, lanes: seq<Half>) returns (acc: Half)
    requires |v0| > 0
    ensures acc == Fold(op, seed, ActiveOf(vl, unmasked, v0, lanes, |lanes|))
  {
    acc := seed;
    for i := 0 to |lanes|
      invariant acc == Fold(op, seed, ActiveOf(vl, unmasked, v0, lanes, i))
    {
      ghost var before := ActiveOf(vl, unmasked, v0, lanes, i);
      if Active(vl, unmasked, v0, i) {
        acc := FoldStep(op, acc, lanes[i]);
        assert (before + [lanes[i]])[..|before|] == before;
      } else {
        assert before + [] == before;
      }
    }
  }

  // ---- Chaining ------------------------------------------------------------

  lemma {:induction false} FoldAppend(op: nat, seed: Half, a: seq<Half>, b: seq<Half>)
    ensures Fold(op, seed, a + b) == Fold(op, Fold(op, seed, a), b)
    decreases |b|
  {
    if b == [] {
      assert a + b == a;
    } else {
      FoldAppend(op, seed, a, b[..|b| - 1]);
      assert (a + b)[..|a + b| - 1] == a + b[..|b| - 1];
    }
  }

  /** Unmasked, the active elements are the first vl. */
  lemma {:induction false} UnmaskedAreFirst(vl: nat, v0: seq<Half>, lanes: seq<Half>, n: nat)
    requires n <= |lanes| && |v0| > 0
    ensures ActiveOf(vl, true, v0, lanes, n) == lanes[..if vl < n then vl else n]
  {
    if n > 0 {
      UnmaskedAreFirst(vl, v0, lanes, n - 1);
      if vl >= n { assert lanes[..n] == lanes[..n - 1] + [lanes[n - 1]]; }
    }
  }

  /** One group: its elements and the mask register it runs under. */
  datatype Group = Group(vl: nat, unmasked: bool, v0: seq<Half>, lanes: seq<Half>)

  predicate GroupsOk(groups: seq<Group>) {
    forall g :: g in groups ==> |g.v0| > 0
  }

  function GroupElements(g: Group): seq<Half>
    requires |g.v0| > 0
  {
    ActiveOf(g.vl, g.unmasked, g.v0, g.lanes, |g.lanes|)
  }

  /** Every active element of the whole array, in order. */
  function AllElements(groups: seq<Group>): seq<Half>
    requires GroupsOk(groups)
  {
    if groups == [] then [] else AllElements(groups[..|groups| - 1]) + GroupElements(groups[|groups| - 1])
  }

  /** The emitted loop: vredOP.vs vd, vs2, vd, group after group. */
  method ReduceGroups(op: nat, seed: Half, groups: seq<Group>) returns (vd0: Half)
    requires GroupsOk(groups)
    ensures vd0 == Fold(op, seed, AllElements(groups))
  {
    vd0 := seed;
    assert groups[..0] == [];
    for i := 0 to |groups|
      invariant vd0 == Fold(op, seed, AllElements(groups[..i]))
    {
      var g := groups[i];
      vd0 := ReduceLanes(op, g.vl, g.unmasked, g.v0, vd0, g.lanes);
      FoldAppend(op, seed, AllElements(groups[..i]), GroupElements(g));
      assert groups[..i + 1][..i] == groups[..i];
    }
    assert groups[..|groups|] == groups;
  }

  // ---- Stripmining an array ------------------------------------------------

  function MinNat(a: nat, b: nat): nat {
    if a <= b then a else b
  }

  /** The groups a loop of width `lanes` makes of an array: full ones and a last
      partial one, whose remaining lanes hold whatever was loaded. */
  ghost predicate Stripmined(groups: seq<Group>, xs: seq<Half>, lanes: nat)
    requires lanes > 0
    decreases |groups|
  {
    if groups == [] then xs == []
    else
      var g, vl := groups[0], MinNat(|xs|, lanes);
      && xs != [] && g.vl == vl && g.unmasked && |g.v0| > 0 && |g.lanes| == lanes && g.lanes[..vl] == xs[..vl]
      && Stripmined(groups[1..], xs[vl..], lanes)
  }

  lemma {:induction false} AllElementsCons(g: Group, rest: seq<Group>)
    requires GroupsOk([g] + rest)
    ensures |g.v0| > 0 && GroupsOk(rest) && AllElements([g] + rest) == GroupElements(g) + AllElements(rest)
    decreases |rest|
  {
    hide GroupElements;
    assert g in [g] + rest;
    assert forall h :: h in rest ==> h in [g] + rest;
    if rest == [] {
      assert ([g] + rest)[..0] == [];
    } else {
      assert ([g] + rest)[..|rest|] == [g] + rest[..|rest| - 1];
      AllElementsCons(g, rest[..|rest| - 1]);
    }
  }

  /** A stripmined array's active elements are the array. */
  lemma {:induction false} StripminedElements(groups: seq<Group>, xs: seq<Half>, lanes: nat)
    requires lanes > 0 && Stripmined(groups, xs, lanes)
    ensures GroupsOk(groups) && AllElements(groups) == xs
    decreases |groups|
  {
    if groups != [] {
      var g, vl := groups[0], MinNat(|xs|, lanes);
      StripminedElements(groups[1..], xs[vl..], lanes);
      assert groups == [g] + groups[1..];
      AllElementsCons(g, groups[1..]);
      UnmaskedAreFirst(vl, g.v0, g.lanes, |g.lanes|);
      assert xs == xs[..vl] + xs[vl..];
    }
  }

  /** So the chained reduction of any array, for every width and every length,
      is one sequential fold over it. */
  lemma ChainedIsSequential(op: nat, seed: Half, groups: seq<Group>, xs: seq<Half>, lanes: nat)
    requires lanes > 0 && Stripmined(groups, xs, lanes)
    ensures GroupsOk(groups) && Fold(op, seed, AllElements(groups)) == Fold(op, seed, xs)
  {
    StripminedElements(groups, xs, lanes);
  }

  // ---- What the folds mean -------------------------------------------------

  function Sum(xs: seq<Half>): int {
    if xs == [] then 0 else Sum(xs[..|xs| - 1]) + xs[|xs| - 1]
  }

  lemma {:induction false} FoldIsSum(seed: Half, xs: seq<Half>)
    ensures Fold(0, seed, xs) == WrapHalf(seed + Sum(xs))
  {
    if xs != [] {
      hide Sum, Combine32;
      FoldIsSum(seed, xs[..|xs| - 1]);
      SumStep(xs);
      AddModulo(seed + Sum(xs[..|xs| - 1]), xs[|xs| - 1]);
    }
  }

  lemma SumStep(xs: seq<Half>)
    requires xs != []
    ensures Sum(xs) == Sum(xs[..|xs| - 1]) + xs[|xs| - 1]
  {
  }

  lemma AddModulo(x: int, y: int)
    ensures WrapHalf(WrapHalf(x) + y) == WrapHalf(x + y)
  {
  }

  /** The order code's comparison: is `a` at least as extreme as `b`? */
  predicate Wins(op: nat, a: Half, b: Half) {
    match op
    case 12 => SignedHalf(a) <= SignedHalf(b)
    case 13 => a <= b
    case 14 => SignedHalf(a) >= SignedHalf(b)
    case 15 => a >= b
    case _ => false
  }

  /** The min and max folds give an element that none of the others beats. */
  lemma {:induction false} FoldIsExtreme(op: nat, seed: Half, xs: seq<Half>)
    requires 12 <= op <= 15
    ensures var r := Fold(op, seed, xs);
            (r == seed || r in xs) && Wins(op, r, seed) && forall x :: x in xs ==> Wins(op, r, x)
  {
    if xs != [] {
      var before, last := xs[..|xs| - 1], xs[|xs| - 1];
      FoldIsExtreme(op, seed, before);
      forall x | x in xs ensures Wins(op, Fold(op, seed, xs), x) {
        assert x in before || x == last;
      }
    }
  }

  /** Whether an odd number of elements have bit k. */
  function OddBits(xs: seq<Half>, k: nat): bool {
    xs != [] && OddBits(xs[..|xs| - 1], k) != BitAt(xs[|xs| - 1], k)
  }

  /** The and fold keeps a bit that all have, the or fold a bit that any has,
      the xor fold a bit that an odd number have, the seed among them. */
  lemma {:induction false} FoldBits(seed: Half, xs: seq<Half>, k: nat)
    ensures BitAt(Fold(2, seed, xs), k) <==> BitAt(seed, k) && forall x :: x in xs ==> BitAt(x, k)
    ensures BitAt(Fold(3, seed, xs), k) <==> BitAt(seed, k) || exists x :: x in xs && BitAt(x, k)
    ensures BitAt(Fold(4, seed, xs), k) <==> BitAt(seed, k) != OddBits(xs, k)
  {
    hide BitAt, FoldStep;
    if xs != [] {
      var before, last := xs[..|xs| - 1], xs[|xs| - 1];
      FoldBits(seed, before, k);
      StepBits(Fold(2, seed, before), last, k);
      StepBits(Fold(3, seed, before), last, k);
      StepBits(Fold(4, seed, before), last, k);
      assert forall x :: x in xs <==> x in before || x == last;
    }
  }

  lemma StepBits(acc: Half, x: Half, k: nat)
    ensures BitAt(FoldStep(2, acc, x), k) <==> BitAt(acc, k) && BitAt(x, k)
    ensures BitAt(FoldStep(3, acc, x), k) <==> BitAt(acc, k) || BitAt(x, k)
    ensures BitAt(FoldStep(4, acc, x), k) <==> BitAt(acc, k) != BitAt(x, k)
  {
    hide BitAt, Bitwise;
    BitwiseBits(AndBits, acc, x, k);
    BitwiseBits(OrBits, acc, x, k);
    BitwiseBits(XorBits, acc, x, k);
  }
}

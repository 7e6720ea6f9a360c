/** The compiled vadd is correct for every length and every even vector width. */
module Vadd {
  import opened Words
  import opened Encode
  import opened Core
  import opened VaddSteps
  import Assembler
  import Compressed
  import DataMemory
  import VectorAlu
  import opened Stripmine

  // ---- Runs of the core ----------------------------------------------------

  /** k clock edges lead from s to t. */
  ghost predicate Reaches(s: State, t: State, imem: seq<Assembler.Short16>, lanes: nat, k: nat)
    requires |imem| > 0 && lanes < TWO64
    decreases k
  {
    Wf(s, lanes)
    && if k == 0 then s == t
       else Supported(Expanded(imem, s.pc)) && Reaches(NextState(s, imem, lanes), t, imem, lanes, k - 1)
  }

  lemma {:induction false} ReachesTrans(s: State, t: State, u: State, imem: seq<Assembler.Short16>, lanes: nat, j: nat, k: nat)
    requires |imem| > 0 && lanes < TWO64 && Reaches(s, t, imem, lanes, j) && Reaches(t, u, imem, lanes, k)
    ensures Reaches(s, u, imem, lanes, j + k)
    decreases j
  {
    hide Supported, Expanded, NextState, Wf;
    if j > 0 { ReachesTrans(NextState(s, imem, lanes), t, u, imem, lanes, j - 1, k); }
  }

  /** The function sits at `base` in the instruction memory. */
  ghost predicate Placed(imem: seq<Assembler.Short16>, base: Word) {
    |imem| > 0 && base + 52 <= TWO64
    && forall i :: 0 <= i < 13 ==> Assembler.Fetch(imem, base + 4 * i) == WORDS[i]
  }

  lemma FullWord(w: Half)
    requires w % 4 == 3
    ensures Compressed.Expand(w) == w
  {
  }

  lemma WordsAreFull(i: nat)
    requires i < 13
    ensures WORDS[i] % 4 == 3
  {
  }

  lemma FetchedWord(imem: seq<Assembler.Short16>, base: Word, i: nat, pc: Word)
    requires Placed(imem, base) && i < 13 && pc == base + 4 * i
    ensures Expanded(imem, pc) == WORDS[i] && Size(imem, pc) == 4
  {
    WordsAreFull(i);
    FullWord(WORDS[i]);
    hide Compressed.Expand, Assembler.Fetch, WORDS;
  }

  /** One instruction of the function, through fetch and expand. */
  lemma Clocked(s: State, t: State, imem: seq<Assembler.Short16>, base: Word, i: nat, lanes: nat)
    requires Placed(imem, base) && i < 13 && s.pc == base + 4 * i && Steps(s, i, t, lanes)
    ensures Reaches(s, t, imem, lanes, 1)
  {
    FetchedWord(imem, base, i, s.pc);
    hide StepWord, Supported, Expanded, Size, Wf;
    assert Reaches(t, t, imem, lanes, 0);
  }

  /** And after a run that got this far. */
  lemma Then(s: State, t: State, u: State, imem: seq<Assembler.Short16>, base: Word, i: nat, lanes: nat, k: nat)
    requires Placed(imem, base) && lanes < TWO64 && Reaches(s, t, imem, lanes, k)
    requires i < 13 && t.pc == base + 4 * i && Steps(t, i, u, lanes)
    ensures Reaches(s, u, imem, lanes, k + 1)
  {
    assert |imem| > 0;
    hide Steps, Placed, Reaches;
    Clocked(t, u, imem, base, i, lanes);
    ReachesTrans(s, t, u, imem, lanes, k, 1);
  }

  // ---- One group -----------------------------------------------------------

  /** The sequence of register writes of one loop iteration. */
  function GroupRegs(x: seq<Word>, m: Word): seq<Word>
    requires |x| == 32
  {
    var step := Times4(m);
    x[A5 := m][A4 := step][A3 := Minus(x[A3], m)][A1 := Plus(x[A1], step)][A2 := Plus(x[A2], step)]
     [A0 := Plus(x[A0], step)]
  }

  lemma StoredIsGroup(s: State, t: State, a: Word, b: Word, c: Word, lanes: nat)
    requires Wf(s, lanes) && Wf(t, lanes) && t.mem == s.mem && t.vl == s.vl
    requires s.v[2] == LoadResult(s, a, lanes) && s.v[1] == LoadResult(s, b, lanes) && t.v[1] == Added(s, lanes)
    ensures StoreData(t, 1, c, lanes) == GroupData(Binop(0), s.mem, c, b, a, s.vl, lanes)
  {
    hide DataMemory.VRead, VectorAlu.LaneOp;
    var d, g := StoreData(t, 1, c, lanes), GroupData(Binop(0), s.mem, c, b, a, s.vl, lanes);
    forall i | 0 <= i < lanes ensures d[i] == g[i] {
    }
  }

  lemma NoWrap(base: Word, i: nat, pc: Word)
    requires base + 52 <= TWO64 && i < 12 && pc == base + 4 * i
    ensures Wrap(pc + 4) == base + 4 * (i + 1)
    ensures i == 11 ==> Wrap(pc - 40) == base + 4
  {
  }

  /** vsetvli and the two loads. */
  lemma Loads(s: State, imem: seq<Assembler.Short16>, base: Word, lanes: nat) returns (t: State)
    requires Placed(imem, base) && Wf(s, lanes) && lanes < TWO64 && s.pc == base + 4
    ensures var m := if s.x[A3] > lanes then lanes else s.x[A3];
            && Reaches(s, t, imem, lanes, 3) && Wf(t, lanes) && t.pc == base + 16
            && t.x == s.x[A5 := m] && t.vl == m && t.mem == s.mem
            && t.v[2] == LoadResult(t, s.x[A1], lanes) && t.v[1] == LoadResult(t, s.x[A2], lanes)
  {
    var m: Word := if s.x[A3] > lanes then lanes else s.x[A3];
    var s1 := Set(s, s.pc + 4, A5, m).(vl := m);
    var s2 := At(s1, s1.pc + 4).(v := s1.v[2 := LoadResult(s1, s1.x[A1], lanes)]);
    t := At(s2, s2.pc + 4).(v := s2.v[1 := LoadResult(s2, s2.x[A2], lanes)]);
    NoWrap(base, 1, s.pc);
    NoWrap(base, 2, s1.pc);
    NoWrap(base, 3, s2.pc);
    assert |imem| > 0 && base + 52 <= TWO64 && Wf(s1, lanes) && Wf(s2, lanes) && Wf(t, lanes);
    SameLoad(s1, t, s.x[A1], lanes);
    SameLoad(s2, t, s.x[A2], lanes);
    hide Steps, Placed, Reaches, LoadResult, Wrap;
    Vsetvli(s, lanes);
    Clocked(s, s1, imem, base, 1, lanes);
    LoadA(s1, lanes);
    Then(s, s1, s2, imem, base, 2, lanes, 1);
    LoadB(s2, lanes);
    Then(s, s2, t, imem, base, 3, lanes, 2);
  }

  /** A load depends on vl and memory only. */
  lemma SameLoad(s: State, t: State, addr: Word, lanes: nat)
    requires Wf(s, lanes) && Wf(t, lanes) && s.vl == t.vl && s.mem == t.mem
    ensures LoadResult(s, addr, lanes) == LoadResult(t, addr, lanes)
  {
    hide DataMemory.VRead;
  }

  /** The scalar bookkeeping in the middle. */
  lemma Scalars(s: State, imem: seq<Assembler.Short16>, base: Word, lanes: nat) returns (t: State)
    requires Placed(imem, base) && Wf(s, lanes) && lanes < TWO64 && s.pc == base + 16
    ensures Reaches(s, t, imem, lanes, 4) && Wf(t, lanes) && t == s.(pc := base + 32, x := ScalarRegs(s.x))
  {
    var s1 := Set(s, s.pc + 4, A4, Times4(s.x[A5]));
    var s2 := Set(s1, s1.pc + 4, A3, Minus(s1.x[A3], s1.x[A5]));
    var s3 := Set(s2, s2.pc + 4, A1, Plus(s2.x[A1], s2.x[A4]));
    t := Set(s3, s3.pc + 4, A2, Plus(s3.x[A2], s3.x[A4]));
    NoWrap(base, 4, s.pc);
    NoWrap(base, 5, s1.pc);
    NoWrap(base, 6, s2.pc);
    NoWrap(base, 7, s3.pc);
    assert |imem| > 0;
    hide Steps, Placed, Reaches, Wrap, Plus, Minus, Times4;
    Slli(s, lanes);
    Clocked(s, s1, imem, base, 4, lanes);
    Sub(s1, lanes);
    Then(s, s1, s2, imem, base, 5, lanes, 1);
    Add(s2, 6, lanes);
    Then(s, s2, s3, imem, base, 6, lanes, 2);
    Add(s3, 7, lanes);
    Then(s, s3, t, imem, base, 7, lanes, 3);
  }

  /** The vector add and the merging store. */
  lemma Stores(s: State, imem: seq<Assembler.Short16>, base: Word, a: Word, b: Word, lanes: nat) returns (t: State)
    requires Placed(imem, base) && Wf(s, lanes) && lanes < TWO64 && s.pc == base + 32
    requires s.v[2] == LoadResult(s, a, lanes) && s.v[1] == LoadResult(s, b, lanes)
    ensures Reaches(s, t, imem, lanes, 2) && Wf(t, lanes)
    ensures t.pc == base + 40 && t.x == s.x && t.vl == s.vl
    ensures t.mem == GroupMem(Binop(0), s.mem, s.x[A0], b, a, s.vl, lanes)
  {
    var s1 := At(s, s.pc + 4).(v := s.v[1 := Added(s, lanes)]);
    t := At(s1, s1.pc + 4).(mem := DataMemory.VWrite(s1.mem, s1.x[A0], StoreData(s1, 1, s1.x[A0], lanes)));
    NoWrap(base, 8, s.pc);
    NoWrap(base, 9, s1.pc);
    assert |imem| > 0;
    StoredIsGroup(s, s1, a, b, s.x[A0], lanes);
    hide Steps, Placed, Reaches, Wrap, Added, StoreData, GroupData, DataMemory.VWrite, LoadResult;
    VaddVV(s, lanes);
    Clocked(s, s1, imem, base, 8, lanes);
    Vse(s1, lanes);
    Then(s, s1, t, imem, base, 9, lanes, 1);
  }

  /** The destination pointer and the branch back. */
  lemma LoopBack(s: State, imem: seq<Assembler.Short16>, base: Word, lanes: nat) returns (t: State)
    requires Placed(imem, base) && Wf(s, lanes) && lanes < TWO64 && s.pc == base + 40
    ensures Reaches(s, t, imem, lanes, 2) && Wf(t, lanes)
    ensures t == s.(pc := base + if s.x[A3] != 0 then 4 else 48, x := s.x[A0 := Plus(s.x[A0], s.x[A4])])
  {
    var s1 := Set(s, s.pc + 4, A0, Plus(s.x[A0], s.x[A4]));
    t := At(s1, s1.pc + if s1.x[A3] != 0 then -40 else 4);
    NoWrap(base, 10, s.pc);
    NoWrap(base, 11, s1.pc);
    assert |imem| > 0;
    hide Steps, Placed, Reaches, Wrap, Plus;
    Add(s, 10, lanes);
    Clocked(s, s1, imem, base, 10, lanes);
    Bnez(s1, lanes);
    Then(s, s1, t, imem, base, 11, lanes, 1);
  }

  function ScalarRegs(x: seq<Word>): seq<Word>
    requires |x| == 32
  {
    var step := Times4(x[A5]);
    x[A4 := step][A3 := Minus(x[A3], x[A5])][A1 := Plus(x[A1], step)][A2 := Plus(x[A2], step)]
  }

  /** The three parts write the registers as one iteration does. */
  lemma RegsCompose(x: seq<Word>, m: Word)
    requires |x| == 32
    ensures var y := ScalarRegs(x[A5 := m]);
            && y[A0 := Plus(y[A0], y[A4])] == GroupRegs(x, m) && y[A0] == x[A0] && y[A3] == GroupRegs(x, m)[A3]
            && x[A5 := m][A1] == x[A1] && x[A5 := m][A2] == x[A2]
  {
    hide Plus, Minus, Times4;
  }

  /** One trip round the loop. */
  lemma Iteration(s: State, imem: seq<Assembler.Short16>, base: Word, lanes: nat) returns (t: State)
    requires Placed(imem, base) && Wf(s, lanes) && lanes < TWO64 && s.pc == base + 4
    ensures var m := if s.x[A3] > lanes then lanes else s.x[A3];
            && Reaches(s, t, imem, lanes, 11) && Wf(t, lanes)
            && t.x == GroupRegs(s.x, m) && t.vl == m
            && t.pc == base + (if t.x[A3] != 0 then 4 else 48)
            && t.mem == GroupMem(Binop(0), s.mem, s.x[A0], s.x[A2], s.x[A1], m, lanes)
  {
    var m: Word := if s.x[A3] > lanes then lanes else s.x[A3];
    RegsCompose(s.x, m);
    var s1 := Loads(s, imem, base, lanes);
    var s2 := Scalars(s1, imem, base, lanes);
    SameLoad(s1, s2, s.x[A1], lanes);
    SameLoad(s1, s2, s.x[A2], lanes);
    assert |imem| > 0;
    hide Placed, Reaches, LoadResult, GroupMem, GroupRegs, ScalarRegs, Plus, Wf;
    var s3 := Stores(s2, imem, base, s.x[A1], s.x[A2], lanes);
    t := LoopBack(s3, imem, base, lanes);
    ReachesTrans(s, s1, s2, imem, lanes, 3, 4);
    ReachesTrans(s, s2, s3, imem, lanes, 7, 2);
    ReachesTrans(s, s3, t, imem, lanes, 9, 2);
  }
}

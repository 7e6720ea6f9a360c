/** c[i] = a[i] + b[i] for every n and every even vector width, and nothing
    else in memory changes. */
module VaddTheorem {
  import opened Words
  import opened Encode
  import opened Tags
  import opened Core
  import opened VaddSteps
  import opened Vadd
  import Assembler
  import DataMemory
  import opened Stripmine

  // ---- The loop ------------------------------------------------------------

  /** At the loop head with `done` elements finished. */
  ghost predicate AtHead(s: State, q: Call, base: Word, lanes: nat, done: nat)
    requires lanes > 0
  {
    && Wf(s, lanes) && s.pc == base + 4
    && done < q.n && done % lanes == 0
    && s.x[A3] == q.n - done
    && s.x[A0] == q.c + 4 * done && s.x[A2] == q.a + 4 * done && s.x[A1] == q.b + 4 * done
    && MemAfter(s.mem, q, done)
  }

  lemma HeadIsGroup(s: State, q: Call, base: Word, lanes: nat, done: nat)
    requires lanes > 0 && AtHead(s, q, base, lanes, done)
    ensures |s.x| == 32 && AtGroup(q, s.mem, lanes, done, s.x[A0], s.x[A2], s.x[A1])
  {
    hide MemAfter;
  }

  lemma RegistersAfter(s: State, q: Call, base: Word, lanes: nat, done: nat, m: Word, x: seq<Word>)
    requires lanes > 0 && CallOk(q, lanes) && AtHead(s, q, base, lanes, done)
    requires m <= lanes && done + m <= q.n && x == GroupRegs(s.x, m)
    ensures |x| == 32 && x[A3] == q.n - (done + m)
    ensures done + m < q.n && (done + m) % lanes == 0
        ==> x[A0] == q.c + 4 * (done + m) && x[A2] == q.a + 4 * (done + m) && x[A1] == q.b + 4 * (done + m)
  {
    hide Padded, MemAfter, Clear, Minus;
    CountDown(s.x[A3], m);
    if done + m < q.n && (done + m) % lanes == 0 {
      NextPointers(q, lanes, done, m);
      Advance(q.c, done, m, s.x[A0]);
      Advance(q.a, done, m, s.x[A2]);
      Advance(q.b, done, m, s.x[A1]);
    }
  }

  lemma CountDown(n: Word, m: Word)
    requires m <= n
    ensures Minus(n, m) == n - m
  {
  }

  // ---- The theorem ---------------------------------------------------------

  /** Registers outside the call's arguments and temporaries. */
  predicate Preserved(x: seq<Word>, y: seq<Word>) {
    |x| == 32 && |y| == 32 && forall r: nat :: r < 32 && !(A0 <= r <= A5) ==> y[r] == x[r]
  }

  lemma GroupPreserves(x: seq<Word>, m: Word)
    requires |x| == 32
    ensures Preserved(x, GroupRegs(x, m))
  {
    hide Plus, Minus, Times4;
  }

  function GroupLength(q: Call, lanes: nat, done: nat): Word
    requires done <= q.n < TWO63
  {
    if q.n - done > lanes then lanes else q.n - done
  }

  /** One trip round the loop finishes one group. */
  lemma OneTrip(s: State, q: Call, imem: seq<Assembler.Short16>, base: Word, lanes: nat, done: nat) returns (u: State)
    requires 0 < lanes < TWO64 && CallOk(q, lanes) && q.f == Binop(0) && Placed(imem, base) && AtHead(s, q, base, lanes, done)
    ensures |imem| > 0 && Reaches(s, u, imem, lanes, 11) && Wf(u, lanes) && Preserved(s.x, u.x)
    ensures var next := done + GroupLength(q, lanes, done);
            && done < next <= q.n && MemAfter(u.mem, q, next)
            && if next == q.n then u.pc == base + 48 else AtHead(u, q, base, lanes, next)
  {
    hide Reaches, Placed, MemAfter, GroupRegs, GroupMem, CallOk, Preserved, Wf;
    PlacedFacts(imem, base);
    CallBound(q, lanes);
    var m := GroupLength(q, lanes, done);
    Registers(s, lanes);
    u := Iteration(s, imem, base, lanes);
    HeadIsGroup(s, q, base, lanes, done);
    GroupMemAfter(q, s.mem, lanes, done, s.x[A0], s.x[A2], s.x[A1], m);
    NextMultiple(done, lanes);
    RegistersAfter(s, q, base, lanes, done, m, u.x);
    GroupPreserves(s.x, m);
  }

  lemma PlacedFacts(imem: seq<Assembler.Short16>, base: Word)
    requires Placed(imem, base)
    ensures |imem| > 0 && base + 52 <= TWO64
  {
  }

  lemma CallBound(q: Call, lanes: nat)
    requires lanes > 0 && CallOk(q, lanes)
    ensures q.n < TWO63
  {
  }

  lemma PreservedTrans(x: seq<Word>, y: seq<Word>, z: seq<Word>)
    requires Preserved(x, y) && Preserved(y, z)
    ensures Preserved(x, z)
  {
  }

  lemma PreservedReturn(x: seq<Word>, y: seq<Word>)
    requires |x| == 32
    ensures Preserved(x, x)
    ensures Preserved(x, y) ==> |y| == 32 && y[RA] == x[RA]
  {
  }

  lemma HeadBound(s: State, q: Call, base: Word, lanes: nat, done: nat)
    requires lanes > 0 && AtHead(s, q, base, lanes, done)
    ensures done < q.n
  {
  }

  lemma {:induction false} LoopRuns(s: State, q: Call, imem: seq<Assembler.Short16>, base: Word, lanes: nat, done: nat)
    returns (t: State, k: nat)
    requires 0 < lanes < TWO64 && CallOk(q, lanes) && q.f == Binop(0) && Placed(imem, base) && AtHead(s, q, base, lanes, done)
    ensures |imem| > 0 && Reaches(s, t, imem, lanes, k) && Wf(t, lanes) && t.pc == base + 48
    ensures MemAfter(t.mem, q, q.n) && Preserved(s.x, t.x)
    decreases q.n - done
  {
    hide Reaches, Placed, MemAfter, AtHead, CallOk, Wf, Preserved, GroupLength;
    HeadBound(s, q, base, lanes, done);
    CallBound(q, lanes);
    var u := OneTrip(s, q, imem, base, lanes, done);
    var next := done + GroupLength(q, lanes, done);
    if next == q.n {
      t, k := u, 11;
    } else {
      var rest: nat;
      t, rest := LoopRuns(u, q, imem, base, lanes, next);
      k := 11 + rest;
      ReachesTrans(s, u, t, imem, lanes, 11, rest);
      PreservedTrans(s.x, u.x, t.x);
    }
  }

  /** The call as the registers present it. */
  function CallOf(s: State): Call
    requires |s.x| == 32
  {
    Call(Binop(0), s.x[A0], s.x[A2], s.x[A1], if Signed(s.x[A3]) > 0 then s.x[A3] else 0, s.mem)
  }

  /** The compiled function returns to its caller after finitely many cycles,
      for every length and every even number of lanes; destination element i is
      the wrapped sum of the original source elements for every i below n; no
      other memory element and no register outside a0 to a5 has changed. */
  lemma VaddIsCorrect(s: State, imem: seq<Assembler.Short16>, base: Word, lanes: nat) returns (t: State, k: nat)
    requires 0 < lanes < TWO64 && Wf(s, lanes) && Placed(imem, base) && s.pc == base && CallOk(CallOf(s), lanes)
    ensures |imem| > 0 && Reaches(s, t, imem, lanes, k)
    ensures Wf(t, lanes) && t.pc == s.x[RA] / 2 * 2 && Preserved(s.x, t.x)
    ensures MemAfter(t.mem, CallOf(s), CallOf(s).n)
  {
    hide Reaches, Placed, MemAfter, CallOk, Wf, Steps, AtHead, Preserved, Signed, Entered;
    Registers(s, lanes);
    var q := CallOf(s);
    Enters(s, imem, base, lanes);
    var s1 := Entered(s, base);
    var u, n := s1, 0;
    PreservedReturn(s.x, s1.x);
    if Signed(s.x[A3]) > 0 {
      u, n := LoopRuns(s1, q, imem, base, lanes, 0);
      ReachesTrans(s, s1, u, imem, lanes, 1, n);
    }
    PreservedReturn(s.x, u.x);
    t := Returns(s, u, imem, base, lanes, n + 1);
    k := n + 2;
  }

  /** After the length test: into the loop, or past it. */
  function Entered(s: State, base: Word): State
    requires |s.x| == 32
  {
    At(s, base + if Signed(s.x[A3]) <= 0 then 48 else 4)
  }

  lemma Enters(s: State, imem: seq<Assembler.Short16>, base: Word, lanes: nat)
    requires 0 < lanes < TWO64 && Wf(s, lanes) && Placed(imem, base) && s.pc == base && CallOk(CallOf(s), lanes)
    ensures var t := Entered(s, base);
            && |imem| > 0 && Reaches(s, t, imem, lanes, 1) && Wf(t, lanes) && t.x == s.x
            && if Signed(s.x[A3]) > 0 then AtHead(t, CallOf(s), base, lanes, 0)
               else t.pc == base + 48 && MemAfter(t.mem, CallOf(s), CallOf(s).n)
  {
    hide Reaches, Placed, MemAfter, Steps, CallOk;
    PlacedFacts(imem, base);
    Untouched(s.mem, CallOf(s));
    Blez(s, lanes);
    Clocked(s, Entered(s, base), imem, base, 0, lanes);
  }

  lemma Returns(s: State, u: State, imem: seq<Assembler.Short16>, base: Word, lanes: nat, n: nat) returns (t: State)
    requires 0 < lanes < TWO64 && Placed(imem, base) && |imem| > 0 && Reaches(s, u, imem, lanes, n)
    requires Wf(u, lanes) && u.pc == base + 48
    ensures Reaches(s, t, imem, lanes, n + 1) && Wf(t, lanes) && t == At(u, u.x[RA] / 2 * 2)
  {
    hide Reaches, Placed, Steps;
    t := At(u, u.x[RA] / 2 * 2);
    PlacedFacts(imem, base);
    Ret(u, lanes);
    Then(s, u, t, imem, base, 12, lanes, n);
  }
}

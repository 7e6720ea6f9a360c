/** The control slave against a master with one write and one read in flight:
    one response each, one commit each, and load scripts build their image. */
module AxiRun {
  import opened Words
  import opened Axi
  import Tags

  datatype Write = Write(addr: Addr, data: Half)

  /** The master's write side: it raises address and data in its own time,
      holds both until accepted, then waits for the response. */
  datatype WriteMaster = Free | Sending(wr: Write, aw: bool, w: bool) | Waiting

  /** Its read side. */
  datatype ReadMaster = RFree | RSending(addr: Addr) | RWaiting

  /** The choices the environment makes in one cycle. */
  datatype Choice = Choice(start: Option<Write>, raiseAw: bool, raiseW: bool, bready: bool,
                           startRead: Option<Addr>, rready: bool, idle: Write, threads: Threads)

  /** Memories behind the write ports: four instruction images and the data. */
  datatype Image = Image(imem: seq<seq<nat>>, dmem: seq<Word>)

  predicate ImageOk(m: Image, z: Sizes) {
    |m.imem| == 4 && |m.dmem| == z.dmem && forall t :: 0 <= t < 4 ==> |m.imem[t]| == z.imem
  }

  /** The world, and the ghost record of its transactions. */
  datatype World = World(s: Slave, wm: WriteMaster, rm: ReadMaster, image: Image,
                         committed: seq<Write>, issued: seq<Write>, answered: nat,
                         readsIssued: seq<Addr>, readsAnswered: seq<Half>)

  // ---- One cycle -----------------------------------------------------------

  /** What the master drives this cycle, given what it decides to raise. */
  function Driven(wm: WriteMaster, ch: Choice): WriteMaster {
    match wm
    case Free => if ch.start.Some? then Sending(ch.start.value, ch.raiseAw, ch.raiseW) else Free
    case Sending(wr, aw, w) => Sending(wr, aw || ch.raiseAw, w || ch.raiseW)
    case Waiting => Waiting
  }

  function DrivenRead(rm: ReadMaster, ch: Choice): ReadMaster {
    if rm.RFree? && ch.startRead.Some? then RSending(ch.startRead.value) else rm
  }

  function BusOf(wm: WriteMaster, rm: ReadMaster, ch: Choice): Bus {
    var wr := if wm.Sending? then wm.wr else ch.idle;
    Bus(wr.addr, wm.Sending? && wm.aw, wr.data, wm.Sending? && wm.w, ch.bready,
        if rm.RSending? then rm.addr else 0, rm.RSending?, ch.rready)
  }

  function SetHalf(image: seq<nat>, i: nat, h: nat): (r: seq<nat>)
    requires i < |image|
    ensures |r| == |image|
  {
    image[i := h]
  }

  function ApplyPulse(m: Image, p: Option<Pulse>, z: Sizes): (n: Image)
    requires ImageOk(m, z)
    ensures ImageOk(n, z)
  {
    match p
    case None => m
    case Some(Imem(t, i, h)) => if t < 4 && i < z.imem then m.(imem := m.imem[t := SetHalf(m.imem[t], i, h)]) else m
    case Some(Dmem(i, w)) => if i < z.dmem then m.(dmem := m.dmem[i := w]) else m
  }

  predicate WorldOk(g: World, z: Sizes) {
    SizesOk(z) && |g.s.latched| == 4 && ImageOk(g.image, z)
  }

  predicate ChoiceOk(ch: Choice) {
    |ch.threads.halt| == 4 && |ch.threads.pc| == 4
  }

  /** The write side after the edge: accepted writes wait, answered ones end. */
  function AfterWrite(wm: WriteMaster, enable: bool, bvalid: bool, bready: bool): WriteMaster {
    if wm.Sending? && enable then Waiting else if wm.Waiting? && bvalid && bready then Free else wm
  }

  function AfterRead(rm: ReadMaster, enable: bool, rvalid: bool, rready: bool): ReadMaster {
    if rm.RSending? && enable then RWaiting else if rm.RWaiting? && rvalid && rready then RFree else rm
  }

  function Cycle(g: World, ch: Choice, z: Sizes): (n: World)
    requires WorldOk(g, z) && ChoiceOk(ch)
    ensures WorldOk(n, z)
  {
    var wm, rm := Driven(g.wm, ch), DrivenRead(g.rm, ch);
    var bus := BusOf(wm, rm, ch);
    var enable, renable := WriteEnable(g.s.w, bus), ReadEnable(g.s.r, bus);
    World(Axi.Step(g.s, bus, ch.threads, z),
          AfterWrite(wm, enable, g.s.w.bvalid, ch.bready),
          AfterRead(rm, renable, g.s.r.rvalid, ch.rready),
          ApplyPulse(g.image, g.s.c.pulse, z),
          if enable then g.committed + [Write(g.s.w.awaddr, bus.wdata)] else g.committed,
          if g.wm.Free? && wm.Sending? then g.issued + [wm.wr] else g.issued,
          if g.s.w.bvalid && ch.bready then g.answered + 1 else g.answered,
          if g.rm.RFree? && rm.RSending? then g.readsIssued + [rm.addr] else g.readsIssued,
          if g.s.r.rvalid && ch.rready then g.readsAnswered + [g.s.r.rdata] else g.readsAnswered)
  }

  // ---- The protocol invariant ----------------------------------------------

  /** Commits and answers against what was issued, by the master's state. */
  predicate WriteInv(g: World) {
    var w := g.s.w;
    && w.awready == w.wready
    && match g.wm
       case Free => !w.awready && !w.bvalid && g.committed == g.issued && g.answered == |g.issued|
       case Sending(wr, aw, wv) =>
         && !w.bvalid && g.issued == g.committed + [wr] && g.answered == |g.committed|
         && (w.awready ==> aw && wv && w.awaddr == wr.addr)
       case Waiting => !w.awready && w.bvalid && g.committed == g.issued && g.answered + 1 == |g.issued|
  }

  predicate ReadInv(g: World) {
    var r := g.s.r;
    match g.rm
    case RFree => !r.arready && !r.rvalid && |g.readsAnswered| == |g.readsIssued|
    case RSending(a) =>
      && !r.rvalid && |g.readsAnswered| + 1 == |g.readsIssued| && g.readsIssued[|g.readsIssued| - 1] == a
      && (r.arready ==> r.araddr == a)
    case RWaiting => !r.arready && r.rvalid && |g.readsAnswered| + 1 == |g.readsIssued|
  }

  lemma WriteStep(g: World, ch: Choice, z: Sizes)
    requires WorldOk(g, z) && ChoiceOk(ch) && WriteInv(g)
    ensures WriteInv(Cycle(g, ch, z))
  {
    hide Commit, ReadMux, ApplyPulse, NextRead, NextLatch;
  }

  lemma ReadStep(g: World, ch: Choice, z: Sizes)
    requires WorldOk(g, z) && ChoiceOk(ch) && ReadInv(g)
    ensures ReadInv(Cycle(g, ch, z))
  {
    hide Commit, ReadMux, ApplyPulse, NextWrite, NextLatch, NextCore;
  }

  /** The data a read is answered with is its own address's register, as it
      stood in the cycle the read was accepted. */
  lemma ReadReturnsRegister(g: World, ch: Choice, z: Sizes)
    requires WorldOk(g, z) && ChoiceOk(ch) && ReadInv(g)
    ensures !g.rm.RWaiting? && Cycle(g, ch, z).rm.RWaiting?
        ==> g.rm.RSending? && Cycle(g, ch, z).s.r.rdata == ReadMux(g.s, ch.threads, g.rm.addr)
    ensures g.s.r.rvalid && ch.rready ==> Cycle(g, ch, z).readsAnswered == g.readsAnswered + [g.s.r.rdata]
    ensures g.s.r.rvalid && !ch.rready ==> Cycle(g, ch, z).s.r.rdata == g.s.r.rdata
  {
    hide Commit, ReadMux, ApplyPulse, NextWrite, NextLatch, NextCore;
  }

  // ---- Runs ----------------------------------------------------------------

  /** The world after the chosen cycles. */
  function After(g: World, choices: seq<Choice>, z: Sizes): (n: World)
    requires WorldOk(g, z) && forall ch :: ch in choices ==> ChoiceOk(ch)
    ensures WorldOk(n, z)
  {
    if choices == [] then g else Cycle(After(g, choices[..|choices| - 1], z), choices[|choices| - 1], z)
  }

  /** Out of bus reset: nothing in flight, nothing recorded. */
  predicate Initial(g: World, z: Sizes) {
    && WorldOk(g, z) && g.s == Reset(g.s) && g.wm == Free && g.rm == RFree
    && g.committed == [] && g.issued == [] && g.answered == 0 && g.readsIssued == [] && g.readsAnswered == []
  }

  /** Over every run each issued write is committed once, in order, with its own
      address and data, and answered once; likewise for reads. At any time at
      most the write and the read in flight are still owed. */
  lemma {:induction false} ProtocolHolds(g: World, choices: seq<Choice>, z: Sizes)
    requires Initial(g, z) && forall ch :: ch in choices ==> ChoiceOk(ch)
    ensures WriteInv(After(g, choices, z)) && ReadInv(After(g, choices, z))
  {
    if choices != [] {
      hide WriteInv, ReadInv, Cycle, Initial;
      var last := |choices| - 1;
      ProtocolHolds(g, choices[..last], z);
      WriteStep(After(g, choices[..last], z), choices[last], z);
      ReadStep(After(g, choices[..last], z), choices[last], z);
    }
  }

  /** When the master is idle, everything issued was committed and answered. */
  lemma IdleMeansAllAnswered(g: World, choices: seq<Choice>, z: Sizes)
    requires Initial(g, z) && forall ch :: ch in choices ==> ChoiceOk(ch)
    ensures var n := After(g, choices, z);
            && (n.wm.Free? ==> n.committed == n.issued && n.answered == |n.issued|)
            && (n.rm.RFree? ==> |n.readsAnswered| == |n.readsIssued|)
  {
    hide After, Initial;
    ProtocolHolds(g, choices, z);
  }

  /** A write whose address and data are both up is committed within two
      cycles, and a response that is accepted frees the master at once. */
  lemma WriteProgress(g: World, ch1: Choice, ch2: Choice, z: Sizes)
    requires WorldOk(g, z) && ChoiceOk(ch1) && ChoiceOk(ch2) && WriteInv(g)
    ensures g.wm.Sending? && g.wm.aw && g.wm.w
        ==> Cycle(g, ch1, z).wm.Waiting? || Cycle(Cycle(g, ch1, z), ch2, z).wm.Waiting?
    ensures g.wm.Waiting? && ch1.bready ==> Cycle(g, ch1, z).wm.Free?
  {
    hide Commit, ReadMux, ApplyPulse, NextRead, NextLatch;
  }

  // ---- What the writes do --------------------------------------------------

  /** The core-facing state with any pending pulse already delivered. */
  datatype Loaded = Loaded(coreReset: bool, staging: Half, image: Image)

  function Delivered(g: World, z: Sizes): Loaded
    requires WorldOk(g, z)
  {
    Loaded(g.s.c.coreReset, g.s.c.staging, ApplyPulse(g.image, g.s.c.pulse, z))
  }

  function Effect(l: Loaded, wr: Write, z: Sizes): (n: Loaded)
    requires SizesOk(z) && ImageOk(l.image, z)
    ensures ImageOk(n.image, z)
  {
    var c := Commit(CoreRegs(l.coreReset, l.staging, None), wr.addr, wr.data, z);
    Loaded(c.coreReset, c.staging, ApplyPulse(l.image, c.pulse, z))
  }

  function Effects(l: Loaded, writes: seq<Write>, z: Sizes): (n: Loaded)
    requires SizesOk(z) && ImageOk(l.image, z)
    ensures ImageOk(n.image, z)
  {
    if writes == [] then l else Effect(Effects(l, writes[..|writes| - 1], z), writes[|writes| - 1], z)
  }

  lemma CommitIgnoresPulse(c: CoreRegs, addr: Addr, data: Half, z: Sizes)
    requires SizesOk(z)
    ensures Commit(c, addr, data, z) == Commit(c.(pulse := None), addr, data, z)
  {
  }

  lemma EffectStep(g: World, ch: Choice, z: Sizes)
    requires WorldOk(g, z) && ChoiceOk(ch)
    ensures var n := Cycle(g, ch, z);
            if n.committed == g.committed then Delivered(n, z) == Delivered(g, z)
            else |n.committed| > 0 && n.committed[..|n.committed| - 1] == g.committed
                 && Delivered(n, z) == Effect(Delivered(g, z), n.committed[|n.committed| - 1], z)
  {
    hide Commit, ReadMux, ApplyPulse, NextRead, NextWrite, NextLatch;
    var bus := BusOf(Driven(g.wm, ch), DrivenRead(g.rm, ch), ch);
    CommitIgnoresPulse(g.s.c, g.s.w.awaddr, bus.wdata, z);
    NoPulse(ApplyPulse(g.image, g.s.c.pulse, z), z);
  }

  lemma NoPulse(m: Image, z: Sizes)
    requires ImageOk(m, z)
    ensures ApplyPulse(m, None, z) == m
  {
  }

  lemma {:induction false} DeliveredIsEffects(g: World, choices: seq<Choice>, z: Sizes)
    requires Initial(g, z) && forall ch :: ch in choices ==> ChoiceOk(ch)
    ensures Delivered(After(g, choices, z), z) == Effects(Delivered(g, z), After(g, choices, z).committed, z)
  {
    if choices != [] {
      hide Cycle, Effect, Delivered, Initial;
      var last := |choices| - 1;
      DeliveredIsEffects(g, choices[..last], z);
      EffectStep(After(g, choices[..last], z), choices[last], z);
    } else {
      hide Effect, Delivered;
    }
  }

  // ---- Load scripts --------------------------------------------------------

  /** An instruction halfword for a thread, or a data doubleword. */
  datatype LoadItem = HalfItem(thread: nat, index: nat, half: nat) | WordItem(index: nat, word: Word)

  predicate ItemOk(i: LoadItem, z: Sizes) {
    match i
    case HalfItem(t, k, h) => t < 4 && k < z.imem && h < 0x1_0000
    case WordItem(k, _) => k < z.dmem
  }

  /** The bus writes of one item: a doubleword goes low half first. */
  function ItemWrites(i: LoadItem, z: Sizes): seq<Write>
    requires SizesOk(z) && ItemOk(i, z)
  {
    match i
    case HalfItem(t, k, h) => [Write(0x1_0000 * (t + 1) + 4 * k, h)]
    case WordItem(k, w) => [Write(0x5_0000 + 8 * k, w % TWO32), Write(0x5_0000 + 8 * k + 4, w / TWO32)]
  }

  function ScriptWrites(script: seq<LoadItem>, z: Sizes): seq<Write>
    requires SizesOk(z) && forall i :: i in script ==> ItemOk(i, z)
  {
    if script == [] then []
    else ScriptWrites(script[..|script| - 1], z) + ItemWrites(script[|script| - 1], z)
  }

  /** The intended effect of an item on the images. */
  function Place(m: Image, i: LoadItem, z: Sizes): (n: Image)
    requires ImageOk(m, z) && ItemOk(i, z)
    ensures ImageOk(n, z)
  {
    match i
    case HalfItem(t, k, h) => m.(imem := m.imem[t := SetHalf(m.imem[t], k, h)])
    case WordItem(k, w) => m.(dmem := m.dmem[k := w])
  }

  function PlaceAll(m: Image, script: seq<LoadItem>, z: Sizes): (n: Image)
    requires ImageOk(m, z) && SizesOk(z) && forall i :: i in script ==> ItemOk(i, z)
    ensures ImageOk(n, z)
  {
    if script == [] then m else Place(PlaceAll(m, script[..|script| - 1], z), script[|script| - 1], z)
  }

  lemma {:induction false} EffectsAppend(l: Loaded, a: seq<Write>, b: seq<Write>, z: Sizes)
    requires SizesOk(z) && ImageOk(l.image, z)
    ensures Effects(l, a + b, z) == Effects(Effects(l, a, z), b, z)
    decreases |b|
  {
    if b == [] {
      assert a + b == a;
    } else {
      hide Effect;
      EffectsAppend(l, a, b[..|b| - 1], z);
      assert (a + b)[..|a + b| - 1] == a + b[..|b| - 1];
    }
  }

  lemma HalfDecodes(t: nat, k: nat, h: nat, l: Loaded, z: Sizes)
    requires SizesOk(z) && ImageOk(l.image, z) && t < 4 && k < z.imem && h < 0x1_0000
    ensures 0x1_0000 * (t + 1) + 4 * k < 0x10_0000
    ensures var n := Effect(l, Write(0x1_0000 * (t + 1) + 4 * k, h), z);
            n == l.(image := Place(l.image, HalfItem(t, k, h), z))
  {
    var addr := 0x1_0000 * (t + 1) + 4 * k;
    assert addr / 0x1_0000 == t + 1 && addr != CONTROL;
    assert addr / 4 == (t + 1) * 0x4000 + k;
    IndexOf(t + 1, 0x4000, k, z.imem);
  }

  /** The window number drops out of the index. */
  lemma IndexOf(window: nat, size: nat, k: nat, n: nat)
    requires n > 0 && size % n == 0 && k < n
    ensures (window * size + k) % n == k
  {
    var q := size / n;
    assert size == q * n;
    assert window * size == (window * q) * n;
    Tags.ModUnique(window * size + k, window * q, k, n);
  }

  lemma LowDecodes(k: nat, data: Half, l: Loaded, z: Sizes)
    requires SizesOk(z) && ImageOk(l.image, z) && k < z.dmem
    ensures 0x5_0000 + 8 * k + 4 < 0x10_0000
    ensures Effect(l, Write(0x5_0000 + 8 * k, data), z) == l.(staging := data)
  {
    AtMost(z.dmem, 0x2000);
    var addr := 0x5_0000 + 8 * k;
    assert addr / 0x1_0000 == 5 && addr / 4 % 2 == 0;
  }

  lemma AtMost(n: nat, size: nat)
    requires 0 < n && 0 < size && size % n == 0
    ensures n <= size
  {
  }

  lemma HighDecodes(k: nat, data: Half, l: Loaded, z: Sizes)
    requires SizesOk(z) && ImageOk(l.image, z) && k < z.dmem
    ensures 0x5_0000 + 8 * k + 4 < 0x10_0000
    ensures var low: int, high: int := l.staging, data;
            Effect(l, Write(0x5_0000 + 8 * k + 4, data), z) == l.(image := Place(l.image, WordItem(k, high * TWO32 + low), z))
  {
    AtMost(z.dmem, 0x2000);
    var addr := 0x5_0000 + 8 * k + 4;
    assert addr / 0x1_0000 == 5 && addr / 4 % 2 == 1 && addr / 8 == 5 * 0x2000 + k;
    IndexOf(5, 0x2000, k, z.dmem);
  }

  /** The writes of one item have exactly its effect. */
  lemma ItemLoads(l: Loaded, i: LoadItem, z: Sizes)
    requires SizesOk(z) && ImageOk(l.image, z) && ItemOk(i, z)
    ensures var n := Effects(l, ItemWrites(i, z), z);
            n.image == Place(l.image, i, z) && n.coreReset == l.coreReset
  {
    hide Effect, Place;
    match i
    case HalfItem(t, k, h) =>
      HalfDecodes(t, k, h, l, z);
      OneEffect(l, ItemWrites(i, z)[0], z);
    case WordItem(k, w) =>
      var a, b := Write(0x5_0000 + 8 * k, w % TWO32), Write(0x5_0000 + 8 * k + 4, w / TWO32);
      LowDecodes(k, w % TWO32, l, z);
      OneEffect(l, a, z);
      HighDecodes(k, w / TWO32, l.(staging := w % TWO32), z);
      assert [a, b][..1] == [a];
      assert w / TWO32 * TWO32 + w % TWO32 == w;
  }

  lemma OneEffect(l: Loaded, wr: Write, z: Sizes)
    requires SizesOk(z) && ImageOk(l.image, z)
    ensures Effects(l, [wr], z) == Effect(l, wr, z)
  {
    assert [wr][..0] == [];
  }

  lemma {:induction false} ScriptLoads(l: Loaded, script: seq<LoadItem>, z: Sizes)
    requires SizesOk(z) && ImageOk(l.image, z) && forall i :: i in script ==> ItemOk(i, z)
    ensures var n := Effects(l, ScriptWrites(script, z), z);
            n.image == PlaceAll(l.image, script, z) && n.coreReset == l.coreReset
  {
    if script != [] {
      hide Effect, Place, ItemWrites, ItemOk;
      var last := |script| - 1;
      ScriptLoads(l, script[..last], z);
      EffectsAppend(l, ScriptWrites(script[..last], z), ItemWrites(script[last], z), z);
      ItemLoads(Effects(l, ScriptWrites(script[..last], z), z), script[last], z);
    }
  }

  /** Any run in which the master has issued exactly a low-then-high script and
      is idle again has built exactly the intended images, with the cores still
      held in reset, however the handshakes were stretched and whatever reads
      went on meanwhile. */
  lemma ScriptBuildsImage(g: World, choices: seq<Choice>, script: seq<LoadItem>, z: Sizes)
    requires Initial(g, z) && (forall ch :: ch in choices ==> ChoiceOk(ch)) && forall i :: i in script ==> ItemOk(i, z)
    requires After(g, choices, z).wm.Free? && After(g, choices, z).issued == ScriptWrites(script, z)
    ensures var n := Delivered(After(g, choices, z), z);
            n.image == PlaceAll(g.image, script, z) && n.coreReset
  {
    hide After, Effects, Effect, PlaceAll, ScriptWrites, ItemOk;
    IdleMeansAllAnswered(g, choices, z);
    DeliveredIsEffects(g, choices, z);
    NoPulse(g.image, z);
    ScriptLoads(Delivered(g, z), script, z);
  }

  // ---- Sticky halts --------------------------------------------------------

  /** Thread `t` halted in some cycle m, and the cores were out of reset in
      that cycle and every one since. */
  ghost predicate HaltedSince(g: World, choices: seq<Choice>, z: Sizes, t: nat, m: nat)
    requires WorldOk(g, z) && (forall ch :: ch in choices ==> ChoiceOk(ch)) && t < 4
  {
    && m < |choices| && ChoiceOk(choices[m]) && choices[m].threads.halt[t]
    && forall k: nat :: m <= k < |choices| ==> !InReset(g, choices, z, k)
  }

  /** The cores are in reset in cycle k. */
  predicate InReset(g: World, choices: seq<Choice>, z: Sizes, k: nat)
    requires WorldOk(g, z) && (forall ch :: ch in choices ==> ChoiceOk(ch)) && k <= |choices|
  {
    After(g, choices[..k], z).s.c.coreReset
  }

  lemma InResetPrefix(g: World, choices: seq<Choice>, z: Sizes, k: nat, n: nat)
    requires WorldOk(g, z) && (forall ch :: ch in choices ==> ChoiceOk(ch)) && k <= n <= |choices|
    ensures InReset(g, choices[..n], z, k) == InReset(g, choices, z, k)
  {
    hide After;
    assert choices[..n][..k] == choices[..k];
  }

  /** A status bit reads one exactly when its thread has halted since the cores
      were last in reset: no pulse is missed and none outlives a reset. */
  lemma {:induction false} LatchIff(g: World, choices: seq<Choice>, z: Sizes, t: nat)
    requires Initial(g, z) && (forall ch :: ch in choices ==> ChoiceOk(ch)) && t < 4
    ensures After(g, choices, z).s.latched[t] <==> exists m: nat :: HaltedSince(g, choices, z, t, m)
  {
    if choices != [] {
      hide Cycle, ChoiceOk;
      var last := |choices| - 1;
      var before := After(g, choices[..last], z);
      LatchIff(g, choices[..last], z, t);
      LatchStep(before, choices[last], z, t);
      assert InReset(g, choices, z, last) == before.s.c.coreReset;
      forall m: nat | m < last
        ensures HaltedSince(g, choices, z, t, m) <==> HaltedSince(g, choices[..last], z, t, m) && !InReset(g, choices, z, last)
      {
        Extend(g, choices, z, t, m);
      }
      NewHalt(g, choices, z, t);
    }
  }

  lemma NewHalt(g: World, choices: seq<Choice>, z: Sizes, t: nat)
    requires WorldOk(g, z) && (forall ch :: ch in choices ==> ChoiceOk(ch)) && t < 4 && choices != []
    ensures ChoiceOk(choices[|choices| - 1])
    ensures HaltedSince(g, choices, z, t, |choices| - 1)
            <==> choices[|choices| - 1].threads.halt[t] && !InReset(g, choices, z, |choices| - 1)
  {
    hide InReset;
  }

  lemma LatchStep(g: World, ch: Choice, z: Sizes, t: nat)
    requires WorldOk(g, z) && ChoiceOk(ch) && t < 4
    ensures Cycle(g, ch, z).s.latched[t] == (!g.s.c.coreReset && (g.s.latched[t] || ch.threads.halt[t]))
  {
  }

  lemma Extend(g: World, choices: seq<Choice>, z: Sizes, t: nat, m: nat)
    requires WorldOk(g, z) && (forall ch :: ch in choices ==> ChoiceOk(ch)) && t < 4 && m < |choices| - 1
    ensures HaltedSince(g, choices, z, t, m)
            <==> HaltedSince(g, choices[..|choices| - 1], z, t, m) && !InReset(g, choices, z, |choices| - 1)
  {
    hide InReset, ChoiceOk;
    var last := |choices| - 1;
    forall k: nat | k <= last ensures InReset(g, choices[..last], z, k) == InReset(g, choices, z, k) {
      InResetPrefix(g, choices, z, k, last);
    }
  }

  /** What software reads: in any run, bit t of a status read says exactly
      whether thread t has halted, and two reads make up its pc. */
  lemma StatusReportsHalts(g: World, choices: seq<Choice>, z: Sizes, now: Threads, t: nat)
    requires Initial(g, z) && (forall ch :: ch in choices ==> ChoiceOk(ch)) && t < 4
    requires |now.pc| == 4
    ensures var s := After(g, choices, z).s;
            && (ReadMux(s, now, STATUS) / Pow2(t) % 2 == 1 <==> exists m: nat :: HaltedSince(g, choices, z, t, m))
            && ReadMux(s, now, STATUS) < 16
            && ReadMux(s, now, 8 + 8 * t) + ReadMux(s, now, 12 + 8 * t) * TWO32 == now.pc[t]
  {
    LatchIff(g, choices, z, t);
    hide After, ReadMux, HaltedSince;
    StatusBit(After(g, choices, z).s, now, t);
    PcHalves(After(g, choices, z).s, now, t);
  }

  lemma StatusBit(s: Slave, now: Threads, t: nat)
    requires |s.latched| == 4 && |now.pc| == 4 && t < 4
    ensures ReadMux(s, now, STATUS) / Pow2(t) % 2 == 1 <==> s.latched[t]
    ensures ReadMux(s, now, STATUS) < 16
  {
    FourFlags(s.latched[0], s.latched[1], s.latched[2], s.latched[3]);
    assert Pow2(0) == 1 && Pow2(1) == 2 && Pow2(2) == 4 && Pow2(3) == 8;
  }

  lemma FourFlags(a: bool, b: bool, c: bool, d: bool)
    ensures var x := Flag(d, 8) + Flag(c, 4) + Flag(b, 2) + Flag(a, 1);
            x % 2 == Flag(a, 1) && x / 2 % 2 == Flag(b, 1) && x / 4 % 2 == Flag(c, 1) && x / 8 % 2 == Flag(d, 1)
  {
  }

  lemma PcHalves(s: Slave, now: Threads, t: nat)
    requires |s.latched| == 4 && |now.pc| == 4 && t < 4
    ensures ReadMux(s, now, 8 + 8 * t) + ReadMux(s, now, 12 + 8 * t) * TWO32 == now.pc[t]
  {
    assert (8 + 8 * t - 8) / 8 == t && (12 + 8 * t - 8) / 8 == t;
  }

  /** A read that is up is accepted within two cycles, and an answer that is
      taken frees the master at once. */
  lemma ReadProgress(g: World, ch1: Choice, ch2: Choice, z: Sizes)
    requires WorldOk(g, z) && ChoiceOk(ch1) && ChoiceOk(ch2) && ReadInv(g)
    ensures g.rm.RSending? ==> Cycle(g, ch1, z).rm.RWaiting? || Cycle(Cycle(g, ch1, z), ch2, z).rm.RWaiting?
    ensures g.rm.RWaiting? && ch1.rready ==> Cycle(g, ch1, z).rm.RFree?
  {
    hide Commit, ReadMux, ApplyPulse, NextWrite, NextLatch, NextCore;
  }

  // ---- The control register ------------------------------------------------

  /** Bit 0 of the last word written to the control register; set at reset. */
  function LastControl(writes: seq<Write>): bool {
    if writes == [] then true
    else
      var last := writes[|writes| - 1];
      if last.addr == CONTROL then last.data % 2 == 1 else LastControl(writes[..|writes| - 1])
  }

  lemma {:induction false} EffectsControl(l: Loaded, writes: seq<Write>, z: Sizes)
    requires SizesOk(z) && ImageOk(l.image, z) && l.coreReset
    ensures Effects(l, writes, z).coreReset == LastControl(writes)
  {
    if writes != [] {
      hide ApplyPulse;
      EffectsControl(l, writes[..|writes| - 1], z);
    }
  }

  /** In any run the cores are held in reset exactly while the last control
      write said so, and a read of the control register returns that bit. */
  lemma ControlHolds(g: World, choices: seq<Choice>, z: Sizes, now: Threads)
    requires Initial(g, z) && (forall ch :: ch in choices ==> ChoiceOk(ch)) && |now.pc| == 4
    ensures var n := After(g, choices, z);
            && n.s.c.coreReset == LastControl(n.committed)
            && ReadMux(n.s, now, CONTROL) == if LastControl(n.committed) then 1 else 0
  {
    DeliveredIsEffects(g, choices, z);
    hide After, Effects, LastControl;
    EffectsControl(Delivered(g, z), After(g, choices, z).committed, z);
  }

  /** A write that is neither to the control register nor to a memory window
      changes nothing; a read that is of no register returns zero. */
  lemma UnmappedIsInert(l: Loaded, wr: Write, s: Slave, now: Threads, z: Sizes)
    requires SizesOk(z) && ImageOk(l.image, z) && |s.latched| == 4 && |now.pc| == 4
    ensures wr.addr != CONTROL && (wr.addr < 0x1_0000 || wr.addr >= 0x6_0000) ==> Effect(l, wr, z) == l
    ensures wr.addr >= 0x28 || wr.addr % 4 != 0 ==> ReadMux(s, now, wr.addr) == 0
  {
  }
}

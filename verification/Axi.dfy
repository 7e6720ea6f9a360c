/** The AXI4-Lite control slave, one clock edge at a time. */
module Axi {
  import opened Words

  type Addr = x: int | 0 <= x < 0x10_0000

  const CONTROL: Addr := 0
  const STATUS: Addr := 4

  /** What the bus master drives. */
  datatype Bus = Bus(awaddr: Addr, awvalid: bool, wdata: Half, wvalid: bool, bready: bool,
                     araddr: Addr, arvalid: bool, rready: bool)

  /** What the four hardware threads report, thread 0 of core 0 first. */
  datatype Threads = Threads(halt: seq<bool>, pc: seq<Word>)

  /** A one-shot write on a memory's own port. */
  datatype Pulse = Imem(thread: nat, index: nat, half: nat) | Dmem(index: nat, word: Word)

  datatype WriteRegs = WriteRegs(awready: bool, awaddr: Addr, wready: bool, bvalid: bool)

  datatype ReadRegs = ReadRegs(arready: bool, araddr: Addr, rvalid: bool, rdata: Half)

  /** The registers facing the cores; at most one write enable is up, so the
      five ports are one optional pulse. */
  datatype CoreRegs = CoreRegs(coreReset: bool, staging: Half, pulse: Option<Pulse>)

  datatype Slave = Slave(w: WriteRegs, r: ReadRegs, c: CoreRegs, latched: seq<bool>)

  /** Memory sizes: powers of two that fit their address windows. */
  datatype Sizes = Sizes(imem: nat, dmem: nat)

  predicate SizesOk(z: Sizes) {
    0 < z.imem && 0x4000 % z.imem == 0 && 0 < z.dmem && 0x2000 % z.dmem == 0
  }

  predicate WriteEnable(w: WriteRegs, b: Bus) {
    w.awready && b.awvalid && w.wready && b.wvalid
  }

  function NextWrite(w: WriteRegs, b: Bus): WriteRegs {
    var take := !w.awready && b.awvalid && b.wvalid;
    WriteRegs(take, if take then b.awaddr else w.awaddr,
              !w.wready && b.wvalid && b.awvalid,
              if WriteEnable(w, b) && !w.bvalid then true else if b.bready && w.bvalid then false else w.bvalid)
  }

  /** The memory window an address falls in, if any. */
  function Commit(c: CoreRegs, addr: Addr, data: Half, z: Sizes): CoreRegs
    requires SizesOk(z)
  {
    var window := addr / 0x1_0000;
    if addr == CONTROL then CoreRegs(data % 2 == 1, c.staging, None)
    else if 1 <= window <= 4 then c.(pulse := Some(Imem(window - 1, addr / 4 % z.imem, data % 0x1_0000)))
    else if window == 5 then
      if addr / 4 % 2 == 0 then c.(staging := data, pulse := None)
      else
        var low: int, high: int := c.staging, data;
        c.(pulse := Some(Dmem(addr / 8 % z.dmem, high * TWO32 + low)))
    else c.(pulse := None)
  }

  function NextCore(c: CoreRegs, w: WriteRegs, b: Bus, z: Sizes): CoreRegs
    requires SizesOk(z)
  {
    if WriteEnable(w, b) then Commit(c, w.awaddr, b.wdata, z) else c.(pulse := None)
  }

  function Flag(b: bool, weight: nat): nat {
    if b then weight else 0
  }

  /** The read multiplexer; the memory windows read as zero. */
  function ReadMux(s: Slave, t: Threads, a: Addr): Half
    requires |s.latched| == 4 && |t.pc| == 4
  {
    if a == CONTROL then Flag(s.c.coreReset, 1)
    else if a == STATUS then
      Flag(s.latched[3], 8) + Flag(s.latched[2], 4) + Flag(s.latched[1], 2) + Flag(s.latched[0], 1)
    else if 8 <= a <= 0x24 && a % 4 == 0 then
      var pc := t.pc[(a - 8) / 8];
      if a % 8 == 0 then pc % TWO32 else pc / TWO32
    else 0
  }

  predicate ReadEnable(r: ReadRegs, b: Bus) {
    r.arready && b.arvalid && !r.rvalid
  }

  function NextRead(s: Slave, b: Bus, t: Threads): ReadRegs
    requires |s.latched| == 4 && |t.pc| == 4
  {
    var r := s.r;
    var take := !r.arready && b.arvalid;
    ReadRegs(take, if take then b.araddr else r.araddr,
             if ReadEnable(r, b) then true else if r.rvalid && b.rready then false else r.rvalid,
             if ReadEnable(r, b) then ReadMux(s, t, r.araddr) else r.rdata)
  }

  /** Set by a halt pulse, cleared while the cores are in reset. */
  function NextLatch(was: bool, coreReset: bool, halt: bool): bool {
    !coreReset && (was || halt)
  }

  function Step(s: Slave, b: Bus, t: Threads, z: Sizes): (n: Slave)
    requires |s.latched| == 4 && |t.halt| == 4 && |t.pc| == 4 && SizesOk(z)
    ensures |n.latched| == 4
  {
    Slave(NextWrite(s.w, b), NextRead(s, b, t), NextCore(s.c, s.w, b, z),
          seq(4, i requires 0 <= i < 4 => NextLatch(s.latched[i], s.c.coreReset, t.halt[i])))
  }

  /** The state after the bus reset. */
  function Reset(s: Slave): Slave {
    Slave(WriteRegs(false, 0, false, false), ReadRegs(false, 0, false, 0),
          s.c.(coreReset := true, pulse := None), [false, false, false, false])
  }

  /** The clocked slave. */
  class Controller {
    var w: WriteRegs
    var r: ReadRegs
    var c: CoreRegs
    var latched: seq<bool>
    const z: Sizes

    constructor (z: Sizes, staging: Half)
      requires SizesOk(z)
      ensures this.z == z && Valid()
      ensures View() == Reset(Slave(w, r, CoreRegs(false, staging, None), latched))
    {
      this.z := z;
      w, r := WriteRegs(false, 0, false, false), ReadRegs(false, 0, false, 0);
      c, latched := CoreRegs(true, staging, None), [false, false, false, false];
    }

    predicate Valid()
      reads this
    {
      SizesOk(z) && |latched| == 4
    }

    function View(): Slave
      reads this
    {
      Slave(w, r, c, latched)
    }

    method Tick(b: Bus, t: Threads)
      requires Valid() && |t.halt| == 4 && |t.pc| == 4
      modifies this
      ensures Valid() && View() == Step(old(View()), b, t, z)
    {
      hide ReadMux, Commit;
      var s := View();
      var enable := WriteEnable(w, b);
      if !s.w.awready && b.awvalid && b.wvalid {
        w := w.(awready := true, awaddr := b.awaddr);
      } else {
        w := w.(awready := false);
      }
      w := w.(wready := !s.w.wready && b.wvalid && b.awvalid);
      if enable && !s.w.bvalid {
        w := w.(bvalid := true);
      } else if b.bready && s.w.bvalid {
        w := w.(bvalid := false);
      }
      var was := latched;
      if c.coreReset {
        latched := [false, false, false, false];
      } else {
        latched := seq(4, i requires 0 <= i < 4 => was[i] || t.halt[i]);
      }
      assert latched == seq(4, i requires 0 <= i < 4 => NextLatch(was[i], s.c.coreReset, t.halt[i]));
      c := if enable then Commit(c, s.w.awaddr, b.wdata, z) else c.(pulse := None);
      r := NextRead(s, b, t);
    }
  }
}

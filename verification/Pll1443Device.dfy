/** The register interface of the PLL 1443. */
module Pll1443Device {
  import opened Words
  import opened Bits
  import opened Pll1443
  import opened Pll1443Accuracy
  import opened Pll1443Best

  /** 'Gen_ctrl::Reset::State' */
  const RESET: nat := 0
  const NO_RESET: nat := 1

  function PreDiv(fdivCtl0: Uint32): (p: nat)
    ensures p == fdivCtl0 / 0x10 % 0x40
  {
    FieldsOfDividers(fdivCtl0);
    Get(fdivCtl0, 4, 6)
  }

  function MainDiv(fdivCtl0: Uint32): (m: Main)
    ensures m == fdivCtl0 / 0x1000 % 0x400
  {
    FieldsOfDividers(fdivCtl0);
    Get(fdivCtl0, 12, 10)
  }

  function PostDiv(fdivCtl0: Uint32): (s: Post)
    ensures s == fdivCtl0 % 8
  {
    FieldsOfDividers(fdivCtl0);
    Get(fdivCtl0, 0, 3)
  }

  function Dsm(fdivCtl1: Uint32): (k: Int16)
    ensures k == fdivCtl1 % 0x1_0000 || k == fdivCtl1 % 0x1_0000 - 0x1_0000
  {
    FieldOfDsm(fdivCtl1);
    Signed16(Get(fdivCtl1, 0, 16))
  }

  lemma FieldOfDsm(fdivCtl1: Uint32)
    ensures Get(fdivCtl1, 0, 16) == fdivCtl1 % 0x1_0000
  {
    Powers();
    GetIsMod(fdivCtl1, 0, 16);
    hide Get, Pow2;
  }

  lemma FieldsOfDividers(fdivCtl0: Uint32)
    ensures Get(fdivCtl0, 0, 3) == fdivCtl0 % 8
    ensures Get(fdivCtl0, 4, 6) == fdivCtl0 / 0x10 % 0x40
    ensures Get(fdivCtl0, 12, 10) == fdivCtl0 / 0x1000 % 0x400
  {
    Powers();
    GetIsMod(fdivCtl0, 0, 3);
    GetIsMod(fdivCtl0, 4, 6);
    GetIsMod(fdivCtl0, 12, 10);
    hide Get, Pow2;
  }

  lemma FieldsOfControl(genCtrl: Uint32)
    ensures Get(genCtrl, 0, 2) == genCtrl % 4
    ensures Get(genCtrl, 4, 1) == genCtrl / 0x10 % 2
    ensures Get(genCtrl, 9, 1) == genCtrl / 0x200 % 2
    ensures Get(genCtrl, 13, 1) == genCtrl / 0x2000 % 2
  {
    Powers();
    GetIsMod(genCtrl, 0, 2);
    GetIsMod(genCtrl, 4, 1);
    GetIsMod(genCtrl, 9, 1);
    GetIsMod(genCtrl, 13, 1);
    hide Get, Pow2;
  }

  /** The three divider fields of 'Fdiv_ctl0', written one after the other. */
  function WriteDividers(fdivCtl0: Uint32, cfg: Config): Uint32 {
    Write(Write(Write(fdivCtl0, 4, 6, cfg.pdiv), 12, 10, cfg.mdiv), 0, 3, cfg.sdiv)
  }

  function WriteDsm(fdivCtl1: Uint32, kdiv: Int16): Uint32 {
    Write(fdivCtl1, 0, 16, kdiv % U32)
  }

  /** Reset released and bypass off; the parent selection stays as it is. */
  function Running(genCtrl: Uint32): Uint32 {
    Write(Write(Write(Write(genCtrl, 9, 1, RESET), 4, 1, 1), 9, 1, NO_RESET), 4, 1, 0)
  }

  /** The registers already hold the pre- and main divider. */
  predicate SameFraction(cfg: Config, fdivCtl0: Uint32)
    ensures SameFraction(cfg, fdivCtl0)
       <==> cfg.pdiv == fdivCtl0 / 0x10 % 0x40 && cfg.mdiv == fdivCtl0 / 0x1000 % 0x400
  {
    cfg.pdiv == PreDiv(fdivCtl0) && cfg.mdiv == MainDiv(fdivCtl0)
  }

  // ---- the order of register accesses ----

  datatype Regs = Regs(genCtrl: Uint32, fdivCtl0: Uint32, fdivCtl1: Uint32)

  /** A write, with the contents of the registers after it, or a poll of the lock bit. */
  datatype Access = Store(regs: Regs) | Poll

  function Polls(n: nat): seq<Access> {
    seq(n, i requires 0 <= i < n => Poll)
  }

  function Stores(path: seq<Regs>): seq<Access> {
    seq(|path|, i requires 0 <= i < |path| => Store(path[i]))
  }

  /** The registers after each write of the reset path. */
  function ResetPath(r: Regs, cfg: Config): (path: seq<Regs>)
    ensures |path| == 8
  {
    var g1 := Write(r.genCtrl, 9, 1, RESET);
    var g2 := Write(g1, 4, 1, 1);
    var g3 := Write(g2, 9, 1, NO_RESET);
    var d1 := Write(r.fdivCtl0, 4, 6, cfg.pdiv);
    var d2 := Write(d1, 12, 10, cfg.mdiv);
    var d3 := Write(d2, 0, 3, cfg.sdiv);
    var k := WriteDsm(r.fdivCtl1, cfg.kdiv);
    [Regs(g1, r.fdivCtl0, r.fdivCtl1), Regs(g2, r.fdivCtl0, r.fdivCtl1),
     Regs(g2, d1, r.fdivCtl1), Regs(g2, d2, r.fdivCtl1), Regs(g2, d3, r.fdivCtl1), Regs(g2, d3, k),
     Regs(g3, d3, k), Regs(Write(g3, 4, 1, 0), d3, k)]
  }

  /** And of the path that keeps the pre- and the main divider. */
  function GlitchFreePath(r: Regs, cfg: Config): seq<Regs> {
    var d := Write(r.fdivCtl0, 0, 3, cfg.sdiv);
    [Regs(r.genCtrl, d, r.fdivCtl1), Regs(r.genCtrl, d, WriteDsm(r.fdivCtl1, cfg.kdiv))]
  }

  predicate InReset(g: Uint32) {
    g / 0x200 % 2 == 0
  }

  predicate Bypassed(g: Uint32) {
    g / 0x10 % 2 == 1
  }

  /** On the reset path no divider changes unless the PLL is bypassed and in reset before and
      after the write; the lock is awaited out of reset, still bypassed; and the bypass ends
      last. */
  lemma DividersChangeInResetOnly(r: Regs, cfg: Config)
    ensures var path := [r] + ResetPath(r, cfg);
            && (forall i :: 0 <= i < 8
                  && (path[i].fdivCtl0, path[i].fdivCtl1) != (path[i + 1].fdivCtl0, path[i + 1].fdivCtl1)
                  ==> && InReset(path[i].genCtrl) && Bypassed(path[i].genCtrl)
                      && InReset(path[i + 1].genCtrl) && Bypassed(path[i + 1].genCtrl))
            && !InReset(path[7].genCtrl) && Bypassed(path[7].genCtrl)
            && !InReset(path[8].genCtrl) && !Bypassed(path[8].genCtrl)
  {
    ControlBits(r.genCtrl);
    hide Write, WriteDsm, InReset, Bypassed;
  }

  lemma ControlBits(g: Uint32)
    ensures var g1 := Write(g, 9, 1, RESET);
            var g2 := Write(g1, 4, 1, 1);
            var g3 := Write(g2, 9, 1, NO_RESET);
            var g4 := Write(g3, 4, 1, 0);
            && InReset(g2) && Bypassed(g2) && !InReset(g3) && Bypassed(g3)
            && !InReset(g4) && !Bypassed(g4)
  {
    var g1 := Write(g, 9, 1, RESET);
    var g2 := Write(g1, 4, 1, 1);
    var g3 := Write(g2, 9, 1, NO_RESET);
    var g4 := Write(g3, 4, 1, 0);
    GetSet(g, 9, 1, RESET);
    GetSetOther(g1, 4, 1, 1, 9, 1);
    GetSet(g1, 4, 1, 1);
    GetSet(g2, 9, 1, NO_RESET);
    GetSetOther(g2, 9, 1, NO_RESET, 4, 1);
    GetSetOther(g3, 4, 1, 0, 9, 1);
    GetSet(g3, 4, 1, 0);
    assert Pow2(1) == 2;
    LowOfSmall(0, 1);
    LowOfSmall(1, 1);
    FieldsOfControl(g2);
    FieldsOfControl(g3);
    FieldsOfControl(g4);
    hide Get, Set, Low, Pow2;
  }

  lemma LowOfSmall(v: nat, n: nat)
    requires v < Pow2(n)
    ensures Low(v, n) == v
  {
    LowFits(v, n);
  }

  /** Writing the dividers and reading them back yields the same values, except that the
      pre-divider 64 reads back as 0. */
  lemma DividersReadBack(fdivCtl0: Uint32, cfg: Config)
    ensures PreDiv(WriteDividers(fdivCtl0, cfg)) == if cfg.pdiv == 64 then 0 else cfg.pdiv
    ensures MainDiv(WriteDividers(fdivCtl0, cfg)) == cfg.mdiv
    ensures PostDiv(WriteDividers(fdivCtl0, cfg)) == cfg.sdiv
  {
    var r1 := Write(fdivCtl0, 4, 6, cfg.pdiv);
    var r2 := Write(r1, 12, 10, cfg.mdiv);
    assert Pow2(3) == 8 && Pow2(6) == 64 && Pow2(10) == 1024;
    GetSet(fdivCtl0, 4, 6, cfg.pdiv);
    GetSetOther(r1, 12, 10, cfg.mdiv, 4, 6);
    GetSetOther(r2, 0, 3, cfg.sdiv, 4, 6);
    GetSet(r1, 12, 10, cfg.mdiv);
    GetSetOther(r2, 0, 3, cfg.sdiv, 12, 10);
    GetSet(r2, 0, 3, cfg.sdiv);
    if cfg.pdiv == 64 {
      LowIsMod(cfg.pdiv, 6);
    } else {
      LowOfSmall(cfg.pdiv, 6);
    }
    LowOfSmall(cfg.mdiv, 10);
    LowOfSmall(cfg.sdiv, 3);
  }

  /** The signed DSM value survives its 16-bit field. */
  lemma DsmReadsBack(fdivCtl1: Uint32, kdiv: Int16)
    ensures Dsm(WriteDsm(fdivCtl1, kdiv)) == kdiv
  {
    GetSet(fdivCtl1, 0, 16, kdiv % U32);
    LowIsMod(kdiv % U32, 16);
    Pow2At16();
    SignedField(kdiv);
    hide Get, Set, Low;
  }

  lemma SignedField(kdiv: Int16)
    ensures Signed16(kdiv % U32 % 0x1_0000) == kdiv
  {
  }

  /** Rewriting only the post-divider keeps the other two fields. */
  lemma PostDivReadsBack(fdivCtl0: Uint32, s: Post)
    ensures PreDiv(Write(fdivCtl0, 0, 3, s)) == PreDiv(fdivCtl0)
    ensures MainDiv(Write(fdivCtl0, 0, 3, s)) == MainDiv(fdivCtl0)
    ensures PostDiv(Write(fdivCtl0, 0, 3, s)) == s
  {
    GetSetOther(fdivCtl0, 0, 3, s, 4, 6);
    GetSetOther(fdivCtl0, 0, 3, s, 12, 10);
    GetSet(fdivCtl0, 0, 3, s);
    assert Pow2(3) == 8;
    LowOfSmall(s, 3);
  }

  /** The reset sequence leaves the PLL running, out of reset and not bypassed, and keeps all
      other bits, among them the parent selection. */
  lemma RunningKeepsParent(genCtrl: Uint32)
    ensures Running(genCtrl) % 4 == genCtrl % 4
    ensures Running(genCtrl) / 0x200 % 2 == 1 && Running(genCtrl) / 0x10 % 2 == 0
    ensures forall i: nat :: i != 4 && i != 9 ==> Bit(Running(genCtrl), i) == Bit(genCtrl, i)
  {
    var r1 := Write(genCtrl, 9, 1, RESET);
    var r2 := Write(r1, 4, 1, 1);
    var r3 := Write(r2, 9, 1, NO_RESET);
    ControlBits(genCtrl);
    KeptBits(genCtrl, 9, RESET);
    KeptBits(r1, 4, 1);
    KeptBits(r2, 9, NO_RESET);
    KeptBits(r3, 4, 0);
    hide Write, Bit;
  }

  lemma KeptBits(genCtrl: Uint32, lo: nat, v: nat)
    requires lo == 4 || lo == 9
    ensures Write(genCtrl, lo, 1, v) % 4 == genCtrl % 4
    ensures forall i: nat :: i != lo ==> Bit(Write(genCtrl, lo, 1, v), i) == Bit(genCtrl, i)
  {
    GetSetOther(genCtrl, lo, 1, v, 0, 2);
    FieldsOfControl(genCtrl);
    FieldsOfControl(Write(genCtrl, lo, 1, v));
    SetKeepsRest(genCtrl, lo, 1, v);
    hide Get, Set, Bit;
  }

  /** Bits outside the divider fields stay. */
  lemma DividersKeepRest(fdivCtl0: Uint32, fdivCtl1: Uint32, cfg: Config)
    ensures forall i: nat :: i == 3 || 10 <= i < 12 || 22 <= i ==>
              Bit(WriteDividers(fdivCtl0, cfg), i) == Bit(fdivCtl0, i)
    ensures forall i: nat :: 16 <= i ==> Bit(WriteDsm(fdivCtl1, cfg.kdiv), i) == Bit(fdivCtl1, i)
  {
    var r1 := Write(fdivCtl0, 4, 6, cfg.pdiv);
    SetKeepsRest(fdivCtl0, 4, 6, cfg.pdiv);
    SetKeepsRest(r1, 12, 10, cfg.mdiv);
    SetKeepsRest(Write(r1, 12, 10, cfg.mdiv), 0, 3, cfg.sdiv);
    SetKeepsRest(fdivCtl1, 0, 16, cfg.kdiv % U32);
    hide Set, Bit;
  }

  /** The dividers in the register meet the request by changing k alone. */
  predicate Retunes(fin: nat, fdivCtl0: nat, fout: nat) {
    var p, m, s := fdivCtl0 / 0x10 % 0x40, fdivCtl0 / 0x1000 % 0x400, fdivCtl0 % 8;
    && p > 0 && m > 0 && fin > 0 && fin * (m * 0x1_0000 + 0x1_0000) <= U64
    && InWindow(fin, p, m, s, fout)
  }

  class FracPll1443 {
    var genCtrl: Uint32
    var fdivCtl0: Uint32
    var fdivCtl1: Uint32
    var trace: seq<Access>
    const crystal: Uint64  // rate of "24m_ref_clk"
    const byZero: Uint64

    constructor (crystal: Uint64, byZero: Uint64, genCtrl: Uint32, fdivCtl0: Uint32, fdivCtl1: Uint32)
      ensures this.crystal == crystal && this.byZero == byZero && trace == []
      ensures this.genCtrl == genCtrl && this.fdivCtl0 == fdivCtl0 && this.fdivCtl1 == fdivCtl1
    {
      this.crystal, this.byZero, this.trace := crystal, byZero, [];
      this.genCtrl, this.fdivCtl0, this.fdivCtl1 := genCtrl, fdivCtl0, fdivCtl1;
    }

    /** The selected parent: the crystal, or "no_clk" or no clock at all, which are 0 Hz. */
    function In(): (e: Input)
      reads `genCtrl
      ensures e == Input(if genCtrl % 4 == 0 then crystal else 0, byZero)
    {
      FieldsOfControl(genCtrl);
      Input(if Get(genCtrl, 0, 2) == 0 then crystal else 0, byZero)
    }

    /** '_read': the configuration in the registers, with its rate. */
    function Read(): Config
      reads `genCtrl, `fdivCtl0, `fdivCtl1
    {
      var p, m, s, k := PreDiv(fdivCtl0), MainDiv(fdivCtl0), PostDiv(fdivCtl0), Dsm(fdivCtl1);
      Config(ComputeRate(In(), p, m, s, k), p, m, s, k)
    }

    /** 'rate() const' */
    function Rate(): Uint64
      reads `genCtrl, `fdivCtl0, `fdivCtl1
    {
      Read().rate
    }

    function Registers(): Regs
      reads `genCtrl, `fdivCtl0, `fdivCtl1
    {
      Regs(genCtrl, fdivCtl0, fdivCtl1)
    }

    method SetControl(lo: nat, v: nat)
      requires lo < 32
      modifies `genCtrl, `trace
      ensures genCtrl == Write(old(genCtrl), lo, 1, v)
      ensures trace == old(trace) + [Store(Registers())]
    {
      genCtrl := Write(genCtrl, lo, 1, v);
      trace := trace + [Store(Registers())];
    }

    method SetDivider(lo: nat, width: nat, v: nat)
      requires lo + width <= 32
      modifies `fdivCtl0, `trace
      ensures fdivCtl0 == Write(old(fdivCtl0), lo, width, v)
      ensures trace == old(trace) + [Store(Registers())]
    {
      fdivCtl0 := Write(fdivCtl0, lo, width, v);
      trace := trace + [Store(Registers())];
    }

    method SetDsm(kdiv: Int16)
      modifies `fdivCtl1, `trace
      ensures fdivCtl1 == WriteDsm(old(fdivCtl1), kdiv)
      ensures trace == old(trace) + [Store(Registers())]
    {
      fdivCtl1 := WriteDsm(fdivCtl1, kdiv);
      trace := trace + [Store(Registers())];
    }

    /** Waits until the PLL locks, and gives up after 1025 polls. */
    method AwaitLock(lockAfter: nat) returns (locked: bool)
      modifies `trace
      ensures locked <==> lockAfter <= 1024
      ensures trace == old(trace) + Polls((if locked then lockAfter else 1024) + 1)
    {
      var count := 0;
      trace := trace + [Poll];
      while count < lockAfter
        invariant count <= 1024 && count <= lockAfter
        invariant trace == old(trace) + Polls(count + 1)
      {
        if count == 1024 {
          return false;
        }
        count := count + 1;
        trace := trace + [Poll];
      }
      return true;
    }

    /** Only the post-divider and k change. */
    method WriteGlitchFree(cfg: Config)
      modifies this
      ensures trace == old(trace) + Stores(GlitchFreePath(old(Registers()), cfg))
      ensures genCtrl == old(genCtrl) && fdivCtl0 == Write(old(fdivCtl0), 0, 3, cfg.sdiv)
      ensures fdivCtl1 == WriteDsm(old(fdivCtl1), cfg.kdiv)
    {
      hide Write, WriteDsm;
      SetDivider(0, 3, cfg.sdiv);
      SetDsm(cfg.kdiv);
    }

    /** The PLL is reset and bypassed while its dividers change. */
    method WriteThroughReset(cfg: Config, lockAfter: nat) returns (locked: bool)
      modifies this
      ensures locked <==> lockAfter <= 1024
      ensures var path := ResetPath(old(Registers()), cfg);
              trace == old(trace) + Stores(path[..7])
                       + Polls((if locked then lockAfter else 1024) + 1) + Stores(path[7..])
      ensures genCtrl == Running(old(genCtrl)) && fdivCtl0 == WriteDividers(old(fdivCtl0), cfg)
      ensures fdivCtl1 == WriteDsm(old(fdivCtl1), cfg.kdiv)
    {
      hide Write, WriteDsm, Polls;
      ghost var path := ResetPath(Registers(), cfg);
      SetControl(9, RESET);
      SetControl(4, 1);
      SetDivider(4, 6, cfg.pdiv);
      SetDivider(12, 10, cfg.mdiv);
      SetDivider(0, 3, cfg.sdiv);
      SetDsm(cfg.kdiv);
      SetControl(9, NO_RESET);
      assert trace == old(trace) + Stores(path[..7]);
      locked := AwaitLock(lockAfter);
      SetControl(4, 0);
      assert Stores(path[7..]) == [Store(Registers())];
    }

    /** 'rate(Rate)'. 'lockAfter' is the number of polls that fail before the hardware
        reports its lock; 'cfg' is the configuration the driver announces. */
    method SetRate(fout: Uint64, lockAfter: nat) returns (cfg: Config, locked: bool)
      modifies this
      ensures cfg == Chosen(old(In()), old(Read()), fout)
      ensures fdivCtl1 == WriteDsm(old(fdivCtl1), cfg.kdiv)
      ensures SameFraction(cfg, old(fdivCtl0)) ==>
                && genCtrl == old(genCtrl) && fdivCtl0 == Write(old(fdivCtl0), 0, 3, cfg.sdiv)
                && trace == old(trace) + Stores(GlitchFreePath(old(Registers()), cfg))
      ensures !SameFraction(cfg, old(fdivCtl0)) ==>
                var path := ResetPath(old(Registers()), cfg);
                && genCtrl == Running(old(genCtrl))
                && fdivCtl0 == WriteDividers(old(fdivCtl0), cfg)
                && (locked <==> lockAfter <= 1024)
                && trace == old(trace) + Stores(path[..7])
                            + Polls((if locked then lockAfter else 1024) + 1) + Stores(path[7..])
      ensures Retunes(old(In()).fin, old(fdivCtl0), fout) ==>
                && genCtrl == old(genCtrl) && SameFraction(cfg, old(fdivCtl0))
                && cfg.sdiv == old(fdivCtl0) % 8
      ensures In() == old(In())
      ensures Read() == cfg <==> cfg.pdiv != 64
      ensures Rate() == cfg.rate <==> cfg.pdiv != 64 || cfg.rate == byZero
      ensures byZero == 0 && fout < FAR ==>
                (Rate() == cfg.rate
                 <==> GlitchFree(old(In()), old(Read()), fout) || !SettlesOn64(old(In()), fout))
      ensures byZero == 0 && fout < FAR ==>
                && Chosen(In(), Read(), fout) == cfg
                && (SameFraction(cfg, fdivCtl0) <==> cfg.pdiv != 64)
    {
      ghost var e, before, r := In(), Read(), Registers();
      cfg := Compute(In(), Read(), fout);
      ChosenCarriesItsRate(e, before, fout);
      RetunesIsGlitchFree(e, before, fdivCtl0, fout);
      if byZero == 0 && fout < FAR {
        ChosenFitsIff(e, before, fout);
      }
      RegistersReadBack(r, cfg);
      RunningKeepsParent(genCtrl);
      hide Pll1443.Chosen, ComputeRate, GlitchFree, SettlesOn64, Retunes, Write, WriteDsm, Get;
      hide WriteDividers, Running, ResetPath, GlitchFreePath, Stores, Polls, PreDiv, MainDiv, PostDiv, Dsm;
      locked := true;
      if SameFraction(cfg, fdivCtl0) {
        WriteGlitchFree(cfg);
      } else {
        locked := WriteThroughReset(cfg, lockAfter);
      }
      if byZero == 0 && fout < FAR {
        RepeatedRequest(e, before, fout, Read());
      }
    }
  }

  /** What the fields hold after either path. */
  lemma RegistersReadBack(r: Regs, cfg: Config)
    ensures Dsm(WriteDsm(r.fdivCtl1, cfg.kdiv)) == cfg.kdiv
    ensures var d := Write(r.fdivCtl0, 0, 3, cfg.sdiv);
            && PreDiv(d) == PreDiv(r.fdivCtl0) && MainDiv(d) == MainDiv(r.fdivCtl0)
            && PostDiv(d) == cfg.sdiv
    ensures var d := WriteDividers(r.fdivCtl0, cfg);
            && PreDiv(d) == (if cfg.pdiv == 64 then 0 else cfg.pdiv)
            && MainDiv(d) == cfg.mdiv && PostDiv(d) == cfg.sdiv
  {
    DsmReadsBack(r.fdivCtl1, cfg.kdiv);
    PostDivReadsBack(r.fdivCtl0, cfg.sdiv);
    DividersReadBack(r.fdivCtl0, cfg);
  }

  lemma RetunesIsGlitchFree(e: Input, cfg: Config, fdivCtl0: Uint32, fout: Uint64)
    requires cfg.pdiv == fdivCtl0 / 0x10 % 0x40 && cfg.mdiv == fdivCtl0 / 0x1000 % 0x400
    requires cfg.sdiv == fdivCtl0 % 8
    ensures Retunes(e.fin, fdivCtl0, fout) ==>
              var c := Chosen(e, cfg, fout);
              (c.pdiv, c.mdiv, c.sdiv) == (cfg.pdiv, cfg.mdiv, cfg.sdiv)
  {
    if Retunes(e.fin, fdivCtl0, fout) {
      GlitchFreeIsAccurate(e, cfg, fout);
    }
  }

  /** The announced pre-divider is 64 exactly after a search that settles on it, and then the
      announced rate is not zero. */
  lemma ChosenFitsIff(e: Input, cfg: Config, fout: Uint64)
    requires e.byZero == 0 && fout < FAR && cfg.pdiv < 64
    ensures var c := Chosen(e, cfg, fout);
            && (c.pdiv == 64 <==> !GlitchFree(e, cfg, fout) && SettlesOn64(e, fout))
            && (c.pdiv == 64 ==> c.rate > 0)
  {
    PreDivider64Iff(e, cfg, fout);
    hide GlitchFree, Searched, ComputeRate, ComputeKdiv, ComputeMdiv;
  }

  /** Whatever branch chose it, an announced configuration carries the rate of its own
      dividers. */
  lemma ChosenCarriesItsRate(e: Input, cfg: Config, fout: Uint64)
    requires cfg.rate == ComputeRate(e, cfg.pdiv, cfg.mdiv, cfg.sdiv, cfg.kdiv)
    ensures var c := Chosen(e, cfg, fout);
            c.rate == ComputeRate(e, c.pdiv, c.mdiv, c.sdiv, c.kdiv)
  {
    var i := SearchIsFirstMinimum(fout, cfg, Candidates(e, fout), PAIRS);
  }
}

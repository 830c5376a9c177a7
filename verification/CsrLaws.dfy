/**
 The privileged state register by register and bit by bit, in the numbers of the architecture: where every trap goes and
 what it leaves, what each CSR write changes, reset, debug mode and returns.
 */
module CsrLaws {
  import opened Common
  import opened CsrModel
  import PageWalk
  import Bits

  // ----- Where a trap goes -----

  /** The trap goes to S-mode: from U or S, and delegated by the register for interrupts or the one for exceptions. */
  predicate ToSupervisor(cfg: Config, s: State, interrupt: bool, code: nat) {
    s.prv <= 1 && code < cfg.xlen && code in if interrupt then s.ints.mideleg else s.ints.medeleg
  }

  /** A cause as it reads in scause and mcause: interrupts have the top bit. */
  function CauseNumber(cfg: Config, interrupt: bool, code: nat): nat {
    code + if !interrupt then 0 else if cfg.xlen == 32 then 0x8000_0000 else 0x8000_0000_0000_0000
  }

  /** A breakpoint exception that the ebreak bit of the current privilege turns into an entry to debug mode. */
  predicate Breaks(s: State, interrupt: bool, code: nat) {
    && !interrupt && code == 3
    && match s.prv
       case 0 => s.debug.dcsr.ebreaku
       case 1 => s.debug.dcsr.ebreaks
       case 3 => s.debug.dcsr.ebreakm
       case _ => false
  }

  lemma CauseIs(cfg: Config, interrupt: bool, code: nat)
    requires ConfigOk(cfg)
    ensures CauseWord(cfg, Cause(interrupt, code)) == CauseNumber(cfg, interrupt, code)
  {
    PowersOfTwo();
    Bits.Pow2Literals();
    Bits.Pow2Add(18, 12);
    Bits.Pow2Add(30, 1);
    assert Bits.Pow2(1) == 2;
    assert cfg.xlen == 32 ==> Bits.Pow2(cfg.xlen - 1) == 0x8000_0000;
    assert cfg.xlen == 64 ==> Bits.Pow2(cfg.xlen - 1) == 0x8000_0000_0000_0000;
  }

  /**
   Outside debug mode every trap that does not break into it ends in S-mode or in M-mode, as the current privilege and
   the delegation register for its kind say; it writes the trap registers of that mode and no others, and goes to the
   handler: stvec, or mtvec without its mode bit, plus four times the code for an interrupt in vectored mode.
   */
  lemma TrapDispatch(cfg: Config, s: State, interrupt: bool, code: nat, epc: nat, tval: nat)
    requires ConfigOk(cfg) && Inv(cfg, s) && s.debug.dcsr.cause == 0 && !Breaks(s, interrupt, code)
    ensures var r := TakeTrap(cfg, s, Cause(interrupt, code), epc, tval);
            var cause := CauseNumber(cfg, interrupt, code);
            && (r.prv == 1 <==> ToSupervisor(cfg, s, interrupt, code))
            && (r.prv == 3 <==> !ToSupervisor(cfg, s, interrupt, code))
            && r.traps == (if r.prv == 1 then s.traps.(scause := cause, sepc := epc, stval := tval)
                           else s.traps.(mcause := cause, mepc := epc, mtval := tval))
            && r.pc == (if r.prv == 1 then ToNat(s.traps.stvec)
                        else if interrupt && 0 in s.traps.mtvec then (ToNat(s.traps.mtvec - {0}) + 4 * code) % WORD
                        else ToNat(s.traps.mtvec - {0}) % WORD)
            && r.debug == s.debug && r.ints == s.ints && r.satp == s.satp && r.misa == s.misa
  {
    hide TrapToS, TrapToM, ToNat, CauseWord, MstatusOk, MisaOk, SatpOk, IntsOk;
    var c := Cause(interrupt, code);
    CauseIs(cfg, interrupt, code);
    TrapDebug(cfg, s, c, epc, tval);
    TrapToMKeepsInv(cfg, s, c, epc, tval);
    MachineTrapSaves(cfg, s, c, epc, tval);
    MachineHandler(cfg, s, c, epc, tval);
    if s.prv <= 1 {
      TrapToSKeepsInv(cfg, s, c, epc, tval);
      SupervisorTrapSaves(cfg, s, c, epc, tval);
    }
  }

  lemma MachineHandler(cfg: Config, s: State, c: Cause, epc: nat, tval: nat)
    requires ConfigOk(cfg)
    ensures TrapToM(cfg, s, c, epc, tval).pc ==
            if c.interrupt && 0 in s.traps.mtvec then (ToNat(s.traps.mtvec - {0}) + 4 * c.code) % WORD
            else ToNat(s.traps.mtvec - {0}) % WORD
  {
    hide NewMstatus, ToNat, CauseWord, MachineStack, Zext, TranslationBitsDiffer, LegalizePrivilege;
  }

  /** The enable bits and the previous privilege after the trap, in mstatus. */
  lemma TrapStacks(cfg: Config, s: State, interrupt: bool, code: nat, epc: nat, tval: nat)
    requires ConfigOk(cfg) && Inv(cfg, s) && s.debug.dcsr.cause == 0 && !Breaks(s, interrupt, code)
    ensures var m := TakeTrap(cfg, s, Cause(interrupt, code), epc, tval).mstatus;
            if ToSupervisor(cfg, s, interrupt, code) then
              && 1 !in m && (5 in m <==> 1 in s.mstatus) && (8 in m <==> s.prv == 1)
              && (forall k :: k !in {1, 5, 8} ==> (k in m <==> k in s.mstatus))
            else
              && 3 !in m && (7 in m <==> 3 in s.mstatus) && (11 in m <==> s.prv != 0) && (12 in m <==> s.prv == 3)
              && (forall k :: k !in {3, 7, 11, 12} ==> (k in m <==> k in s.mstatus))
  {
    hide TrapToS, TrapToM, ToNat, CauseWord, MstatusOk, MisaOk, SatpOk, IntsOk;
    var c := Cause(interrupt, code);
    if s.prv <= 1 {
      SupervisorTrapSaves(cfg, s, c, epc, tval);
    }
    MachineTrapSaves(cfg, s, c, epc, tval);
  }

  /** In debug mode a trap changes nothing but the pc: a breakpoint restarts the debug ROM, others go to its handler. */
  lemma TrapInDebug(cfg: Config, s: State, interrupt: bool, code: nat, epc: nat, tval: nat)
    requires ConfigOk(cfg) && s.debug.dcsr.cause != 0
    ensures TakeTrap(cfg, s, Cause(interrupt, code), epc, tval)
            == s.(pc := if !interrupt && code == 3 then 0x800 else 0x808)
  {}

  /** Entering debug mode saves the pc and the privilege, and goes to the debug ROM in M-mode. */
  lemma DebugEntry(cfg: Config, s: State, cause: nat)
    requires ConfigOk(cfg) && Inv(cfg, s)
    ensures EnterDebugMode(s, cause)
            == s.(pc := 0x800, prv := 3, flushes := s.flushes + 1,
                  debug := Debug(s.debug.dcsr.(cause := cause, prv := s.prv), s.pc))
  {
    SupportsModes(cfg, s.misa);
  }

  /** A breakpoint that breaks into debug mode does so with cause 1. */
  lemma TrapBreaks(cfg: Config, s: State, interrupt: bool, code: nat, epc: nat, tval: nat)
    requires ConfigOk(cfg) && Inv(cfg, s) && s.debug.dcsr.cause == 0 && Breaks(s, interrupt, code)
    ensures TakeTrap(cfg, s, Cause(interrupt, code), epc, tval) == EnterDebugMode(s, 1)
  {
    hide EnterDebugMode, TrapToS, TrapToM, MstatusOk, MisaOk, SatpOk, IntsOk;
  }

  // ----- What each CSR write changes -----

  /** Bit `k` of the value, as far as the hart is wide. */
  predicate Given(cfg: Config, value: Word, k: nat) { k in value && k < cfg.xlen }

  /** The interrupt registers: mie, mip, mideleg and medeleg take exactly these bits of the value. */
  lemma IntWrites(cfg: Config, s: State, value: Word, k: nat)
    requires ConfigOk(cfg)
    ensures var i := SetCsr(cfg, s, MIE_, value);
            && (k in i.ints.mie <==> if k in {1, 3, 5, 7, 9} || (k == 12 && cfg.ext) then Given(cfg, value, k)
                                     else k in s.ints.mie)
            && i == s.(ints := s.ints.(mie := i.ints.mie))
    ensures var i := SetCsr(cfg, s, MIP_, value);
            && (k in i.ints.mip <==> if k in {1, 5} then Given(cfg, value, k) else k in s.ints.mip)
            && i == s.(ints := s.ints.(mip := i.ints.mip))
    ensures var i := SetCsr(cfg, s, MIDELEG, value);
            && (k in i.ints.mideleg <==> if k in {1, 5, 9} || (k == 12 && cfg.ext) then Given(cfg, value, k)
                                         else k in s.ints.mideleg)
            && i == s.(ints := s.ints.(mideleg := i.ints.mideleg))
    ensures var i := SetCsr(cfg, s, MEDELEG, value);
            && (k in i.ints.medeleg <==> if k in {0, 3, 8, 12, 13, 15} then Given(cfg, value, k)
                                         else k in s.ints.medeleg)
            && i == s.(ints := s.ints.(medeleg := i.ints.medeleg))
  {}

  /** satp: the TLB is flushed in any case; the page number and the mode are taken if the mode is off, Sv39 or Sv48. */
  lemma SatpWrite(cfg: Config, s: State, value: Word, k: nat)
    requires ConfigOk(cfg)
    ensures var r := SetCsr(cfg, s, SATP, value);
            && r == s.(satp := r.satp, flushes := s.flushes + 1)
            && if cfg.xlen == 32 then k in r.satp <==> Given(cfg, value, k) && (k < 22 || k == 31)
               else if 61 !in value && 62 !in value && (60 in value ==> 63 in value) then
                 k in r.satp <==> Given(cfg, value, k) && (k < 44 || 60 <= k)
               else r.satp == s.satp
  {
    if cfg.xlen == 64 {
      ModeIs(cfg, Zext(cfg, value));
    }
  }

  lemma ModeIs(cfg: Config, val: Word)
    requires cfg.xlen == 64
    ensures ModeOk(cfg, val) <==> 61 !in val && 62 !in val && (60 in val ==> 63 in val)
  {
    var mode := SatpMode64(val);
    assert forall k :: k in {60, 61, 62, 63} ==> (k in mode <==> k in val);
    if 61 !in val && 62 !in val && (60 in val ==> 63 in val) {
      assert forall k :: k in mode ==> k == 60 || k == 63;
      assert mode == (if 60 in val then {60, 63} else if 63 in val then {63} else {});
    }
  }

  /**
   misa: nothing if the compressed extension is given up in front of an instruction at half a word; otherwise the
   supported ones of M, A, F, D and C as written, D only together with F.
   */
  lemma MisaWrite(cfg: Config, s: State, value: Word, k: nat)
    requires ConfigOk(cfg)
    ensures var r := SetCsr(cfg, s, MISA, value);
            && r == s.(misa := r.misa)
            && if 2 !in value && s.pc / 2 % 2 == 1 then r.misa == s.misa
               else k in r.misa <==>
                    if k in {0, 2, 3, 5, 12} && k in cfg.maxIsa then k in value && (k == 3 ==> 5 in value)
                    else k in s.misa
  {}

  /** dcsr: the privilege, step, halt and the three ebreak bits; the cause is not written. */
  lemma DcsrWrite(cfg: Config, s: State, value: Word)
    requires ConfigOk(cfg)
    ensures SetCsr(cfg, s, DCSR, value)
            == s.(debug := s.debug.(dcsr := Dcsr(s.debug.dcsr.cause,
                                                 (if 0 in value then 1 else 0) + (if 1 in value then 2 else 0),
                                                 2 in value, 15 in value, 13 in value, 12 in value, 3 in value)))
  {}

  /** The floating-point registers: fcsr is fflags and, five bits up, frm; all three mark the state dirty. */
  lemma FloatWrites(cfg: Config, s: State, value: Word, k: nat)
    requires ConfigOk(cfg) && k < 8
    ensures var r := SetCsr(cfg, s, FCSR, value);
            && r == s.(mstatus := s.mstatus + {13, 14, if cfg.xlen == 32 then 31 else 63}, float := r.float)
            && (k in r.float.fflags <==> k < 5 && k in value) && (k in r.float.frm <==> k < 3 && k + 5 in value)
    ensures var r := SetCsr(cfg, s, FFLAGS, value);
            && r == s.(mstatus := s.mstatus + {13, 14, if cfg.xlen == 32 then 31 else 63}, float := r.float)
            && (k in r.float.fflags <==> k < 5 && k in value) && r.float.frm == s.float.frm
    ensures var r := SetCsr(cfg, s, FRM, value);
            && r == s.(mstatus := s.mstatus + {13, 14, if cfg.xlen == 32 then 31 else 63}, float := r.float)
            && (k in r.float.frm <==> k < 3 && k in value) && r.float.fflags == s.float.fflags
  {
    RoundingBits(Zext(cfg, value), k);
  }

  lemma RoundingBits(val: Word, k: nat)
    ensures k in Rounding(val) <==> k < 3 && k + 5 in val
  {
    if k < 3 && k + 5 in val {
      assert k == k + 5 - 5;
    }
  }

  /** The supervisor's trap registers: the value, without the bits that must be zero, and nothing else changes. */
  lemma SupervisorTrapWrites(cfg: Config, s: State, value: Word)
    requires ConfigOk(cfg)
    ensures var v, t := Zext(cfg, value), s.traps;
            && SetCsr(cfg, s, SEPC, value) == s.(traps := t.(sepc := ToNat(v - {0})))
            && SetCsr(cfg, s, STVEC, value) == s.(traps := t.(stvec := v - {0, 1}))
            && SetCsr(cfg, s, SCAUSE, value) == s.(traps := t.(scause := ToNat(v)))
            && SetCsr(cfg, s, STVAL, value) == s.(traps := t.(stval := ToNat(v)))
  {
    hide ToNat, Zext;
  }

  /** The machine's, and dpc. */
  lemma MachineTrapWrites(cfg: Config, s: State, value: Word)
    requires ConfigOk(cfg)
    ensures var v, t := Zext(cfg, value), s.traps;
            && SetCsr(cfg, s, MEPC, value) == s.(traps := t.(mepc := ToNat(v - {0})))
            && SetCsr(cfg, s, MTVEC, value) == s.(traps := t.(mtvec := v - {1}))
            && SetCsr(cfg, s, MCAUSE, value) == s.(traps := t.(mcause := ToNat(v)))
            && SetCsr(cfg, s, MTVAL, value) == s.(traps := t.(mtval := ToNat(v)))
            && SetCsr(cfg, s, DPC, value) == s.(debug := s.debug.(dpc := ToNat(v - {0})))
  {
    hide ToNat, Zext;
  }

  // ----- Reset, returns and what the MMU sees -----

  /** A hart comes out of reset in M-mode at 0x1000, with all its extensions, no translation and no interrupts. */
  lemma ResetIs(cfg: Config, halt: bool)
    requires ConfigOk(cfg)
    ensures var r := ResetState(cfg, halt);
            && r.pc == 0x1000 && r.prv == 3 && r.misa == cfg.maxIsa && r.satp == {}
            && r.ints == Interrupts({}, {}, {}, {}) && r.debug.dcsr == Dcsr(0, 0, false, false, false, false, halt)
            && (forall k :: k in r.mstatus <==> k in if cfg.xlen == 32 then {32, 34} else {33, 35})
  {
    hide NewMstatus, TranslationBitsDiffer;
    assert Zext(cfg, {}) == {};
    FirstBits(cfg);
  }

  lemma FirstBits(cfg: Config)
    requires ConfigOk(cfg)
    ensures forall k :: k in NewMstatus(cfg, cfg.maxIsa, {}, {}) <==> k in if cfg.xlen == 32 then {32, 34} else {33, 35}
  {
    hide NewMstatus, LegalizePrivilege, Dirty, MstatusMask;
    var m := NewMstatus(cfg, cfg.maxIsa, {}, {});
    FirstFields(cfg);
    forall k ensures k in m <==> k in if cfg.xlen == 32 then {32, 34} else {33, 35} {
      if k !in MPP + UXL + SXL + {SdBit(cfg)} {
        NewMstatusBit(cfg, cfg.maxIsa, {}, {}, k);
      }
    }
  }

  lemma FirstFields(cfg: Config)
    requires ConfigOk(cfg)
    ensures var m := NewMstatus(cfg, cfg.maxIsa, {}, {});
            && 11 !in m && 12 !in m && SdBit(cfg) !in m
            && (32 in m <==> cfg.xlen == 32) && (34 in m <==> cfg.xlen == 32)
            && (33 in m <==> cfg.xlen == 64) && (35 in m <==> cfg.xlen == 64)
  {
    hide NewMstatus, LegalizePrivilege, MstatusMask;
    var m := NewMstatus(cfg, cfg.maxIsa, {}, {});
    NewMstatusBits(cfg, cfg.maxIsa, {}, {});
    Legalized(cfg, cfg.maxIsa, 0);
    NewMstatusBit(cfg, cfg.maxIsa, {}, {}, 13);
    NewMstatusBit(cfg, cfg.maxIsa, {}, {}, 15);
  }

  /** What the returns leave behind: the previous enable bit set, and the previous privilege U. */
  lemma ReturnsReset(cfg: Config, s: State)
    requires ConfigOk(cfg) && Inv(cfg, s)
    ensures var r := Mret(cfg, s);
            && r.pc == s.traps.mepc && r.prv == Field2(s.mstatus, 11)
            && (3 in r.mstatus <==> 7 in s.mstatus) && 7 in r.mstatus && 11 !in r.mstatus && 12 !in r.mstatus
            && (forall k :: k !in {3, 7, 11, 12} ==> (k in r.mstatus <==> k in s.mstatus))
    ensures var r := Sret(cfg, s);
            && r.pc == s.traps.sepc && r.prv == (if 8 in s.mstatus then 1 else 0)
            && (1 in r.mstatus <==> 5 in s.mstatus) && 5 in r.mstatus && 8 !in r.mstatus
            && (forall k :: k !in {1, 5, 8} ==> (k in r.mstatus <==> k in s.mstatus))
  {
    hide SetCsr, SatpOk, MisaOk, IntsOk, SetPrivilege, MachineUnstack, SupervisorUnstack, LegalizePrivilege;
    hide Field2, Mret, Sret;
    MretEffect(cfg, s);
    SretEffect(cfg, s);
    MretBits(cfg, s);
    SretBits(cfg, s);
  }

  lemma MretBits(cfg: Config, s: State)
    requires ConfigOk(cfg) && Inv(cfg, s)
    ensures var m := Mret(cfg, s).mstatus; 7 in m && 11 !in m && 12 !in m
  {
    hide SetCsr, SatpOk, MisaOk, IntsOk, SetPrivilege, MachineUnstack, LegalizePrivilege, Field2;
    var to := Field2(s.mstatus, 11);
    SetPrivilegeOnly(cfg, s.(pc := s.traps.mepc), to);
    var p := SetPrivilege(s.(pc := s.traps.mepc), to);
    UnstackBits(s.mstatus);
    WriteOwnBits(cfg, p, MachineUnstack(s.mstatus), {MIE, MPIE, 11, 12});
    Legalized(cfg, s.misa, 0);
    FieldZero(SetCsr(cfg, p, MSTATUS, MachineUnstack(s.mstatus)).mstatus);
  }

  lemma FieldZero(m: Word)
    ensures Field2(m, 11) == 0 ==> 11 !in m && 12 !in m
  {}

  lemma SretBits(cfg: Config, s: State)
    requires ConfigOk(cfg) && Inv(cfg, s)
    ensures var m := Sret(cfg, s).mstatus; 5 in m && 8 !in m
  {
    hide SetCsr, SatpOk, MisaOk, IntsOk, SetPrivilege, SupervisorUnstack, LegalizePrivilege, Field2;
    var to := if SPP in s.mstatus then PRV_S else PRV_U;
    SetPrivilegeOnly(cfg, s.(pc := s.traps.sepc), to);
    var p := SetPrivilege(s.(pc := s.traps.sepc), to);
    UnstackBits(s.mstatus);
    WriteOwnBits(cfg, p, SupervisorUnstack(s.mstatus), {SIE, SPIE, SPP});
  }

  /** Which bits of mstatus the MMU reads, and for what: MPRV and MPP, SUM and MXR. */
  lemma MmuReads(cfg: Config, s: State)
    ensures var c := ContextOf(cfg, s);
            && (c.mprv <==> 17 in s.mstatus) && (c.sum <==> 18 in s.mstatus) && (c.mxr <==> 19 in s.mstatus)
            && c.mpp == (if 11 in s.mstatus then 1 else 0) + (if 12 in s.mstatus then 2 else 0)
            && (c.debug <==> s.debug.dcsr.cause != 0) && c.prv == s.prv && c.xlen == cfg.xlen
  {
    hide ToNat;
  }

  /** A load of S-mode from a leaf page: pages of U-mode need SUM, and pages that cannot be read need X and MXR. */
  lemma SupervisorLoads(cfg: Config, s: State, rd: PageWalk.Reading, va: nat, bits: nat, i: nat, pte: nat)
    requires PageWalk.LeafSpec(rd, ContextOf(cfg, s), 1, PageWalk.LOAD, va, bits, i, pte).Ok?
    ensures pte / 16 % 2 == 1 ==> 18 in s.mstatus
    ensures pte / 2 % 2 == 1 || (pte / 8 % 2 == 1 && 19 in s.mstatus)
    ensures pte / 64 % 2 == 1
  {
    hide ToNat, PageWalk.Unaligned, PageWalk.SplicePpn;
  }

  /** Floating-point and extension state, once used, is marked dirty together with the summary bit. */
  lemma DirtyMarks(cfg: Config, s: State, k: nat)
    requires ConfigOk(cfg)
    ensures var sd := if cfg.xlen == 32 then 31 else 63;
            && (k in Next(cfg, s, FloatUsed).mstatus <==> k in s.mstatus || k in {13, 14, sd})
            && (k in Next(cfg, s, ExtensionUsed).mstatus <==> k in s.mstatus || k in {15, 16, sd})
  {}
}

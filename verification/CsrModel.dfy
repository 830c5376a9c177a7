/**
 The privileged state of a hart: control and status registers, traps and interrupts, as functions on the state.
 The invariants of the CSRs, and the agreement between choosing an interrupt and taking it.

 A register whose bits have separate meanings is the set of its one-bits: `&` is intersection, `& ~` is difference.
 */
module CsrModel {
  import opened Common
  import PageWalk
  import Bits

  type Word = set<nat>

  const PRV_U: nat := 0
  const PRV_S: nat := 1
  const PRV_H: nat := 2
  const PRV_M: nat := 3

  // mstatus
  const SIE: nat := 1
  const MIE: nat := 3
  const SPIE: nat := 5
  const MPIE: nat := 7
  const SPP: nat := 8
  const MPP: Word := {11, 12}
  const FS: Word := {13, 14}
  const XS: Word := {15, 16}
  const MPRV: nat := 17
  const SUM: nat := 18
  const MXR: nat := 19
  const UXL: Word := {32, 33}
  const SXL: Word := {34, 35}
  const SSTATUS_MASK: Word := {SIE, SPIE, SPP, 13, 14, 15, 16, SUM, MXR}

  // interrupts
  const SSIP: nat := 1
  const MSIP: nat := 3
  const STIP: nat := 5
  const MTIP: nat := 7
  const SEIP: nat := 9
  const MEIP: nat := 11
  const IRQ_COP: nat := 12

  // misa
  const A: nat := 0
  const C: nat := 2
  const D: nat := 3
  const F: nat := 5
  const M: nat := 12
  const S: nat := 18
  const U: nat := 20

  const CAUSE_BREAKPOINT: nat := 3
  const MEDELEG_MASK: Word := {0, 3, 8, 12, 13, 15}
  const DCSR_CAUSE_SWBP: nat := 1
  const DEBUG_ROM_ENTRY: nat := 0x800
  const DEBUG_ROM_TVEC: nat := 0x808

  /** What is fixed for a hart: `max_xlen`, whether an extension is attached, and `max_isa`. */
  datatype Config = Config(xlen: nat, ext: bool, maxIsa: Word)

  /** What `parse_isa_string` guarantees. */
  predicate ConfigOk(cfg: Config) {
    cfg.xlen in {32, 64} && S in cfg.maxIsa && U in cfg.maxIsa && (D in cfg.maxIsa ==> F in cfg.maxIsa)
  }

  datatype Dcsr = Dcsr(cause: nat, prv: nat, step: bool, ebreakm: bool, ebreaks: bool, ebreaku: bool, halt: bool)

  datatype Interrupts = Interrupts(mie: Word, mip: Word, mideleg: Word, medeleg: Word)

  datatype TrapRegs = TrapRegs(mtvec: Word, mepc: nat, mcause: nat, mtval: nat,
                               stvec: Word, sepc: nat, scause: nat, stval: nat)

  datatype Debug = Debug(dcsr: Dcsr, dpc: nat)

  datatype Float = Float(fflags: Word, frm: Word)

  /** `flushes` counts the calls of `flush_tlb`. */
  datatype State = State(pc: nat, prv: nat, misa: Word, mstatus: Word, satp: Word, ints: Interrupts, traps: TrapRegs,
                         debug: Debug, float: Float, flushes: nat)

  // ----- Words and numbers -----

  /** The number with the bits of `w` below bit `n`. */
  function Number(w: Word, n: nat): (r: nat)
    ensures r < Bits.Pow2(n)
  {
    if n == 0 then 0 else Number(w, n - 1) + if n - 1 in w then Bits.Pow2(n - 1) else 0
  }

  function ToNat(w: Word): nat {
    Number(w, 64)
  }

  /** `zext_xlen` */
  function Zext(cfg: Config, val: Word): Word {
    set k | k in val && k < cfg.xlen
  }

  /** `(old & ~mask) | (val & mask)` */
  function Merge(before: Word, val: Word, mask: Word): Word {
    (before - mask) + (val * mask)
  }

  function Field2(w: Word, low: nat): nat {
    (if low in w then 1 else 0) + (if low + 1 in w then 2 else 0)
  }

  function SetField2(w: Word, low: nat, value: nat): Word {
    w - {low, low + 1} + (if value % 2 == 1 then {low} else {}) + (if value / 2 % 2 == 1 then {low + 1} else {})
  }

  function SetBit(w: Word, k: nat, value: bool): Word {
    if value then w + {k} else w - {k}
  }

  // ----- processor.cc:232-249: privilege -----

  function LegalizePrivilege(misa: Word, prv: nat): nat {
    if U !in misa then PRV_M
    else if prv == PRV_H || S !in misa then PRV_U
    else prv
  }

  function SetPrivilege(s: State, prv: nat): State {
    s.(flushes := s.flushes + 1, prv := LegalizePrivilege(s.misa, prv))
  }

  // ----- processor.cc:355-560: set_csr -----

  datatype CsrName =
    | FFLAGS | FRM | FCSR | MSTATUS | MIP_ | MIE_ | MIDELEG | MEDELEG | SSTATUS | SIP_ | SIE_ | SATP
    | SEPC | STVEC | SCAUSE | STVAL | MEPC | MTVEC | MCAUSE | MTVAL | MISA | DCSR | DPC

  function DelegableInts(cfg: Config): Word {
    {SSIP, STIP, SEIP} + (if cfg.ext then {IRQ_COP} else {})
  }

  function AllInts(cfg: Config): Word {
    DelegableInts(cfg) + {MSIP, MTIP}
  }

  function SdBit(cfg: Config): nat { if cfg.xlen == 32 then 31 else 63 }

  predicate Dirty(mstatus: Word) { FS <= mstatus || XS <= mstatus }

  /** `dirty_fp_state` */
  function DirtyFp(cfg: Config, s: State): State {
    s.(mstatus := s.mstatus + FS + {SdBit(cfg)})
  }

  /** `dirty_ext_state` */
  function DirtyExt(cfg: Config, s: State): State {
    s.(mstatus := s.mstatus + XS + {SdBit(cfg)})
  }

  /** The bits of mstatus that a write sets as they come. */
  function MstatusMask(cfg: Config, misa: Word): Word {
    {SIE, SPIE, MIE, MPIE, 13, 14, MPRV, SUM, MXR, 20, 21, 22, 32, 33, 34, 35}
    + (if cfg.ext then XS else {}) + (if S in misa then {SPP} else {})
  }

  function XlValue(cfg: Config): nat { if cfg.xlen == 32 then 1 else 2 }

  /** processor.cc:387-403. */
  function NewMstatus(cfg: Config, misa: Word, before: Word, val: Word): Word {
    var mpp := LegalizePrivilege(misa, Field2(val, 11));
    var m := Merge(SetField2(before, 11, mpp), val, MstatusMask(cfg, misa));
    var m := SetBit(m, SdBit(cfg), Dirty(m));
    SetField2(SetField2(m, 32, XlValue(cfg)), 34, XlValue(cfg))
  }

  /** `(a ^ b) & (MPP | MPRV | SUM | MXR)` is not zero. */
  predicate TranslationBitsDiffer(a: Word, b: Word) {
    exists k :: k in {11, 12, MPRV, SUM, MXR} && (k in a) != (k in b)
  }

  function WriteMstatus(cfg: Config, s: State, val: Word): State {
    s.(mstatus := NewMstatus(cfg, s.misa, s.mstatus, val),
       flushes := s.flushes + if TranslationBitsDiffer(val, s.mstatus) then 1 else 0)
  }

  /** The bits of satp outside the ASID. */
  predicate SatpBit(cfg: Config, k: nat) {
    if cfg.xlen == 32 then k < 22 || k == 31 else k < 44 || 60 <= k < 64
  }

  function MaskSatp(cfg: Config, val: Word): Word {
    set k | k in val && SatpBit(cfg, k)
  }

  function SatpMode64(satp: Word): Word { satp * {60, 61, 62, 63} }

  /** Off, Sv39 and Sv48: modes 0, 8 and 9. */
  predicate ModeOk(cfg: Config, satp: Word) {
    cfg.xlen == 32 || SatpMode64(satp) in {{}, {63}, {60, 63}}
  }

  function WriteSatp(cfg: Config, s: State, val: Word): State {
    s.(flushes := s.flushes + 1, satp := if ModeOk(cfg, val) then MaskSatp(cfg, val) else s.satp)
  }

  function MisaMask(cfg: Config): Word { {M, A, F, D, C} * cfg.maxIsa }

  function WriteMisa(cfg: Config, s: State, val: Word): State {
    if C !in val && s.pc / 2 % 2 == 1 then s
    else
      var val := if F in val then val else val - {D};
      s.(misa := (val * MisaMask(cfg)) + (s.misa - MisaMask(cfg)))
  }

  function WriteDcsr(s: State, val: Word): State {
    var d := s.debug.dcsr.(prv := Field2(val, 0), step := 2 in val, halt := 3 in val,
                           ebreaku := 12 in val, ebreaks := 13 in val, ebreakm := 15 in val);
    s.(debug := s.debug.(dcsr := d))
  }

  function WriteTrapReg(t: TrapRegs, which: CsrName, val: Word): TrapRegs {
    match which
    case SEPC => t.(sepc := ToNat(val - {0}))
    case STVEC => t.(stvec := val - {0, 1})
    case SCAUSE => t.(scause := ToNat(val))
    case STVAL => t.(stval := ToNat(val))
    case MEPC => t.(mepc := ToNat(val - {0}))
    case MTVEC => t.(mtvec := val - {1})
    case MCAUSE => t.(mcause := ToNat(val))
    case MTVAL => t.(mtval := ToNat(val))
    case _ => t
  }

  /** The exception flags and the rounding mode in a value of fcsr. */
  function Flags(val: Word): Word { val * {0, 1, 2, 3, 4} }
  function Rounding(val: Word): Word { set k | k in val && 5 <= k < 8 :: k - 5 }

  function SetCsr(cfg: Config, s: State, which: CsrName, value: Word): State {
    var val := Zext(cfg, value);
    match which
    case FFLAGS => DirtyFp(cfg, s).(float := s.float.(fflags := Flags(val)))
    case FRM => DirtyFp(cfg, s).(float := s.float.(frm := val * {0, 1, 2}))
    case FCSR => DirtyFp(cfg, s).(float := Float(Flags(val), Rounding(val)))
    case MSTATUS => WriteMstatus(cfg, s, val)
    case MIP_ => s.(ints := s.ints.(mip := Merge(s.ints.mip, val, {SSIP, STIP})))
    case MIE_ => s.(ints := s.ints.(mie := Merge(s.ints.mie, val, AllInts(cfg))))
    case MIDELEG => s.(ints := s.ints.(mideleg := Merge(s.ints.mideleg, val, DelegableInts(cfg))))
    case MEDELEG => s.(ints := s.ints.(medeleg := Merge(s.ints.medeleg, val, MEDELEG_MASK)))
    case SSTATUS => WriteMstatus(cfg, s, Zext(cfg, Merge(s.mstatus, val, SSTATUS_MASK)))
    case SIP_ =>
      var v := Zext(cfg, Merge(s.ints.mip, val, {SSIP} * s.ints.mideleg));
      s.(ints := s.ints.(mip := Merge(s.ints.mip, v, {SSIP, STIP})))
    case SIE_ =>
      var v := Zext(cfg, Merge(s.ints.mie, val, s.ints.mideleg));
      s.(ints := s.ints.(mie := Merge(s.ints.mie, v, AllInts(cfg))))
    case SATP => WriteSatp(cfg, s, val)
    case MISA => WriteMisa(cfg, s, val)
    case DCSR => WriteDcsr(s, val)
    case DPC => s.(debug := s.debug.(dpc := ToNat(val - {0})))
    case _ => s.(traps := WriteTrapReg(s.traps, which, val))
  }

  // ----- processor.cc:251-320: traps -----

  function EnterDebugMode(s: State, cause: nat): State {
    var s := s.(debug := s.debug.(dcsr := s.debug.dcsr.(cause := cause, prv := s.prv)));
    var s := SetPrivilege(s, PRV_M);
    s.(debug := s.debug.(dpc := s.pc), pc := DEBUG_ROM_ENTRY)
  }

  /** A trap cause: the top bit, and the number below it. */
  datatype Cause = Cause(interrupt: bool, code: nat)

  function CauseWord(cfg: Config, c: Cause): nat
    requires cfg.xlen > 0
  {
    (if c.interrupt then Bits.Pow2(cfg.xlen - 1) else 0) + c.code
  }

  predicate BreaksIntoDebug(s: State, c: Cause) {
    && c == Cause(false, CAUSE_BREAKPOINT)
    && (|| (s.prv == PRV_M && s.debug.dcsr.ebreakm)
        || (s.prv == PRV_S && s.debug.dcsr.ebreaks)
        || (s.prv == PRV_U && s.debug.dcsr.ebreaku))
  }

  predicate Delegated(cfg: Config, s: State, c: Cause) {
    var deleg := if c.interrupt then s.ints.mideleg else s.ints.medeleg;
    s.prv <= PRV_S && c.code < cfg.xlen && c.code in deleg
  }

  /** `s = set_field(mstatus, xPIE, xIE); s = set_field(s, xPP, prv); s = set_field(s, xIE, 0)` */
  function SupervisorStack(mstatus: Word, prv: nat): Word {
    SetBit(SetBit(SetBit(mstatus, SPIE, SIE in mstatus), SPP, prv % 2 == 1), SIE, false)
  }

  function MachineStack(mstatus: Word, prv: nat): Word {
    SetBit(SetField2(SetBit(mstatus, MPIE, MIE in mstatus), 11, prv), MIE, false)
  }

  function TrapToS(cfg: Config, s: State, c: Cause, epc: nat, tval: nat): State
    requires cfg.xlen > 0
  {
    var t := s.(pc := ToNat(s.traps.stvec), traps := s.traps.(scause := CauseWord(cfg, c), sepc := epc, stval := tval));
    SetPrivilege(SetCsr(cfg, t, MSTATUS, SupervisorStack(s.mstatus, s.prv)), PRV_S)
  }

  function TrapToM(cfg: Config, s: State, c: Cause, epc: nat, tval: nat): State
    requires cfg.xlen > 0
  {
    var vector := if 0 in s.traps.mtvec && c.interrupt then 4 * c.code else 0;
    var t := s.(pc := (ToNat(s.traps.mtvec - {0}) + vector) % WORD,
                traps := s.traps.(mepc := epc, mcause := CauseWord(cfg, c), mtval := tval));
    SetPrivilege(SetCsr(cfg, t, MSTATUS, MachineStack(s.mstatus, s.prv)), PRV_M)
  }

  function TakeTrap(cfg: Config, s: State, c: Cause, epc: nat, tval: nat): State
    requires cfg.xlen > 0
  {
    if s.debug.dcsr.cause != 0 then
      s.(pc := if c == Cause(false, CAUSE_BREAKPOINT) then DEBUG_ROM_ENTRY else DEBUG_ROM_TVEC)
    else if BreaksIntoDebug(s, c) then EnterDebugMode(s, DCSR_CAUSE_SWBP)
    else if Delegated(cfg, s, c) then TrapToS(cfg, s, c, epc, tval)
    else TrapToM(cfg, s, c, epc, tval)
  }

  // ----- The way back: MRET and SRET of sections 3.1.6.1 and 3.2.2 of the privileged architecture, and DRET -----

  function MachineUnstack(mstatus: Word): Word {
    SetField2(SetBit(SetBit(mstatus, MIE, MPIE in mstatus), MPIE, true), 11, PRV_U)
  }

  function Mret(cfg: Config, s: State): State {
    var to := Field2(s.mstatus, 11);
    SetCsr(cfg, SetPrivilege(s.(pc := s.traps.mepc), to), MSTATUS, MachineUnstack(s.mstatus))
  }

  function SupervisorUnstack(mstatus: Word): Word {
    SetBit(SetBit(SetBit(mstatus, SIE, SPIE in mstatus), SPIE, true), SPP, false)
  }

  function Sret(cfg: Config, s: State): State {
    var to := if SPP in s.mstatus then PRV_S else PRV_U;
    SetCsr(cfg, SetPrivilege(s.(pc := s.traps.sepc), to), MSTATUS, SupervisorUnstack(s.mstatus))
  }

  /** Back to the privilege that entered debug mode, and out of it. */
  function Dret(s: State): State {
    var s := SetPrivilege(s.(pc := s.debug.dpc), s.debug.dcsr.prv);
    s.(debug := s.debug.(dcsr := s.debug.dcsr.(cause := 0)))
  }

  // ----- processor.cc:182-221: choosing an interrupt -----

  predicate MachineEnabled(s: State) { s.prv < PRV_M || (s.prv == PRV_M && MIE in s.mstatus) }
  predicate SupervisorEnabled(s: State) { s.prv < PRV_S || (s.prv == PRV_S && SIE in s.mstatus) }

  function EnabledInterrupts(s: State, pending: Word): Word {
    var forM := if MachineEnabled(s) then pending - s.ints.mideleg else {};
    if forM != {} then forM else if SupervisorEnabled(s) then pending * s.ints.mideleg else {}
  }

  function AtLeast(w: Word, k: nat): Word { set j | j in w && j >= k }

  /** The class to choose from; None where the source calls `abort`. */
  function HighestClass(enabled: Word): Option<Word> {
    if AtLeast(enabled, MEIP) != {} then Some(AtLeast(enabled, MEIP))
    else if enabled * {MEIP, SEIP} != {} then Some(enabled * {MEIP, SEIP})
    else if enabled * {MSIP, SSIP} != {} then Some(enabled * {MSIP, SSIP})
    else if enabled * {MTIP, STIP} != {} then Some(enabled * {MTIP, STIP})
    else None
  }

  /** The lowest bit at or above `i`. */
  function Lowest(w: Word, i: nat): nat
    decreases 64 - i
  {
    if i in w || i >= 64 then i else Lowest(w, i + 1)
  }

  datatype Choice = NoInterrupt | Abort | Take(code: nat)

  function ChooseInterrupt(s: State, pending: Word): Choice {
    var enabled := EnabledInterrupts(s, pending);
    if s.debug.dcsr.cause != 0 || enabled == {} then NoInterrupt
    else
      match HighestClass(enabled)
      case None => Abort
      case Some(class_) => Take(Lowest(class_, 0))
  }

  // ----- The invariants -----

  predicate LegalPrv(prv: nat) { prv in {PRV_U, PRV_S, PRV_M} }

  ghost predicate MstatusOk(cfg: Config, m: Word) {
    && LegalPrv(Field2(m, 11))
    && (SdBit(cfg) in m <==> Dirty(m))
    && Field2(m, 32) == Field2(m, 34) == XlValue(cfg)
  }

  ghost predicate MisaOk(cfg: Config, misa: Word) {
    && misa <= cfg.maxIsa && cfg.maxIsa - MisaMask(cfg) <= misa
    && (D in misa ==> F in misa)
  }

  ghost predicate IntsOk(cfg: Config, i: Interrupts) {
    i.mie <= AllInts(cfg) && i.mideleg <= DelegableInts(cfg) && i.medeleg <= MEDELEG_MASK
  }

  ghost predicate SatpOk(cfg: Config, satp: Word) {
    (forall k :: k in satp ==> SatpBit(cfg, k)) && ModeOk(cfg, satp)
  }

  /** What holds of every hart between two operations. */
  ghost predicate Inv(cfg: Config, s: State) {
    && LegalPrv(s.prv) && s.debug.dcsr.prv <= 3
    && MstatusOk(cfg, s.mstatus) && MisaOk(cfg, s.misa) && IntsOk(cfg, s.ints) && SatpOk(cfg, s.satp)
  }

  lemma SupportsModes(cfg: Config, misa: Word)
    requires ConfigOk(cfg) && MisaOk(cfg, misa)
    ensures S in misa && U in misa
  {}

  /** PRV_H becomes U; the other modes are kept. */
  lemma Legalized(cfg: Config, misa: Word, prv: nat)
    requires ConfigOk(cfg) && MisaOk(cfg, misa) && prv <= 3
    ensures LegalizePrivilege(misa, prv) == if prv == PRV_H then PRV_U else prv
    ensures LegalPrv(LegalizePrivilege(misa, prv))
  {
    SupportsModes(cfg, misa);
  }

  lemma SetField2Gets(w: Word, low: nat, value: nat)
    requires value <= 3
    ensures Field2(SetField2(w, low, value), low) == value
    ensures forall k :: k != low && k != low + 1 ==> (k in SetField2(w, low, value) <==> k in w)
  {}

  /** Bit by bit: what a write of mstatus leaves in it. */
  lemma NewMstatusBits(cfg: Config, misa: Word, before: Word, val: Word)
    requires ConfigOk(cfg) && MisaOk(cfg, misa)
    ensures var m := NewMstatus(cfg, misa, before, val);
            && Field2(m, 11) == LegalizePrivilege(misa, Field2(val, 11))
            && (SdBit(cfg) in m <==> Dirty(m))
            && Field2(m, 32) == Field2(m, 34) == XlValue(cfg)
            && (forall k :: k !in MPP + UXL + SXL + {SdBit(cfg)} ==>
                  (k in m <==> if k in MstatusMask(cfg, misa) then k in val else k in before))
  {
    NewMstatusFields(cfg, misa, before, val);
    hide NewMstatus, LegalizePrivilege, Field2, Dirty, MstatusMask, SdBit;
    forall k | k !in MPP + UXL + SXL + {SdBit(cfg)}
      ensures k in NewMstatus(cfg, misa, before, val) <==>
              if k in MstatusMask(cfg, misa) then k in val else k in before
    {
      NewMstatusBit(cfg, misa, before, val, k);
    }
  }

  lemma NewMstatusBit(cfg: Config, misa: Word, before: Word, val: Word, k: nat)
    requires k !in MPP + UXL + SXL + {SdBit(cfg)}
    ensures k in NewMstatus(cfg, misa, before, val) <==>
            if k in MstatusMask(cfg, misa) then k in val else k in before
  {
    hide LegalizePrivilege, Field2, Dirty, MstatusMask;
  }

  lemma NewMstatusFields(cfg: Config, misa: Word, before: Word, val: Word)
    requires ConfigOk(cfg) && MisaOk(cfg, misa)
    ensures var m := NewMstatus(cfg, misa, before, val);
            && Field2(m, 11) == LegalizePrivilege(misa, Field2(val, 11))
            && (SdBit(cfg) in m <==> Dirty(m))
            && Field2(m, 32) == Field2(m, 34) == XlValue(cfg)
  {
    MaskSparesMpp(cfg, misa);
    hide LegalizePrivilege, Field2, SetField2, Dirty, MstatusMask, XlValue;
    Field2Range(val, 11);
    XlRange(cfg);
    var mpp := LegalizePrivilege(misa, Field2(val, 11));
    Legalized(cfg, misa, Field2(val, 11));
    var m1 := SetField2(before, 11, mpp);
    SetField2Gets(before, 11, mpp);
    var m2 := Merge(m1, val, MstatusMask(cfg, misa));
    var m3 := SetBit(m2, SdBit(cfg), Dirty(m2));
    var m4 := SetField2(m3, 32, XlValue(cfg));
    SetField2Gets(m3, 32, XlValue(cfg));
    var m5 := SetField2(m4, 34, XlValue(cfg));
    SetField2Gets(m4, 34, XlValue(cfg));
    Field2Same(m1, m2, 11);
    Field2Same(m2, m3, 11);
    Field2Same(m3, m4, 11);
    Field2Same(m4, m5, 11);
    Field2Same(m4, m5, 32);
    DirtySame(m2, m5);
  }

  lemma MaskSparesMpp(cfg: Config, misa: Word)
    ensures 11 !in MstatusMask(cfg, misa) && 12 !in MstatusMask(cfg, misa)
  {}

  lemma XlRange(cfg: Config)
    ensures 1 <= XlValue(cfg) <= 2
  {}

  lemma Field2Same(a: Word, b: Word, low: nat)
    requires (low in a <==> low in b) && (low + 1 in a <==> low + 1 in b)
    ensures Field2(a, low) == Field2(b, low)
  {}

  lemma DirtySame(a: Word, b: Word)
    requires forall k :: 13 <= k <= 16 ==> (k in a <==> k in b)
    ensures Dirty(a) == Dirty(b)
  {}

  lemma Field2Range(w: Word, low: nat)
    ensures Field2(w, low) <= 3
  {}

  lemma MstatusWritten(cfg: Config, s: State, val: Word)
    requires ConfigOk(cfg) && Inv(cfg, s)
    ensures Inv(cfg, WriteMstatus(cfg, s, val))
  {
    hide NewMstatus, LegalizePrivilege, Field2, SatpOk, MisaOk;
    NewMstatusBits(cfg, s.misa, s.mstatus, val);
    Field2Range(val, 11);
    Legalized(cfg, s.misa, Field2(val, 11));
  }

  lemma DirtyOk(cfg: Config, m: Word, unit: Word)
    requires ConfigOk(cfg) && MstatusOk(cfg, m) && unit in {FS, XS}
    ensures MstatusOk(cfg, m + unit + {SdBit(cfg)})
  {}

  lemma MisaWritten(cfg: Config, s: State, val: Word)
    requires ConfigOk(cfg) && MisaOk(cfg, s.misa)
    ensures MisaOk(cfg, WriteMisa(cfg, s, val).misa)
  {}

  lemma SatpWritten(cfg: Config, s: State, val: Word)
    requires ConfigOk(cfg) && SatpOk(cfg, s.satp)
    ensures SatpOk(cfg, WriteSatp(cfg, s, val).satp)
  {
    if cfg.xlen == 64 {
      assert SatpMode64(MaskSatp(cfg, val)) == SatpMode64(val);
    }
  }

  /** Every CSR write keeps every invariant. */
  lemma SetCsrKeepsInv(cfg: Config, s: State, which: CsrName, value: Word)
    requires ConfigOk(cfg) && Inv(cfg, s)
    ensures Inv(cfg, SetCsr(cfg, s, which, value))
  {
    hide NewMstatus, WriteMstatus, WriteSatp, WriteMisa, SatpOk, MisaOk, MstatusOk, Zext, Flags, Rounding, ToNat;
    var val := Zext(cfg, value);
    match which
    case MSTATUS => MstatusWritten(cfg, s, val);
    case SSTATUS => MstatusWritten(cfg, s, Zext(cfg, Merge(s.mstatus, val, SSTATUS_MASK)));
    case FFLAGS => DirtyOk(cfg, s.mstatus, FS);
    case FRM => DirtyOk(cfg, s.mstatus, FS);
    case FCSR => DirtyOk(cfg, s.mstatus, FS);
    case SATP => SatpWritten(cfg, s, val); SatpOnly(cfg, s, val);
    case MISA => MisaWritten(cfg, s, val); MisaOnly(cfg, s, val);
    case _ =>
  }

  lemma SatpOnly(cfg: Config, s: State, val: Word)
    ensures var r := WriteSatp(cfg, s, val); r == s.(satp := r.satp, flushes := r.flushes)
  {}

  lemma MisaOnly(cfg: Config, s: State, val: Word)
    ensures var r := WriteMisa(cfg, s, val); r == s.(misa := r.misa)
  {}

  // ----- Traps keep the invariants -----

  lemma SetPrivilegeKeepsInv(cfg: Config, s: State, prv: nat)
    requires ConfigOk(cfg) && Inv(cfg, s) && prv <= 3
    ensures Inv(cfg, SetPrivilege(s, prv))
    ensures SetPrivilege(s, prv).prv == if prv == PRV_H then PRV_U else prv
  {
    hide MstatusOk, MisaOk, SatpOk, IntsOk, LegalizePrivilege;
    Legalized(cfg, s.misa, prv);
  }

  lemma TrapToSKeepsInv(cfg: Config, s: State, c: Cause, epc: nat, tval: nat)
    requires ConfigOk(cfg) && Inv(cfg, s)
    ensures Inv(cfg, TrapToS(cfg, s, c, epc, tval)) && TrapToS(cfg, s, c, epc, tval).prv == PRV_S
  {
    hide MstatusOk, MisaOk, SatpOk, IntsOk, ToNat, CauseWord, SetCsr, SupervisorStack, SetPrivilege;
    var t := s.(pc := ToNat(s.traps.stvec), traps := s.traps.(scause := CauseWord(cfg, c), sepc := epc, stval := tval));
    SetCsrKeepsInv(cfg, t, MSTATUS, SupervisorStack(s.mstatus, s.prv));
    SetPrivilegeKeepsInv(cfg, SetCsr(cfg, t, MSTATUS, SupervisorStack(s.mstatus, s.prv)), PRV_S);
  }

  lemma TrapToMKeepsInv(cfg: Config, s: State, c: Cause, epc: nat, tval: nat)
    requires ConfigOk(cfg) && Inv(cfg, s)
    ensures Inv(cfg, TrapToM(cfg, s, c, epc, tval)) && TrapToM(cfg, s, c, epc, tval).prv == PRV_M
  {
    hide MstatusOk, MisaOk, SatpOk, IntsOk, ToNat, CauseWord, SetCsr, MachineStack, SetPrivilege;
    var vector := if 0 in s.traps.mtvec && c.interrupt then 4 * c.code else 0;
    var t := s.(pc := (ToNat(s.traps.mtvec - {0}) + vector) % WORD,
                traps := s.traps.(mepc := epc, mcause := CauseWord(cfg, c), mtval := tval));
    SetCsrKeepsInv(cfg, t, MSTATUS, MachineStack(s.mstatus, s.prv));
    SetPrivilegeKeepsInv(cfg, SetCsr(cfg, t, MSTATUS, MachineStack(s.mstatus, s.prv)), PRV_M);
  }

  /** A trap never lowers the privilege, except that in debug mode it changes nothing but pc. */
  lemma TakeTrapKeepsInv(cfg: Config, s: State, c: Cause, epc: nat, tval: nat)
    requires ConfigOk(cfg) && Inv(cfg, s)
    ensures var r := TakeTrap(cfg, s, c, epc, tval); Inv(cfg, r) && r.prv >= s.prv
  {
    hide MstatusOk, MisaOk, SatpOk, IntsOk, TrapToS, TrapToM, SetPrivilege;
    if s.debug.dcsr.cause == 0 {
      if BreaksIntoDebug(s, c) {
        DebugKeepsInv(cfg, s, DCSR_CAUSE_SWBP);
      } else if Delegated(cfg, s, c) {
        TrapToSKeepsInv(cfg, s, c, epc, tval);
      } else {
        TrapToMKeepsInv(cfg, s, c, epc, tval);
      }
    }
  }

  lemma DebugKeepsInv(cfg: Config, s: State, cause: nat)
    requires ConfigOk(cfg) && Inv(cfg, s)
    ensures Inv(cfg, EnterDebugMode(s, cause)) && EnterDebugMode(s, cause).prv == PRV_M
  {
    hide MstatusOk, MisaOk, SatpOk, IntsOk, SetPrivilege;
    SetPrivilegeKeepsInv(cfg, s.(debug := s.debug.(dcsr := s.debug.dcsr.(cause := cause, prv := s.prv))), PRV_M);
  }

  // ----- Every run -----

  datatype Op =
    | Writes(which: CsrName, value: Word)
    | Privilege(prv: nat)
    | Traps(cause: Cause, epc: nat, tval: nat)
    | Debugs(cause_: nat)
    | FloatUsed                  // a floating-point instruction wrote its state
    | ExtensionUsed              // so did the attached extension
    | ReturnsM | ReturnsS | LeavesDebug
    | Pends(mip: Word)           // the CLINT or a host changes the pending bits
    | Advances(pc: nat)

  predicate OpOk(cfg: Config, op: Op) {
    (op.Privilege? ==> op.prv <= PRV_M) && (op.ExtensionUsed? ==> cfg.ext)
  }

  function Next(cfg: Config, s: State, op: Op): State
    requires cfg.xlen > 0
  {
    match op
    case Writes(which, value) => SetCsr(cfg, s, which, value)
    case Privilege(prv) => SetPrivilege(s, prv)
    case Traps(cause, epc, tval) => TakeTrap(cfg, s, cause, epc, tval)
    case Debugs(cause) => EnterDebugMode(s, cause)
    case FloatUsed => DirtyFp(cfg, s)
    case ExtensionUsed => DirtyExt(cfg, s)
    case ReturnsM => Mret(cfg, s)
    case ReturnsS => Sret(cfg, s)
    case LeavesDebug => Dret(s)
    case Pends(mip) => s.(ints := s.ints.(mip := mip))
    case Advances(pc) => s.(pc := pc)
  }

  lemma ReturnsKeepInv(cfg: Config, s: State)
    requires ConfigOk(cfg) && Inv(cfg, s)
    ensures Inv(cfg, Mret(cfg, s)) && Inv(cfg, Sret(cfg, s)) && Inv(cfg, Dret(s))
  {
    hide MstatusOk, MisaOk, SatpOk, IntsOk, SetCsr, SetPrivilege, Field2, MachineUnstack, SupervisorUnstack;
    Field2Range(s.mstatus, 11);
    var m := SetPrivilege(s.(pc := s.traps.mepc), Field2(s.mstatus, 11));
    SetPrivilegeKeepsInv(cfg, s.(pc := s.traps.mepc), Field2(s.mstatus, 11));
    SetCsrKeepsInv(cfg, m, MSTATUS, MachineUnstack(s.mstatus));
    var to := if SPP in s.mstatus then PRV_S else PRV_U;
    SetPrivilegeKeepsInv(cfg, s.(pc := s.traps.sepc), to);
    SetCsrKeepsInv(cfg, SetPrivilege(s.(pc := s.traps.sepc), to), MSTATUS, SupervisorUnstack(s.mstatus));
    SetPrivilegeKeepsInv(cfg, s.(pc := s.debug.dpc), s.debug.dcsr.prv);
  }

  lemma NextKeepsInv(cfg: Config, s: State, op: Op)
    requires ConfigOk(cfg) && Inv(cfg, s) && OpOk(cfg, op)
    ensures Inv(cfg, Next(cfg, s, op))
  {
    hide MstatusOk, MisaOk, SatpOk, TakeTrap, SetPrivilege, SetCsr, EnterDebugMode, Mret, Sret, Dret;
    match op
    case Writes(which, value) => SetCsrKeepsInv(cfg, s, which, value);
    case Privilege(prv) => SetPrivilegeKeepsInv(cfg, s, prv);
    case Traps(cause, epc, tval) => TakeTrapKeepsInv(cfg, s, cause, epc, tval);
    case Debugs(cause) => DebugKeepsInv(cfg, s, cause);
    case FloatUsed => DirtyOk(cfg, s.mstatus, FS);
    case ExtensionUsed => DirtyOk(cfg, s.mstatus, XS);
    case ReturnsM => ReturnsKeepInv(cfg, s);
    case ReturnsS => ReturnsKeepInv(cfg, s);
    case LeavesDebug => ReturnsKeepInv(cfg, s);
    case _ =>
  }

  function Run(cfg: Config, s: State, ops: seq<Op>): State
    requires cfg.xlen > 0
    decreases |ops|
  {
    if ops == [] then s else Run(cfg, Next(cfg, s, ops[0]), ops[1..])
  }

  /** processor.cc:127-136 and 167-172: the state after `processor_t::reset`. */
  function ResetState(cfg: Config, halt: bool): State {
    SetCsr(cfg,
           State(0x1000, PRV_M, cfg.maxIsa, {}, {}, Interrupts({}, {}, {}, {}), TrapRegs({}, 0, 0, 0, {}, 0, 0, 0),
                 Debug(Dcsr(0, 0, false, false, false, false, halt), 0), Float({}, {}), 0),
           MSTATUS, {})
  }

  lemma FirstMstatus(cfg: Config)
    requires ConfigOk(cfg)
    ensures MstatusOk(cfg, NewMstatus(cfg, cfg.maxIsa, {}, {}))
  {
    hide NewMstatus, LegalizePrivilege;
    NewMstatusBits(cfg, cfg.maxIsa, {}, {});
    Legalized(cfg, cfg.maxIsa, 0);
  }

  lemma ResetInv(cfg: Config, halt: bool)
    requires ConfigOk(cfg)
    ensures Inv(cfg, ResetState(cfg, halt))
  {
    hide NewMstatus, MstatusOk, TranslationBitsDiffer;
    FirstMstatus(cfg);
    assert Zext(cfg, {}) == {};
    assert SatpMode64({}) == {};
  }

  /** MPRV is off after reset. */
  lemma ResetMprv(cfg: Config, halt: bool)
    requires ConfigOk(cfg)
    ensures MPRV !in ResetState(cfg, halt).mstatus
  {
    hide NewMstatus, TranslationBitsDiffer, MstatusMask;
    NewMstatusBits(cfg, cfg.maxIsa, {}, {});
    PlainBits(cfg, cfg.maxIsa, MPRV);
    assert Zext(cfg, {}) == {};
    hide Zext;
  }

  lemma {:induction false} RunKeepsInv(cfg: Config, s: State, ops: seq<Op>)
    requires ConfigOk(cfg) && Inv(cfg, s) && forall k :: 0 <= k < |ops| ==> OpOk(cfg, ops[k])
    ensures Inv(cfg, Run(cfg, s, ops))
    decreases |ops|
  {
    hide Inv, Next;
    if ops != [] {
      NextKeepsInv(cfg, s, ops[0]);
      RunKeepsInv(cfg, Next(cfg, s, ops[0]), ops[1..]);
    }
  }

  /** In every state that a hart can reach from reset, all the invariants hold. */
  lemma ReachableInv(cfg: Config, halt: bool, ops: seq<Op>)
    requires ConfigOk(cfg) && forall k :: 0 <= k < |ops| ==> OpOk(cfg, ops[k])
    ensures Inv(cfg, Run(cfg, ResetState(cfg, halt), ops))
  {
    hide Inv, ResetState, Run;
    ResetInv(cfg, halt);
    RunKeepsInv(cfg, ResetState(cfg, halt), ops);
  }

  // ----- Writes from supervisor mode -----

  /** The bits of mstatus that sstatus shows, and SD, which follows from them. */
  predicate InSstatus(cfg: Config, k: nat) {
    k in SSTATUS_MASK || k == SdBit(cfg)
  }

  lemma Field2Bits(a: Word, b: Word, low: nat)
    requires Field2(a, low) == Field2(b, low)
    ensures (low in a <==> low in b) && (low + 1 in a <==> low + 1 in b)
  {}

  lemma SstatusValue(cfg: Config, m: Word, val: Word)
    requires ConfigOk(cfg)
    ensures var v := Zext(cfg, Merge(m, Zext(cfg, val), SSTATUS_MASK));
            && (forall k :: k < cfg.xlen && k !in SSTATUS_MASK ==> (k in v <==> k in m))
            && (forall k :: k in SSTATUS_MASK ==> (k in v <==> k in val))
            && Field2(v, 11) == Field2(m, 11)
  {
    Field2Same(Zext(cfg, Merge(m, Zext(cfg, val), SSTATUS_MASK)), m, 11);
  }

  /** The fields of mstatus that a write derives keep their bits when their values stay. */
  lemma DerivedFieldsKept(cfg: Config, s: State, v: Word)
    requires ConfigOk(cfg) && Inv(cfg, s) && Field2(v, 11) == Field2(s.mstatus, 11)
    ensures var m := NewMstatus(cfg, s.misa, s.mstatus, v);
            forall k :: k in MPP + UXL + SXL ==> (k in m <==> k in s.mstatus)
  {
    hide NewMstatus, Field2, LegalizePrivilege, MstatusMask, SatpOk, Dirty;
    var m := NewMstatus(cfg, s.misa, s.mstatus, v);
    NewMstatusBits(cfg, s.misa, s.mstatus, v);
    Field2Range(v, 11);
    Legalized(cfg, s.misa, Field2(v, 11));
    Field2Bits(m, s.mstatus, 11);
    Field2Bits(m, s.mstatus, 32);
    Field2Bits(m, s.mstatus, 34);
  }

  lemma MaskSplit(cfg: Config, misa: Word, k: nat)
    requires ConfigOk(cfg) && S in misa && k !in MPP + UXL + SXL + {SdBit(cfg)}
    ensures k in MstatusMask(cfg, misa) ==> k < cfg.xlen
    ensures k in SSTATUS_MASK ==> (k in MstatusMask(cfg, misa) <==> (k in XS ==> cfg.ext))
  {}

  /** Writing back what mstatus holds outside `SSTATUS_MASK` changes only the bits inside it, and SD. */
  lemma MstatusConfined(cfg: Config, s: State, v: Word, k: nat)
    requires ConfigOk(cfg) && Inv(cfg, s) && Field2(v, 11) == Field2(s.mstatus, 11)
    requires k < cfg.xlen && k !in SSTATUS_MASK ==> (k in v <==> k in s.mstatus)
    ensures var m := NewMstatus(cfg, s.misa, s.mstatus, v);
            && (!InSstatus(cfg, k) ==> (k in m <==> k in s.mstatus))
            && (k in SSTATUS_MASK ==> (k in m <==> if k in XS && !cfg.ext then k in s.mstatus else k in v))
  {
    hide NewMstatus, Field2, LegalizePrivilege, MstatusMask, SatpOk, Dirty, MstatusOk;
    NewMstatusBits(cfg, s.misa, s.mstatus, v);
    SupportsModes(cfg, s.misa);
    DerivedFieldsKept(cfg, s, v);
    if k !in MPP + UXL + SXL + {SdBit(cfg)} {
      MaskSplit(cfg, s.misa, k);
    }
  }

  /**
   A write of sstatus sets its bits of mstatus (XS only with an extension), leaves every other bit as it was, and
   changes no other register.
   */
  lemma SstatusWriteConfined(cfg: Config, s: State, value: Word)
    requires ConfigOk(cfg) && Inv(cfg, s)
    ensures var r := SetCsr(cfg, s, SSTATUS, value);
            && r == s.(mstatus := r.mstatus, flushes := r.flushes)
            && (forall k :: !InSstatus(cfg, k) ==> (k in r.mstatus <==> k in s.mstatus))
            && (forall k :: k in SSTATUS_MASK ==>
                  (k in r.mstatus <==> if k in XS && !cfg.ext then k in s.mstatus else k in value))
  {
    hide NewMstatus, Zext, Merge, MstatusOk, MisaOk, SatpOk, Field2, TranslationBitsDiffer;
    var v := Zext(cfg, Merge(s.mstatus, Zext(cfg, value), SSTATUS_MASK));
    SstatusValue(cfg, s.mstatus, value);
    var r := SetCsr(cfg, s, SSTATUS, value);
    assert r.mstatus == NewMstatus(cfg, s.misa, s.mstatus, v);
    forall k ensures !InSstatus(cfg, k) ==> (k in r.mstatus <==> k in s.mstatus) {
      MstatusConfined(cfg, s, v, k);
    }
    forall k | k in SSTATUS_MASK
      ensures k in r.mstatus <==> if k in XS && !cfg.ext then k in s.mstatus else k in value
    {
      MstatusConfined(cfg, s, v, k);
    }
  }

  /** A write of sie sets exactly the delegated bits of mie. */
  lemma SieWriteConfined(cfg: Config, s: State, value: Word)
    requires ConfigOk(cfg) && Inv(cfg, s)
    ensures var r := SetCsr(cfg, s, SIE_, value);
            && r == s.(ints := s.ints.(mie := r.ints.mie))
            && (forall k :: k in r.ints.mie <==> if k in s.ints.mideleg then k in value else k in s.ints.mie)
  {
    hide MstatusOk, MisaOk, SatpOk;
  }

  /** A write of sip sets at most SSIP, and that only when it is delegated. */
  lemma SipWriteConfined(cfg: Config, s: State, value: Word)
    requires ConfigOk(cfg) && Inv(cfg, s)
    ensures var r := SetCsr(cfg, s, SIP_, value);
            && r == s.(ints := s.ints.(mip := r.ints.mip))
            && (forall k :: k in r.ints.mip <==>
                  if k == SSIP && k in s.ints.mideleg then k in value else k in s.ints.mip)
  {
    hide MstatusOk, MisaOk, SatpOk;
  }

  // ----- The translation context -----

  /** What the MMU reads of this state. */
  function ContextOf(cfg: Config, s: State): PageWalk.Context {
    PageWalk.Context(cfg.xlen, s.prv, ToNat(s.satp), MPRV in s.mstatus, Field2(s.mstatus, 11),
                     SUM in s.mstatus, MXR in s.mstatus, s.debug.dcsr.cause != 0)
  }

  lemma PlainBits(cfg: Config, misa: Word, k: nat)
    requires ConfigOk(cfg) && k in {SIE, MIE, SPIE, MPIE, MPRV, SUM, MXR}
    ensures k in MstatusMask(cfg, misa) && k < cfg.xlen && k !in MPP + UXL + SXL + {SdBit(cfg)}
  {
    assert k < 20;
    NotFields(cfg, k);
    hide ConfigOk, SdBit;
  }

  lemma NotFields(cfg: Config, k: nat)
    requires ConfigOk(cfg) && k < 20 && k !in MPP
    ensures k < cfg.xlen && k !in MPP + UXL + SXL + {SdBit(cfg)}
  {}

  lemma SameTranslationBit(a: Word, b: Word, k: nat)
    requires !TranslationBitsDiffer(a, b) && k in {11, 12, MPRV, SUM, MXR}
    ensures k in a <==> k in b
  {}

  lemma MstatusFlush(cfg: Config, s: State, val: Word)
    requires ConfigOk(cfg) && Inv(cfg, s) && !TranslationBitsDiffer(val, s.mstatus)
    ensures ContextOf(cfg, WriteMstatus(cfg, s, val)) == ContextOf(cfg, s)
  {
    hide NewMstatus, Field2, LegalizePrivilege, ToNat, MstatusMask, TranslationBitsDiffer, Dirty, SatpOk, IntsOk;
    SameTranslationBit(val, s.mstatus, 11);
    SameTranslationBit(val, s.mstatus, 12);
    forall k | k in {MPRV, SUM, MXR} ensures k in NewMstatus(cfg, s.misa, s.mstatus, val) <==> k in s.mstatus {
      NewMstatusBits(cfg, s.misa, s.mstatus, val);
      SameTranslationBit(val, s.mstatus, k);
      PlainBits(cfg, s.misa, k);
    }
    NewMstatusBits(cfg, s.misa, s.mstatus, val);
    Field2Same(val, s.mstatus, 11);
    Field2Range(val, 11);
    Legalized(cfg, s.misa, Field2(val, 11));
  }

  /** A CSR write that changes what the MMU reads flushes the TLB. */
  lemma SetCsrFlushes(cfg: Config, s: State, which: CsrName, value: Word)
    requires ConfigOk(cfg) && Inv(cfg, s)
    ensures var r := SetCsr(cfg, s, which, value);
            r.flushes >= s.flushes && (r.flushes == s.flushes ==> ContextOf(cfg, r) == ContextOf(cfg, s))
  {
    hide NewMstatus, Field2, ToNat, TranslationBitsDiffer, Zext, Merge, Flags, Rounding, MisaOk, SatpOk, MstatusOk;
    match which
    case MSTATUS => MstatusCase(cfg, s, Zext(cfg, value));
    case SSTATUS => MstatusCase(cfg, s, Zext(cfg, Merge(s.mstatus, Zext(cfg, value), SSTATUS_MASK)));
    case FFLAGS => DirtyContext(cfg, s);
    case FRM => DirtyContext(cfg, s);
    case FCSR => DirtyContext(cfg, s);
    case _ =>
  }

  lemma MstatusCase(cfg: Config, s: State, val: Word)
    requires ConfigOk(cfg) && Inv(cfg, s)
    ensures var r := WriteMstatus(cfg, s, val);
            r.flushes >= s.flushes && (r.flushes == s.flushes ==> ContextOf(cfg, r) == ContextOf(cfg, s))
  {
    hide NewMstatus, Field2, ToNat, TranslationBitsDiffer, MisaOk, SatpOk, MstatusOk;
    if !TranslationBitsDiffer(val, s.mstatus) {
      MstatusFlush(cfg, s, val);
    }
  }

  lemma DirtyContext(cfg: Config, s: State)
    requires ConfigOk(cfg)
    ensures ContextOf(cfg, DirtyFp(cfg, s)) == ContextOf(cfg, s)
    ensures ContextOf(cfg, DirtyExt(cfg, s)) == ContextOf(cfg, s)
  {}

  lemma PowersOfTwo()
    ensures Bits.Pow2(60) == 0x1000_0000_0000_0000 && Bits.Pow2(61) == 0x2000_0000_0000_0000
    ensures Bits.Pow2(62) == 0x4000_0000_0000_0000 && Bits.Pow2(63) == 0x8000_0000_0000_0000
  {
    Bits.Pow2Literals();
    Bits.Pow2Add(10, 10);
    Bits.Pow2Add(20, 40);
    assert Bits.Pow2(61) == 2 * Bits.Pow2(60);
    assert Bits.Pow2(62) == 2 * Bits.Pow2(61);
    assert Bits.Pow2(63) == 2 * Bits.Pow2(62);
  }

  lemma TopFour(w: Word)
    ensures ToNat(w) == Number(w, 60) + 0x1000_0000_0000_0000 * (Field2(w, 60) + 4 * Field2(w, 62))
    ensures Number(w, 60) < 0x1000_0000_0000_0000
  {
    PowersOfTwo();
    assert Number(w, 61) == Number(w, 60) + if 60 in w then Bits.Pow2(60) else 0;
    assert Number(w, 62) == Number(w, 61) + if 61 in w then Bits.Pow2(61) else 0;
    assert Number(w, 63) == Number(w, 62) + if 62 in w then Bits.Pow2(62) else 0;
    assert Number(w, 64) == Number(w, 63) + if 63 in w then Bits.Pow2(63) else 0;
    hide Bits.Pow2, Number;
    assert Number(w, 60) < Bits.Pow2(60);
  }

  /** The top four bits of a word, as `get_field(satp, SATP64_MODE)` reads them. */
  lemma ModeField(w: Word)
    ensures PageWalk.SatpMode(64, ToNat(w)) == Field2(w, 60) + 4 * Field2(w, 62)
  {
    TopFour(w);
    hide ToNat, Number;
    Bits.DivUnique(ToNat(w), 0x1000_0000_0000_0000, Field2(w, 60) + 4 * Field2(w, 62), Number(w, 60));
  }

  /** The translation context of a reachable state is one the MMU understands. */
  lemma ContextLegal(cfg: Config, s: State)
    requires ConfigOk(cfg) && Inv(cfg, s)
    ensures PageWalk.Legal(ContextOf(cfg, s))
  {
    hide ToNat, MisaOk, IntsOk;
    if cfg.xlen == 64 {
      ModeField(s.satp);
      var m := SatpMode64(s.satp);
      assert forall k :: 60 <= k < 64 ==> (k in m <==> k in s.satp);
    }
  }

  lemma TrapFlushes(cfg: Config, s: State, c: Cause, epc: nat, tval: nat)
    requires ConfigOk(cfg) && Inv(cfg, s)
    ensures TrapToS(cfg, s, c, epc, tval).flushes > s.flushes && TrapToM(cfg, s, c, epc, tval).flushes > s.flushes
  {
    hide NewMstatus, ToNat, CauseWord, SupervisorStack, MachineStack, Zext, TranslationBitsDiffer;
  }

  lemma ReturnsFlush(cfg: Config, s: State)
    requires ConfigOk(cfg) && Inv(cfg, s)
    ensures Mret(cfg, s).flushes > s.flushes && Sret(cfg, s).flushes > s.flushes && Dret(s).flushes > s.flushes
  {
    hide NewMstatus, ToNat, MachineUnstack, SupervisorUnstack, Zext, TranslationBitsDiffer, LegalizePrivilege, Inv;
  }

  /** Whatever a hart does to its own state: if the MMU could see the change, the TLB was flushed. */
  lemma NextFlushes(cfg: Config, s: State, op: Op)
    requires ConfigOk(cfg) && Inv(cfg, s) && OpOk(cfg, op)
    ensures var r := Next(cfg, s, op);
            r.flushes >= s.flushes && (r.flushes == s.flushes ==> ContextOf(cfg, r) == ContextOf(cfg, s))
  {
    hide SetCsr, TrapToS, TrapToM, Mret, Sret, Dret, Inv, ToNat, Field2;
    match op
    case Writes(which, value) => SetCsrFlushes(cfg, s, which, value);
    case Traps(c, epc, tval) => TrapFlushes(cfg, s, c, epc, tval);
    case FloatUsed => DirtyContext(cfg, s);
    case ExtensionUsed => DirtyContext(cfg, s);
    case ReturnsM => ReturnsFlush(cfg, s);
    case ReturnsS => ReturnsFlush(cfg, s);
    case LeavesDebug => ReturnsFlush(cfg, s);
    case _ =>
  }

  // ----- Interrupts -----

  /** The order in which classes are served. */
  function Rank(code: nat): nat {
    if code >= MEIP then 0
    else if code == SEIP then 1
    else if code in {MSIP, SSIP} then 2
    else 3
  }

  lemma {:induction false} LowestIs(w: Word, i: nat, k: nat)
    requires k in w && i <= k < 64 && forall j :: j < i ==> j !in w
    ensures Lowest(w, i) in w && forall j :: j in w ==> Lowest(w, i) <= j
    decreases 64 - i
  {
    if i !in w {
      LowestIs(w, i + 1, k);
    }
  }

  /** The class that is served has the least rank, and all its members have that rank. */
  lemma ClassHasLeastRank(enabled: Word, k: nat)
    requires k in enabled && enabled <= {SSIP, MSIP, STIP, MTIP, SEIP, MEIP, IRQ_COP}
    ensures HighestClass(enabled).Some?
    ensures var class_ := HighestClass(enabled).value;
            && class_ != {} && class_ <= enabled
            && (forall c, j :: c in class_ && j in enabled ==> Rank(c) <= Rank(j))
            && (forall c, j :: c in class_ && j in enabled && Rank(j) == Rank(c) ==> j in class_)
  {
    assert k in {SSIP, MSIP, STIP, MTIP, SEIP, MEIP, IRQ_COP};
    assert forall j :: j in enabled && j >= MEIP ==> j in AtLeast(enabled, MEIP);
    assert forall j :: j in enabled && j in {MEIP, SEIP} ==> j in enabled * {MEIP, SEIP};
    assert forall j :: j in enabled && j in {MSIP, SSIP} ==> j in enabled * {MSIP, SSIP};
    assert forall j :: j in enabled && j in {MTIP, STIP} ==> j in enabled * {MTIP, STIP};
    assert k >= MEIP || k in {MEIP, SEIP} || k in {MSIP, SSIP} || k in {MTIP, STIP};
  }

  /**
   `abort` is never reached, nothing is taken without being pending and enabled, and of what is enabled the lowest
   number of the most urgent class is taken.
   */
  lemma ChoiceIsHighest(cfg: Config, s: State)
    requires ConfigOk(cfg) && Inv(cfg, s)
    ensures var pending := s.ints.mip * s.ints.mie;
            var enabled := EnabledInterrupts(s, pending);
            match ChooseInterrupt(s, pending)
            case Abort => false
            case NoInterrupt => s.debug.dcsr.cause != 0 || enabled == {}
            case Take(code) =>
              && code in s.ints.mip && code in s.ints.mie && code in enabled
              && (forall j :: j in enabled ==>
                    Rank(code) < Rank(j) || (Rank(code) == Rank(j) && code <= j))
  {
    hide MstatusOk, MisaOk, SatpOk, Rank, HighestClass, Lowest;
    var pending := s.ints.mip * s.ints.mie;
    var enabled := EnabledInterrupts(s, pending);
    if s.debug.dcsr.cause == 0 && enabled != {} {
      var k :| k in enabled;
      assert enabled <= AllInts(cfg);
      ClassHasLeastRank(enabled, k);
      var class_ := HighestClass(enabled).value;
      var c :| c in class_;
      LowestIs(class_, 0, c);
    }
  }

  /** Enabled interrupts are all delegated and for S-mode, or all undelegated and for M-mode. */
  lemma EnabledSide(s: State, pending: Word, code: nat)
    requires code in EnabledInterrupts(s, pending)
    ensures code in pending
    ensures code in s.ints.mideleg ==> SupervisorEnabled(s) && (MachineEnabled(s) ==> pending <= s.ints.mideleg)
    ensures code !in s.ints.mideleg ==> MachineEnabled(s)
  {
    if code in s.ints.mideleg && MachineEnabled(s) {
      assert pending - s.ints.mideleg == {};
      assert forall k :: k in pending && k !in s.ints.mideleg ==> k in pending - s.ints.mideleg;
    }
  }

  /** Where the interrupt chosen goes, and that `take_trap` agrees with the pass that selected it. */
  lemma DispatchAgrees(cfg: Config, s: State, epc: nat)
    requires ConfigOk(cfg) && Inv(cfg, s)
    requires ChooseInterrupt(s, s.ints.mip * s.ints.mie).Take?
    ensures var code := ChooseInterrupt(s, s.ints.mip * s.ints.mie).code;
            var r := TakeTrap(cfg, s, Cause(true, code), epc, 0);
            && (if code in s.ints.mideleg then
                  r == TrapToS(cfg, s, Cause(true, code), epc, 0) && r.prv == PRV_S && SupervisorEnabled(s)
                else
                  r == TrapToM(cfg, s, Cause(true, code), epc, 0) && r.prv == PRV_M && MachineEnabled(s))
            && r.prv >= s.prv
  {
    hide MstatusOk, MisaOk, SatpOk, TrapToS, TrapToM, HighestClass, Lowest, EnabledInterrupts;
    var pending := s.ints.mip * s.ints.mie;
    var code := ChooseInterrupt(s, pending).code;
    ChoiceIsHighest(cfg, s);
    EnabledSide(s, pending, code);
    TrapToSKeepsInv(cfg, s, Cause(true, code), epc, 0);
    TrapToMKeepsInv(cfg, s, Cause(true, code), epc, 0);
  }

  lemma StacksClearEnable(mstatus: Word, prv: nat)
    ensures SIE !in SupervisorStack(mstatus, prv) && MIE !in MachineStack(mstatus, prv)
    ensures MIE in SupervisorStack(mstatus, prv) <==> MIE in mstatus
  {}

  lemma WriteKeepsEnables(cfg: Config, s: State, val: Word)
    requires ConfigOk(cfg) && MisaOk(cfg, s.misa)
    ensures var r := SetCsr(cfg, s, MSTATUS, val);
            (SIE in r.mstatus <==> SIE in val) && (MIE in r.mstatus <==> MIE in val)
            && r.ints == s.ints && r.debug == s.debug
  {
    hide NewMstatus, TranslationBitsDiffer, MisaOk, MstatusMask, Dirty, Field2, LegalizePrivilege;
    NewMstatusBits(cfg, s.misa, s.mstatus, Zext(cfg, val));
    PlainBits(cfg, s.misa, SIE);
    PlainBits(cfg, s.misa, MIE);
  }

  /** What the trap leaves of the interrupt enables. */
  lemma TrapDisables(cfg: Config, s: State, c: Cause, epc: nat)
    requires ConfigOk(cfg) && MisaOk(cfg, s.misa)
    ensures SIE !in TrapToS(cfg, s, c, epc, 0).mstatus && MIE !in TrapToM(cfg, s, c, epc, 0).mstatus
    ensures TrapToS(cfg, s, c, epc, 0).ints == s.ints == TrapToM(cfg, s, c, epc, 0).ints
    ensures TrapToS(cfg, s, c, epc, 0).debug == s.debug == TrapToM(cfg, s, c, epc, 0).debug
  {
    hide MisaOk, SupervisorStack, MachineStack, SetCsr, ToNat, CauseWord;
    StacksClearEnable(s.mstatus, s.prv);
    var toS := s.(pc := ToNat(s.traps.stvec), traps := s.traps.(scause := CauseWord(cfg, c), sepc := epc, stval := 0));
    WriteKeepsEnables(cfg, toS, SupervisorStack(s.mstatus, s.prv));
    var vector := if 0 in s.traps.mtvec && c.interrupt then 4 * c.code else 0;
    var toM := s.(pc := (ToNat(s.traps.mtvec - {0}) + vector) % WORD,
                  traps := s.traps.(mepc := epc, mcause := CauseWord(cfg, c), mtval := 0));
    WriteKeepsEnables(cfg, toM, MachineStack(s.mstatus, s.prv));
  }

  /** Taking an interrupt masks all others of its mode: with mip and mie unchanged, nothing is raised again. */
  lemma NoSecondInterrupt(cfg: Config, s: State, epc: nat)
    requires ConfigOk(cfg) && Inv(cfg, s)
    requires ChooseInterrupt(s, s.ints.mip * s.ints.mie).Take?
    ensures var code := ChooseInterrupt(s, s.ints.mip * s.ints.mie).code;
            var r := TakeTrap(cfg, s, Cause(true, code), epc, 0);
            ChooseInterrupt(r, r.ints.mip * r.ints.mie) == NoInterrupt
  {
    hide MstatusOk, MisaOk, SatpOk, TrapToS, TrapToM, TakeTrap, HighestClass, Lowest, Rank;
    var pending := s.ints.mip * s.ints.mie;
    var code := ChooseInterrupt(s, pending).code;
    ChoiceIsHighest(cfg, s);
    EnabledSide(s, pending, code);
    DispatchAgrees(cfg, s, epc);
    TrapDisables(cfg, s, Cause(true, code), epc);
    var r := TakeTrap(cfg, s, Cause(true, code), epc, 0);
    if code in s.ints.mideleg {
      assert MachineEnabled(s);
      assert pending - s.ints.mideleg == {};
    }
  }

  // ----- What a trap saves -----

  predicate Owns(own: Word) {
    own <= {SIE, MIE, SPIE, MPIE, SPP, 11, 12} && (11 in own <==> 12 in own)
  }

  lemma OtherBit(cfg: Config, s: State, val: Word, own: Word, k: nat)
    requires ConfigOk(cfg) && Inv(cfg, s) && Owns(own) && k !in own
    requires forall j :: j !in own ==> (j in val <==> j in s.mstatus)
    ensures var m := NewMstatus(cfg, s.misa, s.mstatus, Zext(cfg, val)); k in m <==> k in s.mstatus
  {
    hide NewMstatus, MisaOk, SatpOk, LegalizePrivilege, MstatusMask, Field2, Dirty, IntsOk;
    var m := NewMstatus(cfg, s.misa, s.mstatus, Zext(cfg, val));
    NewMstatusBits(cfg, s.misa, s.mstatus, Zext(cfg, val));
    SupportsModes(cfg, s.misa);
    if k in UXL + SXL {
      Field2Bits(m, s.mstatus, 32);
      Field2Bits(m, s.mstatus, 34);
    } else if k in MPP {
      Field2Same(s.mstatus, Zext(cfg, val), 11);
      Field2Range(s.mstatus, 11);
      Legalized(cfg, s.misa, Field2(s.mstatus, 11));
      Field2Bits(m, s.mstatus, 11);
    } else if k == SdBit(cfg) {
      forall j | 13 <= j <= 16 ensures j in m <==> j in s.mstatus {
        MaskSplit(cfg, s.misa, j);
      }
      DirtySame(m, s.mstatus);
    } else {
      MaskSplit(cfg, s.misa, k);
    }
  }

  lemma OwnBits(cfg: Config, s: State, val: Word)
    requires ConfigOk(cfg) && Inv(cfg, s)
    ensures var m := NewMstatus(cfg, s.misa, s.mstatus, Zext(cfg, val));
            && (forall k :: k in {SIE, MIE, SPIE, MPIE, SPP} ==> (k in m <==> k in val))
            && Field2(m, 11) == LegalizePrivilege(s.misa, Field2(val, 11))
  {
    hide NewMstatus, MisaOk, SatpOk, LegalizePrivilege, Field2, Dirty, IntsOk, MstatusOk;
    NewMstatusBits(cfg, s.misa, s.mstatus, Zext(cfg, val));
    SupportsModes(cfg, s.misa);
    Field2Same(val, Zext(cfg, val), 11);
  }

  /** A write that differs from mstatus only in the bits `own` changes no others. */
  lemma WriteOwnBits(cfg: Config, s: State, val: Word, own: Word)
    requires ConfigOk(cfg) && Inv(cfg, s) && Owns(own)
    requires forall k :: k !in own ==> (k in val <==> k in s.mstatus)
    ensures var m := SetCsr(cfg, s, MSTATUS, val).mstatus;
            && (forall k :: k !in own ==> (k in m <==> k in s.mstatus))
            && (forall k :: k in {SIE, MIE, SPIE, MPIE, SPP} ==> (k in m <==> k in val))
            && Field2(m, 11) == LegalizePrivilege(s.misa, Field2(val, 11))
  {
    hide NewMstatus, Inv, LegalizePrivilege, TranslationBitsDiffer, Field2, Owns, Zext;
    OwnBits(cfg, s, val);
    forall k | k !in own ensures k in NewMstatus(cfg, s.misa, s.mstatus, Zext(cfg, val)) <==> k in s.mstatus {
      OtherBit(cfg, s, val, own, k);
    }
  }

  /** A trap to M-mode saves what it overwrites: MIE in MPIE, the privilege in MPP, pc in mepc; other bits stay. */
  lemma MachineTrapSaves(cfg: Config, s: State, c: Cause, epc: nat, tval: nat)
    requires ConfigOk(cfg) && Inv(cfg, s)
    ensures var r := TrapToM(cfg, s, c, epc, tval);
            && (MPIE in r.mstatus <==> MIE in s.mstatus) && MIE !in r.mstatus && Field2(r.mstatus, 11) == s.prv
            && (forall k :: k !in {MIE, MPIE} + MPP ==> (k in r.mstatus <==> k in s.mstatus))
            && r.traps == s.traps.(mepc := epc, mcause := CauseWord(cfg, c), mtval := tval)
            && r.ints == s.ints && r.satp == s.satp && r.misa == s.misa
  {
    hide SetCsr, SatpOk, ToNat, CauseWord, MstatusOk, LegalizePrivilege;
    var vector := if 0 in s.traps.mtvec && c.interrupt then 4 * c.code else 0;
    var t := s.(pc := (ToNat(s.traps.mtvec - {0}) + vector) % WORD,
                traps := s.traps.(mepc := epc, mcause := CauseWord(cfg, c), mtval := tval));
    var val := MachineStack(s.mstatus, s.prv);
    MachineStackBits(s.mstatus, s.prv);
    MstatusOnly(cfg, t, val);
    WriteOwnBits(cfg, t, val, {MIE, MPIE, 11, 12});
    Legalized(cfg, s.misa, s.prv);
  }

  lemma MachineStackBits(m: Word, prv: nat)
    requires prv <= 3
    ensures var v := MachineStack(m, prv);
            && (MPIE in v <==> MIE in m) && MIE !in v && Field2(v, 11) == prv
            && forall k :: k !in {MIE, MPIE, 11, 12} ==> (k in v <==> k in m)
  {}

  lemma MstatusOnly(cfg: Config, s: State, val: Word)
    ensures var r := SetCsr(cfg, s, MSTATUS, val); r == s.(mstatus := r.mstatus, flushes := r.flushes)
  {
    hide NewMstatus, TranslationBitsDiffer, Zext;
  }

  /** A trap to S-mode does the same with SIE, SPIE and SPP, and leaves MPP and MIE alone. */
  lemma SupervisorTrapSaves(cfg: Config, s: State, c: Cause, epc: nat, tval: nat)
    requires ConfigOk(cfg) && Inv(cfg, s) && s.prv <= PRV_S
    ensures var r := TrapToS(cfg, s, c, epc, tval);
            && (SPIE in r.mstatus <==> SIE in s.mstatus) && SIE !in r.mstatus && (SPP in r.mstatus <==> s.prv == PRV_S)
            && (forall k :: k !in {SIE, SPIE, SPP} ==> (k in r.mstatus <==> k in s.mstatus))
            && r.traps == s.traps.(sepc := epc, scause := CauseWord(cfg, c), stval := tval)
            && r.pc == ToNat(s.traps.stvec) && r.ints == s.ints && r.satp == s.satp && r.misa == s.misa
  {
    hide SetCsr, SatpOk, ToNat, CauseWord, MstatusOk, LegalizePrivilege;
    var t := s.(pc := ToNat(s.traps.stvec), traps := s.traps.(scause := CauseWord(cfg, c), sepc := epc, stval := tval));
    var val := SupervisorStack(s.mstatus, s.prv);
    SupervisorStackBits(s.mstatus, s.prv);
    MstatusOnly(cfg, t, val);
    WriteOwnBits(cfg, t, val, {SIE, SPIE, SPP});
  }

  lemma SupervisorStackBits(m: Word, prv: nat)
    requires prv <= PRV_S
    ensures var v := SupervisorStack(m, prv);
            && (SPIE in v <==> SIE in m) && SIE !in v && (SPP in v <==> prv == PRV_S)
            && forall k :: k !in {SIE, SPIE, SPP} ==> (k in v <==> k in m)
  {}

  // ----- Returning undoes the trap -----

  lemma UnstackBits(m: Word)
    ensures var v := MachineUnstack(m);
            && (MIE in v <==> MPIE in m) && MPIE in v && Field2(v, 11) == PRV_U
            && forall k :: k !in {MIE, MPIE, 11, 12} ==> (k in v <==> k in m)
    ensures var v := SupervisorUnstack(m);
            && (SIE in v <==> SPIE in m) && SPIE in v && SPP !in v
            && forall k :: k !in {SIE, SPIE, SPP} ==> (k in v <==> k in m)
  {}

  lemma SetPrivilegeOnly(cfg: Config, s: State, prv: nat)
    requires ConfigOk(cfg) && MisaOk(cfg, s.misa) && LegalPrv(prv)
    ensures SetPrivilege(s, prv) == s.(prv := prv, flushes := s.flushes + 1)
  {
    hide MisaOk;
    Legalized(cfg, s.misa, prv);
  }

  /** What MRET and SRET do to a reachable state. */
  lemma MretEffect(cfg: Config, s: State)
    requires ConfigOk(cfg) && Inv(cfg, s)
    ensures var r := Mret(cfg, s);
            && r.prv == Field2(s.mstatus, 11) && (MIE in r.mstatus <==> MPIE in s.mstatus)
            && (forall k :: k !in {MIE, MPIE, 11, 12} ==> (k in r.mstatus <==> k in s.mstatus))
            && r == s.(prv := r.prv, pc := s.traps.mepc, mstatus := r.mstatus, flushes := r.flushes)
  {
    hide SetCsr, SatpOk, MisaOk, IntsOk, SetPrivilege, MachineUnstack, LegalizePrivilege, Field2;
    var to := Field2(s.mstatus, 11);
    SetPrivilegeOnly(cfg, s.(pc := s.traps.mepc), to);
    var p := SetPrivilege(s.(pc := s.traps.mepc), to);
    UnstackBits(s.mstatus);
    MstatusOnly(cfg, p, MachineUnstack(s.mstatus));
    WriteOwnBits(cfg, p, MachineUnstack(s.mstatus), {MIE, MPIE, 11, 12});
  }

  lemma SretEffect(cfg: Config, s: State)
    requires ConfigOk(cfg) && Inv(cfg, s)
    ensures var r := Sret(cfg, s);
            && r.prv == (if SPP in s.mstatus then PRV_S else PRV_U) && (SIE in r.mstatus <==> SPIE in s.mstatus)
            && (forall k :: k !in {SIE, SPIE, SPP} ==> (k in r.mstatus <==> k in s.mstatus))
            && r == s.(prv := r.prv, pc := s.traps.sepc, mstatus := r.mstatus, flushes := r.flushes)
  {
    hide SetCsr, SatpOk, MisaOk, IntsOk, SetPrivilege, SupervisorUnstack, LegalizePrivilege, Field2;
    var to := if SPP in s.mstatus then PRV_S else PRV_U;
    SetPrivilegeOnly(cfg, s.(pc := s.traps.sepc), to);
    var p := SetPrivilege(s.(pc := s.traps.sepc), to);
    UnstackBits(s.mstatus);
    MstatusOnly(cfg, p, SupervisorUnstack(s.mstatus));
    WriteOwnBits(cfg, p, SupervisorUnstack(s.mstatus), {SIE, SPIE, SPP});
  }

  /** MRET after a trap to M-mode: the privilege, the pc and MIE are as before; MPIE and MPP hold their reset values. */
  lemma MretUndoesTrap(cfg: Config, s: State, c: Cause, epc: nat, tval: nat)
    requires ConfigOk(cfg) && Inv(cfg, s)
    ensures var r := Mret(cfg, TrapToM(cfg, s, c, epc, tval));
            && r.prv == s.prv && r.pc == epc
            && (forall k :: k !in {MPIE} + MPP ==> (k in r.mstatus <==> k in s.mstatus))
            && r.ints == s.ints && r.satp == s.satp && r.misa == s.misa && r.debug == s.debug
  {
    hide SatpOk, MstatusOk, MisaOk, IntsOk, Mret, TrapToM, Field2, CauseWord;
    MachineTrapSaves(cfg, s, c, epc, tval);
    TrapToMKeepsInv(cfg, s, c, epc, tval);
    TrapDebug(cfg, s, c, epc, tval);
    MretEffect(cfg, TrapToM(cfg, s, c, epc, tval));
  }

  lemma TrapDebug(cfg: Config, s: State, c: Cause, epc: nat, tval: nat)
    requires ConfigOk(cfg)
    ensures TrapToM(cfg, s, c, epc, tval).debug == s.debug && TrapToS(cfg, s, c, epc, tval).debug == s.debug
  {
    hide NewMstatus, ToNat, CauseWord, SupervisorStack, MachineStack, Zext, TranslationBitsDiffer, LegalizePrivilege;
  }

  /** SRET after a trap to S-mode likewise; SPIE and SPP hold their reset values. */
  lemma SretUndoesTrap(cfg: Config, s: State, c: Cause, epc: nat, tval: nat)
    requires ConfigOk(cfg) && Inv(cfg, s) && s.prv <= PRV_S
    ensures var r := Sret(cfg, TrapToS(cfg, s, c, epc, tval));
            && r.prv == s.prv && r.pc == epc
            && (forall k :: k !in {SPIE, SPP} ==> (k in r.mstatus <==> k in s.mstatus))
            && r.ints == s.ints && r.satp == s.satp && r.misa == s.misa && r.debug == s.debug
  {
    SupervisorTrapSaves(cfg, s, c, epc, tval);
    TrapToSKeepsInv(cfg, s, c, epc, tval);
    TrapDebug(cfg, s, c, epc, tval);
    SretEffect(cfg, TrapToS(cfg, s, c, epc, tval));
    hide SatpOk, MstatusOk, MisaOk, IntsOk, Sret, TrapToS, CauseWord;
  }

  /** Leaving debug mode resumes where and at the privilege at which it was entered. */
  lemma DretUndoesEntry(cfg: Config, s: State, cause: nat)
    requires ConfigOk(cfg) && Inv(cfg, s) && s.debug.dcsr.cause == 0
    ensures var r := Dret(EnterDebugMode(s, cause));
            r == s.(debug := r.debug, flushes := s.flushes + 2) && r.debug.dcsr == s.debug.dcsr.(prv := s.prv)
  {
    hide MstatusOk, SatpOk, IntsOk, MisaOk, LegalizePrivilege;
    Legalized(cfg, s.misa, PRV_M);
    Legalized(cfg, s.misa, s.prv);
  }
}

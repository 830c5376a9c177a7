/** The privileged part of `processor_t`: the operations of CsrModel.dfy, performed in place. */
module CsrFile {
  import opened Common
  import opened CsrModel

  class Processor {
    const cfg: Config
    var pc: nat
    var prv: nat
    var misa: Word
    var mstatus: Word
    var satp: Word
    var mie: Word
    var mip: Word
    var mideleg: Word
    var medeleg: Word
    var traps: TrapRegs
    var dcsr: Dcsr
    var dpc: nat
    var fflags: Word
    var frm: Word
    var flushes: nat  // calls of `mmu->flush_tlb()`

    function View(): State
      reads this
    {
      State(pc, prv, misa, mstatus, satp, Interrupts(mie, mip, mideleg, medeleg), traps, Debug(dcsr, dpc),
            Float(fflags, frm), flushes)
    }

    ghost predicate Valid()
      reads this
    {
      ConfigOk(cfg) && Inv(cfg, View())
    }

    /** The MMU cannot have noticed a change without the TLB having been flushed since `before`. */
    ghost predicate Noticed(before: State)
      reads this
    {
      flushes >= before.flushes && (flushes == before.flushes ==> ContextOf(cfg, View()) == ContextOf(cfg, before))
    }

    /** `processor_t::reset` */
    constructor (cfg: Config, halt_on_reset: bool)
      requires ConfigOk(cfg)
      ensures Valid() && this.cfg == cfg && View() == ResetState(cfg, halt_on_reset)
    {
      hide NewMstatus, TranslationBitsDiffer, Inv;
      ResetInv(cfg, halt_on_reset);
      this.cfg := cfg;
      pc, prv, misa, mstatus, satp := 0x1000, PRV_M, cfg.maxIsa, {}, {};
      mie, mip, mideleg, medeleg := {}, {}, {}, {};
      traps := TrapRegs({}, 0, 0, 0, {}, 0, 0, 0);
      dcsr, dpc := Dcsr(0, 0, false, false, false, false, halt_on_reset), 0;
      fflags, frm, flushes := {}, {}, 0;
      new;
      WriteMstatus(Zext(cfg, mstatus));
    }

    method FlushTlb()
      modifies `flushes
      ensures flushes == old(flushes) + 1
    {
      flushes := flushes + 1;
    }

    method SetPrivilege(prv: nat)
      requires Valid() && prv <= PRV_M
      modifies `prv, `flushes
      ensures View() == CsrModel.SetPrivilege(old(View()), prv)
      ensures Valid() && Noticed(old(View())) && LegalPrv(this.prv)
      ensures this.prv == if prv == PRV_H then PRV_U else prv
    {
      hide Inv, ContextOf, LegalizePrivilege;
      SetPrivilegeKeepsInv(cfg, View(), prv);
      PrvLegal(cfg, CsrModel.SetPrivilege(View(), prv));
      FlushTlb();
      this.prv := LegalizePrivilege(misa, prv);
    }

    method WriteMstatus(val: Word)
      modifies `mstatus, `flushes
      ensures View() == CsrModel.WriteMstatus(cfg, old(View()), val)
    {
      hide MstatusMask, LegalizePrivilege, Field2, SetField2, SetBit, XlValue;
      if TranslationBitsDiffer(val, mstatus) {
        FlushTlb();
      }
      var mask := MstatusMask(cfg, misa);
      var requested_mpp := LegalizePrivilege(misa, Field2(val, 11));
      mstatus := SetField2(mstatus, 11, requested_mpp);
      mstatus := (mstatus - mask) + (val * mask);
      var dirty := FS <= mstatus || XS <= mstatus;
      mstatus := SetBit(mstatus, if cfg.xlen == 32 then 31 else 63, dirty);
      mstatus := SetField2(mstatus, 32, XlValue(cfg));
      mstatus := SetField2(mstatus, 34, XlValue(cfg));
    }

    method WriteSatp(val: Word)
      modifies `satp, `flushes
      ensures View() == CsrModel.WriteSatp(cfg, old(View()), val)
    {
      FlushTlb();
      if ModeOk(cfg, val) {
        satp := MaskSatp(cfg, val);
      }
    }

    method WriteMisa(value: Word)
      modifies `misa
      ensures View() == CsrModel.WriteMisa(cfg, old(View()), value)
    {
      var val := value;
      if C !in val && pc / 2 % 2 == 1 {
        return;
      }
      if F !in val {
        val := val - {D};
      }
      var mask := {M, A, F, D, C} * cfg.maxIsa;
      misa := (val * mask) + (misa - mask);
    }

    method WriteDcsr(val: Word)
      modifies `dcsr
      ensures View() == CsrModel.WriteDcsr(old(View()), val)
    {
      dcsr := dcsr.(prv := Field2(val, 0), step := 2 in val);
      dcsr := dcsr.(ebreakm := 15 in val, ebreaks := 13 in val, ebreaku := 12 in val, halt := 3 in val);
    }

    method DirtyFpState()
      modifies `mstatus
      ensures View() == DirtyFp(cfg, old(View()))
    {
      mstatus := mstatus + FS + {SdBit(cfg)};
    }

    /** The write itself; `SetCsr` adds what it keeps. */
    method WriteCsr(which: CsrName, value: Word)
      modifies this
      ensures View() == CsrModel.SetCsr(cfg, old(View()), which, value)
      decreases which in {SSTATUS, SIP_, SIE_}
    {
      hide CsrModel.WriteMstatus, CsrModel.WriteSatp, CsrModel.WriteMisa, CsrModel.WriteDcsr, CsrModel.WriteTrapReg;
      hide ToNat, Merge, Flags, Rounding, Zext;
      var val := Zext(cfg, value);
      match which
      case FFLAGS | FRM | FCSR => WriteFloat(which, value);
      case MSTATUS => WriteMstatus(val);
      case MIP_ | MIE_ | MIDELEG | MEDELEG => WriteInts(which, value);
      case SSTATUS => WriteCsr(MSTATUS, Merge(mstatus, val, SSTATUS_MASK));
      case SIP_ => WriteCsr(MIP_, Merge(mip, val, {SSIP} * mideleg));
      case SIE_ => WriteCsr(MIE_, Merge(mie, val, mideleg));
      case SATP => WriteSatp(val);
      case MISA => WriteMisa(val);
      case DCSR => WriteDcsr(val);
      case DPC => dpc := ToNat(val - {0});
      case _ => WriteTrapReg(which, val);
    }

    method WriteFloat(which: CsrName, value: Word)
      requires which in {FFLAGS, FRM, FCSR}
      modifies `fflags, `frm, `mstatus
      ensures View() == CsrModel.SetCsr(cfg, old(View()), which, value)
    {
      hide Flags, Rounding, Zext;
      var val := Zext(cfg, value);
      DirtyFpState();
      if which == FRM {
        frm := val * {0, 1, 2};
      } else {
        fflags := Flags(val);
        if which == FCSR {
          frm := Rounding(val);
        }
      }
    }

    method WriteInts(which: CsrName, value: Word)
      requires which in {MIP_, MIE_, MIDELEG, MEDELEG}
      modifies `mip, `mie, `mideleg, `medeleg
      ensures View() == CsrModel.SetCsr(cfg, old(View()), which, value)
    {
      hide Merge, Zext, AllInts, DelegableInts;
      var val := Zext(cfg, value);
      match which
      case MIP_ => mip := Merge(mip, val, {SSIP, STIP});
      case MIE_ => mie := Merge(mie, val, AllInts(cfg));
      case MIDELEG => mideleg := Merge(mideleg, val, DelegableInts(cfg));
      case MEDELEG => medeleg := Merge(medeleg, val, MEDELEG_MASK);
    }

    method WriteTrapReg(which: CsrName, val: Word)
      modifies `traps
      ensures traps == CsrModel.WriteTrapReg(old(traps), which, val)
    {
      match which
      case SEPC => traps := traps.(sepc := ToNat(val - {0}));
      case STVEC => traps := traps.(stvec := val - {0, 1});
      case SCAUSE => traps := traps.(scause := ToNat(val));
      case STVAL => traps := traps.(stval := ToNat(val));
      case MEPC => traps := traps.(mepc := ToNat(val - {0}));
      case MTVEC => traps := traps.(mtvec := val - {1});
      case MCAUSE => traps := traps.(mcause := ToNat(val));
      case MTVAL => traps := traps.(mtval := ToNat(val));
      case _ =>
    }

    /** Every write, of any value, keeps the legal ranges, and flushes the TLB if the MMU could notice it. */
    method SetCsr(which: CsrName, value: Word)
      requires Valid()
      modifies this
      ensures View() == CsrModel.SetCsr(cfg, old(View()), which, value)
      ensures Valid() && Noticed(old(View()))
    {
      hide Inv, ContextOf, CsrModel.SetCsr;
      SetCsrKeepsInv(cfg, View(), which, value);
      SetCsrFlushes(cfg, View(), which, value);
      WriteCsr(which, value);
    }

    method EnterDebugMode(cause: nat)
      requires Valid()
      modifies this
      ensures View() == CsrModel.EnterDebugMode(old(View()), cause)
      ensures Valid() && Noticed(old(View())) && prv == PRV_M
    {
      hide Inv, ContextOf, CsrModel.SetPrivilege;
      PrvLegal(cfg, View());
      DebugKeepsInv(cfg, View(), cause);
      NextFlushes(cfg, View(), Debugs(cause));
      DcsrFree(cfg, View(), dcsr.(cause := cause, prv := prv));
      dcsr := dcsr.(cause := cause, prv := prv);
      SetPrivilege(PRV_M);
      dpc := pc;
      pc := DEBUG_ROM_ENTRY;
    }

    /** processor.cc:294-305. */
    method TrapToSupervisor(c: Cause, epc: nat, tval: nat)
      requires Valid()
      modifies this
      ensures View() == TrapToS(cfg, old(View()), c, epc, tval)
    {
      hide CsrModel.SetCsr, CsrModel.SetPrivilege, ToNat, CauseWord, SetBit, Inv, ContextOf;
      TrapsFree(cfg, View(), ToNat(traps.stvec), traps.(scause := CauseWord(cfg, c), sepc := epc, stval := tval));
      pc := ToNat(traps.stvec);
      traps := traps.(scause := CauseWord(cfg, c), sepc := epc, stval := tval);
      var s := SetBit(mstatus, SPIE, SIE in mstatus);
      s := SetBit(s, SPP, prv % 2 == 1);
      s := SetBit(s, SIE, false);
      SetCsr(MSTATUS, s);
      SetPrivilege(PRV_S);
    }

    /** processor.cc:307-318. */
    method TrapToMachine(c: Cause, epc: nat, tval: nat)
      requires Valid()
      modifies this
      ensures View() == TrapToM(cfg, old(View()), c, epc, tval)
    {
      hide CsrModel.SetCsr, CsrModel.SetPrivilege, ToNat, CauseWord, SetBit, SetField2, Inv, ContextOf;
      var vector := if 0 in traps.mtvec && c.interrupt then 4 * c.code else 0;
      TrapsFree(cfg, View(), (ToNat(traps.mtvec - {0}) + vector) % WORD,
                traps.(mepc := epc, mcause := CauseWord(cfg, c), mtval := tval));
      pc := (ToNat(traps.mtvec - {0}) + vector) % WORD;
      traps := traps.(mepc := epc, mcause := CauseWord(cfg, c), mtval := tval);
      var s := SetBit(mstatus, MPIE, MIE in mstatus);
      s := SetField2(s, 11, prv);
      s := SetBit(s, MIE, false);
      SetCsr(MSTATUS, s);
      SetPrivilege(PRV_M);
    }

    method TakeTrap(c: Cause, epc: nat, tval: nat)
      requires Valid()
      modifies this
      ensures View() == CsrModel.TakeTrap(cfg, old(View()), c, epc, tval)
      ensures Valid() && Noticed(old(View())) && prv >= old(prv)
    {
      hide TrapToS, TrapToM, CsrModel.EnterDebugMode, Inv, ContextOf;
      TakeTrapKeepsInv(cfg, View(), c, epc, tval);
      NextFlushes(cfg, View(), Traps(c, epc, tval));
      if dcsr.cause != 0 {
        pc := if c == Cause(false, CAUSE_BREAKPOINT) then DEBUG_ROM_ENTRY else DEBUG_ROM_TVEC;
      } else if c == Cause(false, CAUSE_BREAKPOINT)
           && ((prv == PRV_M && dcsr.ebreakm) || (prv == PRV_S && dcsr.ebreaks) || (prv == PRV_U && dcsr.ebreaku)) {
        EnterDebugMode(DCSR_CAUSE_SWBP);
      } else {
        var deleg := if c.interrupt then mideleg else medeleg;
        if prv <= PRV_S && c.code < cfg.xlen && c.code in deleg {
          TrapToSupervisor(c, epc, tval);
        } else {
          TrapToMachine(c, epc, tval);
        }
      }
    }

    /** `take_pending_interrupt` (processor.h:324): what is thrown is pending and enabled, and of the highest class. */
    method TakePendingInterrupt() returns (choice: Choice)
      requires Valid()
      ensures choice == ChooseInterrupt(View(), mip * mie) && choice != Abort
      ensures choice.Take? ==> choice.code in mip && choice.code in mie && !Halted()
      ensures choice.Take? ==> forall j :: j in EnabledInterrupts(View(), mip * mie) ==>
                Rank(choice.code) < Rank(j) || (Rank(choice.code) == Rank(j) && choice.code <= j)
      ensures choice == NoInterrupt && !Halted() ==> EnabledInterrupts(View(), mip * mie) == {}
    {
      ChoiceIsHighest(cfg, View());
      assert forall k :: k in mip * mie ==> k in AllInts(cfg);
      hide Inv, EnabledInterrupts, Rank;
      choice := TakeInterrupt(mip * mie);
    }

    function Halted(): bool
      reads this
    {
      dcsr.cause != 0
    }

    /** processor.cc:191-221; the choice is what the source throws. */
    method TakeInterrupt(pending: Word) returns (choice: Choice)
      requires forall k :: k in pending ==> k < 64
      ensures choice == ChooseInterrupt(View(), pending)
    {
      var enabled := if MachineEnabled(View()) then pending - mideleg else {};
      if enabled == {} {
        enabled := if SupervisorEnabled(View()) then pending * mideleg else {};
      }
      choice := NoInterrupt;
      if dcsr.cause == 0 && enabled != {} {
        if AtLeast(enabled, MEIP) != {} {
          enabled := AtLeast(enabled, MEIP);
        } else if enabled * {MEIP, SEIP} != {} {
          enabled := enabled * {MEIP, SEIP};
        } else if enabled * {MSIP, SSIP} != {} {
          enabled := enabled * {MSIP, SSIP};
        } else if enabled * {MTIP, STIP} != {} {
          enabled := enabled * {MTIP, STIP};
        } else {
          return Abort;
        }
        ghost var k :| k in enabled;
        var code := Ctz(enabled);
        LowestIs(enabled, 0, k);
        choice := Take(code);
      }
    }

    /** `val` shifted right by `n`. */
    static function Shifted(val: Word, n: nat): Word {
      set k | k in val && k >= n :: k - n
    }

    /** processor.cc:182-189: the lowest bit of `val`. */
    static method Ctz(val: Word) returns (res: nat)
      requires val == {} || exists k :: k in val && k < 64
      ensures val == {} ==> res == 0
      ensures val != {} ==> res in val && (forall j :: j in val ==> res <= j) && res < 64
    {
      res := 0;
      if val != {} {
        ghost var top :| top in val && top < 64;
        var v := val;
        assert v == Shifted(val, 0) by { ShiftedZero(val); }
        while 0 !in v
          invariant res <= top && v == Shifted(val, res)
          invariant forall j :: j in val ==> j >= res
          decreases top - res
        {
          assert res !in val by { ShiftedHas(val, res, res); }
          v := Shifted(v, 1);
          ShiftedTwice(val, res);
          res := res + 1;
        }
        ShiftedHas(val, res, res);
      }
    }

    static lemma ShiftedZero(val: Word)
      ensures Shifted(val, 0) == val
    {
      assert forall k :: k in val ==> k - 0 in Shifted(val, 0);
    }

    static lemma ShiftedHas(val: Word, n: nat, k: nat)
      requires k >= n
      ensures k in val <==> k - n in Shifted(val, n)
    {
      assert k in val && k >= n ==> k - n in Shifted(val, n);
    }

    static lemma ShiftedTwice(val: Word, n: nat)
      ensures Shifted(Shifted(val, n), 1) == Shifted(val, n + 1)
    {
      forall k: nat ensures k in Shifted(Shifted(val, n), 1) <==> k in Shifted(val, n + 1) {
        ShiftedHas(Shifted(val, n), 1, k + 1);
        ShiftedHas(val, n, k + 1 + n);
        ShiftedHas(val, n + 1, k + n + 1);
      }
    }
  }

  /** The invariants do not constrain these fields. */
  lemma TrapsFree(cfg: Config, s: State, pc: nat, traps: TrapRegs)
    requires Inv(cfg, s)
    ensures Inv(cfg, s.(pc := pc, traps := traps))
  {
    hide MstatusOk, MisaOk, IntsOk, SatpOk;
  }

  lemma PrvLegal(cfg: Config, s: State)
    requires Inv(cfg, s)
    ensures LegalPrv(s.prv)
  {
    hide MstatusOk, MisaOk, IntsOk, SatpOk;
  }

  lemma DcsrFree(cfg: Config, s: State, dcsr: Dcsr)
    requires Inv(cfg, s) && dcsr.prv <= 3
    ensures Inv(cfg, s.(debug := s.debug.(dcsr := dcsr)))
  {
    hide MstatusOk, MisaOk, IntsOk, SatpOk;
  }
}

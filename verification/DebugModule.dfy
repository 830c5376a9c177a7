/** `debug_module_t`: the operations of DebugModel.dfy, performed in place. */
module DebugModule {
  import opened Common
  import opened Encoding
  import opened AbstractCommand
  import opened DebugModel

  /** debug_module.cc:37-53: a new module, its program buffer closed by the implicit ebreak. */
  function Initial(progbufsize: nat, harts: nat): (r: Dm)
    requires progbufsize <= 16 && 1 <= harts <= HARTS
    ensures Valid(r)
  {
    Dm(progbufsize, Control(false, false, 0, false, false, false), false, CMDERR_NONE, Autoexec(0, 0), 0,
       Harts(Repeat(HARTS, false), Repeat(HARTS, false), Repeat(HARTS, false), Repeat(HARTS, Flags(false, false)),
             Repeat(harts, false)),
       Memory(Repeat(8, 0), Write32(Repeat(4 * progbufsize + 4, 0), progbufsize, MATCH_EBREAK), Repeat(20, 0), 0))
  }

  /** The handshake starts out in order, and the program buffer is closed. */
  lemma InitialInOrder(progbufsize: nat, harts: nat)
    requires progbufsize <= 16 && 1 <= harts <= HARTS
    ensures GoImpliesBusy(ShakeOf(Initial(progbufsize, harts))) && EndsInEbreak(Initial(progbufsize, harts))
  {
    hide Read32, Write32;
    ReadWrite(Repeat(4 * progbufsize + 4, 0), progbufsize, MATCH_EBREAK, progbufsize);
  }

  /**
   From a new module, over every undisturbed run: a hart that was started answers GOING and then HALTED before the
   module is idle again.
   */
  lemma EveryStartIsAnswered(progbufsize: nat, harts: nat, before: seq<Step>, s: Step, after: seq<Step>)
    returns (i: nat, j: nat)
    requires progbufsize <= 16 && 1 <= harts <= HARTS
    requires StepsOk(before) && StepOk(s) && StepsOk(after) && StepsOk(before + ([s] + after))
    requires Undisturbed(Initial(progbufsize, harts), before + ([s] + after))
    requires Starts(DebugModel.Run(Initial(progbufsize, harts), before), s)
    requires !DebugModel.Run(Initial(progbufsize, harts), before + ([s] + after)).busy
    ensures i < j < |after| && IsGoing(progbufsize, after[i])
    ensures IsHalted(progbufsize, after[j], DebugModel.Run(Initial(progbufsize, harts), before).control.hartsel)
  {
    InitialInOrder(progbufsize, harts);
    InitialSize(progbufsize, harts);
    hide *;
    i, j := StartIsAnswered(Initial(progbufsize, harts), before, s, after);
  }

  /** Nothing has happened to a new module: it is idle, off, without an error, and no hart is halted or reset. */
  lemma InitialIsQuiet(progbufsize: nat, harts: nat, id: nat)
    requires progbufsize <= 16 && 1 <= harts <= HARTS && id < HARTS
    ensures var dm := Initial(progbufsize, harts);
            && !dm.busy && !dm.control.dmactive && dm.cmderr == CMDERR_NONE && dm.control.hartsel == 0
            && !dm.harts.halted[id] && !dm.harts.resumeack[id] && !dm.harts.havereset[id] && !dm.harts.flags[id].resume
            && |dm.harts.haltRequest| == harts && (id < harts ==> !dm.harts.haltRequest[id])
            && dm.memory.data == [0, 0, 0, 0, 0, 0, 0, 0]
  {
    hide Write32;
  }

  lemma InitialSize(progbufsize: nat, harts: nat)
    requires progbufsize <= 16 && 1 <= harts <= HARTS
    ensures Initial(progbufsize, harts).progbufsize == progbufsize
  {
    hide Write32;
  }

  class DebugModule {
    const progbufsize: nat
    const halted: array<bool>
    const resumeack: array<bool>
    const havereset: array<bool>
    const debug_rom_flags: array<Flags>
    const halt_request: array<bool>
    const dmdata: array<bv8>
    const program_buffer: array<bv8>
    const debug_abstract: array<bv8>
    var dmcontrol: Control
    var busy: bool
    var cmderr: CmdErr
    var abstractauto: Autoexec
    var command: bv32
    var custom_base: bv32

    ghost function Repr(): set<object> {
      {this, halted, resumeack, havereset, debug_rom_flags, halt_request, dmdata, program_buffer, debug_abstract}
    }

    ghost predicate Apart(o: object) {
      o != halted && o != resumeack && o != havereset && o != halt_request && o != debug_rom_flags
    }

    /** No two of the buffers share storage. */
    ghost predicate Separate() {
      && halted != resumeack && halted != havereset && halted != halt_request && resumeack != havereset
      && resumeack != halt_request && havereset != halt_request
      && Apart(dmdata) && Apart(program_buffer) && Apart(debug_abstract)
      && dmdata != program_buffer && dmdata != debug_abstract && program_buffer != debug_abstract
    }

    ghost function View(): Dm
      reads Repr()
    {
      Dm(progbufsize, dmcontrol, busy, cmderr, abstractauto, command,
         Harts(halted[..], resumeack[..], havereset[..], debug_rom_flags[..], halt_request[..]),
         Memory(dmdata[..], program_buffer[..], debug_abstract[..], custom_base))
    }

    ghost predicate Ok()
      reads Repr()
    {
      Separate() && Valid(View())
    }

    constructor (progbufsize: nat, harts: nat)
      requires progbufsize <= 16 && 1 <= harts <= HARTS
      ensures View() == Initial(progbufsize, harts) && Separate() && Ok()
      ensures fresh(halted) && fresh(resumeack) && fresh(havereset) && fresh(debug_rom_flags) && fresh(halt_request)
      ensures fresh(dmdata) && fresh(program_buffer) && fresh(debug_abstract)
    {
      hide Write32, Repeat, Valid, ValidHarts, ValidMemory;
      this.progbufsize := progbufsize;
      var h, ra, hr, rq := NewHartFlags(harts);
      var fl := Zeroed(HARTS, Flags(false, false));
      var data, buffer, code := NewBuffers(progbufsize);
      halted, resumeack, havereset, debug_rom_flags, halt_request := h, ra, hr, fl, rq;
      dmdata, program_buffer, debug_abstract := data, buffer, code;
      dmcontrol := Control(false, false, 0, false, false, false);
      busy, cmderr, abstractauto, command, custom_base := false, CMDERR_NONE, Autoexec(0, 0), 0, 0;
    }

    /** `memset` */
    static method Zeroed<T>(n: nat, zero: T) returns (a: array<T>)
      ensures fresh(a) && a[..] == Repeat(n, zero)
    {
      a := new T[n](_ => zero);
    }

    static method NewHartFlags(harts: nat)
      returns (halted: array<bool>, resumeack: array<bool>, havereset: array<bool>, request: array<bool>)
      ensures fresh(halted) && fresh(resumeack) && fresh(havereset) && fresh(request)
      ensures halted != resumeack && halted != havereset && halted != request && resumeack != havereset
      ensures resumeack != request && havereset != request
      ensures halted[..] == resumeack[..] == havereset[..] == Repeat(HARTS, false)
      ensures request[..] == Repeat(harts, false)
    {
      halted := Zeroed(HARTS, false);
      resumeack := Zeroed(HARTS, false);
      havereset := Zeroed(HARTS, false);
      request := Zeroed(harts, false);
    }

    static method NewBuffers(progbufsize: nat) returns (data: array<bv8>, buffer: array<bv8>, code: array<bv8>)
      ensures fresh(data) && fresh(buffer) && fresh(code) && data != buffer && data != code && buffer != code
      ensures data[..] == Repeat(8, 0) && code[..] == Repeat(20, 0)
      ensures buffer[..] == Write32(Repeat(4 * progbufsize + 4, 0), progbufsize, MATCH_EBREAK)
    {
      hide Write32;
      data := Zeroed(8, 0);
      buffer := Zeroed(4 * progbufsize + 4, 0);
      PutWord(buffer, progbufsize, MATCH_EBREAK);
      code := Zeroed(20, 0);
    }

    /** `write32` */
    static method PutWord(memory: array<bv8>, index: nat, value: bv32)
      requires 4 * index + 4 <= memory.Length
      modifies memory
      ensures memory[..] == Write32(old(memory[..]), index, value)
    {
      hide Byte0, Byte1, Byte2, Byte3;
      memory[4 * index] := Byte0(value);
      memory[4 * index + 1] := Byte1(value);
      memory[4 * index + 2] := Byte2(value);
      memory[4 * index + 3] := Byte3(value);
    }

    method Reset()
      requires Ok()
      modifies Repr()
      ensures Ok() && View() == DebugModel.Reset(old(View()))
    {
      for i := 0 to halt_request.Length
        invariant forall k :: 0 <= k < i ==> !halt_request[k]
        modifies halt_request
      {
        halt_request[i] := false;
      }
      assert halt_request[..] == Repeat(halt_request.Length, false);
      assert halted[..] == old(halted[..]) && resumeack[..] == old(resumeack[..]);
      assert havereset[..] == old(havereset[..]);
      assert dmdata[..] == old(dmdata[..]) && program_buffer[..] == old(program_buffer[..]);
      assert debug_abstract[..] == old(debug_abstract[..]) && debug_rom_flags[..] == old(debug_rom_flags[..]);
      dmcontrol := Control(false, false, 0, false, false, false);
      busy, cmderr, abstractauto := false, CMDERR_NONE, Autoexec(0, 0);
    }

    method ResetHart(id: nat)
      requires Ok() && id < HARTS
      modifies havereset, halted
      ensures Ok() && View() == old(View()).(harts := ProcReset(old(View()).harts, id))
    {
      havereset[id] := true;
      halted[id] := false;
    }

    /** The `i` words `done` have been written to `debug_abstract`, which held `start`. */
    ghost predicate Wrote(start: seq<bv8>, done: seq<bv32>, i: nat)
      reads debug_abstract
    {
      debug_abstract.Length == |start| == 20 && |done| == i <= 5 && debug_abstract[..] == WriteWords(start, done)
    }

    /** `write32(debug_abstract, i++, word)` */
    method Emit(i: nat, word: bv32, ghost start: seq<bv8>, ghost done: seq<bv32>) returns (next: nat)
      requires Wrote(start, done, i) && i < 5
      modifies debug_abstract
      ensures next == i + 1 && Wrote(start, done + [word], next)
    {
      hide Write32;
      WriteWordsSnoc(start, done, word);
      PutWord(debug_abstract, i, word);
      next := i + 1;
    }

    /** The result of the emitters: `plan` has been carried out on `debug_abstract`. */
    ghost predicate Emitted(start: seq<bv8>, plan: Plan, i: nat, verdict: Verdict)
      reads debug_abstract
    {
      Wrote(start, plan.words, i) && verdict == plan.verdict
    }

    /** The load or store of the transferred data, if there is one of the size. */
    method EmitData(write: bool, size: bv32, reg: bv32, fp: bool, i: nat, ghost start: seq<bv8>, ghost done: seq<bv32>)
      returns (next: nat, ok: bool)
      requires Wrote(start, done, i) && i < 5
      modifies debug_abstract
      ensures ok <==> DataWord(write, size, reg, fp).Some?
      ensures next == if ok then i + 1 else i
      ensures Wrote(start, if ok then done + [DataWord(write, size, reg, fp).value] else done, next)
    {
      hide Wrote, Load, Encoding.Store;
      next, ok := i, true;
      if size == 2 {
        if write {
          next := Emit(i, Load(reg, ZERO, DATA_START, if fp then MATCH_FLW else MATCH_LW), start, done);
        } else {
          next := Emit(i, Encoding.Store(reg, ZERO, DATA_START, if fp then MATCH_FSW else MATCH_SW), start, done);
        }
      } else if size == 3 {
        if write {
          next := Emit(i, Load(reg, ZERO, DATA_START, if fp then MATCH_FLD else MATCH_LD), start, done);
        } else {
          next := Emit(i, Encoding.Store(reg, ZERO, DATA_START, if fp then MATCH_FSD else MATCH_SD), start, done);
        }
      } else {
        ok := false;
      }
    }

    /** debug_module.cc:514-547: the CSR goes through `s0`, which `dscratch` keeps meanwhile. */
    method EmitCsrAccess(write: bool, size: bv32, regno: bv32) returns (i: nat, verdict: Verdict)
      requires CsrPath(regno, progbufsize) && debug_abstract.Length == 20
      modifies debug_abstract
      ensures Emitted(old(debug_abstract[..]), Transfer(write, size, regno, progbufsize), i, verdict)
    {
      hide Wrote, DataWord, Csrw, Csrr;
      ghost var start, saved := debug_abstract[..], [Csrw(S0, CSR_DSCRATCH)];
      ghost var data := DataWord(write, size, S0, false);
      i := EmitFirst(Csrw(S0, CSR_DSCRATCH));
      var ok;
      ghost var done;
      if write {
        i, ok := EmitData(write, size, S0, false, i, start, saved);
        if !ok {
          return i, Fail(CMDERR_NOTSUP);
        }
        i := Emit(i, Csrw(S0, regno), start, saved + [data.value]);
        done := saved + [data.value] + [Csrw(S0, regno)];
      } else {
        i := Emit(i, Csrr(S0, regno), start, saved);
        i, ok := EmitData(write, size, S0, false, i, start, saved + [Csrr(S0, regno)]);
        if !ok {
          assert saved + [Csrr(S0, regno)] == Transfer(write, size, regno, progbufsize).words;
          return i, Fail(CMDERR_NOTSUP);
        }
        done := saved + [Csrr(S0, regno)] + [data.value];
      }
      i := Emit(i, Csrr(S0, CSR_DSCRATCH), start, done);
      assert done + [Csrr(S0, CSR_DSCRATCH)] == Transfer(write, size, regno, progbufsize).words;
      verdict := Go;
    }

    method EmitFirst(word: bv32) returns (next: nat)
      requires debug_abstract.Length == 20
      modifies debug_abstract
      ensures next == 1 && Wrote(old(debug_abstract[..]), [word], next)
    {
      NoWords(debug_abstract[..]);
      next := Emit(0, word, debug_abstract[..], []);
      assert [] + [word] == [word];
    }

    /** debug_module.cc:552-568 for a general register, 576-601 for a floating-point one. */
    method EmitFileAccess(write: bool, size: bv32, reg: bv32, fp: bool) returns (i: nat, verdict: Verdict)
      requires debug_abstract.Length == 20
      modifies debug_abstract
      ensures Emitted(old(debug_abstract[..]), FilePlan(write, size, reg, fp), i, verdict)
    {
      hide DataWord;
      ghost var start := debug_abstract[..];
      NoWords(start);
      var ok;
      i, ok := EmitData(write, size, reg, fp, 0, start, []);
      verdict := if ok then Go else Fail(CMDERR_NOTSUP);
      assert ok ==> FilePlan(write, size, reg, fp).words == [] + [DataWord(write, size, reg, fp).value];
    }

    method EmitTransfer(write: bool, size: bv32, regno: bv32) returns (i: nat, verdict: Verdict)
      requires debug_abstract.Length == 20
      modifies debug_abstract
      ensures Emitted(old(debug_abstract[..]), Transfer(write, size, regno, progbufsize), i, verdict)
    {
      hide WriteWords, DataWord, Csrr, Csrw;
      NoWords(debug_abstract[..]);
      if regno < 0x1000 && progbufsize < 2 {
        i, verdict := EmitCsrAccess(write, size, regno);
      } else if 0x1000 <= regno < 0x1020 {
        i, verdict := EmitFileAccess(write, size, regno - 0x1000, false);
      } else if 0x1020 <= regno < 0x1040 {
        i, verdict := EmitFileAccess(write, size, regno - 0x1020, true);
      } else if regno >= 0xc000 && regno & 1 == 1 {
        i, verdict := 0, Custom(write, regno - 0xc000);
      } else {
        i, verdict := 0, Fail(CMDERR_NOTSUP);
      }
    }

    /** debug_module.cc:623-629: the word after the transfer. */
    method EmitExit(i: nat, ghost start: seq<bv8>, ghost done: seq<bv32>) returns (next: nat)
      requires Wrote(start, done, i) && i < 5
      modifies debug_abstract
      ensures next == i + 1
      ensures Wrote(start, done + [if IsPostexec(command) then Jal(ZERO, ProgbufOffset(i)) else MATCH_EBREAK], next)
    {
      hide Wrote, Jal, IsPostexec, ProgbufOffset;
      if IsPostexec(command) {
        next := Emit(i, Jal(ZERO, ProgbufOffset(i)), start, done);
      } else {
        next := Emit(i, MATCH_EBREAK, start, done);
      }
    }

    /** debug_module.cc:500-629 on a halted hart. */
    method EmitCode() returns (i: nat, verdict: Verdict)
      requires debug_abstract.Length == 20
      modifies debug_abstract
      ensures Emitted(old(debug_abstract[..]), Generate(command, progbufsize), i, verdict)
    {
      hide WriteWords, Transfer, Jal, Size, IsWrite, Regno, IsPostexec, ProgbufOffset, IsTransfer;
      ghost var start := debug_abstract[..];
      NoWords(start);
      GenerateFits(command, progbufsize);
      i, verdict := 0, Go;
      ghost var words: seq<bv32> := [];
      if IsTransfer(command) {
        i, verdict := EmitTransfer(IsWrite(command), Size(command), Regno(command));
        words := Transfer(IsWrite(command), Size(command), Regno(command), progbufsize).words;
        if verdict != Go {
          return;
        }
      }
      i := EmitExit(i, start, words);
    }

    method PerformAbstractCommand()
      requires Ok()
      modifies Repr()
      ensures Ok() && View() == Perform(old(View()))
    {
      hide Generate, WriteWords, Read32, Write32, IsRegisterAccess, BaseFor, CustomValue;
      if cmderr != CMDERR_NONE {
        return;
      }
      if busy {
        cmderr := CMDERR_BUSY;
      } else if !IsRegisterAccess(command) {
        cmderr := CMDERR_NOTSUP;
      } else if !halted[dmcontrol.hartsel] {
        cmderr := CMDERR_HALTRESUME;
      } else {
        var i, verdict := EmitCode();
        match verdict
        case Fail(error) => cmderr := error;
        case Custom(write, number) => TouchCustom(write, number);
        case Go =>
          debug_rom_flags[dmcontrol.hartsel] := debug_rom_flags[dmcontrol.hartsel].(go := true);
          busy := true;
      }
    }

    /** debug_module.cc:607-614. */
    method TouchCustom(write: bool, number: bv32)
      requires dmdata.Length == 8
      modifies this`custom_base, dmdata
      ensures write ==> custom_base == BaseFor(Read32(old(dmdata[..]), 0), number) && dmdata[..] == old(dmdata[..])
      ensures !write ==> custom_base == old(custom_base)
      ensures !write ==> dmdata[..] == Write32(Write32(old(dmdata[..]), 0, CustomValue(old(custom_base), number)), 1, 0)
    {
      hide Read32, Write32, BaseFor, CustomValue;
      if write {
        var value := GetWord(dmdata, 0);
        custom_base := BaseFor(value, number);
      } else {
        PutWord(dmdata, 0, CustomValue(custom_base, number));
        PutWord(dmdata, 1, 0);
      }
    }

    /** `read32` */
    static method GetWord(memory: array<bv8>, index: nat) returns (value: bv32)
      requires 4 * index + 4 <= memory.Length
      ensures value == Read32(memory[..], index)
    {
      value := Word(memory[4 * index], memory[4 * index + 1], memory[4 * index + 2], memory[4 * index + 3]);
    }

    /** The value is None for the registers that this model leaves out. */
    method DmiRead(address: nat) returns (value: Option<bv32>)
      requires Ok()
      modifies Repr()
      ensures Ok() && View() == DebugModel.DmiRead(old(View()), address)
      ensures value.Some? ==> value.value == ReadValue(old(View()), address)
      ensures value.Some? <==> IsData(address) || IsProgbuf(progbufsize, address)
                               || address in {DMI_DMCONTROL, DMI_ABSTRACTCS, DMI_ABSTRACTAUTO, DMI_COMMAND}
    {
      hide Perform, Read32, Auto, ControlFields, AbstractCsWord, AbstractAutoWord;
      if IsData(address) {
        var i := address - DMI_DATA0;
        var word := GetWord(dmdata, i);
        value := Some(if busy then 0xffff_ffff else word);
        if busy && cmderr == CMDERR_NONE {
          cmderr := CMDERR_BUSY;
        }
        if !busy && Auto(abstractauto.data, i) {
          PerformAbstractCommand();
        }
      } else if IsProgbuf(progbufsize, address) {
        var i := address - DMI_PROGBUF0;
        var word := GetWord(program_buffer, i);
        value := Some(if busy then 0xffff_ffff else word);
        if !busy && Auto(abstractauto.progbuf, i) {
          PerformAbstractCommand();
        }
      } else if address == DMI_DMCONTROL {
        if dmcontrol.hartsel < halt_request.Length {
          dmcontrol := dmcontrol.(haltreq := halt_request[dmcontrol.hartsel]);
        }
        value := Some(ControlWord(dmcontrol));
      } else if address == DMI_ABSTRACTCS {
        value := Some(AbstractCsWord(cmderr, busy, progbufsize));
      } else if address == DMI_ABSTRACTAUTO {
        value := Some(AbstractAutoWord(abstractauto));
      } else if address == DMI_COMMAND {
        value := Some(0);
      } else {
        value := None;
      }
    }

    /** debug_module.cc:677-694. */
    method TakeControl(value: bv32)
      requires Ok()
      modifies Repr()
      ensures Ok() && View() == DebugModel.TakeControl(old(View()), value)
    {
      hide HasBit, ControlOf, DebugModel.Reset;
      if !dmcontrol.dmactive && HasBit(value, 1) {
        Reset();
      }
      dmcontrol := dmcontrol.(dmactive := HasBit(value, 1));
      if dmcontrol.dmactive {
        dmcontrol := ControlOf(value);
        if HasBit(value, 0x1000_0000) {
          havereset[dmcontrol.hartsel] := false;
        }
      }
    }

    /** debug_module.cc:697-705: the selected hart, when there is one. */
    method SteerSelected(hart: nat)
      requires Ok() && hart < halt_request.Length
      modifies halted, resumeack, havereset, debug_rom_flags, halt_request
      ensures Ok() && View() == old(View()).(harts := DebugModel.SteerSelected(old(View()).harts, hart, dmcontrol))
    {
      hide ProcReset;
      halt_request[hart] := dmcontrol.haltreq;
      if dmcontrol.resumereq {
        debug_rom_flags[hart] := debug_rom_flags[hart].(resume := true);
        resumeack[hart] := false;
      }
      if dmcontrol.hartreset {
        ResetHart(hart);
      }
    }

    /** debug_module.cc:695-711. */
    method SteerHarts()
      requires Ok()
      modifies halted, resumeack, havereset, debug_rom_flags, halt_request
      ensures Ok() && View() == old(View()).(harts := DebugModel.SteerHarts(old(View()).harts, dmcontrol))
    {
      hide ProcResets, DebugModel.SteerSelected;
      if dmcontrol.hartsel < halt_request.Length {
        SteerSelected(dmcontrol.hartsel);
      }
      if dmcontrol.ndmreset {
        ResetHarts();
      }
    }

    method ResetHarts()
      requires Ok()
      modifies havereset, halted
      ensures Ok() && View() == old(View()).(harts := ProcResets(old(View()).harts, halt_request.Length))
    {
      ghost var before := View();
      for i := 0 to halt_request.Length
        invariant Ok() && View() == before.(harts := ProcResets(before.harts, i))
      {
        ResetHart(i);
      }
    }

    method DmiWrite(address: nat, value: bv32)
      requires Ok()
      modifies Repr()
      ensures Ok() && View() == DebugModel.DmiWrite(old(View()), address, value)
    {
      hide Perform, Write32, Auto, DebugModel.TakeControl, DebugModel.SteerHarts, Acknowledged, AutoexecOf;
      if IsData(address) {
        var i := address - DMI_DATA0;
        if !busy {
          PutWord(dmdata, i, value);
        }
        if busy && cmderr == CMDERR_NONE {
          cmderr := CMDERR_BUSY;
        }
        if !busy && Auto(abstractauto.data, i) {
          PerformAbstractCommand();
        }
      } else if IsProgbuf(progbufsize, address) {
        var i := address - DMI_PROGBUF0;
        if !busy {
          PutWord(program_buffer, i, value);
        }
        if !busy && Auto(abstractauto.progbuf, i) {
          PerformAbstractCommand();
        }
      } else if address == DMI_DMCONTROL {
        TakeControl(value);
        SteerHarts();
      } else if address == DMI_COMMAND {
        command := value;
        PerformAbstractCommand();
      } else if address == DMI_ABSTRACTCS {
        cmderr := Acknowledged(cmderr, value);
      } else if address == DMI_ABSTRACTAUTO {
        abstractauto := AutoexecOf(value);
      }
    }

    static method CopyInto(memory: array<bv8>, offset: nat, bytes: seq<bv8>)
      requires offset + |bytes| <= memory.Length
      modifies memory
      ensures memory[..] == Copy(old(memory[..]), offset, bytes)
    {
      for k := 0 to |bytes|
        invariant forall j :: 0 <= j < offset || offset + k <= j < memory.Length ==> memory[j] == old(memory[j])
        invariant forall j :: offset <= j < offset + k ==> memory[j] == bytes[j - offset]
      {
        memory[offset + k] := bytes[k];
      }
      assert memory[..] == Copy(old(memory[..]), offset, bytes);
    }

    /** debug_module.cc:180-191: a hart says that it is halted. */
    method HartHalted(id: nat)
      requires Ok() && id < HARTS
      modifies this`busy, halted
      ensures Ok() && View() == DebugModel.HartHalted(old(View()), id)
    {
      halted[id] := true;
      if dmcontrol.hartsel == id && !debug_rom_flags[id].go {
        busy := false;
      }
    }

    /** debug_module.cc:198-204: a hart says that it resumes. */
    method HartResuming(id: nat)
      requires Ok() && id < HARTS
      modifies halted, resumeack, debug_rom_flags
      ensures Ok() && View() == old(View()).(harts := DebugModel.HartResuming(old(View()).harts, id))
    {
      halted[id] := false;
      resumeack[id] := true;
      debug_rom_flags[id] := debug_rom_flags[id].(resume := false);
    }

    /** A hart's store to the module's memory. */
    method Store(offset: nat, bytes: seq<bv8>) returns (ok: bool)
      requires Ok() && StoreOk(offset, bytes)
      modifies Repr()
      ensures Ok() && View() == HartStore(old(View()), offset, bytes)
      ensures ok == (TargetOf(progbufsize, offset, |bytes|) != Nowhere)
    {
      hide Copy, Read32, StoredId, DebugModel.HartHalted, DebugModel.HartResuming;
      ok := true;
      var id := StoredId(bytes);
      var address := DEBUG_START + offset;
      if InData(address, |bytes|) {
        CopyInto(dmdata, address - DEBUG_DATA_START, bytes);
      } else if InProgbuf(progbufsize, address, |bytes|) {
        CopyInto(program_buffer, address - ProgbufStart(progbufsize), bytes);
      } else if address == DEBUG_ROM_HALTED {
        HartHalted(id);
      } else if address == DEBUG_ROM_GOING {
        debug_rom_flags[dmcontrol.hartsel] := debug_rom_flags[dmcontrol.hartsel].(go := false);
      } else if address == DEBUG_ROM_RESUMING {
        HartResuming(id);
      } else if address == DEBUG_ROM_EXCEPTION {
        if cmderr == CMDERR_NONE {
          cmderr := CMDERR_EXCEPTION;
        }
      } else {
        ok := false;
      }
    }
  }

  lemma NoWords(memory: seq<bv8>)
    ensures WriteWords(memory, []) == memory
  {}
}

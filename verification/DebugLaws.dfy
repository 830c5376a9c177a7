/**
 What a debugger and the harts see of the debug module, in the addresses and bits of the interface alone: the bytes
 that harts store and registers show, the bits of each hart, the errors of commands, and whole register reads.
 */
module DebugLaws {
  import opened Common
  import opened Encoding
  import opened A = AbstractCommand
  import opened DebugModel

  // ----- Bytes -----

  function ByteOf(w: bv32, j: nat): bv8
    requires j < 4
  {
    match j case 0 => Byte0(w) case 1 => Byte1(w) case 2 => Byte2(w) case _ => Byte3(w)
  }

  lemma BytesOfWord(b0: bv8, b1: bv8, b2: bv8, b3: bv8)
    ensures Byte0(Word(b0, b1, b2, b3)) == b0 && Byte1(Word(b0, b1, b2, b3)) == b1
    ensures Byte2(Word(b0, b1, b2, b3)) == b2 && Byte3(Word(b0, b1, b2, b3)) == b3
  {}

  lemma ByteOfRead(memory: seq<bv8>, k: nat)
    requires k / 4 * 4 + 4 <= |memory|
    ensures ByteOf(Read32(memory, k / 4), k % 4) == memory[k]
  {
    var i := k / 4;
    BytesOfWord(memory[4 * i], memory[4 * i + 1], memory[4 * i + 2], memory[4 * i + 3]);
    hide Word, Byte0, Byte1, Byte2, Byte3;
  }

  /** Byte `k` of the registers from `first` on, as they read once the module is idle. */
  function Shown(dm: Dm, first: nat, k: nat): bv8
    requires Valid(dm)
  {
    ByteOf(ReadValue(dm.(busy := false), first + k / 4), k % 4)
  }

  lemma ShownData(dm: Dm, k: nat)
    requires Valid(dm) && k < 8
    ensures Shown(dm, 0x04, k) == dm.memory.data[k]
  {
    hide Read32, ByteOf, ControlWord, AbstractCsWord, AbstractAutoWord, DebugModel.DmiRead;
    ByteOfRead(dm.memory.data, k);
  }

  lemma ShownProgbuf(dm: Dm, k: nat)
    requires Valid(dm) && k < 4 * dm.progbufsize
    ensures Shown(dm, 0x20, k) == dm.memory.progbuf[k]
  {
    hide Read32, ByteOf, ControlWord, AbstractCsWord, AbstractAutoWord, DebugModel.DmiRead;
    ByteOfRead(dm.memory.progbuf, k);
  }

  /** Where the bytes of a hart's store at `offset` lie relative to `start`. */
  predicate Inside(offset: nat, bytes: seq<bv8>, start: int, length: int) {
    start <= 0x100 + offset && 0x100 + offset + |bytes| <= start + length
  }

  function Over(was: bv8, offset: nat, bytes: seq<bv8>, start: int, k: nat): bv8 {
    var at := 0x100 + offset - start;
    if at <= k < at + |bytes| then bytes[k - at] else was
  }

  lemma CopiedAt(memory: seq<bv8>, offset: nat, bytes: seq<bv8>, k: nat)
    requires offset + |bytes| <= |memory| && k < |memory|
    ensures Copy(memory, offset, bytes)[k] == if offset <= k < offset + |bytes| then bytes[k - offset] else memory[k]
  {}

  /** The bytes that a hart stores into the data words are the ones that the data registers show; all others stay. */
  lemma DataStoreShows(dm: Dm, offset: nat, bytes: seq<bv8>, k: nat)
    requires Valid(dm) && StoreOk(offset, bytes) && Inside(offset, bytes, 0x380, 8)
    ensures k < 8 ==> Shown(HartStore(dm, offset, bytes), 0x04, k) == Over(Shown(dm, 0x04, k), offset, bytes, 0x380, k)
    ensures k < 4 * dm.progbufsize ==> Shown(HartStore(dm, offset, bytes), 0x20, k) == Shown(dm, 0x20, k)
    ensures var r := HartStore(dm, offset, bytes);
            r == dm.(memory := dm.memory.(data := r.memory.data))
  {
    hide Shown, Copy;
    var r := HartStore(dm, offset, bytes);
    if k < 8 {
      ShownData(dm, k);
      ShownData(r, k);
      CopiedAt(dm.memory.data, 0x100 + offset - 0x380, bytes, k);
    }
    if k < 4 * dm.progbufsize {
      ShownProgbuf(dm, k);
      ShownProgbuf(r, k);
    }
  }

  /** The same for the program buffer, which ends where the data words begin and has one hidden word at its end. */
  lemma ProgbufStoreShows(dm: Dm, offset: nat, bytes: seq<bv8>, k: nat)
    requires Valid(dm) && StoreOk(offset, bytes) && !Inside(offset, bytes, 0x380, 8)
    requires var size := 4 * dm.progbufsize + 4; Inside(offset, bytes, 0x380 - size, size)
    ensures k < 8 ==> Shown(HartStore(dm, offset, bytes), 0x04, k) == Shown(dm, 0x04, k)
    ensures k < 4 * dm.progbufsize ==>
              Shown(HartStore(dm, offset, bytes), 0x20, k)
              == Over(Shown(dm, 0x20, k), offset, bytes, 0x380 - (4 * dm.progbufsize + 4), k)
    ensures var r := HartStore(dm, offset, bytes);
            r == dm.(memory := dm.memory.(progbuf := r.memory.progbuf))
  {
    hide Shown, Copy;
    var r := HartStore(dm, offset, bytes);
    if k < 8 {
      ShownData(dm, k);
      ShownData(r, k);
    }
    if k < 4 * dm.progbufsize {
      ShownProgbuf(dm, k);
      ShownProgbuf(r, k);
      CopiedAt(dm.memory.progbuf, 0x100 + offset - (0x380 - (4 * dm.progbufsize + 4)), bytes, k);
    }
  }

  /** Any other store changes no memory. */
  lemma OtherStoreShows(dm: Dm, offset: nat, bytes: seq<bv8>)
    requires Valid(dm) && StoreOk(offset, bytes) && !Inside(offset, bytes, 0x380, 8)
    requires var size := 4 * dm.progbufsize + 4; !Inside(offset, bytes, 0x380 - size, size)
    ensures HartStore(dm, offset, bytes).memory == dm.memory
  {
    hide StoredId;
  }

  // ----- The bits of a hart -----

  /** Hart `id` stores its number at `address`. */
  predicate Reports(s: Step, address: nat, id: nat) {
    s.Stores? && 0x100 + s.offset == address && |s.bytes| == 4 && Read32(s.bytes, 0) as nat == id
  }

  /** The requests that a write of dmcontrol leaves in force: its own, or the last ones if it turns the module off. */
  predicate Asks(dm: Dm, value: bv32, bit: bv32, was: bool) {
    if value & 1 != 0 then value & bit != 0 else was
  }

  function Selected(dm: Dm, value: bv32): nat {
    if value & 1 != 0 then ((value >> 16) & 0x3ff) as nat else dm.control.hartsel
  }

  predicate IsControl(s: Step) { s.Writes? && s.address == 0x10 }

  /** The step resets hart `id`: by itself, by hartreset of the selected hart, or by ndmreset of all there are. */
  predicate ResetBy(dm: Dm, s: Step, id: nat) {
    || s == Resets(id)
    || (IsControl(s) && id < |dm.harts.haltRequest|
        && (|| (Asks(dm, s.value, 0x2000_0000, dm.control.hartreset) && Selected(dm, s.value) == id)
            || Asks(dm, s.value, 2, dm.control.ndmreset)))
  }

  /** The step asks hart `id` to resume. */
  predicate ResumedBy(dm: Dm, s: Step, id: nat) {
    && IsControl(s) && id < |dm.harts.haltRequest| && Selected(dm, s.value) == id
    && Asks(dm, s.value, 0x4000_0000, dm.control.resumereq)
  }

  lemma HartselBits(value: bv32)
    ensures HartselField(value) == (value >> 16) & 0x3ff
  {}

  lemma SelectedIs(dm: Dm, value: bv32)
    requires Valid(dm)
    ensures TakeControl(dm, value).control.hartsel == Selected(dm, value)
    ensures TakeControl(dm, value).control.hartreset == Asks(dm, value, 0x2000_0000, dm.control.hartreset)
    ensures TakeControl(dm, value).control.ndmreset == Asks(dm, value, 2, dm.control.ndmreset)
    ensures TakeControl(dm, value).control.resumereq == Asks(dm, value, 0x4000_0000, dm.control.resumereq)
    ensures TakeControl(dm, value).control.haltreq == Asks(dm, value, 0x8000_0000, dm.control.haltreq)
  {
    hide HartselField;
    HartselBits(value);
  }

  lemma {:induction false} ResetsAll(h: Harts, n: nat, id: nat)
    requires ValidHarts(h) && n <= HARTS && id < HARTS
    ensures var r := ProcResets(h, n);
            && r.halted[id] == (h.halted[id] && id >= n) && r.havereset[id] == (h.havereset[id] || id < n)
            && r.resumeack == h.resumeack
  {
    if n > 0 {
      ResetsAll(h, n - 1, id);
    }
  }

  /** What a write of dmcontrol does to the bits of one hart. */
  lemma SteeredBits(h: Harts, c: Control, id: nat)
    requires ValidHarts(h) && c.hartsel < HARTS && id < HARTS
    ensures var r, there := SteerHarts(h, c), id < |h.haltRequest|;
            var selected := there && c.hartsel == id;
            var reset := (selected && c.hartreset) || (there && c.ndmreset);
            && r.halted[id] == (h.halted[id] && !reset) && r.havereset[id] == (h.havereset[id] || reset)
            && r.resumeack[id] == (h.resumeack[id] && !(selected && c.resumereq))
            && r.flags[id].resume == (h.flags[id].resume || (selected && c.resumereq))
            && |r.haltRequest| == |h.haltRequest|
            && (there ==> r.haltRequest[id] == if selected then c.haltreq else h.haltRequest[id])
  {
    hide ProcResets;
    var s := if c.hartsel < |h.haltRequest| then SteerSelected(h, c.hartsel, c) else h;
    ResetsAll(s, |h.haltRequest|, id);
  }

  lemma ControlBitsOf(dm: Dm, s: Step, id: nat)
    requires Valid(dm) && StepOk(s) && IsControl(s) && id < HARTS
    ensures var r := Next(dm, s);
            && r.harts.halted[id] == (dm.harts.halted[id] && !ResetBy(dm, s, id))
            && r.harts.resumeack[id] == (dm.harts.resumeack[id] && !ResumedBy(dm, s, id))
            && r.harts.flags[id].resume == (dm.harts.flags[id].resume || ResumedBy(dm, s, id))
  {
    SelectedIs(dm, s.value);
    WritesControl(dm, s);
    TakenHarts(dm, s.value);
    var t := TakeControl(dm, s.value);
    hide TakeControl, SteerHarts, Selected, Asks;
    SteeredBits(t.harts, t.control, id);
  }

  lemma TakenHarts(dm: Dm, value: bv32)
    requires Valid(dm)
    ensures var t := TakeControl(dm, value);
            && t.harts.halted == dm.harts.halted && t.harts.resumeack == dm.harts.resumeack
            && t.harts.flags == dm.harts.flags && |t.harts.haltRequest| == |dm.harts.haltRequest|
  {
    hide HasBit, ControlOf, Activates, Repeat, Reset;
    ResetHarts(dm);
  }

  lemma ResetHarts(dm: Dm)
    requires Valid(dm)
    ensures var r := Reset(dm).harts;
            && r.halted == dm.harts.halted && r.resumeack == dm.harts.resumeack && r.flags == dm.harts.flags
            && |r.haltRequest| == |dm.harts.haltRequest|
  {}

  /** The stores that mean something; the buffers lie elsewhere. */
  lemma RomTargets(progbufsize: nat, offset: nat, length: nat)
    requires progbufsize <= 16
    ensures TargetOf(progbufsize, offset, length) == Halted <==> 0x100 + offset == 0x100
    ensures TargetOf(progbufsize, offset, length) == Resuming <==> 0x100 + offset == 0x108
  {}

  lemma StoreBitsOf(dm: Dm, s: Step, id: nat)
    requires Valid(dm) && StepOk(s) && s.Stores? && id < HARTS
    ensures var r := Next(dm, s);
            && r.harts.halted[id] == (Reports(s, 0x100, id) || (dm.harts.halted[id] && !Reports(s, 0x108, id)))
            && r.harts.resumeack[id] == (dm.harts.resumeack[id] || Reports(s, 0x108, id))
            && r.harts.flags[id].resume == (dm.harts.flags[id].resume && !Reports(s, 0x108, id))
  {
    hide Read32, TargetOf, SetGo, HartStore, HartResuming, Valid;
    HartselBound(dm);
    RomTargets(dm.progbufsize, s.offset, |s.bytes|);
    StoredHarts(dm, s.offset, s.bytes);
    SetGoResume(dm.harts, dm.control.hartsel, false, id);
    if TargetOf(dm.progbufsize, s.offset, |s.bytes|) == Resuming {
      ResumedHarts(dm.harts, StoredId(s.bytes), id);
    }
  }

  lemma StoredHarts(dm: Dm, offset: nat, bytes: seq<bv8>)
    requires Valid(dm) && StoreOk(offset, bytes)
    ensures var r, t := HartStore(dm, offset, bytes).harts, TargetOf(dm.progbufsize, offset, |bytes|);
            && (t == Halted ==>
                  StoredId(bytes) < HARTS && r == dm.harts.(halted := dm.harts.halted[StoredId(bytes) := true]))
            && (t == Resuming ==> StoredId(bytes) < HARTS && r == HartResuming(dm.harts, StoredId(bytes)))
            && (t == Going ==> r == SetGo(dm.harts, dm.control.hartsel, false))
            && (t !in {Halted, Resuming, Going} ==> r == dm.harts)
  {
    hide Read32, Copy, SetGo, HartResuming, StoredId, HartHalted, Valid;
    if TargetOf(dm.progbufsize, offset, |bytes|) == Halted {
      ReportedHarts(dm, StoredId(bytes));
    }
  }

  lemma ReportedHarts(dm: Dm, id: nat)
    requires Valid(dm) && id < HARTS
    ensures HartHalted(dm, id).harts == dm.harts.(halted := dm.harts.halted[id := true])
  {}

  lemma ResumedHarts(h: Harts, hart: nat, id: nat)
    requires ValidHarts(h) && hart < HARTS && id < HARTS
    ensures var r := HartResuming(h, hart);
            && r.halted[id] == (h.halted[id] && id != hart) && r.resumeack[id] == (h.resumeack[id] || id == hart)
            && r.flags[id].resume == (h.flags[id].resume && id != hart)
  {}

  lemma SetGoResume(h: Harts, hart: nat, value: bool, id: nat)
    requires ValidHarts(h) && hart < HARTS && id < HARTS
    ensures var r := SetGo(h, hart, value);
            && r == h.(flags := r.flags) && r.flags[id].resume == h.flags[id].resume
  {}

  lemma HartselBound(dm: Dm)
    requires Valid(dm)
    ensures dm.control.hartsel < HARTS && ValidHarts(dm.harts) && dm.progbufsize <= 16
  {}

  lemma ResetBitsOf(dm: Dm, hart: nat, id: nat)
    requires Valid(dm) && hart < HARTS && id < HARTS
    ensures var r := Next(dm, Resets(hart)).harts;
            && r.halted[id] == (dm.harts.halted[id] && hart != id)
            && r.resumeack == dm.harts.resumeack && r.flags == dm.harts.flags
  {}

  lemma OtherBitsOf(dm: Dm, s: Step, id: nat)
    requires Valid(dm) && StepOk(s) && IsDmi(s) && !IsControl(s) && id < HARTS
    ensures var r := Next(dm, s);
            && r.harts.halted == dm.harts.halted && r.harts.resumeack == dm.harts.resumeack
            && r.harts.flags[id].resume == dm.harts.flags[id].resume
  {
    hide Performs, Next, Accepts, Valid, SetGo;
    HartselBound(dm);
    if Performs(dm, s).Some? {
      StartEffect(dm, s);
      SetGoResume(dm.harts, dm.control.hartsel, true, id);
    } else {
      DmiQuiet(dm, s);
    }
  }

  /**
   Step by step, whatever the step: a hart is halted from its report at 0x100 until it reports that it resumes or is
   reset; its resume flag stands from a request until that report, and resumeack from that report until a request.
   */
  lemma HartBits(dm: Dm, s: Step, id: nat)
    requires Valid(dm) && StepOk(s) && id < HARTS
    ensures var r := Next(dm, s);
            && r.harts.halted[id] ==
               (Reports(s, 0x100, id) || (dm.harts.halted[id] && !Reports(s, 0x108, id) && !ResetBy(dm, s, id)))
            && r.harts.resumeack[id] == (Reports(s, 0x108, id) || (dm.harts.resumeack[id] && !ResumedBy(dm, s, id)))
            && r.harts.flags[id].resume ==
               (ResumedBy(dm, s, id) || (dm.harts.flags[id].resume && !Reports(s, 0x108, id)))
  {
    hide Read32, Asks, Selected, Copy, DmiRead, DmiWrite, WriteControl, Valid;
    match s
    case Stores(_, _) => StoreBitsOf(dm, s, id);
    case Resets(hart) => ResetBitsOf(dm, hart, id);
    case Reads(_) => OtherBitsOf(dm, s, id);
    case Writes(_, _) =>
      if IsControl(s) {
        ControlBitsOf(dm, s, id);
      } else {
        OtherBitsOf(dm, s, id);
      }
  }

  /** A hart found halted after a run that began with it running has reported so. */
  lemma {:induction false} HaltedHasReported(dm: Dm, steps: seq<Step>, id: nat) returns (i: nat)
    requires Valid(dm) && StepsOk(steps) && id < HARTS
    requires !dm.harts.halted[id] && DebugModel.Run(dm, steps).harts.halted[id]
    ensures i < |steps| && Reports(steps[i], 0x100, id)
    decreases |steps|
  {
    hide Next, Valid, StepOk, Reports;
    HartBits(dm, steps[0], id);
    if Reports(steps[0], 0x100, id) {
      i := 0;
    } else {
      i := HaltedHasReported(Next(dm, steps[0]), steps[1..], id);
      i := i + 1;
    }
  }

  /** A request to resume stands, and goes unacknowledged, until the hart itself reports that it resumes. */
  lemma {:induction false} ResumeIsAnswered(dm: Dm, steps: seq<Step>, id: nat) returns (i: nat)
    requires Valid(dm) && StepsOk(steps) && id < HARTS
    requires dm.harts.flags[id].resume && !dm.harts.resumeack[id]
    requires var h := DebugModel.Run(dm, steps).harts; !h.flags[id].resume || h.resumeack[id]
    ensures i < |steps| && Reports(steps[i], 0x108, id)
    decreases |steps|
  {
    hide Next, Valid, StepOk, Reports;
    HartBits(dm, steps[0], id);
    if Reports(steps[0], 0x108, id) {
      i := 0;
    } else {
      i := ResumeIsAnswered(Next(dm, steps[0]), steps[1..], id);
      i := i + 1;
    }
  }

  /** The debugger's halt request of a hart is what was last written for it, and reads back as haltreq. */
  lemma HaltRequested(dm: Dm, value: bv32, id: nat)
    requires Valid(dm) && id < |dm.harts.haltRequest| && value & 1 != 0
    ensures var r, sel := DebugModel.DmiWrite(dm, 0x10, value), Selected(dm, value);
            && |r.harts.haltRequest| == |dm.harts.haltRequest|
            && r.harts.haltRequest[id] == (if sel == id then value & 0x8000_0000 != 0
                                           else dm.control.dmactive && dm.harts.haltRequest[id])
            && (sel == id ==> (ReadValue(r, 0x10) & 0x8000_0000 != 0 <==> r.harts.haltRequest[id]))
  {
    SelectedIs(dm, value);
    TakenRequests(dm, value, id);
    ControlReadsBack(dm, value);
    HighBit(value);
    var t := TakeControl(dm, value);
    hide TakeControl, SteerHarts, Selected, Asks, ReadValue;
    SteeredBits(t.harts, t.control, id);
    AsksIs(dm, value);
  }

  lemma AsksIs(dm: Dm, value: bv32)
    requires value & 1 != 0
    ensures Asks(dm, value, 0x8000_0000, dm.control.haltreq) <==> value & 0x8000_0000 != 0
  {}

  lemma HighBit(value: bv32)
    ensures ((value & 0xe3ff_0002) | 1) & 0x8000_0000 == value & 0x8000_0000
  {}

  lemma TakenRequests(dm: Dm, value: bv32, id: nat)
    requires Valid(dm) && id < |dm.harts.haltRequest| && value & 1 != 0
    ensures var t := TakeControl(dm, value);
            |t.harts.haltRequest| == |dm.harts.haltRequest|
            && t.harts.haltRequest[id] == (dm.control.dmactive && dm.harts.haltRequest[id])
  {
    hide ControlOf;
  }

  /** Switching the module on clears errors, busy, autoexec and the halt requests, and no memory. */
  lemma ActivationClears(dm: Dm, value: bv32)
    requires Valid(dm) && !dm.control.dmactive && value & 1 != 0
    ensures var r := DebugModel.DmiWrite(dm, 0x10, value);
            && r.cmderr == CMDERR_NONE && !r.busy && r.autoexec == Autoexec(0, 0) && r.memory == dm.memory
            && r.command == dm.command && r.harts.flags[0].go == dm.harts.flags[0].go
  {
    hide SteerHarts, ControlOf;
    SteerKeepsGo(TakeControl(dm, value).harts, TakeControl(dm, value).control);
  }

  // ----- Commands -----

  /** The module and its selected hart are ready for a command. */
  predicate Ready(dm: Dm)
    requires Valid(dm)
  {
    dm.cmderr == CMDERR_NONE && !dm.busy && dm.harts.halted[dm.control.hartsel]
  }

  lemma CommandPerforms(dm: Dm, word: bv32)
    requires Valid(dm)
    ensures DebugModel.DmiWrite(dm, 0x17, word) == Perform(dm.(command := word))
  {
    hide Perform;
  }

  /** A supported request starts the selected hart on code that does what was asked. */
  lemma RequestStarts(dm: Dm, write: bool, postexec: bool, size: bv32, regno: bv32, c: Core)
    requires Valid(dm) && Ready(dm)
    requires Supported(size, regno, dm.progbufsize) && (regno < 0x1000 ==> regno != 0x7b2)
    ensures var r := DebugModel.DmiWrite(dm, 0x17, CommandWord(write, postexec, true, size, regno));
            && r.busy && r.harts == SetGo(dm.harts, dm.control.hartsel, true) && r.cmderr == CMDERR_NONE
            && r.control == dm.control && r.progbufsize == dm.progbufsize && r.memory.data == dm.memory.data
            && EndsWith(A.Run(CodeWords(r.memory), 0, c), postexec, Requested(c, write, size == 3, regno))
  {
    var w := CommandWord(write, postexec, true, size, regno);
    var p := dm.(command := w);
    hide CommandWord, Perform, Generate, CodeWords, EndsWith, A.Run, Requested, Supported, SetGo, IsRegisterAccess;
    SupportedBounds(size, regno, dm.progbufsize);
    RegisterAccess(write, postexec, size, regno);
    CommandPerforms(dm, w);
    RequestMeets(write, postexec, size, regno, dm.progbufsize, c);
    PerformEffect(p);
    AcceptedCode(p);
    EndsAlike(Generate(w, dm.progbufsize).words, CodeWords(Perform(p).memory), c, postexec,
              Requested(c, write, size == 3, regno));
  }

  lemma RegisterAccess(write: bool, postexec: bool, size: bv32, regno: bv32)
    requires size < 8 && regno < 0x1_0000
    ensures IsRegisterAccess(CommandWord(write, postexec, true, size, regno))
  {
    SpelledSize(write, postexec, true, size, regno);
    hide CommandWord, Size;
  }

  lemma EndsAlike(words: seq<bv32>, memory: seq<bv32>, c: Core, postexec: bool, wanted: Core)
    requires words <= memory && EndsWith(A.Run(words, 0, c), postexec, wanted)
    ensures EndsWith(A.Run(memory, 0, c), postexec, wanted)
  {
    hide A.Run, Same;
    RunPrefix(words, memory, 0, c);
  }

  /** The error that abstractcs shows after a word has been written to `command`, by the first reason that applies. */
  lemma CommandErrors(dm: Dm, word: bv32)
    requires Valid(dm)
    ensures var was, now := (ReadValue(dm, 0x16) >> 8) & 7,
                            (ReadValue(DebugModel.DmiWrite(dm, 0x17, word), 0x16) >> 8) & 7;
            now == if was != 0 then was
                   else if dm.busy then 1
                   else if word >> 24 != 0 then 2
                   else if !dm.harts.halted[dm.control.hartsel] then 4
                   else if Generate(word, dm.progbufsize).verdict.Fail? then 2
                   else 0
  {
    var r := DebugModel.DmiWrite(dm, 0x17, word);
    hide Perform, ReadValue, DebugModel.DmiWrite, Generate, Valid, ValidHarts;
    HartselBound(dm);
    CommandPerforms(dm, word);
    StatusReadsBack(dm);
    StatusReadsBack(r);
    PerformError(dm.(command := word));
  }

  lemma PerformError(p: Dm)
    requires Valid(p)
    ensures Perform(p).cmderr ==
            if p.cmderr != CMDERR_NONE then p.cmderr
            else if p.busy then CMDERR_BUSY
            else if p.command >> 24 != 0 then CMDERR_NOTSUP
            else if !p.harts.halted[p.control.hartsel] then CMDERR_HALTRESUME
            else if Generate(p.command, p.progbufsize).verdict.Fail? then CMDERR_NOTSUP
            else CMDERR_NONE
  {
    hide Generate, WriteWords, SetGo, AccessCustom;
    GenerateFits(p.command, p.progbufsize);
    FailsUnsupported(p.command, p.progbufsize);
  }

  lemma FailsUnsupported(command: bv32, progbufsize: nat)
    ensures Generate(command, progbufsize).verdict.Fail? ==> Generate(command, progbufsize).verdict.err == CMDERR_NOTSUP
  {
    hide Load, Store, Csrw, Csrr, Jal, Size, Regno, IsWrite, IsPostexec, IsTransfer;
  }

  /** While a command runs, the data registers read as ones and cannot be written, and both count as errors. */
  lemma BusyRefuses(dm: Dm, address: nat, value: bv32)
    requires Valid(dm) && dm.busy
    ensures 0x04 <= address < 0x06 ==>
              && ReadValue(dm, address) == 0xffff_ffff
              && DebugModel.DmiRead(dm, address) == DebugModel.DmiWrite(dm, address, value)
              && DebugModel.DmiRead(dm, address)
                 == dm.(cmderr := if dm.cmderr == CMDERR_NONE then CMDERR_BUSY else dm.cmderr)
    ensures 0x20 <= address < 0x20 + dm.progbufsize ==>
              && ReadValue(dm, address) == 0xffff_ffff
              && DebugModel.DmiRead(dm, address) == dm == DebugModel.DmiWrite(dm, address, value)
  {
    hide Perform, Auto, Write32, Read32;
  }

  /** An access to data register `i`, after a write of abstractauto, runs the last command again if bit `i` was set. */
  lemma DataAutoexec(dm: Dm, auto: bv32, i: nat, value: bv32)
    requires Valid(dm) && !dm.busy && i < 2
    ensures var a := DebugModel.DmiWrite(dm, 0x18, auto);
            var again := auto & (if i == 0 then 1 else 2) != 0;
            && DebugModel.DmiRead(a, 0x04 + i) == (if again then DebugModel.DmiWrite(a, 0x17, a.command) else a)
            && var stored := a.(memory := a.memory.(data := Write32(a.memory.data, i, value)));
               DebugModel.DmiWrite(a, 0x04 + i, value)
               == if again then DebugModel.DmiWrite(stored, 0x17, a.command) else stored
  {
    hide Perform, Auto, Write32;
    AutoData(auto, i);
  }

  lemma AutoData(auto: bv32, i: nat)
    requires i < 2
    ensures Auto(AutoexecOf(auto).data, i) <==> auto & (if i == 0 then 1 else 2) != 0
  {}

  /** An access to word `i` of the program buffer likewise, by bit `i` of the upper half. */
  lemma ProgbufAutoexec(dm: Dm, auto: bv32, i: nat, value: bv32)
    requires Valid(dm) && !dm.busy && i < dm.progbufsize
    ensures var a := DebugModel.DmiWrite(dm, 0x18, auto);
            var again := Auto(auto >> 16, i);
            && DebugModel.DmiRead(a, 0x20 + i) == (if again then DebugModel.DmiWrite(a, 0x17, a.command) else a)
            && var stored := a.(memory := a.memory.(progbuf := Write32(a.memory.progbuf, i, value)));
               DebugModel.DmiWrite(a, 0x20 + i, value)
               == if again then DebugModel.DmiWrite(stored, 0x17, a.command) else stored
  {
    hide Perform, Auto, Write32;
    UpperHalf(auto);
  }

  lemma AutoIs(bits: bv32, i: nat)
    requires i < 32
    ensures Auto(bits, i) <==> (bits >> i) & 1 == 1
  {}

  lemma UpperHalf(auto: bv32)
    ensures AutoexecOf(auto).progbuf == auto >> 16
  {}

  // ----- Custom registers -----

  /** The word written to `command` for a custom register. */
  function CustomCommand(write: bool, n: bv32): bv32 {
    CommandWord(write, false, true, 2, 0xc000 + n)
  }

  lemma CustomGenerates(write: bool, n: bv32, progbufsize: nat)
    requires n < 0x4000 && n & 1 == 1
    ensures Generate(CustomCommand(write, n), progbufsize) == Plan([], Custom(write, n))
    ensures CustomCommand(write, n) >> 24 == 0
  {
    var w := CustomCommand(write, n);
    CustomNumber(n);
    hide CommandWord, Size, Regno, IsWrite, IsPostexec, IsTransfer, Load, Store, Csrw, Csrr, Jal;
    Spelled(write, false, true, 2, 0xc000 + n);
    SpelledSize(write, false, true, 2, 0xc000 + n);
  }

  lemma CustomNumber(n: bv32)
    requires n < 0x4000 && n & 1 == 1
    ensures 0xc000 + n < 0x1_0000 && 0xc000 + n >= 0xc000 && (0xc000 + n) & 1 == 1 && 0xc000 + n - 0xc000 == n
  {}

  /** Register `n` written and register `k` read, in terms of the two functions. */
  lemma CustomPair(dm: Dm, n: bv32, k: bv32)
    requires Valid(dm) && Ready(dm) && n < 0x4000 && n & 1 == 1 && k < 0x4000 && k & 1 == 1
    ensures var written := DebugModel.DmiWrite(dm, 0x17, CustomCommand(true, n));
            var read := DebugModel.DmiWrite(written, 0x17, CustomCommand(false, k));
            && !read.busy && read.cmderr == CMDERR_NONE
            && ReadValue(read, 0x04) == CustomValue(BaseFor(ReadValue(dm, 0x04), n), k) && ReadValue(read, 0x05) == 0
  {
    hide Perform, CustomCommand, Read32, AccessCustom, Valid, ValidHarts, DebugModel.DmiWrite, ReadValue;
    hide BaseFor, CustomValue;
    HartselBound(dm);
    CustomPerformed(dm, true, n);
    var written := DebugModel.DmiWrite(dm, 0x17, CustomCommand(true, n));
    HartselBound(written);
    CustomPerformed(written, false, k);
    DataWords(dm);
    DataWords(DebugModel.DmiWrite(written, 0x17, CustomCommand(false, k)));
    CustomMemory(dm.memory, n, k);
  }

  lemma CustomMemory(m: Memory, n: bv32, k: bv32)
    requires |m.data| == 8
    ensures var r := AccessCustom(AccessCustom(m, true, n), false, k);
            Read32(r.data, 0) == CustomValue(BaseFor(Read32(m.data, 0), n), k) && Read32(r.data, 1) == 0
  {
    hide Read32, Write32, BaseFor, CustomValue;
    var v := CustomValue(BaseFor(Read32(m.data, 0), n), k);
    var once := Write32(m.data, 0, v);
    ReadWrite(m.data, 0, v, 0);
    ReadWrite(once, 1, 0, 0);
    ReadWrite(once, 1, 0, 1);
  }

  lemma BaseIs(n: bv32, x: bv32)
    ensures BaseFor(n + x, n) == x
  {}

  lemma NumberIs(n: bv32, x: bv32, k: bv32)
    ensures CustomValue(BaseFor(n + x, n), k) == k + x
  {
    hide BaseFor;
    BaseIs(n, x);
  }

  /** The custom registers hold consecutive numbers: if register `n` is set to `n + x`, register `k` reads `k + x`. */
  lemma CustomReadsBack(dm: Dm, n: bv32, k: bv32, x: bv32)
    requires Valid(dm) && Ready(dm) && n < 0x4000 && n & 1 == 1 && k < 0x4000 && k & 1 == 1
    requires ReadValue(dm, 0x04) == n + x
    ensures var written := DebugModel.DmiWrite(dm, 0x17, CustomCommand(true, n));
            var read := DebugModel.DmiWrite(written, 0x17, CustomCommand(false, k));
            !read.busy && read.cmderr == CMDERR_NONE && ReadValue(read, 0x04) == k + x && ReadValue(read, 0x05) == 0
  {
    hide *;
    NumberIs(n, x, k);
    CustomPair(dm, n, k);
  }

  lemma DataWords(dm: Dm)
    requires Valid(dm) && !dm.busy
    ensures |dm.memory.data| == 8
    ensures ReadValue(dm, 0x04) == Read32(dm.memory.data, 0) && ReadValue(dm, 0x05) == Read32(dm.memory.data, 1)
  {
    hide Read32, ControlWord, AbstractCsWord, AbstractAutoWord, DebugModel.DmiRead;
  }

  lemma CustomPerformed(dm: Dm, write: bool, n: bv32)
    requires Valid(dm) && Ready(dm) && n < 0x4000 && n & 1 == 1
    ensures |dm.memory.data| == 8
    ensures var w := CustomCommand(write, n);
            DebugModel.DmiWrite(dm, 0x17, w) == dm.(command := w, memory := AccessCustom(dm.memory, write, n))
  {
    var w := CustomCommand(write, n);
    hide CustomCommand, Generate, AccessCustom;
    CustomGenerates(write, n, dm.progbufsize);
    CommandPerforms(dm, w);
    assert WriteWords(dm.memory.code, []) == dm.memory.code;
  }

  // ----- A register read from end to end -----

  /** A word as a hart stores it. */
  function WordBytes(w: bv32): seq<bv8> {
    [Byte0(w), Byte1(w), Byte2(w), Byte3(w)]
  }

  lemma CopiedWords(memory: seq<bv8>, low: bv32, high: bv32)
    requires |memory| == 8
    ensures Copy(memory, 0, WordBytes(low)) == Write32(memory, 0, low)
    ensures Copy(memory, 0, WordBytes(low) + WordBytes(high)) == Write32(Write32(memory, 0, low), 1, high)
  {
    hide Byte0, Byte1, Byte2, Byte3;
  }

  /** The store of the generated code: one word or two, at the data words. */
  lemma DataStored(dm: Dm, low: bv32, high: bv32, double: bool)
    requires Valid(dm)
    ensures var r := HartStore(dm, 0x280, WordBytes(low) + if double then WordBytes(high) else []);
            && r == dm.(memory := dm.memory.(data := r.memory.data))
            && Read32(r.memory.data, 0) == low
            && Read32(r.memory.data, 1) == if double then high else Read32(dm.memory.data, 1)
  {
    hide Read32, Write32, Copy, WordBytes;
    assert |WordBytes(low)| == |WordBytes(high)| == 4 by { WordBytesSize(low); WordBytesSize(high); }
    CopiedWords(dm.memory.data, low, high);
    assert WordBytes(low) + [] == WordBytes(low);
    var once := Write32(dm.memory.data, 0, low);
    ReadWrite(dm.memory.data, 0, low, 0);
    ReadWrite(dm.memory.data, 0, low, 1);
    ReadWrite(once, 1, high, 0);
    ReadWrite(once, 1, high, 1);
  }

  lemma WordBytesSize(w: bv32)
    ensures |WordBytes(w)| == 4
  {}

  lemma GoingStored(dm: Dm, bytes: seq<bv8>)
    requires Valid(dm)
    ensures HartStore(dm, 0x004, bytes) == dm.(harts := SetGo(dm.harts, dm.control.hartsel, false))
  {
    hide SetGo, Copy, Read32;
  }

  lemma HaltedStored(dm: Dm, bytes: seq<bv8>)
    requires Valid(dm) && |bytes| == 4 && StoredId(bytes) == dm.control.hartsel
    requires !dm.harts.flags[dm.control.hartsel].go
    ensures StoreOk(0, bytes)
    ensures var r := HartStore(dm, 0, bytes);
            && !r.busy && r.memory == dm.memory && r.cmderr == dm.cmderr && r.control == dm.control
            && r.harts.flags == dm.harts.flags && r.harts.halted[dm.control.hartsel]
  {
    hide Copy, Read32, StoredId;
  }

  /** A hart's answer to a command: a store to GOING, the store of the generated code, and a store to HALTED. */
  function Answered(dm: Dm, going: seq<bv8>, data: seq<bv8>, halted: seq<bv8>): (r: Dm)
    requires Valid(dm) && StoreOk(0, halted)
    ensures Valid(r)
  {
    hide Valid, HartStore, StoredId;
    HartStore(HartStore(HartStore(dm, 0x004, going), 0x280, data), 0, halted)
  }

  /** The data that the code of a register read stores. */
  function ReadData(low: bv32, high: bv32, double: bool): seq<bv8> {
    WordBytes(low) + if double then WordBytes(high) else []
  }

  lemma AnswerShows(dm: Dm, low: bv32, high: bv32, double: bool, going: seq<bv8>, halted: seq<bv8>)
    requires Valid(dm) && |halted| == 4 && StoredId(halted) == dm.control.hartsel
    ensures StoreOk(0, halted)
    ensures var r := Answered(dm, going, ReadData(low, high, double), halted);
            && !r.busy && r.cmderr == dm.cmderr && r.harts.halted[dm.control.hartsel]
            && ReadValue(r, 0x04) == low
            && ReadValue(r, 0x05) == if double then high else ReadValue(dm.(busy := false), 0x05)
  {
    hide HartStore, SetGo, WordBytes, ReadValue, Read32, ValidHarts, StoredId;
    HartselBound(dm);
    IdBound(dm, halted);
    DataWords(dm.(busy := false));
    GoingStored(dm, going);
    var gone := HartStore(dm, 0x004, going);
    GoCleared(dm.harts, dm.control.hartsel);
    DataStored(gone, low, high, double);
    var stored := HartStore(gone, 0x280, ReadData(low, high, double));
    HartselBound(stored);
    HaltedStored(stored, halted);
    DataWords(HartStore(stored, 0, halted));
  }

  lemma IdBound(dm: Dm, halted: seq<bv8>)
    requires Valid(dm) && |halted| == 4 && StoredId(halted) == dm.control.hartsel
    ensures StoreOk(0, halted)
  {
    hide StoredId;
  }

  function LowHalf(v: bv64): bv32 { (v & 0xffff_ffff) as bv32 }
  function HighHalf(v: bv64): bv32 { (v >> 32) as bv32 }

  /**
   A debugger reads a general register: it writes the command, and the selected hart answers, storing what the generated
   code leaves in its data words. Then the module is idle without an error, and the data registers read as the requested
   register, low word first; after a read of 32 bits data1 is as it was.
   */
  lemma ReadCommandReturns(dm: Dm, double: bool, reg: bv32, c: Core, going: seq<bv8>, halted: seq<bv8>)
    requires Valid(dm) && Ready(dm) && reg < 32
    requires c.data0 == ReadValue(dm, 0x04) && c.data1 == ReadValue(dm, 0x05)
    requires |halted| == 4 && StoredId(halted) == dm.control.hartsel
    ensures StoreOk(0, halted)
    ensures var v, word := X(c, reg as bv64), CommandWord(false, false, true, if double then 3 else 2, reg + 0x1000);
            var started := DebugModel.DmiWrite(dm, 0x17, word);
            var end := A.Run(CodeWords(started.memory), 0, c);
            && started.busy && end.AtEbreak? && end.core.data0 == LowHalf(v)
            && end.core.data1 == (if double then HighHalf(v) else c.data1)
            && var done := Answered(started, going, ReadData(end.core.data0, end.core.data1, double), halted);
               && !done.busy && done.cmderr == CMDERR_NONE && done.harts.halted[dm.control.hartsel]
               && ReadValue(done, 0x04) == LowHalf(v)
               && ReadValue(done, 0x05) == if double then HighHalf(v) else ReadValue(dm, 0x05)
  {
    var size: bv32 := if double then 3 else 2;
    hide CommandWord, DebugModel.DmiWrite, Answered, ReadData, A.Run, CodeWords, Requested, ReadValue, Supported;
    hide ValidHarts, StoredId, X, EndsWith, LowHalf, HighHalf, SetGo;
    HartselBound(dm);
    RegisterSupported(size, reg, dm.progbufsize);
    RequestStarts(dm, false, false, size, reg + 0x1000, c);
    ReadHalves(c, double, reg);
    var started := DebugModel.DmiWrite(dm, 0x17, CommandWord(false, false, true, size, reg + 0x1000));
    var end := A.Run(CodeWords(started.memory), 0, c);
    EndsAt(end, Requested(c, false, double, reg + 0x1000));
    AnswerShows(started, end.core.data0, end.core.data1, double, going, halted);
    DataWords(dm);
    DataWords(started.(busy := false));
  }

  lemma ReadHalves(c: Core, double: bool, reg: bv32)
    requires reg < 32
    ensures var v, got := X(c, reg as bv64), Requested(c, false, double, reg + 0x1000);
            got.data0 == LowHalf(v) && got.data1 == if double then HighHalf(v) else c.data1
  {
    hide X, Requested;
    ReadValues(c, double, reg);
  }

  lemma EndsAt(end: Finish, wanted: Core)
    requires EndsWith(end, false, wanted)
    ensures end.AtEbreak? && end.core.data0 == wanted.data0 && end.core.data1 == wanted.data1
  {}

  lemma GoCleared(h: Harts, hart: nat)
    requires ValidHarts(h) && hart < HARTS
    ensures !SetGo(h, hart, false).flags[hart].go
  {}

  lemma RegisterSupported(size: bv32, reg: bv32, progbufsize: nat)
    requires (size == 2 || size == 3) && reg < 32
    ensures Supported(size, reg + 0x1000, progbufsize) && reg + 0x1000 >= 0x1000
  {}

  // ----- The remaining registers -----

  /** dmcontrol shows the halt request of the selected hart as it stands now. */
  lemma HaltreqShows(dm: Dm)
    requires Valid(dm) && dm.control.hartsel < |dm.harts.haltRequest|
    ensures ReadValue(dm, 0x10) & 0x8000_0000 != 0 <==> dm.harts.haltRequest[dm.control.hartsel]
  {
    hide ControlFields, Perform, Auto, Read32;
    var c := DebugModel.DmiRead(dm, 0x10).control;
    TopBit(Flag(c.haltreq, 0x8000_0000), Flag(c.resumereq, 0x4000_0000), Flag(c.hartreset, 0x2000_0000),
           Flag(c.ndmreset, 2), Flag(c.dmactive, 1), c.hartsel as bv32);
  }

  lemma TopBit(haltreq: bv32, resumereq: bv32, hartreset: bv32, ndmreset: bv32, dmactive: bv32, hartsel: bv32)
    requires haltreq == 0 || haltreq == 0x8000_0000
    requires resumereq & 0x8000_0000 == 0 && hartreset & 0x8000_0000 == 0 && ndmreset & 0x8000_0000 == 0
    requires dmactive & 0x8000_0000 == 0
    ensures ControlFields(haltreq, resumereq, hartreset, ndmreset, dmactive, hartsel) & 0x8000_0000 == haltreq
  {}

  /** The hart's havereset flag: set by each reset, cleared by an acknowledgement that does not also reset it. */
  lemma HaveReset(dm: Dm, s: Step, id: nat)
    requires Valid(dm) && StepOk(s) && id < HARTS
    ensures var acked := IsControl(s) && s.value & 1 != 0 && s.value & 0x1000_0000 != 0 && Selected(dm, s.value) == id;
            Next(dm, s).harts.havereset[id] == (ResetBy(dm, s, id) || (dm.harts.havereset[id] && !acked))
  {
    hide Read32, Asks, Selected, Copy, DebugModel.DmiRead, DebugModel.DmiWrite, WriteControl, HartStore;
    match s
    case Stores(offset, bytes) =>
      StoredHarts(dm, offset, bytes);
      hide SetGo, HartResuming;
      KeptResets(dm, offset, bytes);
    case Resets(_) =>
    case Reads(_) => OtherResets(dm, s);
    case Writes(_, value) =>
      if IsControl(s) {
        ControlResets(dm, s, id);
      } else {
        OtherResets(dm, s);
      }
  }

  lemma KeptResets(dm: Dm, offset: nat, bytes: seq<bv8>)
    requires Valid(dm) && StoreOk(offset, bytes)
    ensures HartStore(dm, offset, bytes).harts.havereset == dm.harts.havereset
  {
    StoredHarts(dm, offset, bytes);
    hide HartStore, TargetOf, StoredId;
  }

  lemma OtherResets(dm: Dm, s: Step)
    requires Valid(dm) && StepOk(s) && IsDmi(s) && !IsControl(s)
    ensures Next(dm, s).harts.havereset == dm.harts.havereset
  {
    hide Performs, Next, Accepts, Valid;
    HartselBound(dm);
    if Performs(dm, s).Some? {
      StartEffect(dm, s);
    } else {
      DmiQuiet(dm, s);
    }
  }

  lemma ControlResets(dm: Dm, s: Step, id: nat)
    requires Valid(dm) && StepOk(s) && IsControl(s) && id < HARTS
    ensures var acked := s.value & 1 != 0 && s.value & 0x1000_0000 != 0 && Selected(dm, s.value) == id;
            Next(dm, s).harts.havereset[id] == (ResetBy(dm, s, id) || (dm.harts.havereset[id] && !acked))
  {
    SelectedIs(dm, s.value);
    WritesControl(dm, s);
    TakenHarts(dm, s.value);
    TakenResets(dm, s.value, id);
    var t := TakeControl(dm, s.value);
    hide TakeControl, SteerHarts, Selected, Asks;
    SteeredBits(t.harts, t.control, id);
  }

  lemma TakenResets(dm: Dm, value: bv32, id: nat)
    requires Valid(dm) && id < HARTS
    ensures var acked := value & 1 != 0 && value & 0x1000_0000 != 0 && Selected(dm, value) == id;
            TakeControl(dm, value).harts.havereset[id] == (dm.harts.havereset[id] && !acked)
  {
    SelectedIs(dm, value);
    hide HartselField, Repeat, Selected, ControlOf, Reset;
    ResetHaves(dm);
    if value & 1 != 0 {
      TakenControl(dm, value);
    }
  }

  lemma ResetHaves(dm: Dm)
    requires Valid(dm)
    ensures Reset(dm).harts.havereset == dm.harts.havereset && |dm.harts.havereset| == HARTS
  {}

  lemma TakenControl(dm: Dm, value: bv32)
    requires Valid(dm) && value & 1 != 0
    ensures TakeControl(dm, value).control == ControlOf(value)
  {
    hide ControlOf, Reset;
  }

  /** An exception in the program buffer is error 3, unless there is an error already; nothing else changes. */
  lemma ExceptionReported(dm: Dm, bytes: seq<bv8>)
    requires Valid(dm)
    ensures var r := HartStore(dm, 0x00c, bytes);
            && r == dm.(cmderr := r.cmderr)
            && (var was := (ReadValue(dm, 0x16) >> 8) & 7;
                (ReadValue(r, 0x16) >> 8) & 7 == if was == 0 then 3 else was)
  {
    var r := HartStore(dm, 0x00c, bytes);
    ExceptionStored(dm, bytes);
    StatusReadsBack(dm);
    StatusReadsBack(r);
    hide ReadValue, HartStore, Valid;
  }

  lemma ExceptionStored(dm: Dm, bytes: seq<bv8>)
    requires Valid(dm)
    ensures HartStore(dm, 0x00c, bytes) == if dm.cmderr == CMDERR_NONE then dm.(cmderr := CMDERR_EXCEPTION) else dm
  {
    hide Copy, SetGo, Read32;
  }

  /** Writing abstractcs clears the bits of the error that are written as one, as it reads afterwards. */
  lemma ErrorsAcknowledged(dm: Dm, value: bv32)
    requires Valid(dm)
    ensures var r := DebugModel.DmiWrite(dm, 0x16, value);
            && r == dm.(cmderr := r.cmderr)
            && (ReadValue(r, 0x16) >> 8) & 7 == (ReadValue(dm, 0x16) >> 8) & 7 & !((value >> 8) & 7)
  {
    var r := DebugModel.DmiWrite(dm, 0x16, value);
    AcknowledgedWrite(dm, value);
    AcknowledgedBits(dm.cmderr, value);
    StatusReadsBack(dm);
    StatusReadsBack(r);
    hide ReadValue, DebugModel.DmiWrite, Acknowledged, ErrorCode, Valid;
  }

  lemma AcknowledgedWrite(dm: Dm, value: bv32)
    requires Valid(dm)
    ensures DebugModel.DmiWrite(dm, 0x16, value) == dm.(cmderr := Acknowledged(dm.cmderr, value))
  {
    hide Acknowledged, Perform, Write32, Auto, WriteControl;
  }

  /** A word of the program buffer written while idle, and that starts nothing, reads back; all other words stay. */
  lemma ProgbufReadsBack(dm: Dm, i: nat, value: bv32, other: nat)
    requires Valid(dm) && !dm.busy && i < dm.progbufsize && !Auto(dm.autoexec.progbuf, i)
    ensures var r := DebugModel.DmiWrite(dm, 0x20 + i, value);
            && (other < dm.progbufsize ==>
                  ReadValue(r, 0x20 + other) == if other == i then value else ReadValue(dm, 0x20 + other))
            && r == dm.(memory := dm.memory.(progbuf := r.memory.progbuf))
  {
    hide Perform, Auto, Write32, Read32, ControlWord, AbstractCsWord, AbstractAutoWord, DebugModel.DmiRead;
    if other < dm.progbufsize {
      ReadWrite(dm.memory.progbuf, i, value, other);
    }
  }

  /** Reading any other register changes nothing, but that dmcontrol brings its copy of the halt request up to date. */
  lemma ReadsAreQuiet(dm: Dm, address: nat)
    requires Valid(dm) && !(0x04 <= address < 0x06) && !(0x20 <= address < 0x20 + dm.progbufsize)
    ensures var r := DebugModel.DmiRead(dm, address);
            r == if address == 0x10 then dm.(control := dm.control.(haltreq := r.control.haltreq)) else dm
  {
    hide Perform, Auto;
  }
}

/**
 The debug module: the registers a debugger reaches over the DMI, the words that halted harts store to, and the
 handshake between the two. Every operation is a function on the module's state; the class in DebugModule.dfy performs
 them in place.
 */
module DebugModel {
  import opened Common
  import opened Encoding
  import opened A = AbstractCommand

  const HARTS: nat := 1024
  const DEBUG_START: nat := 0x100
  const DEBUG_DATA_START: nat := 0x380
  const DEBUG_ROM_HALTED: nat := 0x100
  const DEBUG_ROM_GOING: nat := 0x104
  const DEBUG_ROM_RESUMING: nat := 0x108
  const DEBUG_ROM_EXCEPTION: nat := 0x10c

  const DMI_DATA0: nat := 0x04
  const DMI_DMCONTROL: nat := 0x10
  const DMI_ABSTRACTCS: nat := 0x16
  const DMI_COMMAND: nat := 0x17
  const DMI_ABSTRACTAUTO: nat := 0x18
  const DMI_PROGBUF0: nat := 0x20
  const DATACOUNT: nat := 2

  // ----- Little-endian words in byte arrays -----

  function Word(b0: bv8, b1: bv8, b2: bv8, b3: bv8): bv32 {
    (b0 as bv32) | ((b1 as bv32) << 8) | ((b2 as bv32) << 16) | ((b3 as bv32) << 24)
  }

  function Read32(memory: seq<bv8>, i: nat): bv32
    requires 4 * i + 4 <= |memory|
  {
    Word(memory[4 * i], memory[4 * i + 1], memory[4 * i + 2], memory[4 * i + 3])
  }

  function Byte0(v: bv32): bv8 { (v & 0xff) as bv8 }
  function Byte1(v: bv32): bv8 { ((v >> 8) & 0xff) as bv8 }
  function Byte2(v: bv32): bv8 { ((v >> 16) & 0xff) as bv8 }
  function Byte3(v: bv32): bv8 { ((v >> 24) & 0xff) as bv8 }

  function Write32(memory: seq<bv8>, i: nat, v: bv32): (r: seq<bv8>)
    requires 4 * i + 4 <= |memory|
    ensures |r| == |memory|
  {
    memory[4 * i := Byte0(v)][4 * i + 1 := Byte1(v)][4 * i + 2 := Byte2(v)][4 * i + 3 := Byte3(v)]
  }

  lemma WordOfBytes(v: bv32)
    ensures Word(Byte0(v), Byte1(v), Byte2(v), Byte3(v)) == v
  {}

  /** A word written is read back, and its neighbours are not touched. */
  lemma ReadWrite(memory: seq<bv8>, i: nat, v: bv32, j: nat)
    requires 4 * i + 4 <= |memory| && 4 * j + 4 <= |memory|
    ensures Read32(Write32(memory, i, v), j) == if i == j then v else Read32(memory, j)
  {
    hide Word, Byte0, Byte1, Byte2, Byte3;
    WordOfBytes(v);
  }

  /** `words` written from the start of `memory`, one after the other. */
  function WriteWords(memory: seq<bv8>, words: seq<bv32>): (r: seq<bv8>)
    requires 4 * |words| <= |memory|
    ensures |r| == |memory|
    decreases |words|
  {
    if |words| == 0 then memory
    else
      var k := |words| - 1;
      Write32(WriteWords(memory, words[..k]), k, words[k])
  }

  lemma WriteWordsSnoc(memory: seq<bv8>, words: seq<bv32>, w: bv32)
    requires 4 * |words| + 4 <= |memory|
    ensures WriteWords(memory, words + [w]) == Write32(WriteWords(memory, words), |words|, w)
  {
    hide Write32;
    assert (words + [w])[..|words|] == words;
  }

  lemma {:induction false} WrittenWords(memory: seq<bv8>, words: seq<bv32>, i: nat)
    requires 4 * |words| <= |memory| && 4 * i + 4 <= |memory|
    ensures Read32(WriteWords(memory, words), i) == if i < |words| then words[i] else Read32(memory, i)
    decreases |words|
  {
    hide Read32, Write32;
    if |words| > 0 {
      var k := |words| - 1;
      WrittenWords(memory, words[..k], i);
      ReadWrite(WriteWords(memory, words[..k]), k, words[k], i);
    }
  }

  // ----- The state -----

  /** A hart's byte of `debug_rom_flags`. */
  datatype Flags = Flags(go: bool, resume: bool)

  datatype Control = Control(haltreq: bool, resumereq: bool, hartsel: nat, hartreset: bool, dmactive: bool,
                             ndmreset: bool)

  /** What the module knows about the harts; `haltRequest` belongs to the simulator's harts. */
  datatype Harts = Harts(halted: seq<bool>, resumeack: seq<bool>, havereset: seq<bool>, flags: seq<Flags>,
                         haltRequest: seq<bool>)

  datatype Memory = Memory(data: seq<bv8>, progbuf: seq<bv8>, code: seq<bv8>, customBase: bv32)

  datatype Autoexec = Autoexec(progbuf: bv32, data: bv32)

  datatype Dm = Dm(progbufsize: nat, control: Control, busy: bool, cmderr: CmdErr, autoexec: Autoexec, command: bv32,
                   harts: Harts, memory: Memory)

  predicate ValidHarts(h: Harts) {
    && |h.halted| == |h.resumeack| == |h.havereset| == |h.flags| == HARTS
    && 1 <= |h.haltRequest| <= HARTS
  }

  predicate ValidMemory(m: Memory, progbufsize: nat) {
    |m.data| == 8 && |m.progbuf| == 4 * progbufsize + 4 && |m.code| == 20
  }

  predicate Valid(dm: Dm) {
    && dm.progbufsize <= 16 && dm.control.hartsel < HARTS
    && ValidHarts(dm.harts) && ValidMemory(dm.memory, dm.progbufsize)
  }

  function ErrorCode(e: CmdErr): bv32 {
    match e
    case CMDERR_NONE => 0
    case CMDERR_BUSY => 1
    case CMDERR_NOTSUP => 2
    case CMDERR_EXCEPTION => 3
    case CMDERR_HALTRESUME => 4
  }

  function ErrorOf(code: bv32): CmdErr {
    if code == 0 then CMDERR_NONE
    else if code == 1 then CMDERR_BUSY
    else if code == 2 then CMDERR_NOTSUP
    else if code == 3 then CMDERR_EXCEPTION
    else CMDERR_HALTRESUME
  }

  // ----- debug_module.cc:61-97: reset -----

  function Repeat<T>(n: nat, value: T): (r: seq<T>)
    ensures |r| == n
  {
    seq(n, _ => value)
  }

  function Reset(dm: Dm): (r: Dm)
    requires Valid(dm)
    ensures Valid(r)
  {
    dm.(harts := dm.harts.(haltRequest := Repeat(|dm.harts.haltRequest|, false)),
        control := Control(false, false, 0, false, false, false),
        busy := false, cmderr := CMDERR_NONE, autoexec := Autoexec(0, 0))
  }

  /** debug_module.cc:786-790, for one hart. */
  function ProcReset(h: Harts, id: nat): (r: Harts)
    requires ValidHarts(h) && id < HARTS
    ensures ValidHarts(r) && r.flags == h.flags && r.haltRequest == h.haltRequest
  {
    h.(havereset := h.havereset[id := true], halted := h.halted[id := false])
  }

  /** The harts below `n` reset one after the other. */
  function ProcResets(h: Harts, n: nat): (r: Harts)
    requires ValidHarts(h) && n <= HARTS
    ensures ValidHarts(r) && r.flags == h.flags && r.haltRequest == h.haltRequest
  {
    if n == 0 then h else ProcReset(ProcResets(h, n - 1), n - 1)
  }

  // ----- debug_module.cc:491-638: abstract commands -----

  function SetGo(h: Harts, id: nat, value: bool): (r: Harts)
    requires ValidHarts(h) && id < HARTS
    ensures ValidHarts(r)
  {
    h.(flags := h.flags[id := h.flags[id].(go := value)])
  }

  predicate IsRegisterAccess(command: bv32) { command >> 24 == 0 }

  predicate Accepts(dm: Dm)
    requires Valid(dm)
  {
    && dm.cmderr == CMDERR_NONE && !dm.busy && IsRegisterAccess(dm.command) && dm.harts.halted[dm.control.hartsel]
    && Generate(dm.command, dm.progbufsize).verdict == Go
  }

  function Perform(dm: Dm): (r: Dm)
    requires Valid(dm)
    ensures Valid(r)
  {
    if dm.cmderr != CMDERR_NONE then dm
    else if dm.busy then dm.(cmderr := CMDERR_BUSY)
    else if !IsRegisterAccess(dm.command) then dm.(cmderr := CMDERR_NOTSUP)
    else if !dm.harts.halted[dm.control.hartsel] then dm.(cmderr := CMDERR_HALTRESUME)
    else
      hide Generate, Carry;
      GenerateFits(dm.command, dm.progbufsize);
      Carry(dm, Generate(dm.command, dm.progbufsize))
  }

  function Carry(dm: Dm, plan: Plan): (r: Dm)
    requires Valid(dm) && |plan.words| <= 5
    ensures Valid(r)
  {
    hide Write32, WriteWords, Read32;
    var memory := dm.memory.(code := WriteWords(dm.memory.code, plan.words));
    match plan.verdict
    case Go => dm.(memory := memory, harts := SetGo(dm.harts, dm.control.hartsel, true), busy := true)
    case Fail(e) => dm.(memory := memory, cmderr := e)
    case Custom(write, number) => dm.(memory := AccessCustom(memory, write, number))
  }

  /** debug_module.cc:606-615: register N of a block of registers that hold consecutive numbers. */
  function AccessCustom(m: Memory, write: bool, number: bv32): (r: Memory)
    requires |m.data| == 8
    ensures |r.data| == 8 && r.progbuf == m.progbuf && r.code == m.code
  {
    if write then m.(customBase := BaseFor(Read32(m.data, 0), number))
    else m.(data := Write32(Write32(m.data, 0, CustomValue(m.customBase, number)), 1, 0))
  }

  function BaseFor(value: bv32, number: bv32): bv32 { value - number }
  function CustomValue(base: bv32, number: bv32): bv32 { number + base }

  // ----- The DMI -----

  predicate Auto(bits: bv32, i: nat)
    requires i < 32
  {
    (bits >> i) & 1 == 1
  }

  predicate IsData(address: nat) { DMI_DATA0 <= address < DMI_DATA0 + DATACOUNT }
  predicate IsProgbuf(progbufsize: nat, address: nat) { DMI_PROGBUF0 <= address < DMI_PROGBUF0 + progbufsize }

  function Touched(dm: Dm): Dm {
    if dm.cmderr == CMDERR_NONE then dm.(cmderr := CMDERR_BUSY) else dm
  }

  function Flag(b: bool, mask: bv32): bv32 { if b then mask else 0 }

  /** debug_module.cc:350-357: the fields of dmcontrol. */
  function ControlWord(c: Control): bv32
    requires c.hartsel < HARTS
  {
    ControlFields(Flag(c.haltreq, 0x8000_0000), Flag(c.resumereq, 0x4000_0000), Flag(c.hartreset, 0x2000_0000),
                  Flag(c.ndmreset, 2), Flag(c.dmactive, 1), c.hartsel as bv32)
  }

  function ControlFields(haltreq: bv32, resumereq: bv32, hartreset: bv32, ndmreset: bv32, dmactive: bv32, hartsel: bv32)
    : bv32
  {
    haltreq | resumereq | hartreset | (((hartsel >> 10) & 0x3ff) << 6) | ((hartsel & 0x3ff) << 16) | ndmreset | dmactive
  }

  function AbstractCsWord(cmderr: CmdErr, busy: bool, progbufsize: nat): bv32
    requires progbufsize <= 16
  {
    (ErrorCode(cmderr) << 8) | Flag(busy, 0x1000) | 2 | ((progbufsize as bv32 & 0x1f) << 24)
  }

  function AbstractAutoWord(a: Autoexec): bv32 {
    ((a.progbuf & 0xffff) << 16) | (a.data & 0xfff)
  }

  /** The module's state after `dmi_read(address, &value)`. */
  function DmiRead(dm: Dm, address: nat): (r: Dm)
    requires Valid(dm)
    ensures Valid(r)
  {
    hide Perform, Auto;
    if IsData(address) then
      if dm.busy then Touched(dm)
      else if Auto(dm.autoexec.data, address - DMI_DATA0) then Perform(dm) else dm
    else if IsProgbuf(dm.progbufsize, address) then
      if !dm.busy && Auto(dm.autoexec.progbuf, address - DMI_PROGBUF0) then Perform(dm) else dm
    else if address == DMI_DMCONTROL && dm.control.hartsel < |dm.harts.haltRequest| then
      dm.(control := dm.control.(haltreq := dm.harts.haltRequest[dm.control.hartsel]))
    else dm
  }

  /** The value read, for the registers of this model. */
  function ReadValue(dm: Dm, address: nat): bv32
    requires Valid(dm)
  {
    if IsData(address) then
      if dm.busy then 0xffff_ffff else Read32(dm.memory.data, address - DMI_DATA0)
    else if IsProgbuf(dm.progbufsize, address) then
      if dm.busy then 0xffff_ffff else Read32(dm.memory.progbuf, address - DMI_PROGBUF0)
    else if address == DMI_DMCONTROL then ControlWord(DmiRead(dm, address).control)
    else if address == DMI_ABSTRACTCS then AbstractCsWord(dm.cmderr, dm.busy, dm.progbufsize)
    else if address == DMI_ABSTRACTAUTO then AbstractAutoWord(dm.autoexec)
    else 0
  }

  predicate HasBit(value: bv32, mask: bv32) { value & mask != 0 }

  function HartselField(value: bv32): bv32 {
    ((((value >> 6) & 0x3ff) << 10) | ((value >> 16) & 0x3ff)) & 0x3ff
  }

  /** debug_module.cc:687-690: of the twenty bits, ten are kept. */
  function NewHartsel(value: bv32): (r: nat)
    ensures r < HARTS
  {
    HartselField(value) as nat
  }

  predicate Activates(dm: Dm, value: bv32) { !dm.control.dmactive && HasBit(value, 1) }

  function ControlOf(value: bv32): (r: Control)
    ensures r.hartsel < HARTS && r.dmactive
  {
    Control(HasBit(value, 0x8000_0000), HasBit(value, 0x4000_0000), NewHartsel(value), HasBit(value, 0x2000_0000), true,
            HasBit(value, 2))
  }

  /** debug_module.cc:677-694. */
  function TakeControl(dm: Dm, value: bv32): (r: Dm)
    requires Valid(dm)
    ensures Valid(r)
  {
    hide HasBit, ControlOf;
    var dm := if Activates(dm, value) then Reset(dm) else dm;
    if !HasBit(value, 1) then dm.(control := dm.control.(dmactive := false))
    else
      var hart := ControlOf(value).hartsel;
      dm.(control := ControlOf(value),
          harts := if HasBit(value, 0x1000_0000) then dm.harts.(havereset := dm.harts.havereset[hart := false])
                   else dm.harts)
  }

  /** debug_module.cc:697-705: what a write of dmcontrol does to the selected hart. */
  function SteerSelected(h: Harts, hart: nat, c: Control): (r: Harts)
    requires ValidHarts(h) && hart < |h.haltRequest|
    ensures ValidHarts(r) && |r.haltRequest| == |h.haltRequest|
  {
    hide ProcReset;
    var h := h.(haltRequest := h.haltRequest[hart := c.haltreq]);
    var h := if c.resumereq then
               h.(flags := h.flags[hart := h.flags[hart].(resume := true)], resumeack := h.resumeack[hart := false])
             else h;
    if c.hartreset then ProcReset(h, hart) else h
  }

  /** debug_module.cc:695-711: the selected hart, if it exists, and the resets. */
  function SteerHarts(h: Harts, c: Control): (r: Harts)
    requires ValidHarts(h) && c.hartsel < HARTS
    ensures ValidHarts(r)
  {
    hide ProcResets;
    var h := if c.hartsel < |h.haltRequest| then SteerSelected(h, c.hartsel, c) else h;
    if c.ndmreset then ProcResets(h, |h.haltRequest|) else h
  }

  function WriteControl(dm: Dm, value: bv32): (r: Dm)
    requires Valid(dm)
    ensures Valid(r)
  {
    hide TakeControl, SteerHarts;
    var dm := TakeControl(dm, value);
    dm.(harts := SteerHarts(dm.harts, dm.control))
  }

  /** debug_module.cc:720: the bits of cmderr that the debugger writes as one are cleared. */
  function Acknowledged(e: CmdErr, value: bv32): CmdErr {
    ErrorOf(ErrorCode(e) & !((value >> 8) & 7))
  }

  function AutoexecOf(value: bv32): Autoexec {
    Autoexec((value >> 16) & 0xffff, value & 0xfff)
  }

  /** The module's state after `dmi_write(address, value)`. */
  function DmiWrite(dm: Dm, address: nat, value: bv32): (r: Dm)
    requires Valid(dm)
    ensures Valid(r)
  {
    hide Perform, Write32, WriteControl, Auto;
    if IsData(address) then
      if dm.busy then Touched(dm)
      else
        var i := address - DMI_DATA0;
        var dm := dm.(memory := dm.memory.(data := Write32(dm.memory.data, i, value)));
        if Auto(dm.autoexec.data, i) then Perform(dm) else dm
    else if IsProgbuf(dm.progbufsize, address) then
      if dm.busy then dm
      else
        var i := address - DMI_PROGBUF0;
        var dm := dm.(memory := dm.memory.(progbuf := Write32(dm.memory.progbuf, i, value)));
        if Auto(dm.autoexec.progbuf, i) then Perform(dm) else dm
    else if address == DMI_DMCONTROL then WriteControl(dm, value)
    else if address == DMI_COMMAND then Perform(dm.(command := value))
    else if address == DMI_ABSTRACTCS then dm.(cmderr := Acknowledged(dm.cmderr, value))
    else if address == DMI_ABSTRACTAUTO then dm.(autoexec := AutoexecOf(value))
    else dm
  }

  // ----- debug_module.cc:144-216: the harts' stores -----

  /** `bytes` copied into `memory` at `offset`. */
  function Copy(memory: seq<bv8>, offset: nat, bytes: seq<bv8>): (r: seq<bv8>)
    requires offset + |bytes| <= |memory|
    ensures |r| == |memory|
  {
    memory[..offset] + bytes + memory[offset + |bytes|..]
  }

  function ProgbufStart(progbufsize: nat): int { DEBUG_DATA_START - (4 + 4 * progbufsize) }

  predicate InData(address: nat, length: nat) {
    DEBUG_DATA_START <= address && address + length <= DEBUG_DATA_START + 8
  }

  predicate InProgbuf(progbufsize: nat, address: nat, length: nat) {
    ProgbufStart(progbufsize) <= address && address + length <= DEBUG_DATA_START
  }

  function StoredId(bytes: seq<bv8>): nat {
    if |bytes| == 4 then Read32(bytes, 0) as nat else 0
  }

  /** What the source asserts, and that the hart number is one of the module's. */
  predicate StoreOk(offset: nat, bytes: seq<bv8>) {
    DEBUG_START + offset == DEBUG_ROM_HALTED || DEBUG_START + offset == DEBUG_ROM_RESUMING ==>
      |bytes| == 4 && StoredId(bytes) < HARTS
  }

  function HartHalted(dm: Dm, id: nat): (r: Dm)
    requires Valid(dm) && id < HARTS
    ensures Valid(r)
  {
    var dm := dm.(harts := dm.harts.(halted := dm.harts.halted[id := true]));
    if dm.control.hartsel == id && !dm.harts.flags[id].go then dm.(busy := false) else dm
  }

  function HartResuming(h: Harts, id: nat): (r: Harts)
    requires ValidHarts(h) && id < HARTS
    ensures ValidHarts(r)
  {
    h.(halted := h.halted[id := false], resumeack := h.resumeack[id := true],
       flags := h.flags[id := h.flags[id].(resume := false)])
  }

  /** Where a store goes. */
  datatype Target = Data | Progbuf | Halted | Going | Resuming | Exception | Nowhere

  function TargetOf(progbufsize: nat, offset: nat, length: nat): Target {
    var address := DEBUG_START + offset;
    if InData(address, length) then Data
    else if InProgbuf(progbufsize, address, length) then Progbuf
    else if address == DEBUG_ROM_HALTED then Halted
    else if address == DEBUG_ROM_GOING then Going
    else if address == DEBUG_ROM_RESUMING then Resuming
    else if address == DEBUG_ROM_EXCEPTION then Exception
    else Nowhere
  }

  function HartStore(dm: Dm, offset: nat, bytes: seq<bv8>): (r: Dm)
    requires Valid(dm) && StoreOk(offset, bytes)
    ensures Valid(r)
  {
    hide Copy, HartHalted, HartResuming, SetGo, StoredId;
    var m, address := dm.memory, DEBUG_START + offset;
    match TargetOf(dm.progbufsize, offset, |bytes|)
    case Data => dm.(memory := m.(data := Copy(m.data, address - DEBUG_DATA_START, bytes)))
    case Progbuf => dm.(memory := m.(progbuf := Copy(m.progbuf, address - ProgbufStart(dm.progbufsize), bytes)))
    case Halted => HartHalted(dm, StoredId(bytes))
    case Going => dm.(harts := SetGo(dm.harts, dm.control.hartsel, false))
    case Resuming => dm.(harts := HartResuming(dm.harts, StoredId(bytes)))
    case Exception => if dm.cmderr == CMDERR_NONE then dm.(cmderr := CMDERR_EXCEPTION) else dm
    case Nowhere => dm
  }

  // ----- One step of the whole system -----

  datatype Step =
    | Reads(address: nat)                       // `dmi_read`
    | Writes(address: nat, value: bv32)         // `dmi_write`
    | Stores(offset: nat, bytes: seq<bv8>)      // a store by some hart
    | Resets(id: nat)                           // a hart was reset

  predicate StepOk(s: Step) {
    match s
    case Stores(offset, bytes) => StoreOk(offset, bytes)
    case Resets(id) => id < HARTS
    case _ => true
  }

  function Next(dm: Dm, s: Step): (r: Dm)
    requires Valid(dm) && StepOk(s)
    ensures Valid(r)
  {
    hide DmiRead, DmiWrite, HartStore, ProcReset;
    match s
    case Reads(address) => DmiRead(dm, address)
    case Writes(address, value) => DmiWrite(dm, address, value)
    case Stores(offset, bytes) => HartStore(dm, offset, bytes)
    case Resets(id) => dm.(harts := ProcReset(dm.harts, id))
  }

  predicate IsDmi(s: Step) { s.Reads? || s.Writes? }

  // ----- What abstract commands do to the handshake -----

  lemma CarryEffect(dm: Dm, plan: Plan)
    requires Valid(dm) && |plan.words| <= 5
    ensures var r := Carry(dm, plan);
            && r.control == dm.control && r.memory.progbuf == dm.memory.progbuf && r.progbufsize == dm.progbufsize
            && (if plan.verdict == Go then
                  r.busy && r.harts == SetGo(dm.harts, dm.control.hartsel, true) && r.memory.data == dm.memory.data
                  && r.cmderr == dm.cmderr
                else r.busy == dm.busy && r.harts == dm.harts)
  {
    hide Write32, WriteWords, Read32, SetGo;
  }

  lemma PerformEffect(dm: Dm)
    requires Valid(dm)
    ensures var r := Perform(dm);
            && r.control == dm.control && r.memory.progbuf == dm.memory.progbuf && r.progbufsize == dm.progbufsize
            && (if Accepts(dm) then
                  r.busy && r.harts == SetGo(dm.harts, dm.control.hartsel, true) && r.memory.data == dm.memory.data
                  && r.cmderr == CMDERR_NONE
                else r.busy == dm.busy && r.harts == dm.harts)
  {
    hide Generate, Carry, SetGo, IsRegisterAccess;
    GenerateFits(dm.command, dm.progbufsize);
    CarryEffect(dm, Generate(dm.command, dm.progbufsize));
  }

  /** Neither errors nor a running command let anything happen beyond cmderr. */
  lemma PerformBlocked(dm: Dm)
    requires Valid(dm) && (dm.busy || dm.cmderr != CMDERR_NONE)
    ensures Perform(dm) == dm.(cmderr := Perform(dm).cmderr)
    ensures dm.cmderr != CMDERR_NONE ==> Perform(dm) == dm
  {
    hide Generate, Carry, IsRegisterAccess;
  }

  /** While a command runs, no DMI operation touches its operands or its code. */
  lemma BusyFreezesMemory(dm: Dm, s: Step)
    requires Valid(dm) && StepOk(s) && dm.busy && IsDmi(s)
    ensures Next(dm, s).memory == dm.memory
  {
    hide Perform, Write32, Auto, Acknowledged, AutoexecOf, SteerHarts, ControlOf, HasBit;
    PerformBlocked(dm);
    if s.Writes? {
      PerformBlocked(dm.(command := s.value));
    }
  }

  // ----- The handshake -----

  /** What the handshake is about: the busy bit, the selected hart and the harts whose GO flag is set. */
  datatype Handshake = Handshake(busy: bool, hartsel: nat, go: set<nat>)

  ghost function GoSet(h: Harts): set<nat>
    requires ValidHarts(h)
  {
    set id: nat | id < HARTS && h.flags[id].go
  }

  ghost function ShakeOf(dm: Dm): Handshake
    requires Valid(dm)
  {
    Handshake(dm.busy, dm.control.hartsel, GoSet(dm.harts))
  }

  /** What a step means to the handshake. */
  datatype Event =
    | Start              // an abstract command was accepted
    | GoesOn             // a store to GOING
    | Halts(id: nat)     // hart `id` stored to HALTED
    | Select(hart: nat)  // dmcontrol selects a hart
    | Restart(hart: nat) // dmcontrol also resets the module
    | Quiet

  function Handle(h: Handshake, e: Event): Handshake {
    match e
    case Start => h.(busy := true, go := h.go + {h.hartsel})
    case GoesOn => h.(go := h.go - {h.hartsel})
    case Halts(id) => if id == h.hartsel && id !in h.go then h.(busy := false) else h
    case Select(hart) => h.(hartsel := hart)
    case Restart(hart) => h.(busy := false, hartsel := hart)
    case Quiet => h
  }

  /** The state in which the step calls `perform_abstract_command`, if it does. */
  function Performs(dm: Dm, s: Step): (r: Option<Dm>)
    requires Valid(dm)
    ensures r.Some? ==> Valid(r.value)
  {
    hide Write32, Auto;
    var auto := if s.Stores? || s.Resets? || dm.busy then false
                else if IsData(s.address) then Auto(dm.autoexec.data, s.address - DMI_DATA0)
                else if IsProgbuf(dm.progbufsize, s.address) then Auto(dm.autoexec.progbuf, s.address - DMI_PROGBUF0)
                else false;
    match s
    case Reads(_) => if auto then Some(dm) else None
    case Writes(address, value) =>
      if address == DMI_COMMAND then Some(dm.(command := value))
      else if !auto then None
      else if IsData(address) then
        Some(dm.(memory := dm.memory.(data := Write32(dm.memory.data, address - DMI_DATA0, value))))
      else Some(dm.(memory := dm.memory.(progbuf := Write32(dm.memory.progbuf, address - DMI_PROGBUF0, value))))
    case _ => None
  }

  /** The step starts a hart on an abstract command. */
  predicate Starts(dm: Dm, s: Step)
    requires Valid(dm)
  {
    Performs(dm, s).Some? && Accepts(Performs(dm, s).value)
  }

  function EventOf(dm: Dm, s: Step): Event
    requires Valid(dm)
  {
    if Starts(dm, s) then Start
    else
      match s
      case Writes(address, value) =>
        if address != DMI_DMCONTROL || !HasBit(value, 1) then Quiet
        else if Activates(dm, value) then Restart(NewHartsel(value))
        else Select(NewHartsel(value))
      case Stores(offset, bytes) =>
        (match TargetOf(dm.progbufsize, offset, |bytes|)
         case Halted => Halts(StoredId(bytes))
         case Going => GoesOn
         case _ => Quiet)
      case _ => Quiet
  }

  predicate SameGo(a: Harts, b: Harts)
    requires ValidHarts(a) && ValidHarts(b)
  {
    forall id :: 0 <= id < HARTS ==> a.flags[id].go == b.flags[id].go
  }

  lemma SteerKeepsGo(h: Harts, c: Control)
    requires ValidHarts(h) && c.hartsel < HARTS
    ensures SameGo(SteerHarts(h, c), h)
  {
    hide ProcReset, ProcResets;
  }

  /** Neither a write to dmcontrol nor a reset of the module takes back a GO flag. */
  lemma ControlEffect(dm: Dm, value: bv32)
    requires Valid(dm)
    ensures var r := WriteControl(dm, value);
            && SameGo(r.harts, dm.harts) && r.memory == dm.memory && r.progbufsize == dm.progbufsize
            && r.control.hartsel == (if HasBit(value, 1) then NewHartsel(value) else dm.control.hartsel)
            && r.busy == (dm.busy && !Activates(dm, value))
            && r.cmderr == (if Activates(dm, value) then CMDERR_NONE else dm.cmderr)
  {
    hide SteerHarts, HasBit, NewHartsel;
    var t := TakeControl(dm, value);
    SteerKeepsGo(t.harts, t.control);
  }

  /** A step that calls `perform_abstract_command` does nothing else to the state it calls it in. */
  lemma PerformsThen(dm: Dm, s: Step)
    requires Valid(dm) && StepOk(s) && Performs(dm, s).Some?
    ensures Next(dm, s) == Perform(Performs(dm, s).value)
    ensures var p := Performs(dm, s).value;
            p == dm.(memory := p.memory, command := p.command) && p.memory.code == dm.memory.code
  {
    if s.Reads? {
      ReadPerforms(dm, s.address);
    } else {
      WritePerforms(dm, s.address, s.value);
    }
    hide Performs, Perform, DmiRead, DmiWrite, Valid;
  }

  lemma ReadPerforms(dm: Dm, address: nat)
    requires Valid(dm) && Performs(dm, Reads(address)).Some?
    ensures Performs(dm, Reads(address)) == Some(dm) && DmiRead(dm, address) == Perform(dm)
  {
    hide Perform, Auto, ValidHarts;
  }

  lemma WritePerforms(dm: Dm, address: nat, value: bv32)
    requires Valid(dm) && Performs(dm, Writes(address, value)).Some?
    ensures var p := Performs(dm, Writes(address, value)).value;
            && DmiWrite(dm, address, value) == Perform(p)
            && p == dm.(memory := p.memory, command := p.command) && p.memory.code == dm.memory.code
  {
    hide Perform, Write32, Auto, WriteControl, ValidHarts, Acknowledged, AutoexecOf;
  }

  lemma StartEffect(dm: Dm, s: Step)
    requires Valid(dm) && StepOk(s) && Performs(dm, s).Some?
    ensures var r := Next(dm, s);
            && r.control == dm.control && r.progbufsize == dm.progbufsize
            && (if Starts(dm, s) then
                  !dm.busy && r.busy && r.harts == SetGo(dm.harts, dm.control.hartsel, true)
                else r.busy == dm.busy && r.harts == dm.harts)
  {
    hide Performs, Perform, Next, Valid, SetGo, IsRegisterAccess, Generate;
    PerformsThen(dm, s);
    PerformEffect(Performs(dm, s).value);
  }

  lemma DmiQuiet(dm: Dm, s: Step)
    requires Valid(dm) && IsDmi(s) && Performs(dm, s).None? && !(s.Writes? && s.address == DMI_DMCONTROL)
    ensures var r := Next(dm, s);
            r.control.hartsel == dm.control.hartsel && r.busy == dm.busy && r.harts == dm.harts
               && r.progbufsize == dm.progbufsize
  {
    hide Perform, Write32, Auto, WriteControl, Acknowledged, AutoexecOf;
  }

  lemma SameGoSet(a: Harts, b: Harts)
    requires ValidHarts(a) && ValidHarts(b) && SameGo(a, b)
    ensures GoSet(a) == GoSet(b)
  {}

  lemma SetGoSet(h: Harts, id: nat, value: bool)
    requires ValidHarts(h) && id < HARTS
    ensures GoSet(SetGo(h, id, value)) == if value then GoSet(h) + {id} else GoSet(h) - {id}
  {}

  lemma StoreEffect(dm: Dm, s: Step)
    requires Valid(dm) && StepOk(s) && !IsDmi(s)
    ensures ShakeOf(Next(dm, s)) == Handle(ShakeOf(dm), EventOf(dm, s))
  {
    hide Perform, Copy, StoredId, DmiRead, DmiWrite, SetGo, GoSet, TargetOf;
    SetGoSet(dm.harts, dm.control.hartsel, false);
    if s.Stores? {
      if TargetOf(dm.progbufsize, s.offset, |s.bytes|) == Halted {
        IdOk(dm, s);
        HaltedEffect(dm, StoredId(s.bytes));
      } else if TargetOf(dm.progbufsize, s.offset, |s.bytes|) == Resuming {
        IdOk(dm, s);
        SameGoSet(Next(dm, s).harts, dm.harts);
      }
    } else {
      SameGoSet(Next(dm, s).harts, dm.harts);
    }
  }

  lemma IdOk(dm: Dm, s: Step)
    requires StepOk(s) && s.Stores? && TargetOf(dm.progbufsize, s.offset, |s.bytes|) in {Halted, Resuming}
    ensures StoredId(s.bytes) < HARTS
  {}

  lemma HaltedEffect(dm: Dm, id: nat)
    requires Valid(dm) && id < HARTS
    ensures ShakeOf(HartHalted(dm, id)) == Handle(ShakeOf(dm), Halts(id))
  {
    SameGoSet(HartHalted(dm, id).harts, dm.harts);
  }

  /** The module's steps, seen through busy, hartsel and the GO flags, are exactly the handshake's events. */
  lemma StepRefinesHandshake(dm: Dm, s: Step)
    requires Valid(dm) && StepOk(s)
    ensures ShakeOf(Next(dm, s)) == Handle(ShakeOf(dm), EventOf(dm, s))
    ensures EventOf(dm, s).Start? ==> !dm.busy
  {
    hide Next, Performs, Accepts, GoSet, SetGo, HasBit, NewHartsel, TargetOf, StoredId, Activates;
    if !IsDmi(s) {
      StoreEffect(dm, s);
      NoCommand(dm, s);
    } else if Performs(dm, s).Some? {
      StartEffect(dm, s);
      CommandOnly(dm, s);
      SetGoSet(dm.harts, dm.control.hartsel, true);
    } else if s.Writes? && s.address == DMI_DMCONTROL {
      ControlEffect(dm, s.value);
      WritesControl(dm, s);
      SameGoSet(Next(dm, s).harts, dm.harts);
    } else {
      DmiQuiet(dm, s);
    }
  }

  lemma NoCommand(dm: Dm, s: Step)
    requires Valid(dm) && !IsDmi(s)
    ensures !EventOf(dm, s).Start?
  {}

  lemma CommandOnly(dm: Dm, s: Step)
    requires Valid(dm) && Performs(dm, s).Some?
    ensures IsDmi(s) && !(s.Writes? && s.address == DMI_DMCONTROL)
  {}

  lemma WritesControl(dm: Dm, s: Step)
    requires Valid(dm) && s.Writes? && s.address == DMI_DMCONTROL
    ensures Next(dm, s) == WriteControl(dm, s.value)
    ensures Activates(dm, s.value) ==> HasBit(s.value, 1)
  {
    hide WriteControl;
  }

  /** Every hart that has been told to go is the selected one, and the module is busy with it. */
  ghost predicate GoImpliesBusy(h: Handshake) {
    forall id :: id in h.go ==> h.busy && id == h.hartsel
  }

  /** The debugger selects another hart or resets the module while a started hart has not yet answered. */
  ghost predicate Abandons(h: Handshake, e: Event) {
    h.go != {} && (e.Restart? || (e.Select? && e.hart != h.hartsel))
  }

  /** The invariant survives exactly those events that do not abandon a hart. */
  lemma GoImpliesBusyKeptIff(h: Handshake, e: Event)
    requires GoImpliesBusy(h) && (e.Start? ==> !h.busy)
    ensures GoImpliesBusy(Handle(h, e)) <==> !Abandons(h, e)
  {
    if h.go != {} {
      assert h.hartsel in h.go by {
        var id :| id in h.go;
      }
    }
    if Abandons(h, e) {
      assert h.hartsel in Handle(h, e).go;
    }
  }

  /** The same for the module's steps, whatever the interleaving that led to `dm`. */
  lemma HandshakeKeptIff(dm: Dm, s: Step)
    requires Valid(dm) && StepOk(s) && GoImpliesBusy(ShakeOf(dm))
    ensures GoImpliesBusy(ShakeOf(Next(dm, s))) <==> !Abandons(ShakeOf(dm), EventOf(dm, s))
  {
    hide *;
    StepRefinesHandshake(dm, s);
    BusyIs(dm);
    GoImpliesBusyKeptIff(ShakeOf(dm), EventOf(dm, s));
  }

  lemma BusyIs(dm: Dm)
    requires Valid(dm)
    ensures ShakeOf(dm).busy == dm.busy && ShakeOf(dm).hartsel == dm.control.hartsel
  {}

  // ----- Runs -----

  predicate StepsOk(steps: seq<Step>) {
    forall k :: 0 <= k < |steps| ==> StepOk(steps[k])
  }

  function Run(dm: Dm, steps: seq<Step>): (r: Dm)
    requires Valid(dm) && StepsOk(steps)
    ensures Valid(r)
    decreases |steps|
  {
    if |steps| == 0 then dm else Run(Next(dm, steps[0]), steps[1..])
  }

  /** While the module is busy, the debugger neither resets it nor selects another hart. */
  predicate Disturbs(h: Handshake, e: Event) {
    h.busy && (e.Restart? || (e.Select? && e.hart != h.hartsel))
  }

  ghost predicate Undisturbed(dm: Dm, steps: seq<Step>)
    requires Valid(dm) && StepsOk(steps)
    decreases |steps|
  {
    |steps| == 0 || (!Disturbs(ShakeOf(dm), EventOf(dm, steps[0])) && Undisturbed(Next(dm, steps[0]), steps[1..]))
  }

  lemma {:induction false} UndisturbedKeeps(dm: Dm, steps: seq<Step>)
    requires Valid(dm) && StepsOk(steps) && GoImpliesBusy(ShakeOf(dm)) && Undisturbed(dm, steps)
    ensures GoImpliesBusy(ShakeOf(Run(dm, steps)))
    decreases |steps|
  {
    hide Next, ShakeOf, EventOf, Valid, StepOk;
    if |steps| > 0 {
      HandshakeKeptIff(dm, steps[0]);
      UndisturbedKeeps(Next(dm, steps[0]), steps[1..]);
    }
  }

  /** The step is a store to GOING, or the store of hart `id` to HALTED. */
  predicate IsGoing(progbufsize: nat, s: Step) {
    s.Stores? && TargetOf(progbufsize, s.offset, |s.bytes|) == Going
  }

  predicate IsHalted(progbufsize: nat, s: Step, id: nat) {
    s.Stores? && TargetOf(progbufsize, s.offset, |s.bytes|) == Halted && StoredId(s.bytes) == id
  }

  lemma EventIs(dm: Dm, s: Step)
    requires Valid(dm)
    ensures EventOf(dm, s).GoesOn? ==> IsGoing(dm.progbufsize, s)
    ensures EventOf(dm, s).Halts? ==> IsHalted(dm.progbufsize, s, EventOf(dm, s).id)
  {
    hide Starts, HasBit, Activates, NewHartsel, TargetOf, StoredId;
  }

  lemma SizeFixed(dm: Dm, s: Step)
    requires Valid(dm) && StepOk(s)
    ensures Next(dm, s).progbufsize == dm.progbufsize
  {
    hide Performs, Accepts, TargetOf, StoredId, DmiRead, DmiWrite, WriteControl, Copy, SetGo;
    if !IsDmi(s) {
    } else if Performs(dm, s).Some? {
      StartEffect(dm, s);
    } else if s.Writes? && s.address == DMI_DMCONTROL {
      ControlEffect(dm, s.value);
      WritesControl(dm, s);
    } else {
      DmiQuiet(dm, s);
    }
  }

  /** Once the hart has answered GOING, only its own HALTED ends the command. */
  lemma {:induction false} BusyFallsAfterHalted(dm: Dm, steps: seq<Step>) returns (j: nat)
    requires Valid(dm) && StepsOk(steps) && Undisturbed(dm, steps)
    requires dm.busy && ShakeOf(dm).go == {} && !Run(dm, steps).busy
    ensures j < |steps| && IsHalted(dm.progbufsize, steps[j], dm.control.hartsel)
    decreases |steps|
  {
    hide Next, EventOf, Valid, StepOk, IsHalted, GoSet;
    var h, e := ShakeOf(dm), EventOf(dm, steps[0]);
    StepRefinesHandshake(dm, steps[0]);
    SizeFixed(dm, steps[0]);
    EventIs(dm, steps[0]);
    if e == Halts(h.hartsel) {
      j := 0;
    } else {
      assert Handle(h, e).busy && Handle(h, e).go == {} && Handle(h, e).hartsel == h.hartsel;
      j := BusyFallsAfterHalted(Next(dm, steps[0]), steps[1..]);
      j := j + 1;
    }
  }

  /** After a start, busy falls only once the hart has answered GOING and then HALTED. */
  lemma {:induction false} BusyFallsAfterHandshake(dm: Dm, steps: seq<Step>) returns (i: nat, j: nat)
    requires Valid(dm) && StepsOk(steps) && Undisturbed(dm, steps)
    requires dm.busy && ShakeOf(dm).go == {dm.control.hartsel} && !Run(dm, steps).busy
    ensures i < j < |steps| && IsGoing(dm.progbufsize, steps[i])
    ensures IsHalted(dm.progbufsize, steps[j], dm.control.hartsel)
    decreases |steps|
  {
    hide Next, EventOf, Valid, StepOk, IsHalted, IsGoing, GoSet;
    var h, e := ShakeOf(dm), EventOf(dm, steps[0]);
    StepRefinesHandshake(dm, steps[0]);
    SizeFixed(dm, steps[0]);
    EventIs(dm, steps[0]);
    if e.GoesOn? {
      assert Handle(h, e).go == {};
      j := BusyFallsAfterHalted(Next(dm, steps[0]), steps[1..]);
      i, j := 0, j + 1;
    } else {
      assert Handle(h, e).busy && Handle(h, e).go == h.go && Handle(h, e).hartsel == h.hartsel;
      i, j := BusyFallsAfterHandshake(Next(dm, steps[0]), steps[1..]);
      i, j := i + 1, j + 1;
    }
  }

  /** A run in two parts. */
  lemma {:induction false} RunParts(dm: Dm, a: seq<Step>, b: seq<Step>)
    requires Valid(dm) && StepsOk(a) && StepsOk(b)
    ensures StepsOk(a + b) && Run(dm, a + b) == Run(Run(dm, a), b)
    ensures Undisturbed(dm, a + b) <==> Undisturbed(dm, a) && Undisturbed(Run(dm, a), b)
    ensures Run(dm, a).progbufsize == dm.progbufsize
    decreases |a|
  {
    hide Next, EventOf, ShakeOf, Valid, StepOk;
    if |a| == 0 {
      assert a + b == b;
    } else {
      assert (a + b)[0] == a[0] && (a + b)[1..] == a[1..] + b;
      RunParts(Next(dm, a[0]), a[1..], b);
      SizeFixed(dm, a[0]);
    }
  }

  lemma StartedState(dm: Dm, s: Step)
    requires Valid(dm) && StepOk(s) && GoImpliesBusy(ShakeOf(dm)) && Starts(dm, s)
    ensures var r := Next(dm, s);
            r.busy && ShakeOf(r).go == {r.control.hartsel} && r.control.hartsel == dm.control.hartsel
  {
    hide Next, Starts, GoSet;
    StepRefinesHandshake(dm, s);
    assert ShakeOf(dm).go == {};
  }

  /**
   In an undisturbed run from a state in order, whatever step starts a hart: when the module is found idle later, there
   was a store to GOING in between, and after that the store to HALTED of the hart that was selected.
   */
  lemma StartIsAnswered(dm: Dm, before: seq<Step>, s: Step, after: seq<Step>) returns (i: nat, j: nat)
    requires Valid(dm) && StepsOk(before) && StepOk(s) && StepsOk(after) && GoImpliesBusy(ShakeOf(dm))
    requires StepsOk(before + ([s] + after)) && Undisturbed(dm, before + ([s] + after))
    requires Starts(Run(dm, before), s) && !Run(dm, before + ([s] + after)).busy
    ensures i < j < |after| && IsGoing(dm.progbufsize, after[i])
    ensures IsHalted(dm.progbufsize, after[j], Run(dm, before).control.hartsel)
  {
    hide Next, EventOf, ShakeOf, Valid, StepOk, Starts, IsGoing, IsHalted, GoImpliesBusy;
    RunParts(dm, before, [s] + after);
    UndisturbedKeeps(dm, before);
    var start := Run(dm, before);
    StartedState(start, s);
    SizeFixed(start, s);
    assert ([s] + after)[0] == s && ([s] + after)[1..] == after;
    i, j := BusyFallsAfterHandshake(Next(start, s), after);
  }

  // ----- Errors -----

  /** The debugger clears errors by writing abstractcs, or by switching the module off and on. */
  predicate MayClearError(dm: Dm, s: Step) {
    s.Writes? && (s.address == DMI_ABSTRACTCS || (s.address == DMI_DMCONTROL && Activates(dm, s.value)))
  }

  lemma PerformBlockedByError(dm: Dm, s: Step)
    requires Valid(dm) && StepOk(s) && dm.cmderr != CMDERR_NONE && Performs(dm, s).Some?
    ensures Next(dm, s) == Performs(dm, s).value
  {
    hide Performs, Perform, Next;
    PerformsThen(dm, s);
    PerformBlocked(Performs(dm, s).value);
  }

  lemma QuietKeepsError(dm: Dm, s: Step)
    requires Valid(dm) && StepOk(s) && dm.cmderr != CMDERR_NONE && Performs(dm, s).None?
    requires !(s.Writes? && (s.address == DMI_ABSTRACTCS || s.address == DMI_DMCONTROL))
    ensures Next(dm, s).cmderr == dm.cmderr && Next(dm, s).memory.code == dm.memory.code
  {
    hide Perform, Write32, Auto, WriteControl, Acknowledged, AutoexecOf, TargetOf, Copy, StoredId, SetGo, HartResuming,
         ProcReset;
  }

  /** An error stays, and blocks every command: nothing is generated, and no hart is started. */
  lemma ErrorBlocks(dm: Dm, s: Step)
    requires Valid(dm) && StepOk(s) && dm.cmderr != CMDERR_NONE && !MayClearError(dm, s)
    ensures var r := Next(dm, s);
            r.cmderr == dm.cmderr && r.memory.code == dm.memory.code && !EventOf(dm, s).Start?
  {
    hide Performs, Perform, Next, WriteControl, HasBit, NewHartsel, TargetOf, StoredId, IsRegisterAccess, Generate;
    if Performs(dm, s).Some? {
      PerformBlockedByError(dm, s);
      PerformsThen(dm, s);
    } else if s.Writes? && s.address == DMI_DMCONTROL {
      ControlEffect(dm, s.value);
      WritesControl(dm, s);
    } else {
      QuietKeepsError(dm, s);
    }
  }

  /** No step of the run clears the error. */
  predicate NeverClears(dm: Dm, steps: seq<Step>)
    requires Valid(dm) && StepsOk(steps)
    decreases |steps|
  {
    |steps| == 0 || (!MayClearError(dm, steps[0]) && NeverClears(Next(dm, steps[0]), steps[1..]))
  }

  /** Over whole runs: until the debugger clears the error, no GO flag is raised and busy can only fall. */
  lemma {:induction false} ErrorBlocksRun(dm: Dm, steps: seq<Step>)
    requires Valid(dm) && StepsOk(steps) && dm.cmderr != CMDERR_NONE && NeverClears(dm, steps)
    ensures var r := Run(dm, steps);
            && r.cmderr == dm.cmderr && r.memory.code == dm.memory.code
            && ShakeOf(r).go <= ShakeOf(dm).go && (r.busy ==> dm.busy)
    decreases |steps|
  {
    hide Next, EventOf, Valid, StepOk, GoSet, MayClearError;
    if |steps| > 0 {
      ErrorBlocks(dm, steps[0]);
      StepRefinesHandshake(dm, steps[0]);
      ErrorBlocksRun(Next(dm, steps[0]), steps[1..]);
    }
  }

  /** Acknowledging clears exactly the bits written as one; all ones clears every error. */
  lemma AcknowledgedBits(e: CmdErr, value: bv32)
    ensures ErrorCode(Acknowledged(e, value)) == ErrorCode(e) & !((value >> 8) & 7)
    ensures (value >> 8) & 7 == 7 ==> Acknowledged(e, value) == CMDERR_NONE
  {
    match e
    case CMDERR_NONE =>
    case CMDERR_BUSY =>
    case CMDERR_NOTSUP =>
    case CMDERR_EXCEPTION =>
    case CMDERR_HALTRESUME =>
  }

  // ----- Registers read back -----

  lemma Flag31(v: bv32) ensures Flag(HasBit(v, 0x8000_0000), 0x8000_0000) == v & 0x8000_0000 {}
  lemma Flag30(v: bv32) ensures Flag(HasBit(v, 0x4000_0000), 0x4000_0000) == v & 0x4000_0000 {}
  lemma Flag29(v: bv32) ensures Flag(HasBit(v, 0x2000_0000), 0x2000_0000) == v & 0x2000_0000 {}
  lemma Flag1(v: bv32) ensures Flag(HasBit(v, 2), 2) == v & 2 {}

  lemma FieldsOf(v: bv32)
    ensures ControlFields(v & 0x8000_0000, v & 0x4000_0000, v & 0x2000_0000, v & 2, 1, HartselField(v))
            == (v & 0xe3ff_0002) | 1
  {}

  lemma ThroughNat(x: bv32)
    requires x < 1024
    ensures x as nat as bv32 == x
  {}

  lemma HartselFits(value: bv32)
    ensures HartselField(value) < 1024
  {}

  lemma ControlBits(value: bv32)
    ensures ControlWord(ControlOf(value)) == (value & 0xe3ff_0002) | 1
  {
    hide HasBit, HartselField, ControlFields;
    Flag31(value);
    Flag30(value);
    Flag29(value);
    Flag1(value);
    HartselFits(value);
    ThroughNat(HartselField(value));
    FieldsOf(value);
  }

  /** dmcontrol reads back: of the twenty bits of hartsel, the ten that the module keeps. */
  lemma ControlReadsBack(dm: Dm, value: bv32)
    requires Valid(dm) && HasBit(value, 1)
    ensures ReadValue(DmiWrite(dm, DMI_DMCONTROL, value), DMI_DMCONTROL) == (value & 0xe3ff_0002) | 1
  {
    hide HasBit, ControlOf, ControlWord, ProcReset, ProcResets, Perform, Auto, Write32;
    ControlBits(value);
    var r := DmiWrite(dm, DMI_DMCONTROL, value);
    assert r.control == ControlOf(value);
    assert DmiRead(r, DMI_DMCONTROL).control == r.control;
  }

  lemma StatusFields(e: CmdErr, busy: bool, size: bv32)
    requires size <= 16
    ensures var w := (ErrorCode(e) << 8) | Flag(busy, 0x1000) | 2 | ((size & 0x1f) << 24);
            (w & 0x1000 != 0 <==> busy) && (w >> 8) & 7 == ErrorCode(e) && w >> 24 == size && w & 0xf == 2
  {
    match e
    case CMDERR_NONE =>
    case CMDERR_BUSY =>
    case CMDERR_NOTSUP =>
    case CMDERR_EXCEPTION =>
    case CMDERR_HALTRESUME =>
  }

  lemma StatusIs(dm: Dm)
    requires Valid(dm)
    ensures dm.progbufsize as bv32 <= 16 && DATACOUNT as bv32 == 2
    ensures ReadValue(dm, DMI_ABSTRACTCS) ==
            (ErrorCode(dm.cmderr) << 8) | Flag(dm.busy, 0x1000) | 2 | ((dm.progbufsize as bv32 & 0x1f) << 24)
  {
    hide ErrorCode, Flag, Read32, ControlWord;
  }

  /** What a debugger polls: abstractcs shows busy, cmderr and the two sizes, whatever happens at the same time. */
  lemma StatusReadsBack(dm: Dm)
    requires Valid(dm)
    ensures var w := ReadValue(dm, DMI_ABSTRACTCS);
            && (w & 0x1000 != 0 <==> dm.busy) && (w >> 8) & 7 == ErrorCode(dm.cmderr)
            && w >> 24 == dm.progbufsize as bv32 && w & 0xf == DATACOUNT as bv32
  {
    StatusIs(dm);
    hide *;
    StatusFields(dm.cmderr, dm.busy, dm.progbufsize as bv32);
  }

  /** An autoexec register reads back what was written. */
  lemma AutoexecReadsBack(dm: Dm, value: bv32)
    requires Valid(dm)
    ensures ReadValue(DmiWrite(dm, DMI_ABSTRACTAUTO, value), DMI_ABSTRACTAUTO) == value & 0xffff_0fff
  {
    hide Perform, Auto, Write32, WriteControl, Read32;
  }

  /** A data word written while no command runs, and that starts none, reads back, and the other is untouched. */
  lemma DataReadsBack(dm: Dm, address: nat, value: bv32, other: nat)
    requires Valid(dm) && IsData(address) && IsData(other) && !dm.busy
    requires !Auto(dm.autoexec.data, address - DMI_DATA0)
    ensures ReadValue(DmiWrite(dm, address, value), other)
            == if other == address then value else ReadValue(dm, other)
  {
    hide Perform, Auto, Write32, Read32;
    ReadWrite(dm.memory.data, address - DMI_DATA0, value, other - DMI_DATA0);
  }

  // ----- The code a hart finds -----

  /** The five words of `debug_abstract`. */
  function CodeWords(m: Memory): (r: seq<bv32>)
    requires |m.code| == 20
    ensures |r| == 5
  {
    [Read32(m.code, 0), Read32(m.code, 1), Read32(m.code, 2), Read32(m.code, 3), Read32(m.code, 4)]
  }

  lemma CarriedCode(dm: Dm, plan: Plan)
    requires Valid(dm) && |plan.words| <= 5
    ensures plan.words <= CodeWords(Carry(dm, plan).memory)
  {
    hide Read32, Write32, WriteWords, SetGo;
    forall i | 0 <= i < |plan.words| ensures plan.words[i] == CodeWords(Carry(dm, plan).memory)[i] {
      WrittenWords(dm.memory.code, plan.words, i);
      assert Carry(dm, plan).memory.code == WriteWords(dm.memory.code, plan.words);
    }
  }

  lemma AcceptedCode(p: Dm)
    requires Valid(p) && Accepts(p)
    ensures Generate(p.command, p.progbufsize).verdict == Go
    ensures Generate(p.command, p.progbufsize).words <= CodeWords(Perform(p).memory)
  {
    hide Generate, Carry, CodeWords, IsRegisterAccess;
    GenerateFits(p.command, p.progbufsize);
    CarriedCode(p, Generate(p.command, p.progbufsize));
  }

  /**
   Whatever step starts a hart: the bytes that the hart then fetches do what the command in force asks for, unless
   that command goes through S0 to reach dscratch.
   */
  lemma StartedCodeDoesAsAsked(dm: Dm, s: Step, c: Core)
    requires Valid(dm) && StepOk(s) && Starts(dm, s)
    requires !ClobbersS0(Performs(dm, s).value.command, dm.progbufsize)
    ensures DoesAsAsked(Performs(dm, s).value.command, CodeWords(Next(dm, s).memory), c)
  {
    hide Generate, CodeWords, Next, Performs, Perform, Accepts, ClobbersS0;
    var p := Performs(dm, s).value;
    PerformsThen(dm, s);
    AcceptedCode(p);
    PrefixDoes(p.command, p.progbufsize, CodeWords(Next(dm, s).memory), c);
  }

  lemma PrefixDoes(command: bv32, progbufsize: nat, memory: seq<bv32>, c: Core)
    requires Generate(command, progbufsize).verdict == Go && !ClobbersS0(command, progbufsize)
    requires Generate(command, progbufsize).words <= memory
    ensures DoesAsAsked(command, memory, c)
  {
    hide Generate, A.Run, Same, Requested, IsTransfer, IsPostexec, ClobbersS0, Size, Regno, IsWrite;
    CommandMeets(command, progbufsize, c);
    RunPrefix(Generate(command, progbufsize).words, memory, 0, c);
  }

  /** `debug_abstract_start - DEBUG_ROM_WHERETO`, in 32 bits. */
  function WheretoOffset(progbufsize: bv32): bv32 {
    0x380 - (4 + 4 * progbufsize) - 20 - 0x300
  }

  /** The jump at `debug_rom_whereto` (0x300) lands on the first of those words, right below the program buffer. */
  lemma WheretoLandsOnCode(progbufsize: bv32)
    requires progbufsize <= 16
    ensures var insn := Decode(Jal(ZERO, WheretoOffset(progbufsize)));
            insn.JumpAndLink? && insn.rd == 0
            && 0x300 + insn.imm + 20 == 0x380 - (4 + 4 * (progbufsize as bv64))
  {
    JalIs(Jal(ZERO, WheretoOffset(progbufsize)));
    WheretoTarget(progbufsize);
    hide *;
    DataAddress();
    JalRoundTrip(ZERO, WheretoOffset(progbufsize));
  }

  lemma WheretoTarget(p: bv32)
    requires p <= 16
    ensures 0x300 + Sext21(WheretoOffset(p) & 0xffff_fffe) + 20 == 0x380 - (4 + 4 * (p as bv64))
  {}

  // ----- The implicit ebreak -----

  /** The word behind the program buffer. */
  predicate EndsInEbreak(dm: Dm)
    requires Valid(dm)
  {
    Read32(dm.memory.progbuf, dm.progbufsize) == MATCH_EBREAK
  }

  /** No DMI operation reaches the implicit ebreak; only a hart's store into the program buffer can. */
  lemma EbreakKept(dm: Dm, s: Step)
    requires Valid(dm) && StepOk(s) && EndsInEbreak(dm)
    requires s.Stores? ==> TargetOf(dm.progbufsize, s.offset, |s.bytes|) != Progbuf
    ensures EndsInEbreak(Next(dm, s))
  {
    hide Read32, Write32, Perform, Auto, WriteControl, Acknowledged, AutoexecOf, Copy, StoredId, SetGo, TargetOf;
    SizeFixed(dm, s);
    if s.Writes? && IsProgbuf(dm.progbufsize, s.address) && !dm.busy {
      var i := s.address - DMI_PROGBUF0;
      ReadWrite(dm.memory.progbuf, i, s.value, dm.progbufsize);
      PerformEffect(dm.(memory := dm.memory.(progbuf := Write32(dm.memory.progbuf, i, s.value))));
    } else if s.Writes? && s.address == DMI_DMCONTROL {
      ControlEffect(dm, s.value);
    } else if Performs(dm, s).Some? {
      PerformsThen(dm, s);
      PerformEffect(Performs(dm, s).value);
    }
  }
}

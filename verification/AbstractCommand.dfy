/**
 `debug_module_t::perform_abstract_command` as a code generator: the words it emits, what they do when a hart runs
 them, and that this is what the abstract command asks for.
 */
module AbstractCommand {
  import opened Common
  import opened Encoding

  const S0: bv32 := 8
  const X8: bv64 := 8
  const ZERO: bv32 := 0
  const CSR_DSCRATCH: bv32 := 0x7b2
  const DSCRATCH: bv64 := 0x7b2
  const DATA_START: bv32 := 0x380
  const DATA_ADDR: bv64 := 0x380

  // ----- The meaning of the words -----

  /** The number of a register or CSR. */
  datatype Name = Name(number: bv64)

  /** A register file that holds zero in every register never written. */
  type File = map<Name, bv64>

  function Get(m: File, k: bv64): bv64 {
    if Name(k) in m then m[Name(k)] else 0
  }

  function Put(m: File, k: bv64, v: bv64): File {
    m[Name(k) := v]
  }

  /** A hart's registers and CSRs, and the two data words of the debug module. */
  datatype Core = Core(x: File, f: File, csr: File, data0: bv32, data1: bv32)

  function X(c: Core, r: bv64): bv64 {
    if r == 0 then 0 else Get(c.x, r)
  }

  function SetX(c: Core, r: bv64, v: bv64): Core {
    if r == 0 then c else c.(x := Put(c.x, r, v))
  }

  datatype Insn =
    | LoadX(rd: bv64, rs1: bv64, imm: bv64, double: bool)
    | StoreX(rs2: bv64, rs1: bv64, imm: bv64, double: bool)
    | LoadF(rd: bv64, rs1: bv64, imm: bv64, double: bool)
    | StoreF(rs2: bv64, rs1: bv64, imm: bv64, double: bool)
    | CsrRw(rd: bv64, rs1: bv64, csr: bv64)
    | CsrRs(rd: bv64, rs1: bv64, csr: bv64)
    | JumpAndLink(rd: bv64, imm: bv64)
    | Break
    | Other

  function Decode(w: bv32): Insn {
    var b := Sext(w);
    if w == MATCH_EBREAK then Break
    else if w & 0x7f == MATCH_JAL then JumpAndLink(Rd(b), UjImm(b))
    else ByOpcode(b, w & 0x707f)
  }

  function ByOpcode(b: bv64, op: bv32): Insn {
    if op == MATCH_LW then LoadX(Rd(b), Rs1(b), IImm(b), false)
    else if op == MATCH_LD then LoadX(Rd(b), Rs1(b), IImm(b), true)
    else if op == MATCH_SW then StoreX(Rs2(b), Rs1(b), SImm(b), false)
    else if op == MATCH_SD then StoreX(Rs2(b), Rs1(b), SImm(b), true)
    else if op == MATCH_FLW then LoadF(Rd(b), Rs1(b), IImm(b), false)
    else if op == MATCH_FLD then LoadF(Rd(b), Rs1(b), IImm(b), true)
    else if op == MATCH_FSW then StoreF(Rs2(b), Rs1(b), SImm(b), false)
    else if op == MATCH_FSD then StoreF(Rs2(b), Rs1(b), SImm(b), true)
    else if op == MATCH_CSRRW then CsrRw(Rd(b), Rs1(b), Csr(b))
    else if op == MATCH_CSRRS then CsrRs(Rd(b), Rs1(b), Csr(b))
    else Other
  }

  /** The value in the data words, as a register of 64 bits sees it. */
  function DataValue(c: Core, double: bool): bv64 {
    if double then Pair(c.data1, c.data0) else Sext(c.data0)
  }

  function Pair(high: bv32, low: bv32): bv64 {
    ((high as bv64) << 32) | (low as bv64)
  }

  function PutData(c: Core, v: bv64, double: bool): Core {
    var c := c.(data0 := (v & 0xffff_ffff) as bv32);
    if double then c.(data1 := (v >> 32) as bv32) else c
  }

  /** A single in a floating-point register is boxed in ones. */
  function Boxed(c: Core, double: bool): bv64 {
    if double then DataValue(c, true) else (c.data0 as bv64) | 0xffff_ffff_0000_0000
  }

  /** The effect of an instruction that does not jump. Only the data words are memory here; nothing else is accessed. */
  function Exec(c: Core, i: Insn): Option<Core> {
    match i
    case LoadX(rd, rs1, imm, double) =>
      if X(c, rs1) + imm == DATA_ADDR then Some(SetX(c, rd, DataValue(c, double))) else None
    case StoreX(rs2, rs1, imm, double) =>
      if X(c, rs1) + imm == DATA_ADDR then Some(PutData(c, X(c, rs2), double)) else None
    case LoadF(rd, rs1, imm, double) =>
      if X(c, rs1) + imm == DATA_ADDR then Some(c.(f := Put(c.f, rd, Boxed(c, double)))) else None
    case StoreF(rs2, rs1, imm, double) =>
      if X(c, rs1) + imm == DATA_ADDR then Some(PutData(c, Get(c.f, rs2), double)) else None
    case CsrRw(rd, rs1, k) => Some(SetX(c.(csr := Put(c.csr, k, X(c, rs1))), rd, Get(c.csr, k)))
    case CsrRs(rd, rs1, k) =>
      var old_ := Get(c.csr, k);
      Some(SetX(if rs1 == 0 then c else c.(csr := Put(c.csr, k, old_ | X(c, rs1))), rd, old_))
    case _ => None
  }

  datatype Finish = AtEbreak(core: Core) | JumpedTo(core: Core, offset: bv64) | Stuck

  /** One word either ends the run or leads to the next. */
  datatype Outcome = Ends(finish: Finish) | Steps(core: Core)

  function Execute(w: bv32, i: nat, c: Core): Outcome {
    match Decode(w)
    case Break => Ends(AtEbreak(c))
    case JumpAndLink(rd, imm) => Ends(if rd == 0 then JumpedTo(c, Offset(i) + imm) else Stuck)
    case insn =>
      match Exec(c, insn)
      case None => Ends(Stuck)
      case Some(c') => Steps(c')
  }

  /** Run the words from word `i` on. Jump targets are relative to the first word. */
  function Run(words: seq<bv32>, i: nat, c: Core): Finish
    decreases |words| - i
  {
    if i >= |words| then Stuck
    else
      match Execute(words[i], i, c)
      case Ends(finish) => finish
      case Steps(c') => Run(words, i + 1, c')
  }

  function Offset(i: nat): bv64 {
    match i case 0 => 0 case 1 => 4 case 2 => 8 case 3 => 12 case 4 => 16 case _ => 20
  }

  // ----- The generator -----

  datatype CmdErr = CMDERR_NONE | CMDERR_BUSY | CMDERR_NOTSUP | CMDERR_EXCEPTION | CMDERR_HALTRESUME

  /** What became of a register-access command: start the hart, report an error, or access a custom register. */
  datatype Verdict = Go | Fail(err: CmdErr) | Custom(write: bool, number: bv32)

  /** The words written to `debug_abstract`, and the verdict; words written before an error stay written. */
  datatype Plan = Plan(words: seq<bv32>, verdict: Verdict)

  function Size(command: bv32): bv32 { (command >> 20) & 7 }
  predicate IsWrite(command: bv32) { (command >> 16) & 1 != 0 }
  predicate IsTransfer(command: bv32) { (command >> 17) & 1 != 0 }
  predicate IsPostexec(command: bv32) { (command >> 18) & 1 != 0 }
  function Regno(command: bv32): bv32 { command & 0xffff }

  /** The load or store of the data words, of the size asked for; none if the size is not supported. */
  function DataWord(write: bool, size: bv32, reg: bv32, fp: bool): Option<bv32> {
    if size == 2 then
      Some(if write then Load(reg, ZERO, DATA_START, if fp then MATCH_FLW else MATCH_LW)
           else Store(reg, ZERO, DATA_START, if fp then MATCH_FSW else MATCH_SW))
    else if size == 3 then
      Some(if write then Load(reg, ZERO, DATA_START, if fp then MATCH_FLD else MATCH_LD)
           else Store(reg, ZERO, DATA_START, if fp then MATCH_FSD else MATCH_SD))
    else None
  }

  function FilePlan(write: bool, size: bv32, reg: bv32, fp: bool): Plan {
    match DataWord(write, size, reg, fp)
    case None => Plan([], Fail(CMDERR_NOTSUP))
    case Some(w) => Plan([w], Go)
  }

  /** debug_module.cc:512-621. */
  function Transfer(write: bool, size: bv32, regno: bv32, progbufsize: nat): Plan {
    if regno < 0x1000 && progbufsize < 2 then
      var w := DataWord(write, size, S0, false);
      if write then
        match w
        case None => Plan([Csrw(S0, CSR_DSCRATCH)], Fail(CMDERR_NOTSUP))
        case Some(load) =>
          Plan([Csrw(S0, CSR_DSCRATCH), load, Csrw(S0, regno), Csrr(S0, CSR_DSCRATCH)], Go)
      else
        match w
        case None => Plan([Csrw(S0, CSR_DSCRATCH), Csrr(S0, regno)], Fail(CMDERR_NOTSUP))
        case Some(store) =>
          Plan([Csrw(S0, CSR_DSCRATCH), Csrr(S0, regno), store, Csrr(S0, CSR_DSCRATCH)], Go)
    else if 0x1000 <= regno < 0x1020 then FilePlan(write, size, regno - 0x1000, false)
    else if 0x1020 <= regno < 0x1040 then FilePlan(write, size, regno - 0x1020, true)
    else if regno >= 0xc000 && regno & 1 == 1 then Plan([], Custom(write, regno - 0xc000))
    else Plan([], Fail(CMDERR_NOTSUP))
  }

  /** `debug_progbuf_start - debug_abstract_start - 4 * i`: the program buffer follows five words after. */
  function ProgbufOffset(i: nat): bv32 {
    match i case 0 => 20 case 1 => 16 case 2 => 12 case 3 => 8 case _ => 4
  }

  /** A register-access command on a halted hart. */
  function Generate(command: bv32, progbufsize: nat): Plan {
    var t := if IsTransfer(command) then
               Transfer(IsWrite(command), Size(command), Regno(command), progbufsize)
             else Plan([], Go);
    if t.verdict != Go then t
    else Plan(t.words + [if IsPostexec(command) then Jal(ZERO, ProgbufOffset(|t.words|)) else MATCH_EBREAK], Go)
  }

  /** The five words of `debug_abstract` always suffice. */
  lemma GenerateFits(command: bv32, progbufsize: nat)
    ensures |Generate(command, progbufsize).words| <= 5
  {}

  // ----- Each word does its job -----

  lemma NotControl(w: bv32, op: bv32)
    requires w & 0x707f == op && op & 0x7f != 0x6f && op & 0x7f != 0x73
    ensures w != MATCH_EBREAK && w & 0x7f != MATCH_JAL
  {}

  lemma NotControlCsr(w: bv32, op: bv32)
    requires w & 0x707f == op && (op == MATCH_CSRRW || op == MATCH_CSRRS)
    ensures w != MATCH_EBREAK && w & 0x7f != MATCH_JAL
  {}

  lemma DataAddress()
    ensures Sext12(DATA_START) == DATA_ADDR && IsReg(ZERO) && IsReg(S0) && IsCsr(CSR_DSCRATCH)
    ensures ZERO as bv64 == 0 && S0 as bv64 == X8
  {}

  lemma DecodeDef(w: bv32)
    requires w != MATCH_EBREAK && w & 0x7f != MATCH_JAL
    ensures Decode(w) == ByOpcode(Sext(w), w & 0x707f)
  {}

  function LoadOp(double: bool, fp: bool): bv32 {
    if fp then (if double then MATCH_FLD else MATCH_FLW) else (if double then MATCH_LD else MATCH_LW)
  }

  function StoreOp(double: bool, fp: bool): bv32 {
    if fp then (if double then MATCH_FSD else MATCH_FSW) else (if double then MATCH_SD else MATCH_SW)
  }

  lemma LoadOpcodes(double: bool, fp: bool, b: bv64)
    ensures var op := LoadOp(double, fp);
            && op & 0x707f == op && op & 0x7f != 0x6f && op & 0x7f != 0x73
            && ByOpcode(b, op) ==
               if fp then LoadF(Rd(b), Rs1(b), IImm(b), double) else LoadX(Rd(b), Rs1(b), IImm(b), double)
  {}

  lemma StoreOpcodes(double: bool, fp: bool, b: bv64)
    ensures var op := StoreOp(double, fp);
            && op & 0x707f == op && op & 0x7f != 0x6f && op & 0x7f != 0x73
            && ByOpcode(b, op) ==
               if fp then StoreF(Rs2(b), Rs1(b), SImm(b), double) else StoreX(Rs2(b), Rs1(b), SImm(b), double)
  {}

  lemma LoadDecodes(reg: bv32, double: bool, fp: bool)
    requires IsReg(reg)
    ensures Decode(Load(reg, ZERO, DATA_START, LoadOp(double, fp))) ==
            if fp then LoadF(reg as bv64, 0, DATA_ADDR, double) else LoadX(reg as bv64, 0, DATA_ADDR, double)
  {
    hide *;
    var op := LoadOp(double, fp);
    var w := Load(reg, ZERO, DATA_START, op);
    DataAddress();
    LoadOpcodes(double, fp, Sext(w));
    LoadRoundTrip(reg, ZERO, DATA_START, op);
    NotControl(w, op);
    DecodeDef(w);
  }

  lemma StoreDecodes(reg: bv32, double: bool, fp: bool)
    requires IsReg(reg)
    ensures Decode(Store(reg, ZERO, DATA_START, StoreOp(double, fp))) ==
            if fp then StoreF(reg as bv64, 0, DATA_ADDR, double) else StoreX(reg as bv64, 0, DATA_ADDR, double)
  {
    hide *;
    var op := StoreOp(double, fp);
    var w := Store(reg, ZERO, DATA_START, op);
    DataAddress();
    StoreOpcodes(double, fp, Sext(w));
    StoreRoundTrip(reg, ZERO, DATA_START, op);
    NotControl(w, op);
    DecodeDef(w);
  }

  lemma CsrOpcodes(b: bv64)
    ensures ByOpcode(b, MATCH_CSRRW) == CsrRw(Rd(b), Rs1(b), Csr(b))
    ensures ByOpcode(b, MATCH_CSRRS) == CsrRs(Rd(b), Rs1(b), Csr(b))
  {}

  lemma CsrwDecodes(k: bv32)
    requires IsCsr(k)
    ensures Decode(Csrw(S0, k)) == CsrRw(0, X8, k as bv64)
  {
    hide *;
    var w := Csrw(S0, k);
    DataAddress();
    CsrwRoundTrip(S0, k);
    NotControlCsr(w, MATCH_CSRRW);
    DecodeDef(w);
    CsrOpcodes(Sext(w));
  }

  lemma CsrrDecodes(k: bv32)
    requires IsCsr(k)
    ensures Decode(Csrr(S0, k)) == CsrRs(X8, 0, k as bv64)
  {
    hide *;
    var w := Csrr(S0, k);
    DataAddress();
    CsrrRoundTrip(S0, k);
    NotControlCsr(w, MATCH_CSRRS);
    DecodeDef(w);
    CsrOpcodes(Sext(w));
  }

  lemma ProgbufTarget(i: nat)
    requires i <= 4
    ensures Offset(i) + Sext21(ProgbufOffset(i) & 0xffff_fffe) == 20
  {
    match i
    case 0 => case 1 => case 2 => case 3 => case 4 =>
  }

  function LastWord(i: nat, postexec: bool): bv32 {
    if postexec then Jal(ZERO, ProgbufOffset(i)) else MATCH_EBREAK
  }

  lemma JalDecodes(i: nat)
    requires i <= 4
    ensures var insn := Decode(Jal(ZERO, ProgbufOffset(i)));
            insn.JumpAndLink? && insn.rd == 0 && Offset(i) + insn.imm == 20
  {
    var w := Jal(ZERO, ProgbufOffset(i));
    JalIs(w);
    hide *;
    DataAddress();
    JalRoundTrip(ZERO, ProgbufOffset(i));
    ProgbufTarget(i);
  }

  lemma JalIs(w: bv32)
    ensures w & 0x7f == MATCH_JAL ==> Decode(w) == JumpAndLink(Rd(Sext(w)), UjImm(Sext(w)))
  {}

  // ----- Running them -----

  lemma PlainWordRuns(words: seq<bv32>, i: nat, c: Core, c': Core)
    requires i < |words| && !Decode(words[i]).Break? && !Decode(words[i]).JumpAndLink?
    requires Exec(c, Decode(words[i])) == Some(c')
    ensures Run(words, i, c) == Run(words, i + 1, c')
  {}

  function Ended(c: Core, postexec: bool): Finish {
    if postexec then JumpedTo(c, 20) else AtEbreak(c)
  }

  lemma LastWordRuns(words: seq<bv32>, i: nat, c: Core, postexec: bool)
    requires i <= 4 && i < |words| && words[i] == LastWord(i, postexec)
    ensures Run(words, i, c) == Ended(c, postexec)
  {
    hide Decode, Jal, Offset, ProgbufOffset;
    if postexec {
      JalDecodes(i);
    } else {
      assert Decode(MATCH_EBREAK) == Break by { EbreakDecodes(); }
    }
  }

  lemma EbreakDecodes()
    ensures Decode(MATCH_EBREAK) == Break
  {}

  /** What moving a register of the general (or floating-point) file to or from the data words means. */
  function Move(c: Core, write: bool, double: bool, reg: bv64, fp: bool): Core {
    if write then
      if fp then c.(f := Put(c.f, reg, Boxed(c, double))) else SetX(c, reg, DataValue(c, double))
    else PutData(c, if fp then Get(c.f, reg) else X(c, reg), double)
  }

  predicate SizeOk(size: bv32) { size == 2 || size == 3 }

  lemma DataWordRuns(words: seq<bv32>, i: nat, c: Core, write: bool, size: bv32, reg: bv32, fp: bool)
    requires i < |words| && SizeOk(size) && IsReg(reg)
    requires DataWord(write, size, reg, fp) == Some(words[i])
    ensures Run(words, i, c) == Run(words, i + 1, Move(c, write, size == 3, reg as bv64, fp))
  {
    hide Decode, Load, Store, IsReg, PutData, DataValue, Boxed;
    if write {
      assert words[i] == Load(reg, ZERO, DATA_START, LoadOp(size == 3, fp));
      LoadDecodes(reg, size == 3, fp);
    } else {
      assert words[i] == Store(reg, ZERO, DATA_START, StoreOp(size == 3, fp));
      StoreDecodes(reg, size == 3, fp);
    }
    PlainWordRuns(words, i, c, Move(c, write, size == 3, reg as bv64, fp));
  }

  function SaveTo(c: Core, k: bv64): Core {
    c.(csr := Put(c.csr, k, X(c, X8)))
  }

  lemma CsrwRuns(words: seq<bv32>, i: nat, c: Core, k: bv32)
    requires i < |words| && IsCsr(k) && words[i] == Csrw(S0, k)
    ensures Run(words, i, c) == Run(words, i + 1, SaveTo(c, k as bv64))
  {
    hide Decode, Csrw, IsCsr;
    CsrwDecodes(k);
    PlainWordRuns(words, i, c, SaveTo(c, k as bv64));
  }

  lemma CsrrRuns(words: seq<bv32>, i: nat, c: Core, k: bv32)
    requires i < |words| && IsCsr(k) && words[i] == Csrr(S0, k)
    ensures Run(words, i, c) == Run(words, i + 1, SetX(c, X8, Get(c.csr, k as bv64)))
  {
    hide Decode, Csrr, IsCsr;
    CsrrDecodes(k);
    PlainWordRuns(words, i, c, SetX(c, X8, Get(c.csr, k as bv64)));
  }

  // ----- The meaning of a whole command -----

  /** The commands that go through S0: CSR numbers, when the program buffer has fewer than two words. */
  predicate CsrPath(regno: bv32, progbufsize: nat) {
    regno < 0x1000 && progbufsize < 2
  }

  /** What the debugger asked for, with the one liberty that the CSR path takes: dscratch is overwritten. */
  function Requested(c: Core, write: bool, double: bool, regno: bv32): Core {
    if regno < 0x1000 then
      var k := regno as bv64;
      if write then SaveTo(c, DSCRATCH).(csr := Put(SaveTo(c, DSCRATCH).csr, k, DataValue(c, double)))
      else PutData(SaveTo(c, DSCRATCH), Get(c.csr, k), double)
    else if regno < 0x1020 then Move(c, write, double, (regno - 0x1000) as bv64, false)
    else Move(c, write, double, (regno - 0x1020) as bv64, true)
  }

  /** No register, CSR or data word tells the two cores apart. */
  ghost predicate Same(a: Core, b: Core) {
    && a.data0 == b.data0 && a.data1 == b.data1
    && (forall r: bv64 :: X(a, r) == X(b, r))
    && (forall r: bv64 :: Get(a.f, r) == Get(b.f, r))
    && (forall k: bv64 :: Get(a.csr, k) == Get(b.csr, k))
  }

  /** The words run to their end, and there the core is as the debugger asked. */
  ghost predicate DoesAsAsked(command: bv32, words: seq<bv32>, c: Core) {
    var wanted := if IsTransfer(command) then
                    Requested(c, IsWrite(command), Size(command) == 3, Regno(command)) else c;
    var end := Run(words, 0, c);
    if IsPostexec(command) then end.JumpedTo? && end.offset == 20 && Same(end.core, wanted)
    else end.AtEbreak? && Same(end.core, wanted)
  }

  ghost predicate Meets(command: bv32, progbufsize: nat, c: Core) {
    DoesAsAsked(command, Generate(command, progbufsize).words, c)
  }

  /** Words behind the end of the code are never reached. */
  lemma {:induction false} RunPrefix(words: seq<bv32>, memory: seq<bv32>, i: nat, c: Core)
    requires words <= memory && Run(words, i, c) != Stuck
    ensures Run(memory, i, c) == Run(words, i, c)
    decreases |words| - i
  {
    hide Execute;
    if i < |words| && Execute(words[i], i, c).Steps? {
      RunPrefix(words, memory, i + 1, Execute(words[i], i, c).core);
    }
  }

  /** How the core really looks after the CSR path. */
  function ThroughS0(c: Core, write: bool, double: bool, k: bv64): Core {
    var saved := SaveTo(c, DSCRATCH);
    var moved := if write then SaveTo(SetX(saved, X8, DataValue(saved, double)), k)
                 else
                   var got := SetX(saved, X8, Get(saved.csr, k));
                   PutData(got, X(got, X8), double);
    SetX(moved, X8, Get(moved.csr, DSCRATCH))
  }

  lemma CsrWriteRuns(words: seq<bv32>, c: Core, size: bv32, k: bv32, postexec: bool)
    requires SizeOk(size) && IsCsr(k) && DataWord(true, size, S0, false).Some?
    requires words == [Csrw(S0, CSR_DSCRATCH), DataWord(true, size, S0, false).value, Csrw(S0, k),
                       Csrr(S0, CSR_DSCRATCH), LastWord(4, postexec)]
    ensures Run(words, 0, c) == Ended(ThroughS0(c, true, size == 3, k as bv64), postexec)
  {
    hide Run, DataWord, Csrw, Csrr, LastWord, Ended, DataValue, Boxed, PutData, IsCsr, IsReg;
    DataAddress();
    var c1 := SaveTo(c, DSCRATCH);
    CsrwRuns(words, 0, c, CSR_DSCRATCH);
    DataWordRuns(words, 1, c1, true, size, S0, false);
    var c2 := SetX(c1, X8, DataValue(c1, size == 3));
    CsrwRuns(words, 2, c2, k);
    var c3 := SaveTo(c2, k as bv64);
    CsrrRuns(words, 3, c3, CSR_DSCRATCH);
    LastWordRuns(words, 4, SetX(c3, X8, Get(c3.csr, DSCRATCH)), postexec);
  }

  lemma CsrReadRuns(words: seq<bv32>, c: Core, size: bv32, k: bv32, postexec: bool)
    requires SizeOk(size) && IsCsr(k) && DataWord(false, size, S0, false).Some?
    requires words == [Csrw(S0, CSR_DSCRATCH), Csrr(S0, k), DataWord(false, size, S0, false).value,
                       Csrr(S0, CSR_DSCRATCH), LastWord(4, postexec)]
    ensures Run(words, 0, c) == Ended(ThroughS0(c, false, size == 3, k as bv64), postexec)
  {
    hide Run, DataWord, Csrw, Csrr, LastWord, Ended, DataValue, Boxed, PutData, IsCsr, IsReg;
    DataAddress();
    var c1 := SaveTo(c, DSCRATCH);
    CsrwRuns(words, 0, c, CSR_DSCRATCH);
    CsrrRuns(words, 1, c1, k);
    var c2 := SetX(c1, X8, Get(c1.csr, k as bv64));
    DataWordRuns(words, 2, c2, false, size, S0, false);
    var c3 := PutData(c2, X(c2, X8), size == 3);
    CsrrRuns(words, 3, c3, CSR_DSCRATCH);
    LastWordRuns(words, 4, SetX(c3, X8, Get(c3.csr, DSCRATCH)), postexec);
  }

  lemma OneWordRuns(words: seq<bv32>, c: Core, write: bool, size: bv32, reg: bv32, fp: bool, postexec: bool)
    requires SizeOk(size) && IsReg(reg) && DataWord(write, size, reg, fp).Some?
    requires words == [DataWord(write, size, reg, fp).value, LastWord(1, postexec)]
    ensures Run(words, 0, c) == Ended(Move(c, write, size == 3, reg as bv64, fp), postexec)
  {
    hide Run, DataWord, LastWord, Ended, Move, IsReg;
    DataWordRuns(words, 0, c, write, size, reg, fp);
    LastWordRuns(words, 1, Move(c, write, size == 3, reg as bv64, fp), postexec);
  }

  lemma PutGet(m: File, k: bv64, v: bv64, j: bv64)
    ensures Get(Put(m, k, v), j) == if j == k then v else Get(m, j)
  {}

  lemma PutTwice(m: File, k: bv64, u: bv64, v: bv64)
    ensures forall r: bv64 :: Get(Put(Put(m, k, u), k, v), r) == if r == k then v else Get(m, r)
  {}

  lemma SameFromFiles(a: Core, b: Core)
    requires a.data0 == b.data0 && a.data1 == b.data1 && a.f == b.f && a.csr == b.csr
    requires forall r: bv64 :: Get(a.x, r) == Get(b.x, r)
    ensures Same(a, b)
  {}

  /** The core after the CSR path, field by field: S0 holds what dscratch does, the old S0 unless k is dscratch. */
  lemma ThroughS0Write(c: Core, double: bool, k: bv64)
    ensures var d := DataValue(c, double);
            var csr := Put(Put(c.csr, DSCRATCH, X(c, X8)), k, d);
            ThroughS0(c, true, double, k) == c.(x := Put(Put(c.x, X8, d), X8, Get(csr, DSCRATCH)), csr := csr)
  {
    hide Put, Get, Sext;
    var d := DataValue(c, double);
    PutGet(c.x, X8, d, X8);
  }

  lemma PutDataFrame(c: Core, x: File, csr: File, v: bv64, double: bool)
    ensures PutData(c.(x := x, csr := csr), v, double) == PutData(c, v, double).(x := x, csr := csr)
    ensures PutData(c, v, double).x == c.x && PutData(c, v, double).csr == c.csr
  {}

  lemma ThroughS0Read(c: Core, double: bool, k: bv64)
    ensures var csr := Put(c.csr, DSCRATCH, X(c, X8));
            var v := Get(csr, k);
            ThroughS0(c, false, double, k)
            == PutData(c, v, double).(x := Put(Put(c.x, X8, v), X8, Get(csr, DSCRATCH)), csr := csr)
  {
    hide Put, Get, PutData;
    var csr := Put(c.csr, DSCRATCH, X(c, X8));
    var v := Get(csr, k);
    PutGet(c.x, X8, v, X8);
    PutDataFrame(c, Put(c.x, X8, v), csr, v, double);
  }

  /** Off dscratch, the detour through S0 does what was asked and puts S0 back. */
  lemma ThroughS0Meets(c: Core, write: bool, double: bool, regno: bv32)
    requires regno < 0x1000 && regno as bv64 != DSCRATCH
    ensures Same(ThroughS0(c, write, double, regno as bv64), Requested(c, write, double, regno))
  {
    hide Put, Get, Same, DataValue, PutData, ThroughS0;
    var k := regno as bv64;
    var v := if write then DataValue(c, double) else Get(c.csr, k);
    var saved := Put(c.csr, DSCRATCH, X(c, X8));
    PutGet(c.csr, DSCRATCH, X(c, X8), k);
    PutGet(c.csr, DSCRATCH, X(c, X8), DSCRATCH);
    PutGet(saved, k, v, DSCRATCH);
    PutTwice(c.x, X8, v, X(c, X8));
    if write {
      ThroughS0Write(c, double, k);
    } else {
      ThroughS0Read(c, double, k);
      PutDataFrame(c, c.x, saved, v, double);
    }
    SameFromFiles(ThroughS0(c, write, double, k), Requested(c, write, double, regno));
  }

  predicate Transfers(command: bv32, progbufsize: nat) {
    IsTransfer(command) && Generate(command, progbufsize).verdict == Go
  }

  // The shape of the generated code, path by path.

  lemma NoTransferShape(command: bv32, progbufsize: nat)
    requires !IsTransfer(command)
    ensures Generate(command, progbufsize) == Plan([LastWord(0, IsPostexec(command))], Go)
  {
    hide Jal;
  }

  lemma CsrShape(command: bv32, progbufsize: nat)
    requires Transfers(command, progbufsize) && CsrPath(Regno(command), progbufsize)
    ensures var size, write, k := Size(command), IsWrite(command), Regno(command);
            var move := DataWord(write, size, S0, false);
            && SizeOk(size) && IsCsr(k) && move.Some?
            && Generate(command, progbufsize).words ==
               if write then [Csrw(S0, CSR_DSCRATCH), move.value, Csrw(S0, k), Csrr(S0, CSR_DSCRATCH),
                              LastWord(4, IsPostexec(command))]
               else [Csrw(S0, CSR_DSCRATCH), Csrr(S0, k), move.value, Csrr(S0, CSR_DSCRATCH),
                     LastWord(4, IsPostexec(command))]
  {
    hide Jal, Csrw, Csrr, Load, Store, Size, IsWrite, IsPostexec, IsTransfer, Regno;
    SmallIsCsr(Regno(command));
  }

  lemma SmallIsCsr(k: bv32)
    ensures k < 0x1000 ==> IsCsr(k)
  {}

  lemma SmallIsReg(r: bv32)
    ensures 0x1000 <= r < 0x1020 ==> IsReg(r - 0x1000)
    ensures 0x1020 <= r < 0x1040 ==> IsReg(r - 0x1020)
  {}

  lemma FileShape(command: bv32, progbufsize: nat)
    requires Transfers(command, progbufsize) && !CsrPath(Regno(command), progbufsize)
    ensures var size, write, regno := Size(command), IsWrite(command), Regno(command);
            var fp := regno >= 0x1020;
            var reg := if fp then regno - 0x1020 else regno - 0x1000;
            var move := DataWord(write, size, reg, fp);
            && 0x1000 <= regno < 0x1040 && SizeOk(size) && IsReg(reg) && move.Some?
            && Generate(command, progbufsize).words == [move.value, LastWord(1, IsPostexec(command))]
  {
    hide Jal, Csrw, Csrr, Load, Store, Size, IsWrite, IsPostexec, IsTransfer, Regno, IsReg;
    SmallIsReg(Regno(command));
  }

  lemma SameReflexive(c: Core)
    ensures Same(c, c)
  {}

  lemma MeetsDef(command: bv32, progbufsize: nat, c: Core, final: Core)
    requires Run(Generate(command, progbufsize).words, 0, c) == Ended(final, IsPostexec(command))
    ensures Meets(command, progbufsize, c) <==>
            Same(final, if IsTransfer(command) then
                          Requested(c, IsWrite(command), Size(command) == 3, Regno(command)) else c)
  {
    hide Same, Requested, Run, Generate, Size, Regno, IsWrite, IsPostexec, IsTransfer;
  }

  lemma CsrWritePathRuns(command: bv32, progbufsize: nat, c: Core)
    requires Transfers(command, progbufsize) && CsrPath(Regno(command), progbufsize) && IsWrite(command)
    ensures Run(Generate(command, progbufsize).words, 0, c)
            == Ended(ThroughS0(c, true, Size(command) == 3, Regno(command) as bv64), IsPostexec(command))
  {
    hide *;
    CsrShape(command, progbufsize);
    var words, post := Generate(command, progbufsize).words, IsPostexec(command);
    var size, k := Size(command), Regno(command);
    CsrWriteRuns(words, c, size, k, post);
  }

  lemma CsrReadPathRuns(command: bv32, progbufsize: nat, c: Core)
    requires Transfers(command, progbufsize) && CsrPath(Regno(command), progbufsize) && !IsWrite(command)
    ensures Run(Generate(command, progbufsize).words, 0, c)
            == Ended(ThroughS0(c, false, Size(command) == 3, Regno(command) as bv64), IsPostexec(command))
  {
    hide *;
    CsrShape(command, progbufsize);
    var words, post := Generate(command, progbufsize).words, IsPostexec(command);
    var size, k := Size(command), Regno(command);
    CsrReadRuns(words, c, size, k, post);
  }

  /** Where the code of a CSR-path command leaves the core. */
  lemma CsrPathRuns(command: bv32, progbufsize: nat, c: Core)
    requires Transfers(command, progbufsize) && CsrPath(Regno(command), progbufsize)
    ensures Run(Generate(command, progbufsize).words, 0, c)
            == Ended(ThroughS0(c, IsWrite(command), Size(command) == 3, Regno(command) as bv64), IsPostexec(command))
  {
    hide *;
    if IsWrite(command) {
      CsrWritePathRuns(command, progbufsize, c);
    } else {
      CsrReadPathRuns(command, progbufsize, c);
    }
  }

  lemma RequestedFile(c: Core, write: bool, double: bool, regno: bv32)
    requires 0x1000 <= regno < 0x1040
    ensures Requested(c, write, double, regno) ==
            var fp := regno >= 0x1020;
            Move(c, write, double, (if fp then regno - 0x1020 else regno - 0x1000) as bv64, fp)
  {
    hide Move;
  }

  lemma FilePathMeets(command: bv32, progbufsize: nat, c: Core)
    requires Transfers(command, progbufsize) && !CsrPath(Regno(command), progbufsize)
    ensures Meets(command, progbufsize, c)
  {
    FileShape(command, progbufsize);
    hide *;
    var regno := Regno(command);
    var fp := regno >= 0x1020;
    var reg := if fp then regno - 0x1020 else regno - 0x1000;
    var final := Move(c, IsWrite(command), Size(command) == 3, reg as bv64, fp);
    OneWordRuns(Generate(command, progbufsize).words, c, IsWrite(command), Size(command), reg, fp,
                IsPostexec(command));
    RequestedFile(c, IsWrite(command), Size(command) == 3, regno);
    SameReflexive(final);
    TransfersIs(command, progbufsize);
    MeetsDef(command, progbufsize, c, final);
  }

  lemma TransfersIs(command: bv32, progbufsize: nat)
    ensures Transfers(command, progbufsize) <==>
            IsTransfer(command) && Generate(command, progbufsize).verdict == Go
  {
    hide Generate;
  }

  lemma NoTransferMeets(command: bv32, progbufsize: nat, c: Core)
    requires !IsTransfer(command)
    ensures Meets(command, progbufsize, c)
  {
    NoTransferShape(command, progbufsize);
    hide *;
    LastWordRuns(Generate(command, progbufsize).words, 0, c, IsPostexec(command));
    SameReflexive(c);
    MeetsDef(command, progbufsize, c, c);
  }

  /** The one register whose access does not work: dscratch itself, through the CSR path that uses it. */
  predicate ClobbersS0(command: bv32, progbufsize: nat) {
    IsTransfer(command) && CsrPath(Regno(command), progbufsize) && Regno(command) == CSR_DSCRATCH
  }

  /** Through `s0` as requested, unless the register is `dscratch`. */
  lemma ThroughS0AsRequested(c: Core, write: bool, double: bool, regno: bv32, progbufsize: nat)
    requires CsrPath(regno, progbufsize) && regno != CSR_DSCRATCH
    ensures Same(ThroughS0(c, write, double, regno as bv64), Requested(c, write, double, regno))
  {
    hide Same, ThroughS0, Requested;
    NotDscratch(regno);
    ThroughS0Meets(c, write, double, regno);
  }

  lemma CsrPathMeets(command: bv32, progbufsize: nat, c: Core)
    requires Transfers(command, progbufsize) && CsrPath(Regno(command), progbufsize)
    requires Regno(command) != CSR_DSCRATCH
    ensures Meets(command, progbufsize, c)
  {
    hide *;
    TransfersIs(command, progbufsize);
    CsrPathRuns(command, progbufsize, c);
    ThroughS0AsRequested(c, IsWrite(command), Size(command) == 3, Regno(command), progbufsize);
    MeetsDef(command, progbufsize, c, ThroughS0(c, IsWrite(command), Size(command) == 3, Regno(command) as bv64));
  }

  lemma CommandMeets(command: bv32, progbufsize: nat, c: Core)
    requires Generate(command, progbufsize).verdict == Go && !ClobbersS0(command, progbufsize)
    ensures Meets(command, progbufsize, c)
  {
    TransfersIs(command, progbufsize);
    NotClobbers(command, progbufsize);
    hide *;
    if !IsTransfer(command) {
      NoTransferMeets(command, progbufsize, c);
    } else if !CsrPath(Regno(command), progbufsize) {
      FilePathMeets(command, progbufsize, c);
    } else {
      CsrPathMeets(command, progbufsize, c);
    }
  }

  lemma NotClobbers(command: bv32, progbufsize: nat)
    requires !ClobbersS0(command, progbufsize)
    ensures IsTransfer(command) && CsrPath(Regno(command), progbufsize) ==> Regno(command) != CSR_DSCRATCH
  {
    hide IsTransfer, Regno, CsrPath;
  }

  lemma NotDscratch(k: bv32)
    ensures k != CSR_DSCRATCH ==> k as bv64 != DSCRATCH
  {}

  /** A hart with 1 in S0 and 0 everywhere else. */
  const ONE_IN_S0 := Core(map[Name(X8) := 1], map[], map[], 0, 0)

  /** Accessing dscratch this way either loses S0 (write) or returns S0 (read). */
  lemma DscratchDiffers(write: bool, double: bool)
    ensures var c := ONE_IN_S0;
            !Same(ThroughS0(c, write, double, DSCRATCH), Requested(c, write, double, CSR_DSCRATCH))
  {
    var c := ONE_IN_S0;
    var a := ThroughS0(c, write, double, DSCRATCH);
    var b := Requested(c, write, double, CSR_DSCRATCH);
    if write {
      assert DataValue(c, double) == 0;
      assert X(a, X8) == 0 && X(b, X8) == 1;
    } else {
      assert a.data0 == 1 && b.data0 == 0;
    }
  }

  lemma ClobberedCommandFails(command: bv32, progbufsize: nat)
    requires Generate(command, progbufsize).verdict == Go && ClobbersS0(command, progbufsize)
    ensures !Meets(command, progbufsize, ONE_IN_S0)
  {
    hide Generate, Meets, Run, Same, Requested, ThroughS0, Size, IsWrite, IsPostexec, IsTransfer;
    CsrPathRuns(command, progbufsize, ONE_IN_S0);
    DscratchDiffers(IsWrite(command), Size(command) == 3);
    MeetsDef(command, progbufsize, ONE_IN_S0,
             ThroughS0(ONE_IN_S0, IsWrite(command), Size(command) == 3, DSCRATCH));
  }

  /** On every hart the generated code does exactly what was asked, unless the command accesses dscratch through S0. */
  lemma CommandMeetsIff(command: bv32, progbufsize: nat)
    requires Generate(command, progbufsize).verdict == Go
    ensures (forall c: Core :: Meets(command, progbufsize, c)) <==> !ClobbersS0(command, progbufsize)
  {
    hide Generate, Meets, ClobbersS0;
    if ClobbersS0(command, progbufsize) {
      ClobberedCommandFails(command, progbufsize);
    } else {
      forall c: Core ensures Meets(command, progbufsize, c) {
        CommandMeets(command, progbufsize, c);
      }
    }
  }

  /** Exactly these commands start the hart. */
  lemma GoIff(command: bv32, progbufsize: nat)
    ensures Generate(command, progbufsize).verdict == Go <==>
            (IsTransfer(command) ==>
               && SizeOk(Size(command))
               && (CsrPath(Regno(command), progbufsize) || 0x1000 <= Regno(command) < 0x1040))
  {
    hide Jal, Csrw, Csrr, Load, Store, Size, IsWrite, IsPostexec, IsTransfer, Regno;
  }

  // ----- Commands as the debugger spells them -----

  /** The word that asks for a register access: aarsize, postexec, transfer, write and regno in their places. */
  function CommandWord(write: bool, postexec: bool, transfer: bool, size: bv32, regno: bv32): bv32 {
    CommandFlags(write, postexec, transfer, size) | regno
  }

  function CommandFlags(write: bool, postexec: bool, transfer: bool, size: bv32): bv32 {
    (size << 20) | (if postexec then 0x4_0000 else 0) | (if transfer then 0x2_0000 else 0)
    | (if write then 0x1_0000 else 0)
  }

  lemma SpelledSize(write: bool, postexec: bool, transfer: bool, size: bv32, regno: bv32)
    requires size < 8 && regno < 0x1_0000
    ensures Size(CommandWord(write, postexec, transfer, size, regno)) == size
    ensures CommandWord(write, postexec, transfer, size, regno) >> 24 == 0
  {}

  lemma SpelledRegno(write: bool, postexec: bool, transfer: bool, size: bv32, regno: bv32)
    requires size < 8 && regno < 0x1_0000
    ensures Regno(CommandWord(write, postexec, transfer, size, regno)) == regno
  {
    hide CommandFlags;
    HighFields(write, postexec, transfer, size);
    LowField(CommandFlags(write, postexec, transfer, size), regno);
  }

  lemma HighFields(write: bool, postexec: bool, transfer: bool, size: bv32)
    ensures CommandFlags(write, postexec, transfer, size) & 0xffff == 0
  {}

  lemma LowField(high: bv32, low: bv32)
    requires high & 0xffff == 0 && low < 0x1_0000
    ensures (high | low) & 0xffff == low
  {}

  lemma SpelledFlags(write: bool, postexec: bool, transfer: bool, size: bv32, regno: bv32)
    requires size < 8 && regno < 0x1_0000
    ensures var w := CommandWord(write, postexec, transfer, size, regno);
            (IsWrite(w) <==> write) && (IsPostexec(w) <==> postexec) && (IsTransfer(w) <==> transfer)
  {}

  lemma Spelled(write: bool, postexec: bool, transfer: bool, size: bv32, regno: bv32)
    requires size < 8 && regno < 0x1_0000
    ensures var w := CommandWord(write, postexec, transfer, size, regno);
            && Size(w) == size && Regno(w) == regno
            && (IsWrite(w) <==> write) && (IsPostexec(w) <==> postexec) && (IsTransfer(w) <==> transfer)
  {
    hide *;
    SpelledSize(write, postexec, transfer, size, regno);
    SpelledRegno(write, postexec, transfer, size, regno);
    SpelledFlags(write, postexec, transfer, size, regno);
  }

  /** The requests that start the hart: a general or floating-point register, or a CSR with a small program buffer. */
  predicate Supported(size: bv32, regno: bv32, progbufsize: nat) {
    (size == 2 || size == 3) && ((0x1000 <= regno && regno < 0x1040) || (regno < 0x1000 && progbufsize < 2))
  }

  /** The run ended where it should, at the ebreak or in the program buffer, with this core. */
  ghost predicate EndsWith(end: Finish, postexec: bool, c: Core) {
    if postexec then end.JumpedTo? && end.offset == 20 && Same(end.core, c) else end.AtEbreak? && Same(end.core, c)
  }

  lemma DoesDef(command: bv32, words: seq<bv32>, c: Core)
    ensures DoesAsAsked(command, words, c) <==>
            EndsWith(Run(words, 0, c), IsPostexec(command),
                     if IsTransfer(command) then
                       Requested(c, IsWrite(command), Size(command) == 3, Regno(command)) else c)
  {
    hide Run, Same, Requested, Size, Regno, IsWrite, IsPostexec, IsTransfer;
  }

  /** What the debugger asks for is what the code does, on every hart, for every supported request but dscratch. */
  lemma RequestMeets(write: bool, postexec: bool, size: bv32, regno: bv32, progbufsize: nat, c: Core)
    requires Supported(size, regno, progbufsize) && (regno < 0x1000 ==> regno != 0x7b2)
    ensures var plan := Generate(CommandWord(write, postexec, true, size, regno), progbufsize);
            plan.verdict == Go && EndsWith(Run(plan.words, 0, c), postexec, Requested(c, write, size == 3, regno))
  {
    var w := CommandWord(write, postexec, true, size, regno);
    SupportedBounds(size, regno, progbufsize);
    hide Run, Same, Requested, Size, Regno, IsWrite, IsPostexec, IsTransfer;
    hide Generate, CommandWord, DoesAsAsked, EndsWith;
    Spelled(write, postexec, true, size, regno);
    GoIff(w, progbufsize);
    CommandMeets(w, progbufsize, c);
    DoesDef(w, Generate(w, progbufsize).words, c);
  }

  lemma SupportedBounds(size: bv32, regno: bv32, progbufsize: nat)
    requires Supported(size, regno, progbufsize)
    ensures size < 8 && regno < 0x1_0000 && SizeOk(size)
    ensures CsrPath(regno, progbufsize) || 0x1000 <= regno < 0x1040
  {}

  /** Without the transfer bit nothing moves, whatever register is named. */
  lemma NoRequestMoves(write: bool, postexec: bool, size: bv32, regno: bv32, progbufsize: nat, c: Core)
    requires size < 8 && regno < 0x1_0000
    ensures var plan := Generate(CommandWord(write, postexec, false, size, regno), progbufsize);
            plan.verdict == Go && EndsWith(Run(plan.words, 0, c), postexec, c)
  {
    var w := CommandWord(write, postexec, false, size, regno);
    hide Run, Same, Requested, Size, Regno, IsWrite, IsPostexec, IsTransfer;
    hide Generate, CommandWord, DoesAsAsked, EndsWith;
    Spelled(write, postexec, false, size, regno);
    GoIff(w, progbufsize);
    NoTransferMeets(w, progbufsize, c);
    DoesDef(w, Generate(w, progbufsize).words, c);
  }

  /** All other transfers: an odd number from 0xc001 on names a custom register, and the rest is not supported. */
  lemma RequestRefused(write: bool, postexec: bool, size: bv32, regno: bv32, progbufsize: nat)
    requires size < 8 && regno < 0x1_0000 && !Supported(size, regno, progbufsize)
    ensures Generate(CommandWord(write, postexec, true, size, regno), progbufsize).verdict ==
            if regno >= 0xc000 && regno & 1 == 1 then Custom(write, regno - 0xc000) else Fail(CMDERR_NOTSUP)
  {
    var w := CommandWord(write, postexec, true, size, regno);
    hide CommandWord, Size, Regno, IsWrite, IsPostexec, IsTransfer, Load, Store, Csrw, Csrr, Jal;
    Spelled(write, postexec, true, size, regno);
  }

  /** The requests in numbers: what a read of a general register leaves in the data words. */
  lemma ReadValues(c: Core, double: bool, r: bv32)
    requires r < 32
    ensures var v, got := X(c, r as bv64), Requested(c, false, double, r + 0x1000);
            && got.data0 == (v & 0xffff_ffff) as bv32
            && got.data1 == (if double then (v >> 32) as bv32 else c.data1)
            && got.x == c.x && got.f == c.f && got.csr == c.csr
  {
    RequestedRegister(c, false, double, r);
    hide Requested, X;
  }

  /** And what a write leaves in the register: data1 above data0, or data0 sign-extended. */
  lemma WriteValues(c: Core, double: bool, r: bv32)
    requires r < 32
    ensures var got := Requested(c, true, double, r + 0x1000);
            && X(got, r as bv64) == (if r == 0 then 0 else if double then Pair(c.data1, c.data0) else Sext(c.data0))
            && got.data0 == c.data0 && got.data1 == c.data1 && got.f == c.f && got.csr == c.csr
            && (forall k: bv64 :: k != r as bv64 ==> X(got, k) == X(c, k))
  {
    RequestedRegister(c, true, double, r);
    RegisterNumber(r);
    SetXGets(c, r as bv64, DataValue(c, double));
    MoveIn(c, double, r as bv64);
    hide Requested, X, SetX, Move, Pair, Sext;
  }

  lemma PairHalves(high: bv32, low: bv32)
    ensures Pair(high, low) >> 32 == high as bv64 && Pair(high, low) & 0xffff_ffff == low as bv64
  {}

  lemma SextPositive(w: bv32) requires w & 0x8000_0000 == 0 ensures Sext(w) == w as bv64 {}
  lemma SextNegative(w: bv32) requires w & 0x8000_0000 != 0 ensures Sext(w) >> 32 == 0xffff_ffff {}

  lemma MoveIn(c: Core, double: bool, k: bv64)
    ensures Move(c, true, double, k, false) == SetX(c, k, DataValue(c, double))
  {
    hide DataValue, SetX;
  }

  lemma SetXGets(c: Core, r: bv64, v: bv64)
    ensures X(SetX(c, r, v), r) == if r == 0 then 0 else v
    ensures forall k: bv64 :: k != r ==> X(SetX(c, r, v), k) == X(c, k)
    ensures SetX(c, r, v) == c.(x := SetX(c, r, v).x)
  {}

  lemma RequestedRegister(c: Core, write: bool, double: bool, r: bv32)
    requires r < 32
    ensures Requested(c, write, double, r + 0x1000) == Move(c, write, double, r as bv64, false)
  {
    RegisterNumber(r);
    hide Move, SaveTo, PutData, DataValue, Get, Put;
  }

  lemma RegisterNumber(r: bv32)
    requires r < 32
    ensures 0x1000 <= r + 0x1000 && r + 0x1000 < 0x1020 && r + 0x1000 - 0x1000 == r
    ensures (r as bv64 == 0) == (r == 0)
  {}

  /** Two programs word by word: reading x8 and running the program buffer's code, and writing mstatus through s0. */
  lemma KnownPrograms()
    ensures Generate(0x0022_1008, 2).words == [0x3880_2023, 0x0010_0073]
    ensures Generate(0x0026_1008, 2).words == [0x3880_2023, 0x0100_006f]
    ensures Generate(0x0033_0300, 1).words == [0x7b24_1073, 0x3800_3403, 0x3004_1073, 0x7b20_2473, 0x0010_0073]
    ensures Generate(0x0022_1028, 2).words == [0x3880_2027, 0x0010_0073]
    ensures Generate(0x0033_1028, 2).words == [0x3800_3407, 0x0010_0073]
    ensures Generate(0x0023_1028, 2).words == [0x3800_2407, 0x0010_0073]
    ensures Generate(0x0032_1028, 2).words == [0x3880_3027, 0x0010_0073]
    ensures Generate(0x0023_1008, 2).words == [0x3800_2403, 0x0010_0073]
    ensures Generate(0x0032_1008, 2).words == [0x3880_3023, 0x0010_0073]
    ensures Generate(0x0033_1008, 2).words == [0x3800_3403, 0x0010_0073]
  {}

  /** A floating-point register read into the data words, and a single written boxed in ones. */
  lemma FloatValues(c: Core, double: bool, r: bv32)
    requires r < 32
    ensures var got := Requested(c, false, double, r + 0x1020);
            && got.data0 == (Get(c.f, r as bv64) & 0xffff_ffff) as bv32
            && got.data1 == (if double then (Get(c.f, r as bv64) >> 32) as bv32 else c.data1)
    ensures var got := Requested(c, true, double, r + 0x1020);
            && got.x == c.x && got.csr == c.csr
            && Get(got.f, r as bv64) == (if double then Pair(c.data1, c.data0) else Pair(0xffff_ffff, c.data0))
  {
    RequestedFloat(c, false, double, r);
    RequestedFloat(c, true, double, r);
    BoxedIs(c, double);
    PutGet(c.f, r as bv64, Boxed(c, double), r as bv64);
    hide Requested, Get, Put, Pair, Boxed;
  }

  lemma BoxedIs(c: Core, double: bool)
    ensures Boxed(c, double) == if double then Pair(c.data1, c.data0) else Pair(0xffff_ffff, c.data0)
  {
    hide Sext;
  }

  lemma RequestedFloat(c: Core, write: bool, double: bool, r: bv32)
    requires r < 32
    ensures Requested(c, write, double, r + 0x1020) == Move(c, write, double, r as bv64, true)
  {
    FloatNumber(r);
    hide Move, SaveTo, PutData, DataValue, Get, Put;
  }

  lemma FloatNumber(r: bv32)
    requires r < 32
    ensures r + 0x1020 >= 0x1020 && r + 0x1020 - 0x1020 == r
  {}
}

/**
 The JTAG debug transport: the TAP controller and its shift registers, clocked by single pin changes.
 A scan is a queue of bits: what was captured comes out at TDO, what is put in at TDI stays.
 */
module Jtag {
  import opened Common
  import opened Bits

  const IR_IDCODE: nat := 1
  const IR_DTMCONTROL: nat := 0x10
  const IR_DBUS: nat := 0x11
  const IDCODE: nat := 0xdead_beef
  const DTMCONTROL: nat := 0x61  // (abits << 4) | 1
  const ABITS: nat := 6
  const IR_LENGTH: nat := 5
  const TWO32: nat := 0x1_0000_0000
  const TWO34: nat := 0x4_0000_0000

  datatype TapState =
    | TEST_LOGIC_RESET | RUN_TEST_IDLE
    | SELECT_DR_SCAN | CAPTURE_DR | SHIFT_DR | EXIT1_DR | PAUSE_DR | EXIT2_DR | UPDATE_DR
    | SELECT_IR_SCAN | CAPTURE_IR | SHIFT_IR | EXIT1_IR | PAUSE_IR | EXIT2_IR | UPDATE_IR

  /** jtag_dtm.cc:55-72. */
  function NextState(s: TapState, tms: bool): TapState {
    match s
    case TEST_LOGIC_RESET => if tms then TEST_LOGIC_RESET else RUN_TEST_IDLE
    case RUN_TEST_IDLE => if tms then SELECT_DR_SCAN else RUN_TEST_IDLE
    case SELECT_DR_SCAN => if tms then SELECT_IR_SCAN else CAPTURE_DR
    case CAPTURE_DR => if tms then EXIT1_DR else SHIFT_DR
    case SHIFT_DR => if tms then EXIT1_DR else SHIFT_DR
    case EXIT1_DR => if tms then UPDATE_DR else PAUSE_DR
    case PAUSE_DR => if tms then EXIT2_DR else PAUSE_DR
    case EXIT2_DR => if tms then UPDATE_DR else SHIFT_DR
    case UPDATE_DR => if tms then SELECT_DR_SCAN else RUN_TEST_IDLE
    case SELECT_IR_SCAN => if tms then TEST_LOGIC_RESET else CAPTURE_IR
    case CAPTURE_IR => if tms then EXIT1_IR else SHIFT_IR
    case SHIFT_IR => if tms then EXIT1_IR else SHIFT_IR
    case EXIT1_IR => if tms then UPDATE_IR else PAUSE_IR
    case PAUSE_IR => if tms then EXIT2_IR else PAUSE_IR
    case EXIT2_IR => if tms then UPDATE_IR else SHIFT_IR
    case UPDATE_IR => if tms then SELECT_DR_SCAN else RUN_TEST_IDLE
  }

  /** `log` is the history of the requests made to the debug module. */
  datatype Tap = Tap(tck: bool, tms: bool, tdi: bool, tdo: bool, ir: nat, dr: nat, drLength: nat, dmi: nat,
                     state: TapState, log: seq<Request>)

  predicate Valid(j: Tap) {
    && 1 <= j.drLength <= 64 && j.dr < Pow2(j.drLength) && j.ir < Pow2(IR_LENGTH)
    && j.dmi < Pow2(ABITS + 34)
    && (InDrScan(j.state) && j.ir == IR_DBUS ==> j.drLength == ABITS + 34)
  }

  predicate InDrScan(s: TapState) {
    s in {CAPTURE_DR, SHIFT_DR, EXIT1_DR, PAUSE_DR, EXIT2_DR, UPDATE_DR}
  }

  /** A request to the debug module, and how it answers: the value read, or failure. */
  datatype Request = ReadRegister(address: nat) | WriteRegister(address: nat, data: nat) | NoRequest

  /** The debug module: its answer to a request may depend on all the requests before. */
  type Port = (seq<Request>, Request) -> Option<nat>

  // ----- One pin change -----

  /** `v >>= 1; v |= tdi << (length - 1)` */
  function ShiftIn(v: nat, length: nat, tdi: bool): nat
    requires length > 0
  {
    Or(v / 2, if tdi then Pow2(length - 1) else 0)
  }

  function Capture(j: Tap): Tap {
    if j.ir == IR_IDCODE then j.(dr := IDCODE, drLength := 32)
    else if j.ir == IR_DTMCONTROL then j.(dr := DTMCONTROL, drLength := 32)
    else if j.ir == IR_DBUS then j.(dr := j.dmi, drLength := ABITS + 34)
    else j
  }

  function OpOf(dr: nat): nat { dr % 4 }
  function DataOf(dr: nat): nat { dr / 4 % TWO32 }
  function AddressOf(dr: nat): nat { dr / TWO34 % 64 }

  function RequestOf(dr: nat): Request {
    if OpOf(dr) == 1 then ReadRegister(AddressOf(dr))
    else if OpOf(dr) == 2 then WriteRegister(AddressOf(dr), DataOf(dr))
    else NoRequest
  }

  function SetOp(dr: nat, op: nat): nat { dr - dr % 4 + op }

  function SetData(dr: nat, data: nat): nat
    requires data < TWO32
  {
    dr - DataOf(dr) * 4 + data * 4
  }

  /** What becomes of `dmi`, and of the requests made, when `dr` is put to the debug module. */
  function Transact(dr: nat, log: seq<Request>, port: Port): (nat, seq<Request>) {
    var request := RequestOf(dr);
    if request == NoRequest then (SetOp(dr, 0), log)
    else
      var answer := port(log, request);
      (if answer.None? then SetOp(dr, 2)
       else SetOp(if request.ReadRegister? then SetData(dr, answer.value % TWO32) else dr, 0),
       log + [request])
  }

  /** jtag_dtm.cc:150-184, with `port` for the debug module. */
  function Update(j: Tap, port: Port): Tap {
    if j.ir != IR_DBUS then j
    else j.(dmi := Transact(j.dr, j.log, port).0, log := Transact(j.dr, j.log, port).1)
  }

  /** jtag_dtm.cc:77-88: the register being scanned shifts. */
  function Shift(j: Tap): Tap
    requires j.drLength > 0
  {
    match j.state
    case SHIFT_DR => j.(dr := ShiftIn(j.dr, j.drLength, j.tdi))
    case SHIFT_IR => j.(ir := ShiftIn(j.ir, IR_LENGTH, j.tdi))
    case _ => j
  }

  /** jtag_dtm.cc:77-115: a rising edge of TCK. */
  function Rise(j: Tap, port: Port): Tap
    requires Valid(j)
  {
    Enter(Shift(j).(state := NextState(j.state, j.tms)), port)
  }

  /** jtag_dtm.cc:90-115: what entering the new state does. */
  function Enter(j: Tap, port: Port): Tap {
    match j.state
    case TEST_LOGIC_RESET => j.(ir := IR_IDCODE)
    case CAPTURE_DR => Capture(j)
    case SHIFT_DR => j.(tdo := j.dr % 2 == 1)
    case UPDATE_DR => Update(j, port)
    case SHIFT_IR => j.(tdo := j.ir % 2 == 1)
    case _ => j
  }

  /** The edge acts on the TMS and TDI of the call before. */
  function Pins(j: Tap, tck: bool, tms: bool, tdi: bool, port: Port): Tap
    requires Valid(j)
  {
    var j := if !j.tck && tck then Rise(j, port) else j;
    j.(tck := tck, tms := tms, tdi := tdi)
  }

  // ----- Registers as queues of bits -----

  /** The low `length` bits, lowest first. */
  function BitsOf(v: nat, length: nat): (r: seq<bool>)
    ensures |r| == length
  {
    if length == 0 then [] else [v % 2 == 1] + BitsOf(v / 2, length - 1)
  }

  function ValueOf(bits: seq<bool>): nat {
    if bits == [] then 0 else (if bits[0] then 1 else 0) + 2 * ValueOf(bits[1..])
  }

  lemma {:induction false} ValueOfBits(v: nat, length: nat)
    requires v < Pow2(length)
    ensures ValueOf(BitsOf(v, length)) == v
    decreases length
  {
    if length > 0 {
      ValueOfBits(v / 2, length - 1);
    }
  }

  lemma {:induction false} BitsOfValue(bits: seq<bool>)
    ensures ValueOf(bits) < Pow2(|bits|) && BitsOf(ValueOf(bits), |bits|) == bits
  {
    if bits != [] {
      BitsOfValue(bits[1..]);
    }
  }

  /** A bit put on top is the last of the queue. */
  lemma {:induction false} TopBit(w: nat, k: nat, t: bool)
    requires w < Pow2(k)
    ensures BitsOf(w + (if t then Pow2(k) else 0), k + 1) == BitsOf(w, k) + [t]
    decreases k
  {
    if k > 0 {
      var top := if t then Pow2(k) else 0;
      TopBit(w / 2, k - 1, t);
      assert (w + top) % 2 == w % 2 && (w + top) / 2 == w / 2 + (if t then Pow2(k - 1) else 0);
    }
  }

  lemma ShiftInIsSum(v: nat, length: nat, tdi: bool)
    requires length > 0 && v < Pow2(length)
    ensures ShiftIn(v, length, tdi) == v / 2 + (if tdi then Pow2(length - 1) else 0) < Pow2(length)
  {
    var top := if tdi then Pow2(length - 1) else 0;
    OrCommutes(v / 2, top);
    assert top % Pow2(length - 1) == 0;
    OrDisjoint(top, v / 2, length - 1);
  }

  /** One shift takes the first bit out of the queue and puts TDI at its end. */
  lemma ShiftBits(v: nat, length: nat, tdi: bool)
    requires length > 0 && v < Pow2(length)
    ensures ShiftIn(v, length, tdi) < Pow2(length)
    ensures BitsOf(ShiftIn(v, length, tdi), length) == BitsOf(v, length)[1..] + [tdi]
  {
    hide Or;
    ShiftInIsSum(v, length, tdi);
    TopBit(v / 2, length - 1, tdi);
  }

  lemma PowersHere()
    ensures Pow2(5) == 32 && Pow2(32) == TWO32 && Pow2(34) == TWO34 && Pow2(40) == 0x100_0000_0000
  {
    Pow2Literals();
    assert Pow2(5) == 32;
    Pow2Add(5, 27);
    Pow2Add(7, 27);
    assert Pow2(7) == 128;
  }

  lemma DmiFits(dr: nat, data: nat, op: nat)
    requires dr < 0x100_0000_0000 && data < TWO32 && op < 4
    ensures SetOp(dr, op) < 0x100_0000_0000 && SetData(dr, data) < 0x100_0000_0000
    ensures OpOf(SetOp(dr, op)) == op
    ensures DataOf(SetOp(dr, op)) == DataOf(dr) && AddressOf(SetOp(dr, op)) == AddressOf(dr)
    ensures DataOf(SetData(dr, data)) == data && AddressOf(SetData(dr, data)) == AddressOf(dr)
  {
    var a, d, o := dr / TWO34, dr / 4 % TWO32, dr % 4;
    assert dr == TWO34 * a + 4 * d + o;
  }

  lemma UpdateFits(j: Tap, port: Port)
    requires Valid(j) && (j.ir == IR_DBUS ==> j.dr < Pow2(ABITS + 34))
    ensures Valid(Update(j, port))
  {
    hide Pow2, SetOp, SetData;
    PowersHere();
    if j.ir == IR_DBUS {
      DmiFits(j.dr, 0, 0);
      DmiFits(j.dr, 0, 2);
      if RequestOf(j.dr) != NoRequest && port(j.log, RequestOf(j.dr)).Some? {
        var value := port(j.log, RequestOf(j.dr)).value % TWO32;
        DmiFits(j.dr, value, 0);
        DmiFits(SetData(j.dr, value), value, 0);
      }
    }
  }

  lemma CaptureFits(j: Tap)
    requires 1 <= j.drLength <= 64 && j.dr < Pow2(j.drLength) && j.ir < Pow2(IR_LENGTH) && j.dmi < Pow2(ABITS + 34)
    ensures Valid(Capture(j))
  {
    hide Pow2;
    PowersHere();
  }

  lemma ShiftKeepsValid(j: Tap)
    requires Valid(j)
    ensures var r := Shift(j);
            && 1 <= r.drLength <= 64 && r.dr < Pow2(r.drLength) && r.ir < Pow2(IR_LENGTH)
            && r == j.(dr := r.dr, ir := r.ir) && (j.state != SHIFT_DR ==> r.dr == j.dr)
            && (j.state != SHIFT_IR ==> r.ir == j.ir)
  {
    hide Pow2, ShiftIn;
    ShiftInIsSum(j.dr, j.drLength, j.tdi);
    ShiftInIsSum(j.ir, IR_LENGTH, j.tdi);
  }

  lemma EnterKeepsValid(j: Tap, port: Port)
    requires 1 <= j.drLength <= 64 && j.dr < Pow2(j.drLength) && j.ir < Pow2(IR_LENGTH) && j.dmi < Pow2(ABITS + 34)
    requires InDrScan(j.state) && j.state != CAPTURE_DR && j.ir == IR_DBUS ==> j.drLength == ABITS + 34
    ensures Valid(Enter(j, port))
  {
    hide Pow2, Update, Capture;
    PowersHere();
    if j.state == CAPTURE_DR {
      CaptureFits(j);
    } else if j.state == UPDATE_DR {
      UpdateFits(j, port);
    }
  }

  lemma RiseKeepsValid(j: Tap, port: Port)
    requires Valid(j)
    ensures Valid(Rise(j, port))
  {
    hide Pow2, Shift, Enter;
    ShiftKeepsValid(j);
    ScanStates(j.state, j.tms);
    EnterKeepsValid(Shift(j).(state := NextState(j.state, j.tms)), port);
  }

  /** A data scan begins with a capture, and the instruction register keeps still in it. */
  lemma ScanStates(s: TapState, tms: bool)
    ensures InDrScan(NextState(s, tms)) && NextState(s, tms) != CAPTURE_DR ==> InDrScan(s)
  {}

  // ----- Clocks -----

  /** What the host puts on TMS and TDI for one clock. */
  datatype Pulse = Pulse(tms: bool, tdi: bool)

  /** One clock: the pins are set while TCK is low, then TCK rises. */
  function Clock(j: Tap, p: Pulse, port: Port): (r: Tap)
    requires Valid(j)
    ensures Valid(r)
  {
    hide Rise;
    RiseKeepsValid(j, port);
    var low := Pins(j, false, p.tms, p.tdi, port);
    RiseKeepsValid(low, port);
    Pins(low, true, p.tms, p.tdi, port)
  }

  function Clocks(j: Tap, ps: seq<Pulse>, port: Port): (r: Tap)
    requires Valid(j)
    ensures Valid(r)
    decreases |ps|
  {
    if ps == [] then j else Clocks(Clock(j, ps[0], port), ps[1..], port)
  }

  /** A clock is one rising edge that sees the pulse's own TMS and TDI. */
  lemma ClockIs(j: Tap, p: Pulse, port: Port)
    requires Valid(j)
    ensures var low := j.(tck := false, tms := p.tms, tdi := p.tdi);
            Valid(low) && Clock(j, p, port) == Rise(low, port).(tck := true, tms := p.tms, tdi := p.tdi)
  {
    hide Rise;
  }

  lemma RiseState(j: Tap, port: Port)
    requires Valid(j)
    ensures Rise(j, port).state == NextState(j.state, j.tms)
    ensures NextState(j.state, j.tms) == TEST_LOGIC_RESET ==> Rise(j, port).ir == IR_IDCODE
  {
    hide ShiftIn, SetOp, SetData, NextState, RequestOf;
  }

  lemma ClockState(j: Tap, p: Pulse, port: Port)
    requires Valid(j)
    ensures Clock(j, p, port).state == NextState(j.state, p.tms)
    ensures NextState(j.state, p.tms) == TEST_LOGIC_RESET ==> Clock(j, p, port).ir == IR_IDCODE
  {
    hide Rise, NextState, Clock;
    ClockIs(j, p, port);
    RiseState(j.(tck := false, tms := p.tms, tdi := p.tdi), port);
  }

  /** The states that the controller goes through while TMS stays high, from the one that is furthest from reset. */
  function Distance(s: TapState): nat {
    match s
    case TEST_LOGIC_RESET => 0
    case SELECT_IR_SCAN => 1
    case SELECT_DR_SCAN => 2
    case RUN_TEST_IDLE => 3
    case UPDATE_DR => 3
    case UPDATE_IR => 3
    case EXIT1_DR => 4
    case EXIT2_DR => 4
    case EXIT1_IR => 4
    case EXIT2_IR => 4
    case _ => 5
  }

  lemma OnesApproach(s: TapState)
    ensures Distance(s) <= 5 && Distance(NextState(s, true)) == if Distance(s) == 0 then 0 else Distance(s) - 1
    ensures Distance(s) == 0 <==> s == TEST_LOGIC_RESET
  {}

  lemma {:induction false} OnesReset(j: Tap, ps: seq<Pulse>, port: Port)
    requires Valid(j) && |ps| > 0 && |ps| >= Distance(j.state) && forall k :: 0 <= k < |ps| ==> ps[k].tms
    ensures Clocks(j, ps, port).state == TEST_LOGIC_RESET && Clocks(j, ps, port).ir == IR_IDCODE
    decreases |ps|
  {
    hide Clock, Valid, NextState, Distance;
    var next := Clock(j, ps[0], port);
    ClockState(j, ps[0], port);
    OnesApproach(j.state);
    OnesApproach(next.state);
    if |ps| > 1 {
      OnesReset(next, ps[1..], port);
    } else {
      assert ps[1..] == [];
    }
  }

  /** From any state, five clocks with TMS high reset the controller and select IDCODE. */
  lemma FiveOnesReset(j: Tap, ps: seq<Pulse>, port: Port)
    requires Valid(j) && |ps| >= 5 && forall k :: 0 <= k < |ps| ==> ps[k].tms
    ensures Clocks(j, ps, port).state == TEST_LOGIC_RESET && Clocks(j, ps, port).ir == IR_IDCODE
  {
    hide Clocks, Valid, NextState, Distance;
    OnesApproach(j.state);
    OnesReset(j, ps, port);
  }

  // ----- Scans -----

  /** The state that a sequence of TMS values leads to. */
  function Follow(s: TapState, tms: seq<bool>): TapState
    decreases |tms|
  {
    if tms == [] then s else Follow(NextState(s, tms[0]), tms[1..])
  }

  /** The same place in the other column of the state diagram of IEEE 1149.1. */
  function Twin(s: TapState): TapState {
    match s
    case CAPTURE_DR => CAPTURE_IR case SHIFT_DR => SHIFT_IR case EXIT1_DR => EXIT1_IR
    case PAUSE_DR => PAUSE_IR case EXIT2_DR => EXIT2_IR case UPDATE_DR => UPDATE_IR
    case CAPTURE_IR => CAPTURE_DR case SHIFT_IR => SHIFT_DR case EXIT1_IR => EXIT1_DR
    case PAUSE_IR => PAUSE_DR case EXIT2_IR => EXIT2_DR case UPDATE_IR => UPDATE_DR
    case _ => s
  }

  /** The two columns work alike, and an update of either register leads to the same states. */
  lemma ColumnsAlike(s: TapState, tms: bool)
    requires s !in {TEST_LOGIC_RESET, RUN_TEST_IDLE, SELECT_DR_SCAN, SELECT_IR_SCAN}
    ensures NextState(Twin(s), tms)
            == if s in {UPDATE_DR, UPDATE_IR} then NextState(s, tms) else Twin(NextState(s, tms))
  {}

  /** The ways through the state diagram: to the registers, through a pause, and out again; reset and idle hold. */
  lemma Ways()
    ensures NextState(TEST_LOGIC_RESET, true) == TEST_LOGIC_RESET && NextState(RUN_TEST_IDLE, false) == RUN_TEST_IDLE
    ensures NextState(TEST_LOGIC_RESET, false) == RUN_TEST_IDLE
    ensures NextState(RUN_TEST_IDLE, true) == SELECT_DR_SCAN && NextState(SELECT_DR_SCAN, true) == SELECT_IR_SCAN
    ensures NextState(SELECT_DR_SCAN, false) == CAPTURE_DR && NextState(SELECT_IR_SCAN, false) == CAPTURE_IR
    ensures NextState(SELECT_IR_SCAN, true) == TEST_LOGIC_RESET
    ensures NextState(CAPTURE_DR, false) == SHIFT_DR == NextState(SHIFT_DR, false)
    ensures Follow(CAPTURE_DR, [true]) == EXIT1_DR == Follow(SHIFT_DR, [true])
    ensures Follow(EXIT1_DR, [false]) == PAUSE_DR == Follow(PAUSE_DR, [false]) && Follow(EXIT1_DR, [true]) == UPDATE_DR
    ensures Follow(PAUSE_DR, [true]) == EXIT2_DR
    ensures Follow(EXIT2_DR, [false]) == SHIFT_DR && Follow(EXIT2_DR, [true]) == UPDATE_DR
    ensures Follow(UPDATE_DR, [true]) == SELECT_DR_SCAN && Follow(UPDATE_DR, [false]) == RUN_TEST_IDLE
  {
    assert [true][1..] == [] && [false][1..] == [];
  }

  /** The states of a scan of the data (or instruction) register, once it has been captured. */
  predicate Scanning(s: TapState, data: bool) {
    if data then s in {SHIFT_DR, EXIT1_DR, PAUSE_DR, EXIT2_DR} else s in {SHIFT_IR, EXIT1_IR, PAUSE_IR, EXIT2_IR}
  }

  predicate Captured(s: TapState, data: bool) {
    s == if data then CAPTURE_DR else CAPTURE_IR
  }

  predicate Shifting(s: TapState, data: bool) {
    s == if data then SHIFT_DR else SHIFT_IR
  }

  function Register(j: Tap, data: bool): nat { if data then j.dr else j.ir }
  function Length(j: Tap, data: bool): nat { if data then j.drLength else IR_LENGTH }

  /** The pulses keep the controller in the scan; it may pause as often as it likes. */
  predicate StaysIn(s: TapState, ps: seq<Pulse>, data: bool)
    decreases |ps|
  {
    ps == [] || (Scanning(NextState(s, ps[0].tms), data) && StaysIn(NextState(s, ps[0].tms), ps[1..], data))
  }

  /** The bits on TDI at the edges that shift. */
  function ShiftedIn(s: TapState, ps: seq<Pulse>, data: bool): seq<bool>
    decreases |ps|
  {
    if ps == [] then []
    else
      (if Shifting(s, data) then [ps[0].tdi] else []) + ShiftedIn(NextState(s, ps[0].tms), ps[1..], data)
  }

  /** The bits that the host sees on TDO just before these edges. */
  function SeenAtTdo(j: Tap, ps: seq<Pulse>, data: bool, port: Port): seq<bool>
    requires Valid(j)
    decreases |ps|
  {
    if ps == [] then []
    else
      (if Shifting(j.state, data) then [j.tdo] else []) + SeenAtTdo(Clock(j, ps[0], port), ps[1..], data, port)
  }

  /** While the register shifts, TDO shows its lowest bit. */
  predicate TdoShown(j: Tap, data: bool) {
    Shifting(j.state, data) ==> j.tdo == (Register(j, data) % 2 == 1)
  }

  lemma ScanRise(j: Tap, data: bool, port: Port)
    requires Valid(j) && (Captured(j.state, data) || Scanning(j.state, data))
    requires Scanning(NextState(j.state, j.tms), data)
    ensures var r := Rise(j, port);
            && r.state == NextState(j.state, j.tms) && r.drLength == j.drLength && r.dmi == j.dmi && r.log == j.log
            && (if data then r.ir == j.ir else r.dr == j.dr)
            && Register(r, data) == (if Shifting(j.state, data) then
                                       ShiftIn(Register(j, data), Length(j, data), j.tdi)
                                     else Register(j, data))
            && TdoShown(r, data)
  {
    hide ShiftIn, Update, Capture;
  }

  lemma ScanClock(j: Tap, p: Pulse, data: bool, port: Port)
    requires Valid(j) && (Captured(j.state, data) || Scanning(j.state, data))
    requires Scanning(NextState(j.state, p.tms), data)
    ensures var r := Clock(j, p, port);
            && r.state == NextState(j.state, p.tms) && r.drLength == j.drLength && r.dmi == j.dmi && r.log == j.log
            && (if data then r.ir == j.ir else r.dr == j.dr)
            && Register(r, data) == (if Shifting(j.state, data) then
                                       ShiftIn(Register(j, data), Length(j, data), p.tdi)
                                     else Register(j, data))
            && TdoShown(r, data)
  {
    hide ShiftIn, Rise, Clock, NextState;
    ClockIs(j, p, port);
    ScanRise(j.(tck := false, tms := p.tms, tdi := p.tdi), data, port);
  }

  lemma RegisterFits(j: Tap, data: bool)
    requires Valid(j)
    ensures Length(j, data) > 0 && Register(j, data) < Pow2(Length(j, data))
  {}

  /**
   A scan is a queue: after any pulses that stay in it, with any number of pauses, the register holds the last bits of
   what it held before followed by what was shifted in, and the host has seen the first ones, in order.
   */
  lemma {:induction false} ScanIsQueue(j: Tap, ps: seq<Pulse>, data: bool, port: Port)
    requires Valid(j) && (Captured(j.state, data) || Scanning(j.state, data))
    requires StaysIn(j.state, ps, data) && TdoShown(j, data)
    ensures var r := Clocks(j, ps, port);
            var queue := BitsOf(Register(j, data), Length(j, data)) + ShiftedIn(j.state, ps, data);
            var k := |ShiftedIn(j.state, ps, data)|;
            && Length(r, data) == Length(j, data)
            && BitsOf(Register(r, data), Length(j, data)) == queue[k..]
            && SeenAtTdo(j, ps, data, port) == queue[..k]
            && r.dmi == j.dmi && r.log == j.log && (if data then r.ir == j.ir else r.dr == j.dr)
    decreases |ps|
  {
    hide Valid, ShiftIn, Clock, NextState, Scanning, Register, Length, Pow2;
    if ps != [] {
      var next := Clock(j, ps[0], port);
      ScanClock(j, ps[0], data, port);
      RegisterFits(j, data);
      LengthKept(j, next, data);
      ScanIsQueue(next, ps[1..], data, port);
      var was := BitsOf(Register(j, data), Length(j, data));
      var rest := ShiftedIn(next.state, ps[1..], data);
      if Shifting(j.state, data) {
        ShiftBits(Register(j, data), Length(j, data), ps[0].tdi);
        LowestFirst(Register(j, data), Length(j, data));
        QueueStep(was, ps[0].tdi, rest);
      } else {
        assert ShiftedIn(j.state, ps, data) == rest;
      }
    }
  }

  lemma LengthKept(j: Tap, next: Tap, data: bool)
    requires next.drLength == j.drLength
    ensures Length(next, data) == Length(j, data)
  {}

  lemma LowestFirst(v: nat, length: nat)
    requires length > 0
    ensures BitsOf(v, length)[0] == (v % 2 == 1)
  {}

  lemma QueueStep(was: seq<bool>, t: bool, rest: seq<bool>)
    requires |was| > 0
    ensures (was[1..] + [t] + rest)[|rest|..] == (was + ([t] + rest))[|rest| + 1..]
    ensures [was[0]] + (was[1..] + [t] + rest)[..|rest|] == (was + ([t] + rest))[..|rest| + 1]
  {
    assert was + ([t] + rest) == [was[0]] + (was[1..] + [t] + rest);
  }

  /** A scan of exactly the register's length: all that was captured has come out, and what went in is what is held. */
  lemma FullScan(j: Tap, ps: seq<Pulse>, data: bool, port: Port)
    requires Valid(j) && Captured(j.state, data) && StaysIn(j.state, ps, data)
    requires |ShiftedIn(j.state, ps, data)| == Length(j, data)
    ensures var r := Clocks(j, ps, port);
            && SeenAtTdo(j, ps, data, port) == BitsOf(Register(j, data), Length(j, data))
            && Register(r, data) == ValueOf(ShiftedIn(j.state, ps, data))
  {
    hide Valid, Clocks, StaysIn, ShiftedIn, SeenAtTdo, BitsOf, ValueOf, Register, Length, Pow2;
    ScanIsQueue(j, ps, data, port);
    var r := Clocks(j, ps, port);
    RegisterFits(r, data);
    ValueOfBits(Register(r, data), Length(r, data));
  }

  // ----- A transaction on the debug module interface -----

  /** The forty bits of a request, as the host shifts them in. */
  function DmiWord(op: nat, data: nat, address: nat): nat {
    op + 4 * data + TWO34 * address
  }

  lemma DmiWordFields(op: nat, data: nat, address: nat)
    requires op < 4 && data < TWO32 && address < 64
    ensures var w := DmiWord(op, data, address);
            w < 0x100_0000_0000 && OpOf(w) == op && DataOf(w) == data && AddressOf(w) == address
  {}

  lemma UpdateClock(j: Tap, p: Pulse, port: Port)
    requires Valid(j) && NextState(j.state, p.tms) == UPDATE_DR
    ensures var r := Clock(j, p, port);
            && r.state == UPDATE_DR && r.ir == j.ir
            && r.dmi == Update(j, port).dmi && r.log == Update(j, port).log
  {
    hide Update, Rise, Clock;
    var low := j.(tck := false, tms := p.tms, tdi := p.tdi);
    ClockIs(j, p, port);
    UpdateRise(low, port);
    UpdateReads(j, low.(state := UPDATE_DR), port);
  }

  lemma UpdateRise(j: Tap, port: Port)
    requires Valid(j) && NextState(j.state, j.tms) == UPDATE_DR
    ensures Rise(j, port) == Update(j.(state := UPDATE_DR), port)
  {
    hide Update, ShiftIn;
  }

  lemma UpdateReads(j: Tap, k: Tap, port: Port)
    requires k == j.(tck := k.tck, tms := k.tms, tdi := k.tdi, state := k.state)
    ensures Update(j, port).dmi == Update(k, port).dmi && Update(j, port).log == Update(k, port).log
    ensures Update(k, port).ir == j.ir && Update(k, port).state == k.state
  {
    hide Transact;
  }

  function RequestFor(op: nat, data: nat, address: nat): Request {
    if op == 1 then ReadRegister(address) else if op == 2 then WriteRegister(address, data) else NoRequest
  }

  /** What `dmi` holds after an answer: status 0 or 2, the value read, and otherwise the request's own fields. */
  ghost predicate Answered(dmi: nat, op: nat, data: nat, address: nat, answer: Option<nat>) {
    && AddressOf(dmi) == address
    && match RequestFor(op, data, address)
       case NoRequest => OpOf(dmi) == 0 && DataOf(dmi) == data
       case request =>
         match answer
         case None => OpOf(dmi) == 2 && DataOf(dmi) == data
         case Some(v) => OpOf(dmi) == 0 && DataOf(dmi) == if request.ReadRegister? then v % TWO32 else data
  }

  /** The request is made once, or not at all if there is none. */
  predicate Asked(log: seq<Request>, log': seq<Request>, request: Request) {
    log' == if request == NoRequest then log else log + [request]
  }

  lemma UpdateAnswers(j: Tap, op: nat, data: nat, address: nat, port: Port)
    requires op < 4 && data < TWO32 && address < 64
    requires j.ir == IR_DBUS && j.dr == DmiWord(op, data, address)
    ensures Answered(Update(j, port).dmi, op, data, address, port(j.log, RequestFor(op, data, address)))
    ensures Asked(j.log, Update(j, port).log, RequestFor(op, data, address))
  {
    hide SetOp, SetData, OpOf, DataOf, AddressOf;
    DmiWordFields(op, data, address);
    DmiFits(j.dr, 0, 0);
    DmiFits(j.dr, 0, 2);
    var answer := port(j.log, RequestFor(op, data, address));
    if op == 1 && answer.Some? {
      var v := answer.value % TWO32;
      DmiFits(j.dr, v, 0);
      DmiFits(SetData(j.dr, v), v, 0);
    }
  }

  /**
   A debugger's transaction: forty bits shifted in after a capture, under any pausing, make exactly the one request
   that they spell when the register is updated, and leave its answer in `dmi`.
   */
  lemma DbusTransaction(j: Tap, ps: seq<Pulse>, last: Pulse, op: nat, data: nat, address: nat, port: Port)
    requires Valid(j) && j.state == CAPTURE_DR && j.ir == IR_DBUS && StaysIn(j.state, ps, true)
    requires op < 4 && data < TWO32 && address < 64
    requires ShiftedIn(j.state, ps, true) == BitsOf(DmiWord(op, data, address), ABITS + 34)
    requires NextState(Clocks(j, ps, port).state, last.tms) == UPDATE_DR
    ensures var r := Clock(Clocks(j, ps, port), last, port);
            && Answered(r.dmi, op, data, address, port(j.log, RequestFor(op, data, address)))
            && Asked(j.log, r.log, RequestFor(op, data, address))
            && r.state == UPDATE_DR && r.ir == IR_DBUS
  {
    hide StaysIn, ShiftedIn, SeenAtTdo, BitsOf, ValueOf, Clock, Clocks, Update, Answered, Asked, Pow2, RequestFor;
    var r := Clocks(j, ps, port);
    ScanIsQueue(j, ps, true, port);
    FullScan(j, ps, true, port);
    DmiWordFields(op, data, address);
    PowersHere();
    ValueOfBits(DmiWord(op, data, address), ABITS + 34);
    UpdateAnswers(r, op, data, address, port);
    UpdateClock(r, last, port);
  }

  /** What the scan of a register that is only read shows: IDCODE is 0xdeadbeef and DTMCONTROL 0x61, in 32 bits. */
  lemma ReadOnlyScan(j: Tap, enter: Pulse, ps: seq<Pulse>, port: Port)
    requires Valid(j) && j.state == SELECT_DR_SCAN && !enter.tms && (j.ir == 1 || j.ir == 0x10)
    requires StaysIn(CAPTURE_DR, ps, true) && |ShiftedIn(CAPTURE_DR, ps, true)| == 32
    ensures ValueOf(SeenAtTdo(Clock(j, enter, port), ps, true, port)) == if j.ir == 1 then 0xdead_beef else 0x61
    ensures Clocks(Clock(j, enter, port), ps, port).log == j.log
  {
    hide StaysIn, ShiftedIn, SeenAtTdo, BitsOf, ValueOf, Clocks, Pow2;
    var r := Clock(j, enter, port);
    EnterCapture(j, enter, port);
    FullScan(r, ps, true, port);
    ScanIsQueue(r, ps, true, port);
    RegisterFits(r, true);
    ValueOfBits(Register(r, true), 32);
  }

  lemma EnterCapture(j: Tap, enter: Pulse, port: Port)
    requires Valid(j) && j.state == SELECT_DR_SCAN && !enter.tms && (j.ir == 1 || j.ir == 0x10)
    ensures var r := Clock(j, enter, port);
            && Captured(r.state, true) && r.log == j.log && r.ir == j.ir
            && Register(r, true) == (if j.ir == 1 then 0xdead_beef else 0x61) && Length(r, true) == 32
  {
    hide ShiftIn;
    ClockIs(j, enter, port);
  }

  /** After a reset of the controller a debugger finds the IDCODE, without selecting a register. */
  lemma IdcodeComesOut(j: Tap, ones: seq<Pulse>, zero: Pulse, one: Pulse, enter: Pulse, ps: seq<Pulse>, port: Port)
    requires Valid(j) && |ones| >= 5 && (forall k :: 0 <= k < |ones| ==> ones[k].tms)
    requires !zero.tms && one.tms && !enter.tms
    requires StaysIn(CAPTURE_DR, ps, true) && |ShiftedIn(CAPTURE_DR, ps, true)| == 32
    ensures var selected := Clock(Clock(Clocks(j, ones, port), zero, port), one, port);
            ValueOf(SeenAtTdo(Clock(selected, enter, port), ps, true, port)) == 0xdead_beef
  {
    hide StaysIn, ShiftedIn, SeenAtTdo, ValueOf, Clocks, Clock, Valid;
    FiveOnesReset(j, ones, port);
    var reset := Clocks(j, ones, port);
    QuietClock(reset, zero, port);
    QuietClock(Clock(reset, zero, port), one, port);
    ReadOnlyScan(Clock(Clock(reset, zero, port), one, port), enter, ps, port);
  }

  lemma QuietClock(j: Tap, p: Pulse, port: Port)
    requires Valid(j) && ((j.state == TEST_LOGIC_RESET && !p.tms) || (j.state == RUN_TEST_IDLE && p.tms))
    ensures var r := Clock(j, p, port);
            r.ir == j.ir && r.state == if p.tms then SELECT_DR_SCAN else RUN_TEST_IDLE
  {
    hide ShiftIn;
    ClockIs(j, p, port);
  }

  /** The pulses lead from an update to the next capture, waiting in RUN_TEST_IDLE as long as they like. */
  predicate LeadsToCapture(s: TapState, ps: seq<Pulse>)
    decreases |ps|
  {
    if ps == [] then s == CAPTURE_DR
    else
      var next := NextState(s, ps[0].tms);
      && s in {UPDATE_DR, RUN_TEST_IDLE, SELECT_DR_SCAN} && next in {RUN_TEST_IDLE, SELECT_DR_SCAN, CAPTURE_DR}
      && LeadsToCapture(next, ps[1..])
  }

  lemma WaitClock(j: Tap, p: Pulse, port: Port)
    requires Valid(j) && j.ir == IR_DBUS && j.state in {UPDATE_DR, RUN_TEST_IDLE, SELECT_DR_SCAN}
    requires NextState(j.state, p.tms) in {RUN_TEST_IDLE, SELECT_DR_SCAN, CAPTURE_DR}
    ensures var r := Clock(j, p, port);
            && r.state == NextState(j.state, p.tms) && r.ir == j.ir && r.dmi == j.dmi && r.log == j.log
            && (r.state == CAPTURE_DR ==> r.dr == j.dmi && r.drLength == ABITS + 34)
  {
    hide Clock, Rise, NextState, Valid;
    ClockIs(j, p, port);
    WaitRise(j.(tck := false, tms := p.tms, tdi := p.tdi), port);
  }

  lemma WaitRise(j: Tap, port: Port)
    requires Valid(j) && j.ir == IR_DBUS && j.state in {UPDATE_DR, RUN_TEST_IDLE, SELECT_DR_SCAN}
    requires NextState(j.state, j.tms) in {RUN_TEST_IDLE, SELECT_DR_SCAN, CAPTURE_DR}
    ensures var next := j.(state := NextState(j.state, j.tms));
            Rise(j, port) == if next.state == CAPTURE_DR then next.(dr := j.dmi, drLength := ABITS + 34) else next
  {
    hide ShiftIn, NextState;
  }

  /** Nothing happens to `dmi` on the way to the next capture, and the capture shows it. */
  lemma {:induction false} CaptureShows(j: Tap, ps: seq<Pulse>, port: Port)
    requires Valid(j) && j.ir == IR_DBUS && LeadsToCapture(j.state, ps) && j.state != CAPTURE_DR
    ensures var r := Clocks(j, ps, port);
            && Captured(r.state, true) && r.ir == IR_DBUS && r.log == j.log
            && Register(r, true) == j.dmi && Length(r, true) == ABITS + 34
    decreases |ps|
  {
    hide Valid, Clock, NextState;
    WaitClock(j, ps[0], port);
    var next := Clock(j, ps[0], port);
    if next.state == CAPTURE_DR {
      CaptureEnds(next.state, ps[1..]);
    } else {
      CaptureShows(next, ps[1..], port);
    }
  }

  lemma CaptureEnds(s: TapState, ps: seq<Pulse>)
    requires LeadsToCapture(s, ps) && s == CAPTURE_DR
    ensures ps == []
  {}

  /**
   Two transactions in a row: what the first one asked for comes out on TDO while the second is shifted in, lowest bit
   first, as status, data and address; and shifting the second in asks for nothing.
   */
  lemma AnswerComesOut(j: Tap, ps: seq<Pulse>, last: Pulse, waits: seq<Pulse>, qs: seq<Pulse>,
                       op: nat, data: nat, address: nat, port: Port)
    requires Valid(j) && j.state == CAPTURE_DR && j.ir == IR_DBUS && StaysIn(j.state, ps, true)
    requires op < 4 && data < TWO32 && address < 64
    requires ShiftedIn(j.state, ps, true) == BitsOf(DmiWord(op, data, address), ABITS + 34)
    requires NextState(Clocks(j, ps, port).state, last.tms) == UPDATE_DR
    requires LeadsToCapture(UPDATE_DR, waits)
    requires StaysIn(CAPTURE_DR, qs, true) && |ShiftedIn(CAPTURE_DR, qs, true)| == ABITS + 34
    ensures var second := Clocks(Clock(Clocks(j, ps, port), last, port), waits, port);
            && Answered(ValueOf(SeenAtTdo(second, qs, true, port)), op, data, address,
                        port(j.log, RequestFor(op, data, address)))
            && Asked(j.log, Clocks(second, qs, port).log, RequestFor(op, data, address))
  {
    hide StaysIn, ShiftedIn, SeenAtTdo, BitsOf, ValueOf, Clock, Clocks, Answered, Asked, Pow2, RequestFor, NextState,
         LeadsToCapture;
    var updated := Clock(Clocks(j, ps, port), last, port);
    DbusTransaction(j, ps, last, op, data, address, port);
    CaptureShows(updated, waits, port);
    var second := Clocks(updated, waits, port);
    FullScan(second, qs, true, port);
    ScanIsQueue(second, qs, true, port);
    ValueOfBits(updated.dmi, ABITS + 34);
  }

  // ----- The port in place -----

  class JtagDtm {
    var tck: bool
    var tms: bool
    var tdi: bool
    var tdo: bool
    var ir: nat
    var dr: nat
    var dr_length: nat
    var dmi: nat
    var state: TapState
    var log: seq<Request>

    ghost function View(): Tap
      reads this
    {
      Tap(tck, tms, tdi, tdo, ir, dr, dr_length, dmi, state, log)
    }

    /** The source leaves `ir`, `dr` and `dr_length` as memory had them. */
    constructor (ir: nat, dr: nat, dr_length: nat)
      requires 1 <= dr_length <= 64 && dr < Pow2(dr_length) && ir < Pow2(IR_LENGTH)
      ensures View() == Tap(false, false, false, false, ir, dr, dr_length, 0, TEST_LOGIC_RESET, []) && Valid(View())
    {
      tck, tms, tdi, tdo := false, false, false, false;
      this.ir, this.dr, this.dr_length, dmi := ir, dr, dr_length, 0;
      state, log := TEST_LOGIC_RESET, [];
    }

    method CaptureDr()
      modifies `dr, `dr_length
      ensures View() == Capture(old(View()))
    {
      if ir == IR_IDCODE {
        dr, dr_length := IDCODE, 32;
      } else if ir == IR_DTMCONTROL {
        dr, dr_length := DTMCONTROL, 32;
      } else if ir == IR_DBUS {
        dr, dr_length := dmi, ABITS + 34;
      }
    }

    method UpdateDr(port: Port)
      modifies `dmi, `log
      ensures View() == Update(old(View()), port)
    {
      if ir == IR_DBUS {
        var op, data, address := OpOf(dr), DataOf(dr), AddressOf(dr);
        dmi := dr;
        var success := true;
        if op == 1 {
          var answer := port(log, ReadRegister(address));
          log := log + [ReadRegister(address)];
          match answer
          case Some(value) => dmi := SetData(dmi, value % TWO32);
          case None => success := false;
        } else if op == 2 {
          success := port(log, WriteRegister(address, data)).Some?;
          log := log + [WriteRegister(address, data)];
        }
        dmi := SetOp(dmi, if success then 0 else 2);
      }
    }

    method SetPins(tck: bool, tms: bool, tdi: bool, port: Port)
      requires Valid(View())
      modifies this
      ensures View() == Pins(old(View()), tck, tms, tdi, port) && Valid(View())
    {
      hide ShiftIn, Capture, Update, NextState, Pow2;
      RiseKeepsValid(View(), port);
      if !this.tck && tck {
        Edge(port);
      }
      this.tck, this.tms, this.tdi := tck, tms, tdi;
    }

    /** jtag_dtm.cc:77-88. */
    method ShiftRegister()
      requires dr_length > 0
      modifies `dr, `ir
      ensures View() == Shift(old(View()))
    {
      hide ShiftIn;
      match state
      case SHIFT_DR => dr := ShiftIn(dr, dr_length, tdi);
      case SHIFT_IR => ir := ShiftIn(ir, IR_LENGTH, tdi);
      case _ =>
    }

    /** jtag_dtm.cc:90-115. */
    method EnterState(port: Port)
      modifies this
      ensures View() == Enter(old(View()), port)
    {
      hide Capture, Update;
      match state
      case TEST_LOGIC_RESET => ir := IR_IDCODE;
      case CAPTURE_DR => CaptureDr();
      case SHIFT_DR => tdo := dr % 2 == 1;
      case UPDATE_DR => UpdateDr(port);
      case SHIFT_IR => tdo := ir % 2 == 1;
      case _ =>
    }

    method Edge(port: Port)
      requires Valid(View())
      modifies this
      ensures View() == Rise(old(View()), port)
    {
      hide Shift, Enter, NextState;
      ShiftRegister();
      ghost var shifted := View();
      assert shifted.state == old(state) && shifted.tms == old(tms) by { ShiftFrame(old(View())); }
      state := NextState(state, tms);
      EnterState(port);
    }
  }

  lemma ShiftFrame(j: Tap)
    requires j.drLength > 0
    ensures Shift(j).state == j.state && Shift(j).tms == j.tms
  {}
}

/**
 `processor_t::step` (execute.cc:106-265): the fetch-execute loop with its instruction cache, its modified Duff's
 device and its sentinel program counters, against a loop that fetches, executes and advances one instruction at a
 time. What the loop needs of the instructions is asked only of those that the run executes.
 */
module Execute {
  import opened Common

  const ICACHE_ENTRIES := 1024
  const INVALID_TAG := WORD - 1

  const PC_SERIALIZE_BEFORE := 3
  const PC_SERIALIZE_AFTER := 5
  const PC_SERIALIZE_WFI := 7

  const DEBUG_ROM_ENTRY := 0x800
  const DEBUG_END := 0xfff
  const DCSR_CAUSE_NONE := 0
  const DCSR_CAUSE_DEBUGINT := 3
  const DCSR_CAUSE_STEP := 4
  const DCSR_CAUSE_HALT := 5

  datatype SingleStep = STEP_NONE | STEP_STEPPING | STEP_STEPPED

  type Trap = nat

  /** The part of `state_t` that the loop reads and writes, and the rest of the architectural state. */
  datatype Hart<S> = Hart(pc: nat, serialized: bool, single_step: SingleStep, cause: nat, minstret: nat, rest: S)

  /** What an instruction function does: return the next pc or a sentinel, or throw; it may flush the icache. */
  datatype Outcome<S> =
    | Next(hart: Hart<S>, npc: nat, flushed: bool)
    | Threw(hart: Hart<S>, trap: Trap, flushed: bool)

  /** Instructions, traps and interrupts, as far as the loop is concerned. */
  datatype Machine<!S, !I> = Machine(
    fetch: (S, nat) -> Result<I, Trap>,
    length: I -> nat,
    execute: (Hart<S>, nat, I) -> Outcome<S>,
    interrupt: Hart<S> -> Option<Trap>,
    take_trap: (Hart<S>, Trap, nat) -> (nat, nat, S),
    enter_debug: (Hart<S>, nat) -> S,
    traced: nat -> bool,
    debug: bool)

  predicate InvalidPc(pc: nat) {
    pc % 2 == 1
  }

  /**
   What an executed instruction owes the loop. An odd result is one of the three sentinels, or the source aborts;
   `validate_csr` asks for serialization before it does anything, and only when that has not been done; the other
   sentinels come with an even pc in the state.
   */
  ghost predicate Regular<S>(h: Hart<S>, o: Outcome<S>) {
    o.Next? && InvalidPc(o.npc) ==>
      && o.npc in {PC_SERIALIZE_BEFORE, PC_SERIALIZE_AFTER, PC_SERIALIZE_WFI}
      && (if o.npc == PC_SERIALIZE_BEFORE then !h.serialized && o.hart == h else !InvalidPc(o.hart.pc))
  }

  // ----- The plain loop -----

  /** `Stray`: an instruction was not `Regular`, and what follows is not defined. */
  datatype Stop = Done | Trapped(trap: Trap, epc: nat) | Parked | Stray

  /** Where an inner loop ended: the state, how many instructions retired, and the budget left to the caller. */
  datatype Inner<S> = Inner(hart: Hart<S>, instret: nat, n: nat, stop: Stop)

  /** The effect of a sentinel: the instruction is retried (BEFORE), retired (AFTER), or retired as the last (WFI). */
  function Sentinel<S>(h: Hart<S>, npc: nat, instret: nat, n: nat): Inner<S> {
    if npc == PC_SERIALIZE_BEFORE then Inner(h.(serialized := true), instret, n, Done)
    else if npc == PC_SERIALIZE_AFTER then Inner(h, instret + 1, n, Done)
    else Inner(h, instret + 1, instret + 1, Done)
  }

  /** Fetch at the pc, execute, advance; until the budget is used up, a sentinel, or a trap. */
  ghost function Plain<S, I>(m: Machine<S, I>, h: Hart<S>, instret: nat, n: nat): Inner<S>
    decreases n - instret
  {
    if instret >= n then Inner(h, instret, n, Done)
    else
      match m.fetch(h.rest, h.pc)
      case Err(t) => Inner(h, instret, n, Trapped(t, h.pc))
      case Ok(insn) =>
        var o := m.execute(h, h.pc, insn);
        if !Regular(h, o) then Inner(o.hart, instret, n, Stray)
        else
          match o
          case Threw(h', t, _) => Inner(h', instret, n, Trapped(t, h.pc))
          case Next(h', npc, _) =>
            if InvalidPc(npc) then Sentinel(h', npc, instret, n) else Plain(m, h'.(pc := npc), instret + 1, n)
  }

  /**
   Traps are precise: the instructions before the faulting one have all retired, in the state `g` they lead to the
   pc is the reported epc, and it is the instruction there that faults.
   */
  lemma {:induction false} PreciseTrap<S, I>(m: Machine<S, I>, h: Hart<S>, instret: nat, n: nat) returns (g: Hart<S>)
    requires Plain(m, h, instret, n).stop.Trapped?
    ensures var r := Plain(m, h, instret, n);
            && Plain(m, h, instret, r.instret) == Inner(g, r.instret, r.instret, Done)
            && g.pc == r.stop.epc
            && match m.fetch(g.rest, g.pc)
               case Err(t) => r.hart == g && r.stop.trap == t
               case Ok(insn) => var o := m.execute(g, g.pc, insn);
                                o.Threw? && o.hart == r.hart && o.trap == r.stop.trap
    decreases n - instret
  {
    g := h;
    var f := m.fetch(h.rest, h.pc);
    if f.Ok? {
      var o := m.execute(h, h.pc, f.value);
      if o.Next? {
        g := PreciseTrap(m, o.hart.(pc := o.npc), instret + 1, n);
        PlainTrapBudget(m, o.hart.(pc := o.npc), instret + 1, n);
      }
    }
  }

  lemma {:induction false} PlainTrapBudget<S, I>(m: Machine<S, I>, h: Hart<S>, instret: nat, n: nat)
    requires Plain(m, h, instret, n).stop.Trapped?
    ensures instret <= Plain(m, h, instret, n).instret < n
    decreases n - instret
  {
    var f := m.fetch(h.rest, h.pc);
    if f.Ok? {
      var o := m.execute(h, h.pc, f.value);
      if o.Next? {
        PlainTrapBudget(m, o.hart.(pc := o.npc), instret + 1, n);
      }
    }
  }

  function EnterDebug<S, I>(m: Machine<S, I>, h: Hart<S>, cause: nat): Hart<S> {
    h.(cause := cause, pc := DEBUG_ROM_ENTRY, rest := m.enter_debug(h, cause))
  }

  /** What single stepping does before an instruction, and whether it enters debug mode instead of executing it. */
  function Stepped<S, I>(m: Machine<S, I>, h: Hart<S>): (Hart<S>, bool) {
    if !h.serialized && h.single_step == STEP_STEPPED then
      var h := h.(single_step := STEP_NONE);
      if h.cause == DCSR_CAUSE_NONE then (EnterDebug(m, h, DCSR_CAUSE_STEP), true) else (h, false)
    else if h.single_step == STEP_STEPPING then (h.(single_step := STEP_STEPPED), false)
    else (h, false)
  }

  predicate InDebugRom(pc: nat) {
    DEBUG_ROM_ENTRY <= pc < DEBUG_END
  }

  /** One instruction at a time with the checks of the debug path: single stepping, and parking in the debug ROM. */
  ghost function Slow<S, I>(m: Machine<S, I>, h: Hart<S>, instret: nat, n: nat): Inner<S>
    decreases n - instret
  {
    if instret >= n then Inner(h, instret, n, Done)
    else
      var (h, entered) := Stepped(m, h);
      if entered then Inner(h, instret, n, Done)
      else
        match m.fetch(h.rest, h.pc)
        case Err(t) => Inner(h, instret, n, Trapped(t, h.pc))
        case Ok(insn) =>
          var o := m.execute(h, h.pc, insn);
          if !Regular(h, o) then Inner(o.hart, instret, n, Stray)
          else
            match o
            case Threw(h', t, _) => Inner(h', instret, n, Trapped(t, h.pc))
            case Next(h', npc, _) =>
              if InvalidPc(npc) then Sentinel(h', npc, instret, n)
              else if InDebugRom(npc) then Inner(h'.(pc := npc), instret + 1, n, Parked)
              else Slow(m, h'.(pc := npc), instret + 1, n)
  }

  predicate SlowPath<S, I>(m: Machine<S, I>, h: Hart<S>) {
    m.debug || h.single_step != STEP_NONE || h.cause != DCSR_CAUSE_NONE
  }

  /** The `catch` block: take the trap, then leave single stepping if the trapping instruction was the one stepped. */
  function AfterTrap<S, I>(m: Machine<S, I>, h: Hart<S>, trap: Trap, epc: nat): Hart<S> {
    var (pc, cause, rest) := m.take_trap(h, trap, epc);
    var h := h.(pc := pc, cause := cause, rest := rest);
    if h.single_step == STEP_STEPPED then EnterDebug(m, h.(single_step := STEP_NONE), DCSR_CAUSE_STEP) else h
  }

  function Retire<S>(h: Hart<S>, instret: nat): Hart<S> {
    h.(minstret := (h.minstret + instret) % WORD)
  }

  function Rank(s: SingleStep): nat {
    match s case STEP_NONE => 0 case STEP_STEPPED => 1 case STEP_STEPPING => 2
  }

  ghost function InnerLoop<S, I>(m: Machine<S, I>, h: Hart<S>, n: nat): Inner<S> {
    if SlowPath(m, h) then Slow(m, h, 0, n) else Plain(m, h, 0, n)
  }

  /** The end of a call: the state, and whether a stray instruction was what ended it. */
  datatype Run<S> = Run(hart: Hart<S>, stray: bool)

  /**
   The outer loop. It ends after a trap, after parking (which drops the retired count), or when the budget is
   used up; otherwise it goes around, and each round that retires nothing uses up a serialization or a step.
   */
  ghost function Rounds<S, I>(m: Machine<S, I>, h: Hart<S>, n: nat): Run<S>
    decreases n, Rank(h.single_step), !h.serialized
  {
    if n == 0 then Run(h, false)
    else
      match m.interrupt(h)
      case Some(t) => Run(Retire(AfterTrap(m, h, t, h.pc), 0), false)
      case None =>
        var r := InnerLoop(m, h, n);
        InnerProgress(m, h, n);
        match r.stop
        case Trapped(t, epc) => Run(Retire(AfterTrap(m, r.hart, t, epc), r.instret), false)
        case Parked => Run(r.hart, false)
        case Stray => Run(r.hart, true)
        case Done => Rounds(m, Retire(r.hart, r.instret), r.n - r.instret)
  }

  lemma {:induction false} PlainBudget<S, I>(m: Machine<S, I>, h: Hart<S>, instret: nat, n: nat)
    requires instret <= n
    ensures var r := Plain(m, h, instret, n); instret <= r.instret <= r.n <= n
    decreases n - instret
  {
    hide Regular;
    if instret < n {
      var f := m.fetch(h.rest, h.pc);
      if f.Ok? {
        var o := m.execute(h, h.pc, f.value);
        if o.Next? && !InvalidPc(o.npc) {
          PlainBudget(m, o.hart.(pc := o.npc), instret + 1, n);
        }
      }
    }
  }

  lemma {:induction false} SlowBudget<S, I>(m: Machine<S, I>, h: Hart<S>, instret: nat, n: nat)
    requires instret <= n
    ensures var r := Slow(m, h, instret, n); instret <= r.instret <= r.n <= n
    decreases n - instret
  {
    hide Regular;
    if instret < n {
      var (h, entered) := Stepped(m, h);
      if !entered {
        var f := m.fetch(h.rest, h.pc);
        if f.Ok? {
          var o := m.execute(h, h.pc, f.value);
          if o.Next? && !InvalidPc(o.npc) && !InDebugRom(o.npc) {
            SlowBudget(m, o.hart.(pc := o.npc), instret + 1, n);
          }
        }
      }
    }
  }

  /** The hart came closer to the end of the outer loop, which the budget `n` bounds. */
  predicate Closer<S>(h: Hart<S>, h': Hart<S>) {
    Rank(h'.single_step) < Rank(h.single_step)
    || (Rank(h'.single_step) == Rank(h.single_step) && h'.serialized && !h.serialized)
  }

  lemma PlainProgress<S, I>(m: Machine<S, I>, h: Hart<S>, n: nat)
    requires n > 0
    ensures var r := Plain(m, h, 0, n); r.stop == Done && r.instret == 0 ==> Closer(h, r.hart)
  {
    var f := m.fetch(h.rest, h.pc);
    if f.Ok? {
      var o := m.execute(h, h.pc, f.value);
      if o.Next? && !InvalidPc(o.npc) {
        PlainBudget(m, o.hart.(pc := o.npc), 1, n);
      }
    }
  }

  lemma SlowProgress<S, I>(m: Machine<S, I>, h: Hart<S>, n: nat)
    requires n > 0
    ensures var r := Slow(m, h, 0, n); r.stop == Done && r.instret == 0 ==> Closer(h, r.hart)
  {
    var (h', entered) := Stepped(m, h);
    if !entered {
      var f := m.fetch(h'.rest, h'.pc);
      if f.Ok? {
        var o := m.execute(h', h'.pc, f.value);
        if o.Next? && !InvalidPc(o.npc) && !InDebugRom(o.npc) {
          SlowBudget(m, o.hart.(pc := o.npc), 1, n);
        }
      }
    }
  }

  /** Why the outer loop ends: the budget never underflows, and a round without progress makes the hart simpler. */
  lemma InnerProgress<S, I>(m: Machine<S, I>, h: Hart<S>, n: nat)
    requires n > 0
    ensures var r := InnerLoop(m, h, n);
            r.instret <= r.n <= n && (r.stop == Done && r.instret == 0 ==> Closer(h, r.hart))
  {
    hide Plain, Slow;
    PlainBudget(m, h, 0, n);
    SlowBudget(m, h, 0, n);
    PlainProgress(m, h, n);
    SlowProgress(m, h, n);
  }

  // ----- Counting retired instructions -----

  /**
   The instructions that the inner loop executes from `h` neither trap nor wait, write no counter and start no
   stepping; on the slow path none of them leads into the debug ROM.
   */
  ghost predicate Quiet<S, I>(m: Machine<S, I>, slow: bool, h: Hart<S>, instret: nat, n: nat)
    decreases n - instret
  {
    instret < n ==>
      && m.fetch(h.rest, h.pc).Ok?
      && var o := m.execute(h, h.pc, m.fetch(h.rest, h.pc).value);
         && o.Next? && Regular(h, o) && o.npc != PC_SERIALIZE_WFI && (slow ==> !InDebugRom(o.npc))
         && o.hart.minstret == h.minstret && o.hart.single_step == h.single_step
         && (!InvalidPc(o.npc) ==> Quiet(m, slow, o.hart.(pc := o.npc), instret + 1, n))
  }

  /** No interrupt is taken during the run, and every inner loop of it is quiet. */
  ghost predicate QuietRun<S, I>(m: Machine<S, I>, h: Hart<S>, n: nat)
    decreases n, Rank(h.single_step), !h.serialized
  {
    n > 0 ==>
      && m.interrupt(h) == None && Quiet(m, SlowPath(m, h), h, 0, n)
      && var r := InnerLoop(m, h, n);
         InnerProgress(m, h, n);
         (r.stop == Done ==> QuietRun(m, Retire(r.hart, r.instret), r.n - r.instret))
  }

  lemma {:induction false} QuietInner<S, I>(m: Machine<S, I>, slow: bool, h: Hart<S>, instret: nat, n: nat)
    requires Quiet(m, slow, h, instret, n) && h.single_step == STEP_NONE && instret <= n
    ensures var r := Plain(m, h, instret, n);
            r.stop == Done && r.n == n && r.hart.minstret == h.minstret && r.hart.single_step == STEP_NONE
    ensures slow ==> Slow(m, h, instret, n) == Plain(m, h, instret, n)
    decreases n - instret
  {
    if instret < n {
      var o := m.execute(h, h.pc, m.fetch(h.rest, h.pc).value);
      if !InvalidPc(o.npc) {
        QuietInner(m, slow, o.hart.(pc := o.npc), instret + 1, n);
      }
    }
  }

  /** Then one call retires exactly the `n` instructions it was asked for, however often it serializes. */
  lemma {:induction false} RetiresExactly<S, I>(m: Machine<S, I>, h: Hart<S>, n: nat)
    requires QuietRun(m, h, n) && h.single_step == STEP_NONE
    ensures Rounds(m, h, n).hart.minstret == if n == 0 then h.minstret else (h.minstret + n) % WORD
    decreases n, Rank(h.single_step), !h.serialized
  {
    hide Plain, Slow, Quiet;
    if n > 0 {
      InnerProgress(m, h, n);
      QuietInner(m, SlowPath(m, h), h, 0, n);
      var r := InnerLoop(m, h, n);
      RetiresExactly(m, Retire(r.hart, r.instret), r.n - r.instret);
      WrapSum(h.minstret, r.instret, n);
    }
  }

  lemma WrapSum(start: nat, part: nat, n: nat)
    requires part <= n
    ensures ((start + part) % WORD + (n - part)) % WORD == (start + n) % WORD
  {}

  // ----- The loop with the instruction cache -----

  function IcacheIndex(addr: nat): (r: nat)
    ensures r < ICACHE_ENTRIES
  {
    addr / 2 % ICACHE_ENTRIES
  }

  /** The tags and the decoded instructions. */
  datatype Icache<!I> = Icache(tag: seq<nat>, data: seq<I>)

  /** A tag is unused, or an even address in its own place. */
  ghost predicate Placed<I>(c: Icache<I>) {
    && |c.tag| == |c.data| == ICACHE_ENTRIES
    && forall i :: 0 <= i < ICACHE_ENTRIES && c.tag[i] != INVALID_TAG ==>
         !InvalidPc(c.tag[i]) && IcacheIndex(c.tag[i]) == i
  }

  function FlushedTags(): (r: seq<nat>)
    ensures |r| == ICACHE_ENTRIES && forall i :: 0 <= i < ICACHE_ENTRIES ==> r[i] == INVALID_TAG
  {
    seq(ICACHE_ENTRIES, _ => INVALID_TAG)
  }

  /** The cache after an instruction that did, or did not, flush it. */
  function Kept<I>(c: Icache<I>, flushed: bool): Icache<I> {
    if flushed then c.(tag := FlushedTags()) else c
  }

  /** `access_icache`: the instruction for `pc` is in its place afterwards, unless fetching it traps. */
  ghost function Accessed<S, I>(m: Machine<S, I>, c: Icache<I>, s: S, pc: nat): Result<Icache<I>, Trap>
    requires Placed(c)
  {
    var i := IcacheIndex(pc);
    if c.tag[i] == pc then Ok(c)
    else
      match m.fetch(s, pc)
      case Err(t) => Err(t)
      case Ok(insn) => Ok(Icache(c.tag[i := if m.traced(pc) then INVALID_TAG else pc], c.data[i := insn]))
  }

  lemma AccessedPlaced<S, I>(m: Machine<S, I>, c: Icache<I>, s: S, pc: nat)
    requires Placed(c) && !InvalidPc(pc)
    ensures Accessed(m, c, s, pc).Ok? ==> Placed(Accessed(m, c, s, pc).value)
  {}

  /** The plain loop again, but each instruction comes out of the cache, however old it is there. */
  ghost function Cached<S, I>(m: Machine<S, I>, c: Icache<I>, h: Hart<S>, instret: nat, n: nat)
    : (r: (Icache<I>, Inner<S>))
    requires Placed(c) && !InvalidPc(h.pc) && instret <= n
    ensures Placed(r.0)
    decreases n - instret, 1
  {
    hide Placed, Accessed, IcacheIndex;
    if instret == n then (c, Inner(h, instret, n, Done))
    else
      match Accessed(m, c, h.rest, h.pc)
      case Err(t) => (c, Inner(h, instret, n, Trapped(t, h.pc)))
      case Ok(c') =>
        AccessedPlaced(m, c, h.rest, h.pc);
        CachedExec(m, c', c'.data[IcacheIndex(h.pc)], h, instret, n)
  }

  /** From the execution of `insn` on. */
  ghost function CachedExec<S, I>(m: Machine<S, I>, c: Icache<I>, insn: I, h: Hart<S>, instret: nat, n: nat)
    : (r: (Icache<I>, Inner<S>))
    requires Placed(c) && !InvalidPc(h.pc) && instret < n
    ensures Placed(r.0)
    decreases n - instret, 0
  {
    hide Placed, Kept;
    var o := m.execute(h, h.pc, insn);
    KeptPlaced(c, o.flushed);
    var c := Kept(c, o.flushed);
    if !Regular(h, o) then (c, Inner(o.hart, instret, n, Stray))
    else
      match o
      case Threw(h', t, _) => (c, Inner(h', instret, n, Trapped(t, h.pc)))
      case Next(h', npc, _) => CachedAdvance(m, c, h', npc, instret, n)
  }

  /** `advance_pc`, and then the rest of the loop. */
  ghost function CachedAdvance<S, I>(m: Machine<S, I>, c: Icache<I>, h: Hart<S>, npc: nat, instret: nat, n: nat)
    : (r: (Icache<I>, Inner<S>))
    requires Placed(c) && instret < n
    ensures Placed(r.0)
    decreases n - instret - 1, 2
  {
    if InvalidPc(npc) then (c, Sentinel(h, npc, instret, n))
    else Cached(m, c, h.(pc := npc), instret + 1, n)
  }

  lemma Sizes<I>(c: Icache<I>)
    requires Placed(c)
    ensures |c.tag| == |c.data| == ICACHE_ENTRIES
  {}

  lemma KeptPlaced<I>(c: Icache<I>, flushed: bool)
    requires Placed(c)
    ensures Placed(Kept(c, flushed))
  {}

  lemma AccessUnfold<S, I>(m: Machine<S, I>, c: Icache<I>, h: Hart<S>, instret: nat, n: nat)
    requires Placed(c) && !InvalidPc(h.pc) && instret < n
    ensures var a := Accessed(m, c, h.rest, h.pc);
            if a.Err? then Cached(m, c, h, instret, n) == (c, Inner(h, instret, n, Trapped(a.error, h.pc)))
            else
              && Placed(a.value)
              && Cached(m, c, h, instret, n)
                 == CachedExec(m, a.value, a.value.data[IcacheIndex(h.pc)], h, instret, n)
  {
    hide CachedExec, Accessed;
    AccessedPlaced(m, c, h.rest, h.pc);
  }

  lemma ExecUnfold<S, I>(m: Machine<S, I>, c: Icache<I>, insn: I, h: Hart<S>, instret: nat, n: nat)
    requires Placed(c) && !InvalidPc(h.pc) && instret < n && CachedExec(m, c, insn, h, instret, n).1.stop != Stray
    ensures var o := m.execute(h, h.pc, insn);
            && Regular(h, o) && Placed(Kept(c, o.flushed))
            && CachedExec(m, c, insn, h, instret, n) ==
               if o.Threw? then (Kept(c, o.flushed), Inner(o.hart, instret, n, Trapped(o.trap, h.pc)))
               else CachedAdvance(m, Kept(c, o.flushed), o.hart, o.npc, instret, n)
  {
    hide CachedAdvance;
  }

  lemma AdvanceUnfold<S, I>(m: Machine<S, I>, c: Icache<I>, h: Hart<S>, npc: nat, instret: nat, n: nat)
    requires Placed(c) && instret < n
    ensures CachedAdvance(m, c, h, npc, instret, n)
            == if InvalidPc(npc) then (c, Sentinel(h, npc, instret, n)) else Cached(m, c, h.(pc := npc), instret + 1, n)
  {
    hide Cached, Sentinel;
  }

  /** One instruction of the cached loop. */
  lemma CachedUnfold<S, I>(m: Machine<S, I>, c: Icache<I>, h: Hart<S>, instret: nat, n: nat)
    requires Placed(c) && !InvalidPc(h.pc) && instret < n && Accessed(m, c, h.rest, h.pc).Ok?
    ensures var c' := Accessed(m, c, h.rest, h.pc).value;
            Placed(c') &&
            var o := m.execute(h, h.pc, c'.data[IcacheIndex(h.pc)]);
            && Placed(Kept(c', o.flushed))
            && Cached(m, c, h, instret, n) ==
               if !Regular(h, o) then (Kept(c', o.flushed), Inner(o.hart, instret, n, Stray))
               else if o.Threw? then (Kept(c', o.flushed), Inner(o.hart, instret, n, Trapped(o.trap, h.pc)))
               else if InvalidPc(o.npc) then (Kept(c', o.flushed), Sentinel(o.hart, o.npc, instret, n))
               else Cached(m, Kept(c', o.flushed), o.hart.(pc := o.npc), instret + 1, n)
  {
    hide Sentinel, Accessed, IcacheIndex, Placed, Kept;
    hide Cached, CachedAdvance;
    AccessUnfold(m, c, h, instret, n);
    var c' := Accessed(m, c, h.rest, h.pc).value;
    Sizes(c');
    var o := m.execute(h, h.pc, c'.data[IcacheIndex(h.pc)]);
    KeptPlaced(c', o.flushed);
    if Regular(h, o) && o.Next? {
      AdvanceUnfold(m, Kept(c', o.flushed), o.hart, o.npc, instret, n);
    }
  }

  /** Where the cached loop can end: it keeps to its budget, and only a serialization can retire nothing. */
  lemma {:induction false} CachedEnds<S, I>(m: Machine<S, I>, c: Icache<I>, h: Hart<S>, instret: nat, n: nat)
    requires Placed(c) && !InvalidPc(h.pc) && instret <= n
    ensures var r := Cached(m, c, h, instret, n).1;
            && instret <= r.instret <= r.n <= n && (r.stop == Done ==> !InvalidPc(r.hart.pc))
            && (r.stop == Done && r.instret == instret < n ==> Closer(h, r.hart))
    decreases n - instret
  {
    hide Placed, Kept, Cached, Accessed, IcacheIndex, Closer;
    if instret == n {
      CachedDone(m, c, h, n);
    } else {
      AccessUnfold(m, c, h, instret, n);
      var a := Accessed(m, c, h.rest, h.pc);
      if a.Ok? {
        CachedUnfold(m, c, h, instret, n);
        Sizes(a.value);
        var o := m.execute(h, h.pc, a.value.data[IcacheIndex(h.pc)]);
        if GoesOn(h, o) {
          CachedEnds(m, Kept(a.value, o.flushed), o.hart.(pc := o.npc), instret + 1, n);
        } else {
          SerializedCloser(h, o);
        }
      }
    }
  }

  lemma SerializedCloser<S>(h: Hart<S>, o: Outcome<S>)
    ensures Regular(h, o) && o.Next? && o.npc == PC_SERIALIZE_BEFORE ==> Closer(h, o.hart.(serialized := true))
  {}

  // ----- When the cache does not show -----

  /** The loop goes on with the next instruction. */
  ghost predicate GoesOn<S>(h: Hart<S>, o: Outcome<S>) {
    Regular(h, o) && o.Next? && !InvalidPc(o.npc)
  }

  /** No hit of the loop is stale: an entry that is tagged with the pc holds what is fetched there now. */
  ghost predicate NoStale<S, I>(m: Machine<S, I>, c: Icache<I>, h: Hart<S>, instret: nat, n: nat)
    requires Placed(c) && !InvalidPc(h.pc)
    decreases n - instret
  {
    instret < n ==>
      var i, a := IcacheIndex(h.pc), Accessed(m, c, h.rest, h.pc);
      AccessedPlaced(m, c, h.rest, h.pc);
      && (c.tag[i] == h.pc ==> m.fetch(h.rest, h.pc) == Ok(c.data[i]))
      && (a.Ok? ==>
            var o := m.execute(h, h.pc, a.value.data[i]);
            KeptPlaced(a.value, o.flushed);
            GoesOn(h, o) ==> NoStale(m, Kept(a.value, o.flushed), o.hart.(pc := o.npc), instret + 1, n))
  }

  /** The instructions that the plain loop executes, each with its address. */
  ghost function Executed<S, I>(m: Machine<S, I>, h: Hart<S>, instret: nat, n: nat): seq<(nat, I)>
    decreases n - instret
  {
    if instret >= n || m.fetch(h.rest, h.pc).Err? then []
    else
      var insn := m.fetch(h.rest, h.pc).value;
      var o := m.execute(h, h.pc, insn);
      [(h.pc, insn)] + if GoesOn(h, o) then Executed(m, o.hart.(pc := o.npc), instret + 1, n) else []
  }

  /** The same for the cached loop. */
  ghost function CachedExecuted<S, I>(m: Machine<S, I>, c: Icache<I>, h: Hart<S>, instret: nat, n: nat): seq<(nat, I)>
    requires Placed(c) && !InvalidPc(h.pc)
    decreases n - instret
  {
    var a := Accessed(m, c, h.rest, h.pc);
    if instret >= n || a.Err? then []
    else
      AccessedPlaced(m, c, h.rest, h.pc);
      var insn := a.value.data[IcacheIndex(h.pc)];
      var o := m.execute(h, h.pc, insn);
      KeptPlaced(a.value, o.flushed);
      [(h.pc, insn)] +
      if GoesOn(h, o) then CachedExecuted(m, Kept(a.value, o.flushed), o.hart.(pc := o.npc), instret + 1, n) else []
  }

  /** An access that hits no stale entry is a fetch. */
  lemma AccessedFresh<S, I>(m: Machine<S, I>, c: Icache<I>, s: S, pc: nat)
    requires Placed(c) && !InvalidPc(pc)
    requires c.tag[IcacheIndex(pc)] == pc ==> m.fetch(s, pc) == Ok(c.data[IcacheIndex(pc)])
    ensures var a := Accessed(m, c, s, pc);
            if a.Err? then m.fetch(s, pc) == Err(a.error)
            else Placed(a.value) && m.fetch(s, pc) == Ok(a.value.data[IcacheIndex(pc)])
  {
    AccessedPlaced(m, c, s, pc);
  }

  /** Without a stale hit the cached loop is the plain loop, on every machine. */
  lemma {:induction false} CachedIsPlain<S, I>(m: Machine<S, I>, c: Icache<I>, h: Hart<S>, instret: nat, n: nat)
    requires Placed(c) && !InvalidPc(h.pc) && instret <= n && NoStale(m, c, h, instret, n)
    ensures Cached(m, c, h, instret, n).1 == Plain(m, h, instret, n)
    ensures CachedExecuted(m, c, h, instret, n) == Executed(m, h, instret, n)
    decreases n - instret
  {
    hide Placed, Accessed, IcacheIndex, Kept, Sentinel, Cached;
    if instret < n {
      AccessedFresh(m, c, h.rest, h.pc);
      AccessUnfold(m, c, h, instret, n);
      var a := Accessed(m, c, h.rest, h.pc);
      if a.Ok? {
        var o := m.execute(h, h.pc, m.fetch(h.rest, h.pc).value);
        CachedUnfold(m, c, h, instret, n);
        if GoesOn(h, o) {
          CachedIsPlain(m, Kept(a.value, o.flushed), o.hart.(pc := o.npc), instret + 1, n);
        }
      }
    } else {
      CachedDone(m, c, h, n);
    }
  }

  lemma CachedDone<S, I>(m: Machine<S, I>, c: Icache<I>, h: Hart<S>, n: nat)
    requires Placed(c) && !InvalidPc(h.pc)
    ensures Cached(m, c, h, n, n) == (c, Inner(h, n, n, Done))
  {}

  /**
   The executed instructions `cached` part from `plain` at some point: there is another instruction, or the plain loop,
   which `stop` ended, had already trapped.
   */
  ghost predicate PartAt<I>(cached: seq<(nat, I)>, plain: seq<(nat, I)>, stop: Stop, k: nat) {
    && k < |cached| && k <= |plain| && cached[..k] == plain[..k]
    && if k == |plain| then stop.Trapped? else cached[k] != plain[k]
  }

  /** A stale hit shows in what is executed. */
  lemma {:induction false} StaleShows<S(!new), I(!new)>(m: Machine<S, I>, c: Icache<I>, h: Hart<S>,
                                                        instret: nat, n: nat) returns (k: nat)
    requires Placed(c) && !InvalidPc(h.pc) && !NoStale(m, c, h, instret, n)
    ensures PartAt(CachedExecuted(m, c, h, instret, n), Executed(m, h, instret, n), Plain(m, h, instret, n).stop, k)
    decreases n - instret
  {
    hide Placed, Accessed, IcacheIndex, Kept, Sentinel, PartAt;
    Sizes(c);
    var i, a, f := IcacheIndex(h.pc), Accessed(m, c, h.rest, h.pc), m.fetch(h.rest, h.pc);
    if c.tag[i] == h.pc && f != Ok(c.data[i]) {
      HitIs(m, c, h.rest, h.pc);
      k := 0;
      PartsNow(CachedExecuted(m, c, h, instret, n), Executed(m, h, instret, n), Plain(m, h, instret, n).stop);
    } else {
      AccessedFresh(m, c, h.rest, h.pc);
      var o := m.execute(h, h.pc, f.value);
      var c', h' := Kept(a.value, o.flushed), o.hart.(pc := o.npc);
      KeptPlaced(a.value, o.flushed);
      k := StaleShows(m, c', h', instret + 1, n);
      PartsLater((h.pc, f.value), CachedExecuted(m, c', h', instret + 1, n), Executed(m, h', instret + 1, n),
                 Plain(m, h', instret + 1, n).stop, k);
      k := k + 1;
    }
  }

  lemma HitIs<S, I>(m: Machine<S, I>, c: Icache<I>, s: S, pc: nat)
    requires Placed(c) && c.tag[IcacheIndex(pc)] == pc
    ensures Accessed(m, c, s, pc) == Ok(c)
  {}

  lemma PartsNow<I>(cached: seq<(nat, I)>, plain: seq<(nat, I)>, stop: Stop)
    requires cached != [] && if plain == [] then stop.Trapped? else cached[0] != plain[0]
    ensures PartAt(cached, plain, stop, 0)
  {}

  lemma PartsLater<I>(e: (nat, I), cached: seq<(nat, I)>, plain: seq<(nat, I)>, stop: Stop, k: nat)
    requires PartAt(cached, plain, stop, k)
    ensures PartAt([e] + cached, [e] + plain, stop, k + 1)
  {
    assert ([e] + cached)[..k + 1] == [e] + cached[..k] && ([e] + plain)[..k + 1] == [e] + plain[..k];
  }

  /** What the loops execute after they have parted does not bring them together again. */
  lemma Parted<I>(cached: seq<(nat, I)>, plain: seq<(nat, I)>, stop: Stop, k: nat,
                  more: seq<(nat, I)>, more': seq<(nat, I)>)
    requires PartAt(cached, plain, stop, k) && (stop.Trapped? ==> more' == [])
    ensures cached + more != plain + more'
  {
    if k < |plain| {
      assert (cached + more)[k] == cached[k] && (plain + more')[k] == plain[k];
    }
  }

  // ----- The outer loop with the cache -----

  /** Some instruction of the debug branch, or entering debug mode, flushes the icache. */
  ghost predicate SlowFlushes<S, I>(m: Machine<S, I>, h: Hart<S>, instret: nat, n: nat)
    decreases n - instret
  {
    instret < n &&
    var (h, entered) := Stepped(m, h);
    entered ||
    (m.fetch(h.rest, h.pc).Ok? &&
     var o := m.execute(h, h.pc, m.fetch(h.rest, h.pc).value);
     o.flushed ||
     (GoesOn(h, o) && !InDebugRom(o.npc) && SlowFlushes(m, o.hart.(pc := o.npc), instret + 1, n)))
  }

  /** The instructions that the debug branch executes. It does not use the cache. */
  ghost function SlowExecuted<S, I>(m: Machine<S, I>, h: Hart<S>, instret: nat, n: nat): seq<(nat, I)>
    decreases n - instret
  {
    if instret >= n then []
    else
      var (h, entered) := Stepped(m, h);
      if entered || m.fetch(h.rest, h.pc).Err? then []
      else
        var insn := m.fetch(h.rest, h.pc).value;
        var o := m.execute(h, h.pc, insn);
        [(h.pc, insn)] +
        if GoesOn(h, o) && !InDebugRom(o.npc) then SlowExecuted(m, o.hart.(pc := o.npc), instret + 1, n) else []
  }

  /** One turn of the debug branch: what it does to the icache, and to the hart. */
  lemma SlowFlushesUnfold<S, I>(m: Machine<S, I>, h: Hart<S>, instret: nat, n: nat)
    requires instret < n
    ensures var (h', entered) := Stepped(m, h);
            var f := m.fetch(h'.rest, h'.pc);
            && (entered ==> SlowFlushes(m, h, instret, n))
            && (!entered && f.Err? ==> !SlowFlushes(m, h, instret, n))
            && (!entered && f.Ok? ==>
                  var o := m.execute(h', h'.pc, f.value);
                  SlowFlushes(m, h, instret, n) <==>
                  o.flushed || (GoesOn(h', o) && !InDebugRom(o.npc)
                                && SlowFlushes(m, o.hart.(pc := o.npc), instret + 1, n)))
  {
    hide Stepped, GoesOn, InDebugRom;
  }

  lemma SlowStep<S, I>(m: Machine<S, I>, h: Hart<S>, instret: nat, n: nat)
    requires instret < n
    ensures var (h', entered) := Stepped(m, h);
            var f := m.fetch(h'.rest, h'.pc);
            if entered then Slow(m, h, instret, n) == Inner(h', instret, n, Done)
            else if f.Err? then Slow(m, h, instret, n) == Inner(h', instret, n, Trapped(f.error, h'.pc))
            else
              var o := m.execute(h', h'.pc, f.value);
              Slow(m, h, instret, n) ==
              if !Regular(h', o) then Inner(o.hart, instret, n, Stray)
              else if o.Threw? then Inner(o.hart, instret, n, Trapped(o.trap, h'.pc))
              else if InvalidPc(o.npc) then Sentinel(o.hart, o.npc, instret, n)
              else if InDebugRom(o.npc) then Inner(o.hart.(pc := o.npc), instret + 1, n, Parked)
              else Slow(m, o.hart.(pc := o.npc), instret + 1, n)
  {
    hide Stepped, Sentinel, Regular, InDebugRom, InvalidPc;
  }

  lemma SlowEnds<S, I>(m: Machine<S, I>, h: Hart<S>, instret: nat, n: nat)
    requires instret >= n
    ensures Slow(m, h, instret, n) == Inner(h, instret, n, Done) && !SlowFlushes(m, h, instret, n)
  {}

  lemma {:induction false} SlowEven<S, I>(m: Machine<S, I>, h: Hart<S>, instret: nat, n: nat)
    requires !InvalidPc(h.pc) && Slow(m, h, instret, n).stop == Done
    ensures !InvalidPc(Slow(m, h, instret, n).hart.pc)
    decreases n - instret
  {
    if instret < n {
      var (h, entered) := Stepped(m, h);
      if !entered {
        var f := m.fetch(h.rest, h.pc);
        if f.Ok? {
          var o := m.execute(h, h.pc, f.value);
          if GoesOn(h, o) && !InDebugRom(o.npc) {
            SlowEven(m, o.hart.(pc := o.npc), instret + 1, n);
          }
        }
      }
    }
  }

  ghost function CachedInner<S, I>(m: Machine<S, I>, c: Icache<I>, h: Hart<S>, n: nat): (r: (Icache<I>, Inner<S>))
    requires Placed(c) && !InvalidPc(h.pc) && n > 0
    ensures Placed(r.0) && r.1.instret <= r.1.n <= n
    ensures r.1.stop == Done ==> !InvalidPc(r.1.hart.pc)
    ensures r.1.stop == Done && r.1.instret == 0 ==> Closer(h, r.1.hart)
  {
    hide Placed, Kept, Cached, Slow;
    if SlowPath(m, h) then
      KeptPlaced(c, SlowFlushes(m, h, 0, n));
      SlowBudget(m, h, 0, n);
      SlowProgress(m, h, n);
      if Slow(m, h, 0, n).stop == Done then
        SlowEven(m, h, 0, n);
        (Kept(c, SlowFlushes(m, h, 0, n)), Slow(m, h, 0, n))
      else (Kept(c, SlowFlushes(m, h, 0, n)), Slow(m, h, 0, n))
    else
      CachedEnds(m, c, h, 0, n);
      Cached(m, c, h, 0, n)
  }

  /** Taking a trap flushes the icache, but in debug mode it does so only if it ends a single step. */
  predicate TrapFlushes<S>(h: Hart<S>) {
    h.cause == DCSR_CAUSE_NONE || h.single_step == STEP_STEPPED
  }

  /** `step` with its cache, on every machine. */
  ghost function CachedRounds<S, I>(m: Machine<S, I>, c: Icache<I>, h: Hart<S>, n: nat): (r: (Icache<I>, Run<S>))
    requires Placed(c) && !InvalidPc(h.pc)
    ensures Placed(r.0)
    decreases n, Rank(h.single_step), !h.serialized
  {
    hide Placed, Kept, CachedInner, AfterTrap;
    if n == 0 then (c, Run(h, false))
    else
      match m.interrupt(h)
      case Some(t) =>
        KeptPlaced(c, TrapFlushes(h));
        (Kept(c, TrapFlushes(h)), Run(Retire(AfterTrap(m, h, t, h.pc), 0), false))
      case None =>
        var (c', r) := CachedInner(m, c, h, n);
        match r.stop
        case Trapped(t, epc) =>
          KeptPlaced(c', TrapFlushes(r.hart));
          (Kept(c', TrapFlushes(r.hart)), Run(Retire(AfterTrap(m, r.hart, t, epc), r.instret), false))
        case Parked => (c', Run(r.hart, false))
        case Stray => (c', Run(r.hart, true))
        case Done => CachedRounds(m, c', Retire(r.hart, r.instret), r.n - r.instret)
  }

  /** No hit of the whole call is stale. */
  ghost predicate NoStaleRun<S, I>(m: Machine<S, I>, c: Icache<I>, h: Hart<S>, n: nat)
    requires Placed(c) && !InvalidPc(h.pc)
    decreases n, Rank(h.single_step), !h.serialized
  {
    n > 0 && m.interrupt(h) == None ==>
      && (!SlowPath(m, h) ==> NoStale(m, c, h, 0, n))
      && var (c', r) := CachedInner(m, c, h, n);
         (r.stop == Done ==> NoStaleRun(m, c', Retire(r.hart, r.instret), r.n - r.instret))
  }

  ghost function InnerExecuted<S, I>(m: Machine<S, I>, h: Hart<S>, n: nat): seq<(nat, I)> {
    if SlowPath(m, h) then SlowExecuted(m, h, 0, n) else Executed(m, h, 0, n)
  }

  /** The instructions that a call executes. */
  ghost function RunExecuted<S, I>(m: Machine<S, I>, h: Hart<S>, n: nat): seq<(nat, I)>
    decreases n, Rank(h.single_step), !h.serialized
  {
    if n == 0 || m.interrupt(h).Some? then []
    else
      var r := InnerLoop(m, h, n);
      InnerProgress(m, h, n);
      InnerExecuted(m, h, n) +
      if r.stop == Done then RunExecuted(m, Retire(r.hart, r.instret), r.n - r.instret) else []
  }

  ghost function CachedInnerExecuted<S, I>(m: Machine<S, I>, c: Icache<I>, h: Hart<S>, n: nat): seq<(nat, I)>
    requires Placed(c) && !InvalidPc(h.pc)
  {
    if SlowPath(m, h) then SlowExecuted(m, h, 0, n) else CachedExecuted(m, c, h, 0, n)
  }

  ghost function CachedRunExecuted<S, I>(m: Machine<S, I>, c: Icache<I>, h: Hart<S>, n: nat): seq<(nat, I)>
    requires Placed(c) && !InvalidPc(h.pc)
    decreases n, Rank(h.single_step), !h.serialized
  {
    if n == 0 || m.interrupt(h).Some? then []
    else
      var (c', r) := CachedInner(m, c, h, n);
      CachedInnerExecuted(m, c, h, n) +
      if r.stop == Done then CachedRunExecuted(m, c', Retire(r.hart, r.instret), r.n - r.instret) else []
  }

  /** One inner loop without a stale hit. */
  lemma CachedInnerIsPlain<S, I>(m: Machine<S, I>, c: Icache<I>, h: Hart<S>, n: nat)
    requires Placed(c) && !InvalidPc(h.pc) && n > 0 && (!SlowPath(m, h) ==> NoStale(m, c, h, 0, n))
    ensures CachedInner(m, c, h, n).1 == InnerLoop(m, h, n)
    ensures CachedInnerExecuted(m, c, h, n) == InnerExecuted(m, h, n)
  {
    hide Placed, Cached, Plain, Slow, NoStale, Executed, CachedExecuted, SlowExecuted, SlowFlushes, Kept;
    if !SlowPath(m, h) {
      CachedIsPlain(m, c, h, 0, n);
    }
  }

  /** The call with the cache does what the call without one does, if no hit is stale. */
  lemma {:induction false} CachedRunIsPlain<S, I>(m: Machine<S, I>, c: Icache<I>, h: Hart<S>, n: nat)
    requires Placed(c) && !InvalidPc(h.pc) && NoStaleRun(m, c, h, n)
    ensures CachedRounds(m, c, h, n).1 == Rounds(m, h, n)
    ensures CachedRunExecuted(m, c, h, n) == RunExecuted(m, h, n)
    decreases n, Rank(h.single_step), !h.serialized
  {
    hide Placed, Kept, CachedInner, InnerLoop, AfterTrap, Retire, NoStale, CachedInnerExecuted, InnerExecuted;
    if n > 0 && m.interrupt(h).None? {
      CachedInnerIsPlain(m, c, h, n);
      InnerProgress(m, h, n);
      var (c', r) := CachedInner(m, c, h, n);
      if r.stop == Done {
        RetireKeeps(r.hart, r.instret);
        CachedRunIsPlain(m, c', Retire(r.hart, r.instret), r.n - r.instret);
      }
    }
  }

  lemma RetireKeeps<S>(h: Hart<S>, instret: nat)
    ensures Retire(h, instret) == h.(minstret := Retire(h, instret).minstret)
  {}

  /** Exactly then it executes the same instructions, at the same addresses, in the same order. */
  lemma {:induction false} NoStaleRunIff<S(!new), I(!new)>(m: Machine<S, I>, c: Icache<I>, h: Hart<S>, n: nat)
    requires Placed(c) && !InvalidPc(h.pc)
    ensures CachedRunExecuted(m, c, h, n) == RunExecuted(m, h, n) <==> NoStaleRun(m, c, h, n)
    decreases n, Rank(h.single_step), !h.serialized
  {
    hide Placed, Kept, CachedInner, InnerLoop, AfterTrap, Retire, NoStale, CachedInnerExecuted, InnerExecuted;
    if n > 0 && m.interrupt(h).None? {
      InnerProgress(m, h, n);
      if !SlowPath(m, h) && !NoStale(m, c, h, 0, n) {
        InnerParts(m, c, h, n);
      } else {
        CachedInnerIsPlain(m, c, h, n);
        var (c', r) := CachedInner(m, c, h, n);
        if r.stop == Done {
          RetireKeeps(r.hart, r.instret);
          var h', n' := Retire(r.hart, r.instret), r.n - r.instret;
          NoStaleRunIff(m, c', h', n');
          SameRest(InnerExecuted(m, h, n), CachedRunExecuted(m, c', h', n'), RunExecuted(m, h', n'));
        }
      }
    }
  }

  lemma SameRest<T>(s: seq<T>, t: seq<T>, t': seq<T>)
    ensures s + t == s + t' <==> t == t'
  {
    assert (s + t)[|s|..] == t && (s + t')[|s|..] == t';
  }

  /** A stale hit in the first inner loop of a call. */
  lemma InnerParts<S(!new), I(!new)>(m: Machine<S, I>, c: Icache<I>, h: Hart<S>, n: nat)
    requires Placed(c) && !InvalidPc(h.pc) && n > 0 && m.interrupt(h).None?
    requires !SlowPath(m, h) && !NoStale(m, c, h, 0, n)
    ensures CachedRunExecuted(m, c, h, n) != RunExecuted(m, h, n)
  {
    var k := StaleShows(m, c, h, 0, n);
    var more := CachedRunStarts(m, c, h, n);
    var more' := RunStarts(m, h, n);
    InnersAre(m, c, h, n);
    hide *;
    Parted(CachedExecuted(m, c, h, 0, n), Executed(m, h, 0, n), Plain(m, h, 0, n).stop, k, more, more');
  }

  lemma InnersAre<S, I>(m: Machine<S, I>, c: Icache<I>, h: Hart<S>, n: nat)
    requires Placed(c) && !InvalidPc(h.pc) && !SlowPath(m, h)
    ensures InnerLoop(m, h, n) == Plain(m, h, 0, n) && InnerExecuted(m, h, n) == Executed(m, h, 0, n)
    ensures CachedInnerExecuted(m, c, h, n) == CachedExecuted(m, c, h, 0, n)
  {
    hide Placed, Plain, Executed, CachedExecuted;
  }

  lemma RunStarts<S, I>(m: Machine<S, I>, h: Hart<S>, n: nat) returns (more: seq<(nat, I)>)
    requires n > 0 && m.interrupt(h).None?
    ensures RunExecuted(m, h, n) == InnerExecuted(m, h, n) + more
    ensures InnerLoop(m, h, n).stop.Trapped? ==> more == []
  {
    hide InnerLoop, InnerExecuted, Retire;
    InnerProgress(m, h, n);
    var r := InnerLoop(m, h, n);
    more := if r.stop == Done then RunExecuted(m, Retire(r.hart, r.instret), r.n - r.instret) else [];
  }

  lemma CachedRunStarts<S, I>(m: Machine<S, I>, c: Icache<I>, h: Hart<S>, n: nat) returns (more: seq<(nat, I)>)
    requires Placed(c) && !InvalidPc(h.pc) && n > 0 && m.interrupt(h).None?
    ensures CachedRunExecuted(m, c, h, n) == CachedInnerExecuted(m, c, h, n) + more
  {
    hide Placed, CachedInner, CachedInnerExecuted;
    var (c', r) := CachedInner(m, c, h, n);
    more := if r.stop == Done then CachedRunExecuted(m, c', Retire(r.hart, r.instret), r.n - r.instret) else [];
  }

  // ----- The discipline of FENCE.I -----

  /** What was fetched through the cache since the last flush, after an instruction. */
  function Since<I>(seen: map<nat, I>, flushed: bool): map<nat, I> {
    if flushed then map[] else seen
  }

  /**
   Along the plain loop: an instruction that was fetched since the last flush is still there when it is reached again.
   Code may be overwritten at any time, also after it has been executed, if a flush comes before its next execution.
   */
  ghost predicate Fenced<S, I>(m: Machine<S, I>, seen: map<nat, I>, h: Hart<S>, instret: nat, n: nat)
    decreases n - instret
  {
    instret < n ==>
      var f := m.fetch(h.rest, h.pc);
      && (h.pc in seen ==> f == Ok(seen[h.pc]))
      && (f.Ok? ==>
            var o := m.execute(h, h.pc, f.value);
            GoesOn(h, o) ==> Fenced(m, Since(seen[h.pc := f.value], o.flushed), o.hart.(pc := o.npc), instret + 1, n))
  }

  ghost function SeenAfter<S, I>(m: Machine<S, I>, seen: map<nat, I>, h: Hart<S>, instret: nat, n: nat): map<nat, I>
    decreases n - instret
  {
    if instret >= n || m.fetch(h.rest, h.pc).Err? then seen
    else
      var insn := m.fetch(h.rest, h.pc).value;
      var o := m.execute(h, h.pc, insn);
      var seen' := Since(seen[h.pc := insn], o.flushed);
      if GoesOn(h, o) then SeenAfter(m, seen', o.hart.(pc := o.npc), instret + 1, n) else seen'
  }

  ghost function SeenAfterInner<S, I>(m: Machine<S, I>, seen: map<nat, I>, h: Hart<S>, n: nat): map<nat, I> {
    if SlowPath(m, h) then Since(seen, SlowFlushes(m, h, 0, n)) else SeenAfter(m, seen, h, 0, n)
  }

  /** The discipline over a whole call. */
  ghost predicate FencedRun<S, I>(m: Machine<S, I>, seen: map<nat, I>, h: Hart<S>, n: nat)
    decreases n, Rank(h.single_step), !h.serialized
  {
    n > 0 && m.interrupt(h) == None ==>
      && (!SlowPath(m, h) ==> Fenced(m, seen, h, 0, n))
      && var r := InnerLoop(m, h, n);
         InnerProgress(m, h, n);
         (r.stop == Done ==>
            FencedRun(m, SeenAfterInner(m, seen, h, n), Retire(r.hart, r.instret), r.n - r.instret))
  }

  ghost function SeenAfterRun<S, I>(m: Machine<S, I>, seen: map<nat, I>, h: Hart<S>, n: nat): map<nat, I>
    decreases n, Rank(h.single_step), !h.serialized
  {
    if n == 0 then seen
    else if m.interrupt(h).Some? then Since(seen, TrapFlushes(h))
    else
      var r, seen' := InnerLoop(m, h, n), SeenAfterInner(m, seen, h, n);
      InnerProgress(m, h, n);
      match r.stop
      case Trapped(_, _) => Since(seen', TrapFlushes(r.hart))
      case Done => SeenAfterRun(m, seen', Retire(r.hart, r.instret), r.n - r.instret)
      case _ => seen'
  }

  /** Every cached instruction is one that was fetched since the last flush. */
  ghost predicate Covers<I>(c: Icache<I>, seen: map<nat, I>)
    requires Placed(c)
  {
    forall i :: 0 <= i < ICACHE_ENTRIES && c.tag[i] != INVALID_TAG ==> c.tag[i] in seen && seen[c.tag[i]] == c.data[i]
  }

  lemma AccessedCovered<S, I>(m: Machine<S, I>, c: Icache<I>, seen: map<nat, I>, s: S, pc: nat)
    requires Placed(c) && Covers(c, seen) && !InvalidPc(pc) && (pc in seen ==> m.fetch(s, pc) == Ok(seen[pc]))
    ensures c.tag[IcacheIndex(pc)] == pc ==> m.fetch(s, pc) == Ok(c.data[IcacheIndex(pc)])
    ensures m.fetch(s, pc).Ok? ==>
              && Accessed(m, c, s, pc).Ok? && Placed(Accessed(m, c, s, pc).value)
              && Covers(Accessed(m, c, s, pc).value, seen[pc := m.fetch(s, pc).value])
  {
    AccessedPlaced(m, c, s, pc);
  }

  lemma KeptCovered<I>(c: Icache<I>, seen: map<nat, I>, flushed: bool)
    requires Placed(c) && Covers(c, seen)
    ensures Placed(Kept(c, flushed)) && Covers(Kept(c, flushed), Since(seen, flushed))
  {}

  /** A fenced loop hits no stale entry, and the cache still holds only what was fetched since the last flush. */
  lemma {:induction false} FencedNoStale<S, I>(m: Machine<S, I>, c: Icache<I>, seen: map<nat, I>, h: Hart<S>,
                                               instret: nat, n: nat)
    requires Placed(c) && Covers(c, seen) && !InvalidPc(h.pc) && instret <= n && Fenced(m, seen, h, instret, n)
    ensures NoStale(m, c, h, instret, n)
    ensures Covers(Cached(m, c, h, instret, n).0, SeenAfter(m, seen, h, instret, n))
    decreases n - instret
  {
    hide Placed, Covers, Accessed, IcacheIndex, Kept, Sentinel, Cached, Since;
    if instret < n {
      AccessedCovered(m, c, seen, h.rest, h.pc);
      AccessedFresh(m, c, h.rest, h.pc);
      AccessUnfold(m, c, h, instret, n);
      var a, f := Accessed(m, c, h.rest, h.pc), m.fetch(h.rest, h.pc);
      if f.Ok? {
        var o := m.execute(h, h.pc, f.value);
        KeptCovered(a.value, seen[h.pc := f.value], o.flushed);
        CachedUnfold(m, c, h, instret, n);
        if GoesOn(h, o) {
          FencedNoStale(m, Kept(a.value, o.flushed), Since(seen[h.pc := f.value], o.flushed), o.hart.(pc := o.npc),
                        instret + 1, n);
        }
      }
    } else {
      CachedDone(m, c, h, n);
    }
  }

  lemma FencedInnerCovers<S, I>(m: Machine<S, I>, c: Icache<I>, seen: map<nat, I>, h: Hart<S>, n: nat)
    requires Placed(c) && Covers(c, seen) && !InvalidPc(h.pc) && n > 0
    requires !SlowPath(m, h) ==> Fenced(m, seen, h, 0, n)
    ensures !SlowPath(m, h) ==> NoStale(m, c, h, 0, n)
    ensures Covers(CachedInner(m, c, h, n).0, SeenAfterInner(m, seen, h, n))
  {
    hide Placed, Covers, Kept, Cached, Since, NoStale, Fenced, SeenAfter, SlowFlushes, Slow;
    if SlowPath(m, h) {
      KeptCovered(c, seen, SlowFlushes(m, h, 0, n));
    } else {
      FencedNoStale(m, c, seen, h, 0, n);
    }
  }

  /** A fenced call has no stale hit, so it does what the call without a cache does, and so on for the next call. */
  lemma {:induction false} FencedRunIsPlain<S, I>(m: Machine<S, I>, c: Icache<I>, seen: map<nat, I>, h: Hart<S>, n: nat)
    requires Placed(c) && Covers(c, seen) && !InvalidPc(h.pc) && FencedRun(m, seen, h, n)
    ensures NoStaleRun(m, c, h, n) && CachedRounds(m, c, h, n).1 == Rounds(m, h, n)
    ensures Covers(CachedRounds(m, c, h, n).0, SeenAfterRun(m, seen, h, n))
    decreases n, Rank(h.single_step), !h.serialized
  {
    hide Placed, Covers, Kept, Since, CachedInner, InnerLoop, AfterTrap, Retire, NoStale, Fenced, SeenAfterInner;
    if n > 0 {
      if m.interrupt(h).Some? {
        KeptCovered(c, seen, TrapFlushes(h));
      } else {
        FencedInnerCovers(m, c, seen, h, n);
        CachedInnerIsPlain(m, c, h, n);
        InnerProgress(m, h, n);
        var (c', r) := CachedInner(m, c, h, n);
        var seen' := SeenAfterInner(m, seen, h, n);
        KeptCovered(c', seen', TrapFlushes(r.hart));
        if r.stop == Done {
          RetireKeeps(r.hart, r.instret);
          FencedRunIsPlain(m, c', seen', Retire(r.hart, r.instret), r.n - r.instret);
        }
      }
    }
  }

  // ----- A program that rewrites itself -----

  /**
   The program at 0 to 8, whose first instruction is the word of memory: 0 stores a 1 there, and 1 traps. Then comes
   FENCE.I, or a no-operation, and a jump back.
   */
  function SelfModifying(fence: bool): Machine<nat, nat> {
    Machine(
      (memory, address) => Ok(if address == 0 then memory else if address == 4 then 2 else 3),
      insn => 4,
      (h: Hart<nat>, pc, insn) =>
        if insn == 0 then Next(h.(rest := 1), 4, false)
        else if insn == 1 then Threw(h, 2, false)
        else if insn == 2 then Next(h, 8, fence)
        else Next(h, 0, false),
      h => None, (h: Hart<nat>, trap, epc) => (0, 0, h.rest), (h: Hart<nat>, cause) => h.rest, pc => false, false)
  }

  const AT_START: Hart<nat> := Hart(0, false, STEP_NONE, DCSR_CAUSE_NONE, 0, 0)

  /** The plain loop stores, goes around, and traps on the new instruction. */
  lemma SelfModifyingPlain(fence: bool)
    ensures Plain(SelfModifying(fence), AT_START, 0, 4) == Inner(AT_START.(rest := 1), 3, 4, Trapped(2, 0))
    ensures Fenced(SelfModifying(fence), map[], AT_START, 0, 4) <==> fence
  {
    var m := SelfModifying(fence);
    var h1 := AT_START.(rest := 1);
    assert Plain(m, AT_START, 0, 4) == Plain(m, h1.(pc := 4), 1, 4);
    assert Plain(m, h1.(pc := 4), 1, 4) == Plain(m, h1.(pc := 8), 2, 4) == Plain(m, h1, 3, 4);
    var seen1, seen2 := map[0 := 0], map[0 := 0][4 := 2];
    assert map[][0 := 0] == seen1;
    assert Fenced(m, map[], AT_START, 0, 4) == Fenced(m, seen1, h1.(pc := 4), 1, 4);
    assert Fenced(m, seen1, h1.(pc := 4), 1, 4) == Fenced(m, Since(seen2, fence), h1.(pc := 8), 2, 4);
    assert Fenced(m, Since(seen2, fence), h1.(pc := 8), 2, 4)
        == Fenced(m, Since(seen2, fence)[8 := 3], h1, 3, 4);
  }

  /** With the fence the cached loop traps too; without it the old instruction is executed again. */
  lemma StaleBreaks(c: Icache<nat>)
    requires Placed(c) && forall i :: 0 <= i < ICACHE_ENTRIES ==> c.tag[i] == INVALID_TAG
    ensures Cached(SelfModifying(true), c, AT_START, 0, 4).1 == Plain(SelfModifying(true), AT_START, 0, 4)
    ensures Cached(SelfModifying(false), c, AT_START, 0, 4).1.stop == Done
    ensures Plain(SelfModifying(false), AT_START, 0, 4).stop == Trapped(2, 0)
  {
    SelfModifyingPlain(true);
    SelfModifyingPlain(false);
    FencedNoStale(SelfModifying(true), c, map[], AT_START, 0, 4);
    CachedIsPlain(SelfModifying(true), c, AT_START, 0, 4);
    UnfencedCached(c);
  }

  lemma UnfencedCached(c: Icache<nat>)
    requires Placed(c) && forall i :: 0 <= i < ICACHE_ENTRIES ==> c.tag[i] == INVALID_TAG
    ensures Cached(SelfModifying(false), c, AT_START, 0, 4).1.stop == Done
  {
    hide Cached;
    var h1 := AT_START.(rest := 1);
    var c1 := StoreStep(c, AT_START, 0);
    var c2 := QuietStep(c1, h1.(pc := 4), 1);
    var c3 := QuietStep(c2, h1.(pc := 8), 2);
    var c4 := StoreStep(c3, h1, 3);
    CachedDone(SelfModifying(false), c4, h1.(pc := 4), 4);
  }

  /** The old instruction at 0, fetched or still cached. */
  lemma StoreStep(c: Icache<nat>, h: Hart<nat>, instret: nat) returns (c': Icache<nat>)
    requires Placed(c) && h == AT_START.(rest := h.rest) && instret < 4
    requires if c.tag[0] == 0 then c.data[0] == 0 else h.rest == 0
    ensures Placed(c') && c'.tag[0] == 0 && c'.data[0] == 0 && c'.tag[1..] == c.tag[1..]
    ensures Cached(SelfModifying(false), c, h, instret, 4)
            == Cached(SelfModifying(false), c', h.(pc := 4, rest := 1), instret + 1, 4)
  {
    hide Cached;
    CachedUnfold(SelfModifying(false), c, h, instret, 4);
    c' := Accessed(SelfModifying(false), c, h.rest, 0).value;
  }

  /** The instructions at 4 and 8 are not the ones that change; they leave the entry of 0 alone. */
  lemma QuietStep(c: Icache<nat>, h: Hart<nat>, instret: nat) returns (c': Icache<nat>)
    requires Placed(c) && c.tag[0] == 0 && c.data[0] == 0 && instret < 4
    requires h.pc in {4, 8} && c.tag[IcacheIndex(h.pc)] == INVALID_TAG
    ensures Placed(c') && c'.tag[0] == 0 && c'.data[0] == 0
    ensures forall i :: 0 <= i < ICACHE_ENTRIES && i != IcacheIndex(h.pc) ==> c'.tag[i] == c.tag[i]
    ensures Cached(SelfModifying(false), c, h, instret, 4)
            == Cached(SelfModifying(false), c', h.(pc := if h.pc == 4 then 8 else 0), instret + 1, 4)
  {
    hide Cached;
    CachedUnfold(SelfModifying(false), c, h, instret, 4);
    c' := Accessed(SelfModifying(false), c, h.rest, h.pc).value;
  }

  /** The outer loop, one round further. */
  lemma RoundsUnfold<S, I>(m: Machine<S, I>, c: Icache<I>, h: Hart<S>, n: nat)
    requires Placed(c) && !InvalidPc(h.pc)
    ensures CachedRounds(m, c, h, 0) == (c, Run(h, false))
    ensures n > 0 ==>
              match m.interrupt(h)
              case Some(t) =>
                CachedRounds(m, c, h, n) == (Kept(c, TrapFlushes(h)), Run(Retire(AfterTrap(m, h, t, h.pc), 0), false))
              case None =>
                var (c', r) := CachedInner(m, c, h, n);
                match r.stop
                case Trapped(t, epc) =>
                  CachedRounds(m, c, h, n)
                  == (Kept(c', TrapFlushes(r.hart)), Run(Retire(AfterTrap(m, r.hart, t, epc), r.instret), false))
                case Done =>
                  CachedRounds(m, c, h, n) == CachedRounds(m, c', Retire(r.hart, r.instret), r.n - r.instret)
                case _ => CachedRounds(m, c, h, n) == (c', Run(r.hart, r.stop == Stray))
  {
    hide CachedInner, AfterTrap, Kept, Placed;
  }

  // ----- The implementation -----

  class Processor<S(!new), I(!new)> {
    const m: Machine<S, I>
    var state: Hart<S>
    var halt_request: bool
    var dcsr_halt: bool
    const tag: array<nat>
    const next: array<nat>
    const data: array<I>

    ghost predicate Shaped()
      reads tag, next, data
    {
      && tag.Length == ICACHE_ENTRIES && next.Length == ICACHE_ENTRIES && data.Length == ICACHE_ENTRIES
      && tag != next && tag as object != data && next as object != data
      && (forall i :: 0 <= i < ICACHE_ENTRIES ==> next[i] < ICACHE_ENTRIES)
      && Placed(View())
    }

    ghost function View(): Icache<I>
      reads tag, data
    {
      Icache(tag[..], data[..])
    }

    constructor (m: Machine<S, I>, state: Hart<S>, filler: I)
      ensures Shaped() && this.m == m && this.state == state && Covers(View(), map[])
      ensures fresh(tag) && fresh(next) && fresh(data)
    {
      this.m, this.state := m, state;
      halt_request, dcsr_halt := false, false;
      tag := new nat[ICACHE_ENTRIES](_ => INVALID_TAG);
      next := new nat[ICACHE_ENTRIES](_ => 0);
      data := new I[ICACHE_ENTRIES](_ => filler);
    }

    function NextEntry(i: nat): (j: nat)
      requires Shaped() && i < ICACHE_ENTRIES
      reads tag, next, data
      ensures j < ICACHE_ENTRIES
    {
      next[i]
    }

    method FlushIcache()
      requires Shaped()
      modifies tag
      ensures Shaped() && View() == Kept(old(View()), true)
    {
      for i := 0 to ICACHE_ENTRIES
        invariant forall k :: 0 <= k < i ==> tag[k] == INVALID_TAG
      {
        tag[i] := INVALID_TAG;
      }
      assert tag[..] == FlushedTags();
    }

    /** A call of the instruction function: it changes the hart and may flush the icache. */
    method ExecuteInsn(pc: nat, insn: I) returns (o: Outcome<S>)
      requires Shaped() && state.pc == pc
      modifies this`state, tag
      ensures o == m.execute(old(state), pc, insn) && state == o.hart
      ensures Shaped() && View() == Kept(old(View()), o.flushed)
    {
      o := m.execute(state, pc, insn);
      if o.flushed {
        FlushIcache();
      }
      state := o.hart;
    }

    /** `access_icache`: the index of the entry for `addr`, refilled on a miss; a fetch can trap. */
    method AccessIcache(addr: nat) returns (r: Result<nat, Trap>)
      requires Shaped() && !InvalidPc(addr)
      modifies tag, next, data
      ensures Shaped()
      ensures match Accessed(m, old(View()), state.rest, addr)
              case Err(t) => r == Err(t) && View() == old(View())
              case Ok(c) => r == Ok(IcacheIndex(addr)) && View() == c
    {
      hide IcacheIndex, Placed;
      AccessedPlaced(m, View(), state.rest, addr);
      Lengths();
      var idx := IcacheIndex(addr);
      if tag[idx] == addr {
        return Ok(idx);
      }
      var f := m.fetch(state.rest, addr);
      match f {
        case Err(t) => return Err(t);
        case Ok(insn) =>
          tag[idx] := addr;
          next[idx] := IcacheIndex(addr + m.length(insn));
          data[idx] := insn;
          if m.traced(addr) {
            tag[idx] := INVALID_TAG;
          }
          assert View() == Accessed(m, old(View()), state.rest, addr).value;
          return Ok(idx);
      }
    }

    lemma Lengths()
      requires Shaped()
      ensures tag.Length == ICACHE_ENTRIES && next.Length == ICACHE_ENTRIES && data.Length == ICACHE_ENTRIES
    {}

    /** No sentinel equals a tag, so an entry whose tag is the pc is the pc's own. */
    lemma TagMatch(i: nat, pc: nat)
      requires Shaped() && i < ICACHE_ENTRIES && tag[i] == pc
      requires InvalidPc(pc) ==> pc in {PC_SERIALIZE_BEFORE, PC_SERIALIZE_AFTER, PC_SERIALIZE_WFI}
      ensures !InvalidPc(pc) && IcacheIndex(pc) == i
    {
      assert View().tag[i] == pc;
    }

    /** A hit goes on with the instruction that the entry holds. */
    lemma HitExecutes(h: Hart<S>, instret: nat, n: nat)
      requires Shaped() && !InvalidPc(h.pc) && instret < n && tag[IcacheIndex(h.pc)] == h.pc
      ensures Cached(m, View(), h, instret, n)
              == CachedExec(m, View(), data[IcacheIndex(h.pc)], h, instret, n)
    {
      hide CachedExec, IcacheIndex;
    }

    /**
     The switch statement: enter at the case of the first entry and fall through the cases above it while the
     next entry is tagged with the next pc. What is left to do is one `advance_pc`, or the trap to take.
     */
    method Chain(instret0: nat, n: nat) returns (npc: nat, instret: nat, trap: Option<Trap>)
      requires Shaped() && !InvalidPc(state.pc) && instret0 < n
      requires CachedExec(m, View(), data[IcacheIndex(state.pc)], state, instret0, n).1.stop != Stray
      modifies this`state, tag
      ensures Shaped() && instret0 <= instret < n
      ensures var spec := old(CachedExec(m, View(), data[IcacheIndex(state.pc)], state, instret0, n));
              if trap.Some? then spec == (View(), Inner(state, instret, n, Trapped(trap.value, npc)))
              else
                && spec == CachedAdvance(m, View(), state, npc, instret, n)
                && (InvalidPc(npc) ==>
                      !InvalidPc(state.pc) && npc in {PC_SERIALIZE_BEFORE, PC_SERIALIZE_AFTER, PC_SERIALIZE_WFI})
    {
      ghost var spec := CachedExec(m, View(), data[IcacheIndex(state.pc)], state, instret0, n);
      Lengths();
      hide Shaped, Sentinel, Cached, CachedExec, CachedAdvance, IcacheIndex, Placed, Kept;
      npc, instret, trap := state.pc, instret0, None;
      var ic_entry, i := IcacheIndex(npc), IcacheIndex(npc);
      while true
        invariant Shaped() && npc == state.pc && !InvalidPc(npc) && ic_entry == IcacheIndex(npc)
        invariant 0 <= i < ICACHE_ENTRIES && instret0 <= instret < n
        invariant spec == CachedExec(m, View(), data[ic_entry], state, instret, n)
        decreases n - instret
      {
        ExecUnfold(m, View(), data[ic_entry], state, instret, n);
        var o := ExecuteInsn(npc, data[ic_entry]);
        if o.Threw? {
          trap := Some(o.trap);
          return;
        }
        npc := o.npc;
        ic_entry := NextEntry(ic_entry);
        if i == ICACHE_ENTRIES - 1 { return; }
        if tag[ic_entry] != npc { return; }
        TagMatch(ic_entry, npc);
        if instret + 1 == n { return; }
        AdvanceUnfold(m, View(), state, npc, instret, n);
        instret := instret + 1;
        state := state.(pc := npc);
        HitExecutes(state, instret, n);
        i := i + 1;
      }
    }

    /** The `else while` loop of `step` (execute.cc:173-221), whatever it executes, is the cached loop. */
    method FastPath(n0: nat) returns (instret: nat, n: nat, stop: Stop)
      requires Shaped() && !InvalidPc(state.pc) && Cached(m, View(), state, 0, n0).1.stop != Stray
      modifies this`state, tag, next, data
      ensures Shaped() && (stop.Trapped? || !InvalidPc(state.pc))
      ensures old(Cached(m, View(), state, 0, n0)) == (View(), Inner(state, instret, n, stop))
    {
      hide Sentinel, Placed, IcacheIndex, CachedExec, CachedAdvance, Accessed;
      ghost var spec := Cached(m, View(), state, 0, n0);
      instret, n, stop := 0, n0, Done;
      while instret < n
        invariant Shaped() && !InvalidPc(state.pc) && stop == Done && instret <= n == n0
        invariant spec == Cached(m, View(), state, instret, n)
        decreases n - instret
      {
        AccessUnfold(m, View(), state, instret, n);
        var access := AccessIcache(state.pc);
        if access.Err? {
          stop := Trapped(access.error, state.pc);
          return;
        }
        var npc, trap;
        npc, instret, trap := Chain(instret, n);
        if trap.Some? {
          stop := Trapped(trap.value, npc);
          return;
        }
        AdvanceUnfold(m, View(), state, npc, instret, n);
        if InvalidPc(npc) {
          instret, n := HandleSentinel(npc, instret, n);
          return;
        }
        state := state.(pc := npc);
        instret := instret + 1;
      }
    }

    /** The sentinel cases of `advance_pc`. */
    method HandleSentinel(npc: nat, instret0: nat, n0: nat) returns (instret: nat, n: nat)
      requires npc in {PC_SERIALIZE_BEFORE, PC_SERIALIZE_AFTER, PC_SERIALIZE_WFI}
      modifies this`state
      ensures Sentinel(old(state), npc, instret0, n0) == Inner(state, instret, n, Done)
      ensures state == old(state).(serialized := state.serialized)
    {
      instret, n := instret0, n0;
      if npc == PC_SERIALIZE_BEFORE {
        state := state.(serialized := true);
      } else if npc == PC_SERIALIZE_AFTER {
        instret := instret + 1;
      } else {
        instret := instret + 1;
        n := instret;
      }
    }

    method EnterDebugMode(cause: nat)
      requires Shaped()
      modifies this`state, tag
      ensures Shaped() && state == EnterDebug(m, old(state), cause) && View() == Kept(old(View()), true)
    {
      state := EnterDebug(m, state, cause);
      FlushIcache();
    }

    /** The single-step state machine of execute.cc:145-156: `leave` says that debug mode was entered. */
    method StepCheck() returns (leave: bool)
      requires Shaped()
      modifies this`state, tag
      ensures Shaped() && View() == Kept(old(View()), leave)
      ensures (state, leave) == Stepped(m, old(state)) && (!InvalidPc(old(state.pc)) ==> !InvalidPc(state.pc))
    {
      hide Placed;
      leave := false;
      if !state.serialized && state.single_step == STEP_STEPPED {
        state := state.(single_step := STEP_NONE);
        if state.cause == DCSR_CAUSE_NONE {
          EnterDebugMode(DCSR_CAUSE_STEP);
          return true;
        }
      }
      if state.single_step == STEP_STEPPING {
        state := state.(single_step := STEP_STEPPED);
      }
    }

    /** The slow branch of `step`: no icache, single stepping, and a way out into the debug ROM. */
    method SlowLoop(n0: nat) returns (instret: nat, n: nat, stop: Stop)
      requires Shaped() && !InvalidPc(state.pc) && Slow(m, state, 0, n0).stop != Stray
      modifies this`state, tag
      ensures Shaped() && (stop.Trapped? || !InvalidPc(state.pc))
      ensures Slow(m, old(state), 0, n0) == Inner(state, instret, n, stop)
      ensures View() == Kept(old(View()), SlowFlushes(m, old(state), 0, n0))
    {
      hide Sentinel, Kept, Shaped, Slow, SlowFlushes, Stepped;
      ghost var spec, flushes, c := Slow(m, state, 0, n0), SlowFlushes(m, state, 0, n0), View();
      ghost var flushed := false;
      KeptNot(c);
      instret, n, stop := 0, n0, Done;
      while instret < n
        invariant Shaped() && !InvalidPc(state.pc) && stop == Done && instret <= n == n0
        invariant View() == Kept(c, flushed) && flushes == (flushed || SlowFlushes(m, state, instret, n))
        invariant spec == Slow(m, state, instret, n)
        decreases n - instret
      {
        KeptTwice(c, flushed);
        SlowFlushesUnfold(m, state, instret, n);
        SlowStep(m, state, instret, n);
        var leave := StepCheck();
        if leave {
          return;
        }
        var pc := state.pc;
        var fetch := m.fetch(state.rest, pc);
        if fetch.Err? {
          stop := Trapped(fetch.error, pc);
          return;
        }
        var o := ExecuteInsn(pc, fetch.value);
        flushed := flushed || o.flushed;
        if o.Threw? {
          stop := Trapped(o.trap, pc);
          return;
        }
        if InvalidPc(o.npc) {
          instret, n := HandleSentinel(o.npc, instret, n);
          return;
        }
        state := state.(pc := o.npc);
        instret := instret + 1;
        if InDebugRom(state.pc) {
          stop := Parked;
          return;
        }
      }
      SlowEnds(m, state, instret, n);
    }

    static lemma KeptNot(c: Icache<I>)
      ensures Kept(c, false) == c
    {}

    static lemma KeptTwice(c: Icache<I>, flushed: bool)
      ensures forall again :: Kept(Kept(c, flushed), again) == Kept(c, flushed || again)
    {}

    /** The `catch (trap_t&)` block. */
    method TakeTrap(trap: Trap, epc: nat)
      requires Shaped()
      modifies this`state, tag
      ensures Shaped() && state == AfterTrap(m, old(state), trap, epc)
      ensures View() == Kept(old(View()), TrapFlushes(old(state)))
    {
      hide Placed;
      var (pc, cause, rest) := m.take_trap(state, trap, epc);
      if state.cause == DCSR_CAUSE_NONE {
        FlushIcache();
      }
      state := state.(pc := pc, cause := cause, rest := rest);
      if state.single_step == STEP_STEPPED {
        state := state.(single_step := STEP_NONE);
        EnterDebugMode(DCSR_CAUSE_STEP);
      }
    }

    method CountRetired(instret: nat)
      requires Shaped()
      modifies this`state
      ensures Shaped() && state == Retire(old(state), instret)
    {
      state := state.(minstret := (state.minstret + instret) % WORD);
    }

    /** One of the two inner loops (execute.cc:141-221). */
    method RunInner(n0: nat) returns (instret: nat, n: nat, stop: Stop)
      requires Shaped() && !InvalidPc(state.pc) && n0 > 0 && CachedInner(m, View(), state, n0).1.stop != Stray
      modifies this`state, tag, next, data
      ensures Shaped() && (stop.Trapped? || !InvalidPc(state.pc))
      ensures old(CachedInner(m, View(), state, n0)) == (View(), Inner(state, instret, n, stop))
    {
      hide Slow, SlowFlushes, Placed, Cached, Kept;
      if SlowPath(m, state) {
        instret, n, stop := SlowLoop(n0);
      } else {
        instret, n, stop := FastPath(n0);
      }
    }

    /** One round of the outer loop; `parked` is the `return` out of the debug ROM. */
    method Round(n0: nat) returns (n: nat, parked: bool)
      requires Shaped() && !InvalidPc(state.pc) && n0 > 0 && !CachedRounds(m, View(), state, n0).1.stray
      modifies this`state, tag, next, data
      ensures Shaped()
      ensures var spec := old(CachedRounds(m, View(), state, n0));
              if parked || n == 0 then spec == (View(), Run(state, false))
              else !InvalidPc(state.pc) && spec == CachedRounds(m, View(), state, n)
      ensures parked || n < n0 || (n == n0 && Closer(old(state), state))
    {
      hide CachedRounds, CachedInner, AfterTrap, Placed, Kept;
      RoundsUnfold(m, View(), state, n0);
      var pending := m.interrupt(state);
      var instret := 0;
      n, parked := n0, false;
      if pending.Some? {
        TakeTrap(pending.value, state.pc);
        n := instret;
      } else {
        var stop;
        instret, n, stop := RunInner(n);
        if stop.Parked? {
          parked := true;
          return;
        }
        if stop.Trapped? {
          TakeTrap(stop.trap, stop.epc);
          n := instret;
        }
      }
      CountRetired(instret);
      n := n - instret;
      if !InvalidPc(state.pc) {
        RoundsUnfold(m, View(), state, n);
      }
    }

    /**
     `step(n)`: on every machine, what the call does is `CachedRounds`; and if no hit is stale, the cached, chained
     execution loop leaves the hart exactly where the plain loop does.
     */
    method Step(n0: nat)
      requires Shaped() && !InvalidPc(state.pc)
      requires !Called(View(), state, n0).1.stray
      modifies this`state, tag, next, data
      ensures Shaped() && old(Called(View(), state, n0)) == (View(), Run(state, false))
      ensures old(Unfooled(View(), state, n0)) ==> state == Rounds(m, old(Halted(state)), n0).hart
    {
      hide CachedRounds, CachedInner, NoStaleRun, Rounds, Placed, Kept;
      CallIsPlain(View(), state, n0);
      ghost var spec := Called(View(), state, n0);
      KeptNot(View());
      if state.cause == DCSR_CAUSE_NONE {
        if halt_request {
          EnterDebugMode(DCSR_CAUSE_DEBUGINT);
        } else if dcsr_halt {
          EnterDebugMode(DCSR_CAUSE_HALT);
        }
      }
      var n := n0;
      assert spec == CachedRounds(m, View(), state, n);
      RoundsUnfold(m, View(), state, n);
      while n > 0
        invariant Shaped() && if n == 0 then spec == (View(), Run(state, false))
                              else !InvalidPc(state.pc) && spec == CachedRounds(m, View(), state, n)
        decreases n, Rank(state.single_step), !state.serialized
      {
        var parked;
        n, parked := Round(n);
        if parked {
          return;
        }
      }
    }

    /** The hart after the check for a halt request, and whether that enters debug mode and so flushes the icache. */
    function Halted(h: Hart<S>): Hart<S>
      reads this
    {
      HaltCheck(m, h, halt_request, dcsr_halt)
    }

    predicate Halts(h: Hart<S>)
      reads this
    {
      h.cause == DCSR_CAUSE_NONE && (halt_request || dcsr_halt)
    }

    lemma HaltedEven(c: Icache<I>, h: Hart<S>)
      requires Placed(c) && !InvalidPc(h.pc)
      ensures Placed(Kept(c, Halts(h))) && !InvalidPc(Halted(h).pc)
    {}

    /** A whole call of `step` with the cache `c`. */
    ghost function Called(c: Icache<I>, h: Hart<S>, n: nat): (Icache<I>, Run<S>)
      requires Placed(c) && !InvalidPc(h.pc)
      reads this
    {
      HaltedEven(c, h);
      CachedRounds(m, Kept(c, Halts(h)), Halted(h), n)
    }

    /** No hit of it is stale. */
    ghost predicate Unfooled(c: Icache<I>, h: Hart<S>, n: nat)
      requires Placed(c) && !InvalidPc(h.pc)
      reads this
    {
      HaltedEven(c, h);
      NoStaleRun(m, Kept(c, Halts(h)), Halted(h), n)
    }

    lemma CallIsPlain(c: Icache<I>, h: Hart<S>, n: nat)
      requires Placed(c) && !InvalidPc(h.pc)
      ensures Unfooled(c, h, n) ==> Called(c, h, n).1 == Rounds(m, Halted(h), n)
    {
      hide NoStaleRun, CachedRounds, Rounds, Placed, Kept;
      HaltedEven(c, h);
      if Unfooled(c, h, n) {
        CachedRunIsPlain(m, Kept(c, Halts(h)), Halted(h), n);
      }
    }

    /** Calls that keep the discipline of FENCE.I are among these, and the next call can go on from there. */
    lemma FencedCall(c: Icache<I>, seen: map<nat, I>, h: Hart<S>, n: nat)
      requires Placed(c) && !InvalidPc(h.pc) && Covers(c, seen)
      requires FencedRun(m, Since(seen, Halts(h)), Halted(h), n)
      ensures Unfooled(c, h, n) && Called(c, h, n).1 == Rounds(m, Halted(h), n)
      ensures Placed(Called(c, h, n).0)
      ensures Covers(Called(c, h, n).0, SeenAfterRun(m, Since(seen, Halts(h)), Halted(h), n))
    {
      hide NoStaleRun, CachedRounds, Rounds, FencedRun, SeenAfterRun, Placed, Kept, Covers, Since;
      HaltedEven(c, h);
      KeptCovered(c, seen, Halts(h));
      FencedRunIsPlain(m, Kept(c, Halts(h)), Since(seen, Halts(h)), Halted(h), n);
    }
  }

  /** A halt request, or the halt bit of dcsr, enters debug mode before anything runs. */
  function HaltCheck<S, I>(m: Machine<S, I>, h: Hart<S>, halt_request: bool, dcsr_halt: bool): Hart<S> {
    if h.cause != DCSR_CAUSE_NONE then h
    else if halt_request then EnterDebug(m, h, DCSR_CAUSE_DEBUGINT)
    else if dcsr_halt then EnterDebug(m, h, DCSR_CAUSE_HALT)
    else h
  }
}

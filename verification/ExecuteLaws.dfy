/**
 What a call of `step` executes, retires and ends with, instruction by instruction and in the numbers of the source:
 wait-for-interrupt, serialization, traps, parking, single stepping and halt requests.
 */
module ExecuteLaws {
  import opened Common
  import opened Execute

  /** An executed instruction: the hart and the instruction it executed at its pc, and what that did. */
  datatype Entry<S, I> = Entry(at: Hart<S>, insn: I, did: Outcome<S>)

  predicate Waits<S, I>(e: Entry<S, I>) { e.did.Next? && e.did.npc == 7 }

  /** All that complete retire, except those that ask to be executed again after serialization. */
  predicate Retires<S, I>(e: Entry<S, I>) { e.did.Next? && e.did.npc != 3 }

  ghost predicate KeepsCounter<S, I>(e: Entry<S, I>) { e.did.hart.minstret == e.at.minstret }

  ghost function Retired<S, I>(steps: seq<Entry<S, I>>): (r: nat)
    ensures r <= |steps|
  {
    if steps == [] then 0 else (if Retires(steps[0]) then 1 else 0) + Retired(steps[1..])
  }

  // ----- The instructions of a call -----

  /** The instructions of an inner loop, on the debug branch (`slow`) or the other one. */
  ghost function InnerSteps<S, I>(m: Machine<S, I>, slow: bool, h: Hart<S>, instret: nat, n: nat): seq<Entry<S, I>>
    decreases n - instret
  {
    if instret >= n then []
    else
      var (g, entered) := if slow then Stepped(m, h) else (h, false);
      if entered || m.fetch(g.rest, g.pc).Err? then []
      else
        var insn := m.fetch(g.rest, g.pc).value;
        var o := m.execute(g, g.pc, insn);
        [Entry(g, insn, o)] +
        if GoesOn(g, o) && !(slow && InDebugRom(o.npc)) then InnerSteps(m, slow, o.hart.(pc := o.npc), instret + 1, n)
        else []
  }

  ghost function RunSteps<S, I>(m: Machine<S, I>, h: Hart<S>, n: nat): seq<Entry<S, I>>
    decreases n, Rank(h.single_step), !h.serialized
  {
    if n == 0 || m.interrupt(h).Some? then []
    else
      var r := InnerLoop(m, h, n);
      InnerProgress(m, h, n);
      InnerSteps(m, SlowPath(m, h), h, 0, n) +
      if r.stop == Done then RunSteps(m, Retire(r.hart, r.instret), r.n - r.instret) else []
  }

  /** How a call ends: with its budget used up or waiting, by a trap or interrupt, or parked in the debug ROM. */
  ghost function RunEnd<S, I>(m: Machine<S, I>, h: Hart<S>, n: nat): Stop
    decreases n, Rank(h.single_step), !h.serialized
  {
    if n == 0 then Done
    else
      match m.interrupt(h)
      case Some(t) => Trapped(t, h.pc)
      case None =>
        var r := InnerLoop(m, h, n);
        InnerProgress(m, h, n);
        if r.stop == Done then RunEnd(m, Retire(r.hart, r.instret), r.n - r.instret) else r.stop
  }

  ghost predicate KeepCounter<S, I>(steps: seq<Entry<S, I>>) {
    forall k :: 0 <= k < |steps| ==> KeepsCounter(steps[k])
  }

  lemma {:induction false} RetiredSum<S, I>(a: seq<Entry<S, I>>, b: seq<Entry<S, I>>)
    ensures Retired(a + b) == Retired(a) + Retired(b)
  {
    if a == [] {
      assert a + b == b;
    } else {
      assert (a + b)[0] == a[0] && (a + b)[1..] == a[1..] + b;
      RetiredSum(a[1..], b);
    }
  }

  // ----- One inner loop -----

  ghost function Branch<S, I>(m: Machine<S, I>, slow: bool, h: Hart<S>, instret: nat, n: nat): Inner<S> {
    if slow then Slow(m, h, instret, n) else Plain(m, h, instret, n)
  }

  /** One turn of either inner loop, sentinels by their numbers. */
  lemma BranchTurn<S, I>(m: Machine<S, I>, slow: bool, h: Hart<S>, instret: nat, n: nat)
    requires instret < n
    ensures var (g, entered) := if slow then Stepped(m, h) else (h, false);
            var f, r := m.fetch(g.rest, g.pc), Branch(m, slow, h, instret, n);
            if entered then r == Inner(g, instret, n, Done)
            else if f.Err? then r == Inner(g, instret, n, Trapped(f.error, g.pc))
            else
              var o := m.execute(g, g.pc, f.value);
              if !Regular(g, o) then r == Inner(o.hart, instret, n, Stray)
              else if o.Threw? then r == Inner(o.hart, instret, n, Trapped(o.trap, g.pc))
              else if o.npc == 3 then r == Inner(o.hart.(serialized := true), instret, n, Done)
              else if o.npc == 5 then r == Inner(o.hart, instret + 1, n, Done)
              else if o.npc == 7 then r == Inner(o.hart, instret + 1, instret + 1, Done)
              else if slow && 0x800 <= o.npc < 0xfff then r == Inner(o.hart.(pc := o.npc), instret + 1, n, Parked)
              else r == Branch(m, slow, o.hart.(pc := o.npc), instret + 1, n)
  {
    hide Stepped;
    if slow {
      SlowStep(m, h, instret, n);
    }
  }

  lemma BranchEnds<S, I>(m: Machine<S, I>, slow: bool, h: Hart<S>, instret: nat, n: nat)
    requires instret >= n
    ensures Branch(m, slow, h, instret, n) == Inner(h, instret, n, Done)
  {}

  lemma StepsTurn<S, I>(m: Machine<S, I>, slow: bool, h: Hart<S>, instret: nat, n: nat)
    requires instret < n
    ensures var (g, entered) := if slow then Stepped(m, h) else (h, false);
            var f, steps := m.fetch(g.rest, g.pc), InnerSteps(m, slow, h, instret, n);
            if entered || f.Err? then steps == []
            else
              var o := m.execute(g, g.pc, f.value);
              if GoesOn(g, o) && !(slow && InDebugRom(o.npc)) then
                steps == [Entry(g, f.value, o)] + InnerSteps(m, slow, o.hart.(pc := o.npc), instret + 1, n)
              else steps == [Entry(g, f.value, o)]
  {
    hide Stepped, GoesOn, InDebugRom;
  }

  /** What an inner loop retires, and why it ends. */
  lemma {:induction false} InnerRetires<S, I>(m: Machine<S, I>, slow: bool, h: Hart<S>, instret: nat, n: nat)
    requires instret <= n
    ensures var steps, r := InnerSteps(m, slow, h, instret, n), Branch(m, slow, h, instret, n);
            && (r.stop == Stray || r.instret == instret + Retired(steps))
            && (forall k :: 0 <= k < |steps| - 1 ==> GoesOn(steps[k].at, steps[k].did))
            && (r.stop == Done && r.n != n ==> steps != [] && Waits(steps[|steps| - 1]) && r.n == r.instret)
            && (steps != [] && Waits(steps[|steps| - 1]) && r.stop != Stray ==> r.stop == Done && r.n == r.instret)
            && (steps != [] && steps[|steps| - 1].did.Threw? ==>
                  var e := steps[|steps| - 1];
                  r.stop == Trapped(e.did.trap, e.at.pc) && r.hart == e.did.hart)
    decreases n - instret
  {
    hide Stepped, InnerSteps, Branch;
    if instret == n {
      BranchEnds(m, slow, h, instret, n);
      NoSteps(m, slow, h, instret, n);
    } else {
      BranchTurn(m, slow, h, instret, n);
      StepsTurn(m, slow, h, instret, n);
      var (g, entered) := if slow then Stepped(m, h) else (h, false);
      var f := m.fetch(g.rest, g.pc);
      if !entered && f.Ok? {
        var o := m.execute(g, g.pc, f.value);
        if GoesOn(g, o) && !(slow && InDebugRom(o.npc)) {
          var rest := InnerSteps(m, slow, o.hart.(pc := o.npc), instret + 1, n);
          InnerRetires(m, slow, o.hart.(pc := o.npc), instret + 1, n);
          assert ([Entry(g, f.value, o)] + rest)[1..] == rest;
        }
      }
    }
  }

  lemma NoSteps<S, I>(m: Machine<S, I>, slow: bool, h: Hart<S>, instret: nat, n: nat)
    requires instret >= n
    ensures InnerSteps(m, slow, h, instret, n) == []
  {}

  /** An inner loop whose instructions leave the counter alone leaves it alone. */
  lemma {:induction false} InnerCounter<S, I>(m: Machine<S, I>, slow: bool, h: Hart<S>, instret: nat, n: nat)
    requires instret <= n && KeepCounter(InnerSteps(m, slow, h, instret, n))
    ensures Branch(m, slow, h, instret, n).stop != Stray ==>
              Branch(m, slow, h, instret, n).hart.minstret == h.minstret
    decreases n - instret
  {
    hide InnerSteps, Branch;
    if instret == n {
      BranchEnds(m, slow, h, instret, n);
    } else {
      BranchTurn(m, slow, h, instret, n);
      StepsTurn(m, slow, h, instret, n);
      var (g, entered) := if slow then Stepped(m, h) else (h, false);
      var f := m.fetch(g.rest, g.pc);
      if !entered && f.Ok? {
        var o := m.execute(g, g.pc, f.value);
        var steps := InnerSteps(m, slow, h, instret, n);
        assert KeepsCounter(steps[0]);
        if GoesOn(g, o) && !(slow && InDebugRom(o.npc)) {
          var rest := InnerSteps(m, slow, o.hart.(pc := o.npc), instret + 1, n);
          assert steps[1..] == rest;
          KeptTail(steps);
          InnerCounter(m, slow, o.hart.(pc := o.npc), instret + 1, n);
        }
      }
    }
  }

  lemma KeptTail<S, I>(steps: seq<Entry<S, I>>)
    requires steps != [] && KeepCounter(steps)
    ensures KeepCounter(steps[1..])
  {
    forall k | 0 <= k < |steps| - 1 ensures KeepsCounter(steps[1..][k]) {
      assert steps[1..][k] == steps[k + 1];
    }
  }

  // ----- The whole call -----

  lemma RunTurn<S, I>(m: Machine<S, I>, h: Hart<S>, n: nat)
    requires n > 0
    ensures match m.interrupt(h)
            case Some(t) =>
              && RunSteps(m, h, n) == [] && RunEnd(m, h, n) == Trapped(t, h.pc)
              && Rounds(m, h, n) == Run(Retire(AfterTrap(m, h, t, h.pc), 0), false)
            case None =>
              var slow := SlowPath(m, h);
              var r, steps := Branch(m, slow, h, 0, n), InnerSteps(m, slow, h, 0, n);
              && r.instret <= r.n <= n
              && (r.stop == Done && r.instret == 0 ==> Closer(h, r.hart))
              && if r.stop == Done then
                   var h', n' := Retire(r.hart, r.instret), r.n - r.instret;
                   && RunSteps(m, h, n) == steps + RunSteps(m, h', n') && RunEnd(m, h, n) == RunEnd(m, h', n')
                   && Rounds(m, h, n) == Rounds(m, h', n')
                 else
                   && RunSteps(m, h, n) == steps && RunEnd(m, h, n) == r.stop
                   && Rounds(m, h, n) ==
                      match r.stop
                      case Trapped(t, epc) => Run(Retire(AfterTrap(m, r.hart, t, epc), r.instret), false)
                      case _ => Run(r.hart, r.stop == Stray)
  {
    hide AfterTrap, Retire, Plain, Slow, InnerSteps;
    InnerProgress(m, h, n);
  }

  lemma RunNothing<S, I>(m: Machine<S, I>, h: Hart<S>)
    ensures RunSteps(m, h, 0) == [] && RunEnd(m, h, 0) == Done && Rounds(m, h, 0) == Run(h, false)
  {}

  lemma AfterTrapCounter<S, I>(m: Machine<S, I>, h: Hart<S>, trap: Trap, epc: nat)
    ensures AfterTrap(m, h, trap, epc).minstret == h.minstret
  {}

  lemma KeptParts<S, I>(a: seq<Entry<S, I>>, b: seq<Entry<S, I>>)
    requires KeepCounter(a + b)
    ensures KeepCounter(a) && KeepCounter(b)
  {
    forall k | 0 <= k < |a| ensures KeepsCounter(a[k]) { assert (a + b)[k] == a[k]; }
    forall k | 0 <= k < |b| ensures KeepsCounter(b[k]) { assert (a + b)[|a| + k] == b[k]; }
  }

  lemma WrapTwice(start: nat, a: nat, b: nat)
    ensures ((start + a) % WORD + b) % WORD == (start + a + b) % WORD
    ensures (start + a) % WORD % WORD == (start + a) % WORD
  {}

  /**
   A call adds to minstret exactly the number of instructions that it executed and that did not ask to be executed
   again, unless one of them writes the counter, or the call parks in the debug ROM.
   */
  lemma {:induction false} CallCounts<S, I>(m: Machine<S, I>, h: Hart<S>, n: nat)
    requires KeepCounter(RunSteps(m, h, n)) && (RunEnd(m, h, n).Trapped? || RunEnd(m, h, n) == Done)
    ensures n > 0 ==> Rounds(m, h, n).hart.minstret == (h.minstret + Retired(RunSteps(m, h, n))) % WORD
    decreases n, Rank(h.single_step), !h.serialized
  {
    hide RunSteps, RunEnd, Rounds, InnerSteps, Branch, AfterTrap, KeepCounter, Retired, Retire;
    hide SlowPath, Waits, GoesOn;
    if n > 0 {
      RunTurn(m, h, n);
      var slow := SlowPath(m, h);
      if m.interrupt(h).Some? {
        AfterTrapCounter(m, h, m.interrupt(h).value, h.pc);
        RetireCounter(AfterTrap(m, h, m.interrupt(h).value, h.pc), 0);
        NoneRetired<S, I>();
      } else {
        var r, steps := Branch(m, slow, h, 0, n), InnerSteps(m, slow, h, 0, n);
        InnerRetires(m, slow, h, 0, n);
        RetireCounter(r.hart, r.instret);
        if r.stop == Done {
          var h', n' := Retire(r.hart, r.instret), r.n - r.instret;
          var rest := RunSteps(m, h', n');
          KeptParts(steps, rest);
          InnerCounter(m, slow, h, 0, n);
          RetiredSum(steps, rest);
          WrapTwice(h.minstret, r.instret, Retired(rest));
          RunNothing(m, h');
          NoneRetired<S, I>();
          if n' > 0 {
            CallCounts(m, h', n');
          }
        } else {
          InnerCounter(m, slow, h, 0, n);
          AfterTrapCounter(m, r.hart, r.stop.trap, r.stop.epc);
          RetireCounter(AfterTrap(m, r.hart, r.stop.trap, r.stop.epc), r.instret);
        }
      }
    }
  }

  lemma RetireCounter<S>(h: Hart<S>, instret: nat)
    ensures Retire(h, instret) == h.(minstret := (h.minstret + instret) % WORD)
  {}

  lemma NoneRetired<S, I>()
    ensures Retired<S, I>([]) == 0
  {}

  /** A call that ends by itself has retired its whole budget, or stopped at an instruction that waits. */
  lemma {:induction false} CallBudget<S, I>(m: Machine<S, I>, h: Hart<S>, n: nat)
    requires RunEnd(m, h, n) == Done
    ensures var steps := RunSteps(m, h, n);
            && Retired(steps) <= n
            && (Retired(steps) == n || (steps != [] && Waits(steps[|steps| - 1])))
    decreases n, Rank(h.single_step), !h.serialized
  {
    hide RunSteps, RunEnd, Rounds, InnerSteps, Branch, AfterTrap, Retired;
    if n == 0 {
      RunNothing(m, h);
      NoneRetired<S, I>();
    } else {
      RunTurn(m, h, n);
      var slow := SlowPath(m, h);
      var r, steps := Branch(m, slow, h, 0, n), InnerSteps(m, slow, h, 0, n);
      InnerRetires(m, slow, h, 0, n);
      var h', n' := Retire(r.hart, r.instret), r.n - r.instret;
      RetiredSum(steps, RunSteps(m, h', n'));
      CallBudget(m, h', n');
      if r.n != n {
        RunNothing(m, h');
        NoneRetired<S, I>();
      }
    }
  }

  /** An instruction that waits for an interrupt is the last of its call, whatever the budget. */
  lemma {:induction false} WaitIsLast<S, I>(m: Machine<S, I>, h: Hart<S>, n: nat, k: nat)
    requires k < |RunSteps(m, h, n)| && Waits(RunSteps(m, h, n)[k]) && RunEnd(m, h, n) != Stray
    ensures k == |RunSteps(m, h, n)| - 1 && RunEnd(m, h, n) == Done
    decreases n, Rank(h.single_step), !h.serialized
  {
    hide RunSteps, RunEnd, Rounds, InnerSteps, Branch, AfterTrap;
    if n == 0 {
      RunNothing(m, h);
    } else {
      RunTurn(m, h, n);
      var slow := SlowPath(m, h);
      var r, steps := Branch(m, slow, h, 0, n), InnerSteps(m, slow, h, 0, n);
      InnerRetires(m, slow, h, 0, n);
      if r.stop == Done {
        var h', n' := Retire(r.hart, r.instret), r.n - r.instret;
        var rest := RunSteps(m, h', n');
        if k < |steps| {
          assert (steps + rest)[k] == steps[k];
          RunNothing(m, h');
        } else {
          assert (steps + rest)[k] == rest[k - |steps|];
          WaitIsLast(m, h', n', k - |steps|);
        }
      }
    }
  }

  ghost predicate EndsWaiting<S, I>(steps: seq<Entry<S, I>>) {
    steps != [] && Waits(steps[|steps| - 1])
  }

  /** A larger budget changes nothing in an inner loop that did not use its own up. */
  lemma {:induction false} InnerAside<S, I>(m: Machine<S, I>, slow: bool, h: Hart<S>, instret: nat, n: nat, n': nat)
    requires instret <= n <= n'
    ensures var steps, r := InnerSteps(m, slow, h, instret, n), Branch(m, slow, h, instret, n);
            || (r.stop == Done && r.instret == r.n == n && !EndsWaiting(steps))
            || (&& InnerSteps(m, slow, h, instret, n') == steps
                && Branch(m, slow, h, instret, n') ==
                   if EndsWaiting(steps) && r.stop == Done then r else r.(n := n'))
    decreases n - instret
  {
    hide Stepped, InnerSteps, Branch;
    if instret == n {
      BranchEnds(m, slow, h, instret, n);
      NoSteps(m, slow, h, instret, n);
    } else {
      BranchTurn(m, slow, h, instret, n);
      StepsTurn(m, slow, h, instret, n);
      BranchTurn(m, slow, h, instret, n');
      StepsTurn(m, slow, h, instret, n');
      var (g, entered) := if slow then Stepped(m, h) else (h, false);
      var f := m.fetch(g.rest, g.pc);
      if !entered && f.Ok? {
        var o := m.execute(g, g.pc, f.value);
        if GoesOn(g, o) && !(slow && InDebugRom(o.npc)) {
          var next := o.hart.(pc := o.npc);
          InnerAside(m, slow, next, instret + 1, n, n');
          LastOfRest(Entry(g, f.value, o), InnerSteps(m, slow, next, instret + 1, n));
        }
      }
    }
  }

  lemma LastOfRest<S, I>(e: Entry<S, I>, rest: seq<Entry<S, I>>)
    ensures rest != [] ==> EndsWaiting([e] + rest) == EndsWaiting(rest)
    ensures rest == [] ==> EndsWaiting([e] + rest) == Waits(e)
  {}

  /** So a call that waits does the same with every larger budget. */
  lemma {:induction false} BudgetAside<S, I>(m: Machine<S, I>, h: Hart<S>, n: nat, n': nat)
    requires n <= n' && EndsWaiting(RunSteps(m, h, n)) && RunEnd(m, h, n) != Stray
    ensures RunSteps(m, h, n') == RunSteps(m, h, n) && Rounds(m, h, n') == Rounds(m, h, n)
    decreases n, Rank(h.single_step), !h.serialized
  {
    hide RunSteps, RunEnd, Rounds, InnerSteps, Branch, AfterTrap, EndsWaiting;
    if n == 0 {
      RunNothing(m, h);
      NotWaiting<S, I>();
    } else {
      RunTurn(m, h, n);
      RunTurn(m, h, n');
      if m.interrupt(h).Some? {
        NotWaiting<S, I>();
      } else {
        var slow := SlowPath(m, h);
        var r, steps := Branch(m, slow, h, 0, n), InnerSteps(m, slow, h, 0, n);
        InnerAside(m, slow, h, 0, n, n');
        InnerWaits(m, slow, h, n);
        if r.stop == Done {
          var h' := Retire(r.hart, r.instret);
          RunNothing(m, h');
          assert steps + [] == steps;
          RestWaits(steps, RunSteps(m, h', r.n - r.instret));
          if r.n - r.instret > 0 {
            BudgetAside(m, h', r.n - r.instret, n' - r.instret);
          }
        }
      }
    }
  }

  lemma NotWaiting<S, I>()
    ensures !EndsWaiting<S, I>([])
  {}

  lemma InnerWaits<S, I>(m: Machine<S, I>, slow: bool, h: Hart<S>, n: nat)
    ensures var steps, r := InnerSteps(m, slow, h, 0, n), Branch(m, slow, h, 0, n);
            && (EndsWaiting(steps) && r.stop != Stray ==> r.stop == Done && r.n == r.instret)
            && (r.stop == Done && r.n != n ==> EndsWaiting(steps) && r.n == r.instret)
  {
    InnerRetires(m, slow, h, 0, n);
    hide InnerSteps, Branch, Waits;
  }

  lemma RestWaits<S, I>(a: seq<Entry<S, I>>, b: seq<Entry<S, I>>)
    ensures b != [] ==> EndsWaiting(a + b) == EndsWaiting(b)
    ensures b == [] ==> EndsWaiting(a + b) == EndsWaiting(a)
  {
    assert b == [] ==> a + b == a;
  }

  /**
   Wait-for-interrupt: if the `k`-th instruction of a call waits, the call executes just these `k`, adds the number of
   them that retire to minstret, all `k` unless one was executed twice, and does the same with every larger budget.
   */
  lemma WaitEndsCall<S, I>(m: Machine<S, I>, h: Hart<S>, n: nat, k: nat, n': nat)
    requires 0 < k <= |RunSteps(m, h, n)| && Waits(RunSteps(m, h, n)[k - 1]) && RunEnd(m, h, n) != Stray
    requires KeepCounter(RunSteps(m, h, n)) && n <= n'
    ensures var steps := RunSteps(m, h, n);
            && |steps| == k && RunEnd(m, h, n) == Done
            && RunSteps(m, h, n') == steps && Rounds(m, h, n') == Rounds(m, h, n)
            && Rounds(m, h, n).hart.minstret == (h.minstret + Retired(steps)) % WORD
            && ((forall j :: 0 <= j < k ==> Retires(steps[j])) ==> Retired(steps) == k)
  {
    hide RunSteps, RunEnd, Rounds, KeepCounter, Retired, Retires;
    var steps := RunSteps(m, h, n);
    WaitIsLast(m, h, n, k - 1);
    BudgetAside(m, h, n, n');
    CallCounts(m, h, n);
    RunNothing(m, h);
    if forall j :: 0 <= j < k ==> Retires(steps[j]) {
      AllRetire(steps);
    }
  }

  lemma {:induction false} AllRetire<S, I>(steps: seq<Entry<S, I>>)
    requires forall j :: 0 <= j < |steps| ==> Retires(steps[j])
    ensures Retired(steps) == |steps|
  {
    if steps != [] {
      AllRetire(steps[1..]);
    }
  }

  /**
   A trap ends the call. The hart goes on where the trap leads it, or, if the instruction was being stepped, at the
   debug ROM with cause 4.
   */
  lemma {:induction false} ThrowEndsCall<S, I>(m: Machine<S, I>, h: Hart<S>, n: nat, k: nat)
    requires k < |RunSteps(m, h, n)| && RunSteps(m, h, n)[k].did.Threw?
    ensures var steps, end := RunSteps(m, h, n), Rounds(m, h, n).hart;
            var e := steps[k];
            var (pc, cause, rest) := m.take_trap(e.did.hart, e.did.trap, e.at.pc);
            && k == |steps| - 1 && RunEnd(m, h, n) == Trapped(e.did.trap, e.at.pc)
            && if e.did.hart.single_step == STEP_STEPPED then
                 end.pc == 0x800 && end.cause == 4 && end.single_step == STEP_NONE
               else end.pc == pc && end.cause == cause && end.rest == rest && end.single_step == e.did.hart.single_step
    decreases n, Rank(h.single_step), !h.serialized
  {
    hide RunSteps, RunEnd, Rounds, InnerSteps, Branch;
    if n == 0 {
      RunNothing(m, h);
    } else {
      RunTurn(m, h, n);
      var slow := SlowPath(m, h);
      var r, steps := Branch(m, slow, h, 0, n), InnerSteps(m, slow, h, 0, n);
      InnerRetires(m, slow, h, 0, n);
      if r.stop == Done {
        var h', n' := Retire(r.hart, r.instret), r.n - r.instret;
        var rest := RunSteps(m, h', n');
        if k >= |steps| {
          assert (steps + rest)[k] == rest[k - |steps|];
          ThrowEndsCall(m, h', n', k - |steps|);
        }
      }
    }
  }

  /** On the debug branch an instruction that leads into the debug ROM parks the hart there, and nothing is counted. */
  lemma ParkedInRom<S, I>(m: Machine<S, I>, h: Hart<S>, n: nat)
    requires n > 0 && m.interrupt(h) == None && (m.debug || h.cause != 0) && h.single_step == STEP_NONE
    requires m.fetch(h.rest, h.pc).Ok?
    requires var o := m.execute(h, h.pc, m.fetch(h.rest, h.pc).value);
             o.Next? && Regular(h, o) && !InvalidPc(o.npc) && 0x800 <= o.npc < 0xfff
    ensures var o := m.execute(h, h.pc, m.fetch(h.rest, h.pc).value);
            Rounds(m, h, n) == Run(o.hart.(pc := o.npc), false) && RunEnd(m, h, n) == Parked
  {
    hide RunSteps, RunEnd, Rounds, InnerSteps, Branch, Regular;
    RunTurn(m, h, n);
    BranchTurn(m, true, h, 0, n);
  }

  // ----- Single stepping and halt requests -----

  /** The hart as it enters debug mode for `cause`. */
  function InDebugMode<S, I>(m: Machine<S, I>, h: Hart<S>, cause: nat): Hart<S> {
    h.(single_step := STEP_NONE, cause := cause, pc := 0x800,
       rest := m.enter_debug(h.(single_step := STEP_NONE), cause))
  }

  /**
   A stepped call executes one instruction, and then the hart stands at the debug ROM with cause 4; the rest of the
   budget is spent from there.
   */
  lemma OneStep<S, I>(m: Machine<S, I>, h: Hart<S>, n: nat)
    requires n >= 2 && m.interrupt(h) == None && h.single_step == STEP_STEPPING && m.fetch(h.rest, h.pc).Ok?
    requires var g := h.(single_step := STEP_STEPPED);
             var o := m.execute(g, g.pc, m.fetch(h.rest, h.pc).value);
             && GoesOn(g, o) && !(0x800 <= o.npc < 0xfff)
             && o.hart.single_step == STEP_STEPPED && !o.hart.serialized && o.hart.cause == 0
    ensures var g := h.(single_step := STEP_STEPPED);
            var insn := m.fetch(h.rest, h.pc).value;
            var o := m.execute(g, g.pc, insn);
            var after := Retire(InDebugMode(m, o.hart.(pc := o.npc), 4), 1);
            && RunSteps(m, h, n) == [Entry(g, insn, o)] + RunSteps(m, after, n - 1)
            && Rounds(m, h, n) == Rounds(m, after, n - 1)
  {
    var g := h.(single_step := STEP_STEPPED);
    var o := m.execute(g, g.pc, m.fetch(h.rest, h.pc).value);
    hide RunSteps, RunEnd, Rounds, InnerSteps, Branch, Regular, InvalidPc, Stepped, Retire, InDebugMode, Closer;
    RunTurn(m, h, n);
    BranchTurn(m, true, h, 0, n);
    StepsTurn(m, true, h, 0, n);
    NotSentinel(o.npc);
    var next := o.hart.(pc := o.npc);
    StepChecks(m, h, next);
    BranchTurn(m, true, next, 1, n);
    StepsTurn(m, true, next, 1, n);
    var e := Entry(g, m.fetch(h.rest, h.pc).value, o);
    assert [e] + [] == [e];
  }

  /** The state machine of single stepping, before the stepped instruction and after it. */
  lemma StepChecks<S, I>(m: Machine<S, I>, h: Hart<S>, next: Hart<S>)
    ensures h.single_step == STEP_STEPPING ==> Stepped(m, h) == (h.(single_step := STEP_STEPPED), false)
    ensures next.single_step == STEP_STEPPED && !next.serialized && next.cause == 0 ==>
              Stepped(m, next) == (InDebugMode(m, next, 4), true)
  {}

  lemma NotSentinel(npc: nat)
    ensures !InvalidPc(npc) ==> npc != 3 && npc != 5 && npc != 7
  {}

  /** With a budget of one the call ends there, and the next call enters debug mode before it executes anything. */
  lemma StepDone<S, I>(m: Machine<S, I>, h: Hart<S>, n: nat)
    requires n > 0 && m.interrupt(h) == None && h.single_step == STEP_STEPPED && !h.serialized && h.cause == 0
    ensures var after := Retire(InDebugMode(m, h, 4), 0);
            RunSteps(m, h, n) == RunSteps(m, after, n) && Rounds(m, h, n) == Rounds(m, after, n)
  {
    hide RunSteps, RunEnd, Rounds, InnerSteps, Branch;
    RunTurn(m, h, n);
    BranchTurn(m, true, h, 0, n);
    StepsTurn(m, true, h, 0, n);
    assert [] + RunSteps(m, Retire(InDebugMode(m, h, 4), 0), n) == RunSteps(m, Retire(InDebugMode(m, h, 4), 0), n);
  }

  /** A serialization in the stepped instruction does not use up the step: it is executed again. */
  lemma StepSerializes<S, I>(m: Machine<S, I>, h: Hart<S>, n: nat)
    requires n > 0 && m.interrupt(h) == None && h.single_step == STEP_STEPPING && m.fetch(h.rest, h.pc).Ok?
    requires var g := h.(single_step := STEP_STEPPED);
             var o := m.execute(g, g.pc, m.fetch(h.rest, h.pc).value);
             Regular(g, o) && o.Next? && o.npc == 3
    ensures var g := h.(single_step := STEP_STEPPED);
            var insn := m.fetch(h.rest, h.pc).value;
            var again := Retire(g.(serialized := true), 0);
            && RunSteps(m, h, n) == [Entry(g, insn, m.execute(g, g.pc, insn))] + RunSteps(m, again, n)
            && Rounds(m, h, n) == Rounds(m, again, n) && again.pc == h.pc
  {
    hide RunSteps, RunEnd, Rounds, InnerSteps, Branch;
    RunTurn(m, h, n);
    BranchTurn(m, true, h, 0, n);
    StepsTurn(m, true, h, 0, n);
  }

  /** A halt request, or the halt bit of dcsr, has the call begin at the debug ROM, with cause 3 or 5. */
  lemma HaltBegins<S, I>(m: Machine<S, I>, h: Hart<S>, halt_request: bool, dcsr_halt: bool)
    ensures var g := HaltCheck(m, h, halt_request, dcsr_halt);
            && (h.cause == 0 && halt_request ==> g.pc == 0x800 && g.cause == 3 && g.rest == m.enter_debug(h, 3))
            && (h.cause == 0 && !halt_request && dcsr_halt ==>
                  g.pc == 0x800 && g.cause == 5 && g.rest == m.enter_debug(h, 5))
            && (h.cause != 0 || (!halt_request && !dcsr_halt) ==> g == h)
            && g.single_step == h.single_step && g.minstret == h.minstret && g.serialized == h.serialized
  {}

  /** Executed again, the instruction completes the step: the serialized hart does not enter debug mode before it. */
  lemma StepGoesOn<S, I>(m: Machine<S, I>, h: Hart<S>, n: nat)
    requires n > 0 && m.interrupt(h) == None && h.single_step == STEP_STEPPED && h.serialized
    requires m.fetch(h.rest, h.pc).Ok?
    ensures var insn := m.fetch(h.rest, h.pc).value;
            RunSteps(m, h, n) != [] && RunSteps(m, h, n)[0] == Entry(h, insn, m.execute(h, h.pc, insn))
  {
    hide RunSteps, RunEnd, Rounds, InnerSteps, Branch;
    RunTurn(m, h, n);
    StepsTurn(m, true, h, 0, n);
  }

  // ----- The instruction cache -----

  /** A traced address is never tagged, so that each access fetches; any other is in its place after an access. */
  lemma IcacheEntry<S, I>(m: Machine<S, I>, c: Icache<I>, s: S, pc: nat)
    requires Placed(c) && !InvalidPc(pc) && c.tag[pc / 2 % 1024] != pc && m.fetch(s, pc).Ok?
    ensures var a := Accessed(m, c, s, pc);
            && a.Ok? && a.value.data == c.data[pc / 2 % 1024 := m.fetch(s, pc).value]
            && a.value.tag == c.tag[pc / 2 % 1024 := if m.traced(pc) then WORD - 1 else pc]
  {}

  /** A trap empties the cache, except in debug mode, where it only does so if it ends a step. */
  lemma TrapEmptiesCache<S, I>(m: Machine<S, I>, c: Icache<I>, h: Hart<S>, n: nat)
    requires Placed(c) && !InvalidPc(h.pc) && n > 0 && m.interrupt(h).Some?
    ensures var after := CachedRounds(m, c, h, n).0;
            && (h.cause == 0 || h.single_step == STEP_STEPPED ==>
                  forall i :: 0 <= i < 1024 ==> after.tag[i] == WORD - 1)
            && (h.cause != 0 && h.single_step != STEP_STEPPED ==> after == c)
  {
    RoundsUnfold(m, c, h, n);
    hide CachedRounds, CachedInner;
  }
}

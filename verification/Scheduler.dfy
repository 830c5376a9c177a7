/** `sim_t::step`: instructions are handed to the harts in turn, and the timer ticks once per round. */
module Scheduler {
  import opened Bits
  import ClintModel
  import C = Clint

  const INTERLEAVE: nat := 5000
  const INSNS_PER_RTC_TICK: nat := 100
  const TICK: nat := 50  // INTERLEAVE / INSNS_PER_RTC_TICK

  // ----- Where `total` steps lead -----

  function StepOf(total: nat): nat { total % INTERLEAVE }

  function ProcOf(total: nat, procs: nat): nat
    requires procs > 0
  {
    total / INTERLEAVE % procs
  }

  /** Full rounds over all harts. */
  function Rounds(total: nat, procs: nat): nat
    requires procs > 0
  {
    total / INTERLEAVE / procs
  }

  /** What hart `i` has been granted: a full turn per round, and its part of the current one. */
  function Granted(total: nat, procs: nat, i: nat): nat
    requires procs > 0
  {
    INTERLEAVE * Rounds(total, procs)
    + (if i < ProcOf(total, procs) then INTERLEAVE else if i == ProcOf(total, procs) then StepOf(total) else 0)
  }

  /** The turns that hart `i` has finished. At the end of each it loses its load reservation. */
  function Turns(total: nat, procs: nat, i: nat): nat
    requires procs > 0
  {
    Rounds(total, procs) + if i < ProcOf(total, procs) then 1 else 0
  }

  function Sum(total: nat, procs: nat, n: nat): nat
    requires procs > 0
  {
    if n == 0 then 0 else Sum(total, procs, n - 1) + Granted(total, procs, n - 1)
  }

  lemma {:induction false} SumIs(total: nat, procs: nat, n: nat)
    requires procs > 0 && n <= procs
    ensures Sum(total, procs, n) == n * (INTERLEAVE * Rounds(total, procs))
            + (if n <= ProcOf(total, procs) then INTERLEAVE * n
               else INTERLEAVE * ProcOf(total, procs) + StepOf(total))
    decreases n
  {
    hide Rounds, ProcOf, StepOf;
    var r := INTERLEAVE * Rounds(total, procs);
    if n > 0 {
      SumIs(total, procs, n - 1);
      assert n * r == (n - 1) * r + r;
    }
  }

  /** The grants of all harts add up to the steps asked for: none is lost or given twice. */
  lemma GrantsAddUp(total: nat, procs: nat)
    requires procs > 0
    ensures Sum(total, procs, procs) == total
  {
    SumIs(total, procs, procs);
    var turns := total / INTERLEAVE;
    var rounds := Rounds(total, procs);
    Split(turns, procs);
    assert procs * (INTERLEAVE * rounds) == INTERLEAVE * (procs * rounds);
  }

  /** No hart is ever ahead of another by more than one turn. */
  lemma GrantsFair(total: nat, procs: nat, i: nat, j: nat)
    requires procs > 0
    ensures Granted(total, procs, i) <= Granted(total, procs, j) + INTERLEAVE
  {}

  /**
   In numbers: after `r` rounds, `p` turns and `k` steps, hart `p` has the turn and has used `k` of its 5000 steps; the
   harts before it have had one turn more than the harts behind it, and the timer has been advanced by 50 in each round.
   */
  lemma InNumbers(procs: nat, r: nat, p: nat, k: nat, i: nat)
    requires p < procs && k < 5000 && i < procs
    ensures var total := 5000 * (procs * r + p) + k;
            && StepOf(total) == k && ProcOf(total, procs) == p && Rounds(total, procs) == r && TICK == 50
            && Turns(total, procs, i) == (if i < p then r + 1 else r)
            && Granted(total, procs, i) == 5000 * r + if i < p then 5000 else if i == p then k else 0
  {
    DivUnique(5000 * (procs * r + p) + k, 5000, procs * r + p, k);
    DivUnique(procs * r + p, procs, r, p);
  }

  // ----- One slice -----

  /** A slice that stays inside the turn. */
  lemma SliceInside(total: nat, procs: nat, steps: nat)
    requires procs > 0 && StepOf(total) + steps < INTERLEAVE
    ensures StepOf(total + steps) == StepOf(total) + steps
    ensures ProcOf(total + steps, procs) == ProcOf(total, procs) && Rounds(total + steps, procs) == Rounds(total, procs)
  {
    DivUnique(total + steps, INTERLEAVE, total / INTERLEAVE, StepOf(total) + steps);
  }

  /** A slice that ends the turn. */
  lemma SliceEnds(total: nat, procs: nat, steps: nat)
    requires procs > 0 && StepOf(total) + steps == INTERLEAVE
    ensures var last := ProcOf(total, procs) + 1 == procs;
            && StepOf(total + steps) == 0
            && ProcOf(total + steps, procs) == (if last then 0 else ProcOf(total, procs) + 1)
            && Rounds(total + steps, procs) == Rounds(total, procs) + (if last then 1 else 0)
  {
    var turns := total / INTERLEAVE;
    DivUnique(total + steps, INTERLEAVE, turns + 1, 0);
    NextTurn(turns, procs);
  }

  lemma NextTurn(turns: nat, procs: nat)
    requires procs > 0
    ensures var last := turns % procs + 1 == procs;
            && (turns + 1) % procs == (if last then 0 else turns % procs + 1)
            && (turns + 1) / procs == turns / procs + (if last then 1 else 0)
  {
    Split(turns, procs);
    NextTurnOf(turns, procs, turns / procs, turns % procs);
  }

  lemma NextTurnOf(turns: nat, procs: nat, q: nat, r: nat)
    requires procs > 0 && turns == procs * q + r && r < procs
    ensures var last := r + 1 == procs;
            && (turns + 1) % procs == (if last then 0 else r + 1)
            && (turns + 1) / procs == q + (if last then 1 else 0)
  {
    if r + 1 == procs {
      assert procs * (q + 1) == procs * q + procs;
      DivUnique(turns + 1, procs, q + 1, 0);
    } else {
      DivUnique(turns + 1, procs, q, r + 1);
    }
  }

  lemma GrantedGrows(total: nat, procs: nat, steps: nat, i: nat)
    requires procs > 0 && i < procs && StepOf(total) + steps <= INTERLEAVE
    ensures Granted(total + steps, procs, i)
            == Granted(total, procs, i) + if i == ProcOf(total, procs) then steps else 0
    ensures Turns(total + steps, procs, i)
            == Turns(total, procs, i)
             + if i == ProcOf(total, procs) && StepOf(total) + steps == INTERLEAVE then 1 else 0
  {
    hide StepOf, ProcOf, Rounds;
    InRange(total, procs);
    if StepOf(total) + steps < INTERLEAVE {
      SliceInside(total, procs, steps);
    } else {
      SliceEnds(total, procs, steps);
    }
  }

  lemma InRange(total: nat, procs: nat)
    requires procs > 0
    ensures StepOf(total) < INTERLEAVE && ProcOf(total, procs) < procs
  {}

  // ----- The simulator -----

  class Sim {
    const clint: C.Clint
    const granted: array<nat>  // the steps each hart has been given
    const yielded: array<nat>  // the calls of `yield_load_reservation` on each hart
    var current_step: nat
    var current_proc: nat

    /** The state that `total` steps from the start lead to. */
    ghost predicate At(total: nat)
      reads this, granted, yielded, clint, clint.mtimecmp, clint.mtip, clint.msip
    {
      && granted.Length == yielded.Length > 0 && granted != yielded && clint.Ok()
      && current_step == StepOf(total) && current_proc == ProcOf(total, granted.Length)
      && (forall i :: 0 <= i < granted.Length ==> granted[i] == Granted(total, granted.Length, i))
      && (forall i :: 0 <= i < granted.Length ==> yielded[i] == Turns(total, granted.Length, i))
    }

    constructor (harts: nat)
      requires harts > 0
      ensures granted.Length == harts && At(0)
      ensures fresh(granted) && fresh(yielded) && fresh(clint)
      ensures fresh(clint.mtimecmp) && fresh(clint.mtip) && fresh(clint.msip)
    {
      clint := new C.Clint(harts);
      granted := new nat[harts](_ => 0);
      yielded := new nat[harts](_ => 0);
      current_step, current_proc := 0, 0;
    }

    /** The turn of `current_proc` is over. */
    method EndTurn()
      requires clint.Ok() && current_proc < granted.Length == yielded.Length
      modifies `current_step, `current_proc, yielded, clint`mtime, clint.mtip
      ensures clint.Ok() && current_step == 0
      ensures yielded[..] == old(yielded[..])[old(current_proc) := old(yielded[..])[old(current_proc)] + 1]
      ensures var last := old(current_proc) + 1 == granted.Length;
              && current_proc == (if last then 0 else old(current_proc) + 1)
              && clint.View() == if last then ClintModel.Increment(old(clint.View()), TICK) else old(clint.View())
    {
      hide ClintModel.Increment;
      current_step := 0;
      yielded[current_proc] := yielded[current_proc] + 1;
      current_proc := current_proc + 1;
      if current_proc == granted.Length {
        current_proc := 0;
        clint.Increment(INTERLEAVE / INSNS_PER_RTC_TICK);
      }
    }

    /** One pass of the loop: `procs[current_proc]->step(steps)` and what follows it. */
    method Slice(steps: nat, ghost total: nat)
      requires At(total) && 0 < steps <= INTERLEAVE - current_step
      modifies `current_step, `current_proc, granted, yielded, clint`mtime, clint.mtip
      ensures At(total + steps) && Rounds(total + steps, granted.Length) >= Rounds(total, granted.Length)
      ensures clint.View() == ClintModel.Ticked(old(clint.View()), TICK,
                                Rounds(total + steps, granted.Length) - Rounds(total, granted.Length))
    {
      hide StepOf, ProcOf, Rounds, Granted, Turns, ClintModel.Increment, ClintModel.Ticked, ClintModel.Valid;
      var procs := granted.Length;
      InRange(total, procs);
      forall i | 0 <= i < procs
        ensures Granted(total + steps, procs, i) == Granted(total, procs, i) + if i == current_proc then steps else 0
        ensures Turns(total + steps, procs, i)
                == Turns(total, procs, i) + if i == current_proc && current_step + steps == INTERLEAVE then 1 else 0
      {
        GrantedGrows(total, procs, steps, i);
      }
      ViewValid();
      TickedNone(clint.View());
      TickedOnce(clint.View());
      granted[current_proc] := granted[current_proc] + steps;
      current_step := current_step + steps;
      if current_step == INTERLEAVE {
        SliceEnds(total, procs, steps);
        EndTurn();
      } else {
        SliceInside(total, procs, steps);
      }
    }

    lemma ViewValid()
      requires clint.Ok()
      ensures ClintModel.Valid(clint.View())
    {}

    static lemma TickedOnce(s: ClintModel.State)
      requires ClintModel.Valid(s)
      ensures ClintModel.Ticked(s, TICK, 1) == ClintModel.Increment(s, TICK)
    {
      assert ClintModel.Ticked(s, TICK, 0) == s;
    }

    /**
     However the steps are split into calls, only their total counts: for the position in the rotation, for what each
     hart was granted, and for the number of timer ticks.
     */
    method Step(n: nat, ghost total: nat)
      requires At(total)
      modifies `current_step, `current_proc, granted, yielded, clint`mtime, clint.mtip
      ensures At(total + n)
      ensures Rounds(total + n, granted.Length) >= Rounds(total, granted.Length)
      ensures clint.View() == ClintModel.Ticked(old(clint.View()), TICK,
                                Rounds(total + n, granted.Length) - Rounds(total, granted.Length))
    {
      hide StepOf, ProcOf, Rounds, Granted, Turns, ClintModel.Increment, ClintModel.Ticked;
      var i := 0;
      ghost var procs := granted.Length;
      ghost var before := clint.View();
      TickedNone(before);
      while i < n
        invariant i <= n && At(total + i) && Rounds(total + i, procs) >= Rounds(total, procs)
        invariant clint.View() == ClintModel.Ticked(before, TICK, Rounds(total + i, procs) - Rounds(total, procs))
      {
        InRange(total + i, procs);
        var steps := if n - i < INTERLEAVE - current_step then n - i else INTERLEAVE - current_step;
        Slice(steps, total + i);
        ClintModel.TickedSum(before, TICK, Rounds(total + i, procs) - Rounds(total, procs),
                             Rounds(total + i + steps, procs) - Rounds(total + i, procs));
        i := i + steps;
      }
    }

    static lemma TickedNone(s: ClintModel.State)
      requires ClintModel.Valid(s)
      ensures ClintModel.Ticked(s, TICK, 0) == s
    {}
  }
}

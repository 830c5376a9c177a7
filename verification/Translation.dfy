/**
 The TLB under a whole hart: runs of CSR operations, traps, fences and accesses from reset. The flushes that the CSR
 code makes are exactly the ones that keep the TLB out of sight.
 */
module Translation {
  import opened Common
  import opened PageWalk
  import opened Tlb
  import CsrModel

  datatype Step =
    | Does(op: CsrModel.Op)
    | Edits(env: Platform)       // a store to the page tables, or a change of the memory map
    | Fences                     // SFENCE.VMA
    | Accesses(va: nat, size: nat, access: Access, check: bool)

  ghost predicate StepOk(cfg: CsrModel.Config, step: Step) {
    match step
    case Does(op) => CsrModel.OpOk(cfg, op)
    case Edits(env) => WellFormed(env)
    case Fences => true
    case Accesses(va, size, _, _) => va < WORD && size > 0
  }

  ghost predicate StepsOk(cfg: CsrModel.Config, steps: seq<Step>) {
    forall k :: 0 <= k < |steps| ==> StepOk(cfg, steps[k])
  }

  /** Whenever the state changes, fetches and data accesses still go through the same tables. */
  ghost predicate OneSpace(cfg: CsrModel.Config, s: CsrModel.State, steps: seq<Step>)
    requires CsrModel.ConfigOk(cfg) && CsrModel.Inv(cfg, s) && StepsOk(cfg, steps)
    decreases |steps|
  {
    steps == [] ||
    match steps[0]
    case Does(op) =>
      var r := CsrModel.Next(cfg, s, op);
      CsrModel.NextKeepsInv(cfg, s, op);
      CsrModel.ContextLegal(cfg, r);
      SameSpace(CsrModel.ContextOf(cfg, r)) && OneSpace(cfg, r, steps[1..])
    case _ => OneSpace(cfg, s, steps[1..])
  }

  /** No access touches a page that an edit since the last flush has made stale. */
  ghost predicate Fenced(cfg: CsrModel.Config, s: CsrModel.State, env: Platform, stale: iset<nat>, steps: seq<Step>)
    requires CsrModel.ConfigOk(cfg) && CsrModel.Inv(cfg, s) && StepsOk(cfg, steps)
    decreases |steps|
  {
    steps == [] ||
    match steps[0]
    case Does(op) =>
      var r := CsrModel.Next(cfg, s, op);
      CsrModel.NextKeepsInv(cfg, s, op);
      Fenced(cfg, r, env, if r.flushes != s.flushes then iset{} else stale, steps[1..])
    case Edits(env') =>
      CsrModel.ContextLegal(cfg, s);
      Fenced(cfg, s, env', stale + Changed(env, env', CsrModel.ContextOf(cfg, s)), steps[1..])
    case Fences => Fenced(cfg, s, env, iset{}, steps[1..])
    case Accesses(va, _, _, _) => va / PAGE !in stale && Fenced(cfg, s, env, stale, steps[1..])
  }

  /** The run as the MMU sees it. */
  ghost function EventsOf(cfg: CsrModel.Config, s: CsrModel.State, steps: seq<Step>): seq<Event>
    requires CsrModel.ConfigOk(cfg)
    decreases |steps|
  {
    if steps == [] then []
    else
      match steps[0]
      case Does(op) =>
        var r := CsrModel.Next(cfg, s, op);
        [Switch(CsrModel.ContextOf(cfg, r), r.flushes != s.flushes)] + EventsOf(cfg, r, steps[1..])
      case Edits(env) => [Edit(env)] + EventsOf(cfg, s, steps[1..])
      case Fences => [Switch(CsrModel.ContextOf(cfg, s), true)] + EventsOf(cfg, s, steps[1..])
      case Accesses(va, size, access, check) => [Touch(va, size, access, check)] + EventsOf(cfg, s, steps[1..])
  }

  /** Every change of mode that the MMU could notice comes with a flush. */
  lemma {:induction false} EventsPossible(cfg: CsrModel.Config, s: CsrModel.State, env: Platform, stale: iset<nat>,
                                          steps: seq<Step>)
    requires CsrModel.ConfigOk(cfg) && CsrModel.Inv(cfg, s) && StepsOk(cfg, steps) && WellFormed(env)
    requires Legal(CsrModel.ContextOf(cfg, s)) && SameSpace(CsrModel.ContextOf(cfg, s)) && OneSpace(cfg, s, steps)
    requires Fenced(cfg, s, env, stale, steps)
    ensures Sensible(EventsOf(cfg, s, steps))
    ensures PossibleRun(env, CsrModel.ContextOf(cfg, s), stale, EventsOf(cfg, s, steps))
    decreases |steps|
  {
    hide WellFormed, SameSpace, Legal, Changed, CsrModel.Inv, CsrModel.ContextOf, CsrModel.Next, CsrModel.OpOk;
    if steps != [] {
      assert StepOk(cfg, steps[0]);
      match steps[0]
      case Does(op) =>
        var r := CsrModel.Next(cfg, s, op);
        CsrModel.NextKeepsInv(cfg, s, op);
        CsrModel.NextFlushes(cfg, s, op);
        CsrModel.ContextLegal(cfg, r);
        EventsPossible(cfg, r, env, if r.flushes != s.flushes then iset{} else stale, steps[1..]);
      case Edits(env') =>
        EventsPossible(cfg, s, env', stale + Changed(env, env', CsrModel.ContextOf(cfg, s)), steps[1..]);
      case Fences =>
        EventsPossible(cfg, s, env, iset{}, steps[1..]);
      case Accesses(_, _, _, _) =>
        EventsPossible(cfg, s, env, stale, steps[1..]);
    }
  }

  /** Without MPRV all accesses share the space of the current privilege. */
  lemma NoMprv(cfg: CsrModel.Config, s: CsrModel.State)
    requires Legal(CsrModel.ContextOf(cfg, s)) && CsrModel.MPRV !in s.mstatus
    ensures SameSpace(CsrModel.ContextOf(cfg, s))
  {
    hide CsrModel.ToNat, CsrModel.Field2, DecodeVmInfo, Legal;
  }

  lemma ResetOneSpace(cfg: CsrModel.Config, halt: bool)
    requires CsrModel.ConfigOk(cfg)
    ensures CsrModel.Inv(cfg, CsrModel.ResetState(cfg, halt))
    ensures var c := CsrModel.ContextOf(cfg, CsrModel.ResetState(cfg, halt)); Legal(c) && SameSpace(c)
  {
    hide CsrModel.Inv, CsrModel.ContextOf, Legal, SameSpace, CsrModel.ResetState;
    CsrModel.ResetInv(cfg, halt);
    CsrModel.ContextLegal(cfg, CsrModel.ResetState(cfg, halt));
    CsrModel.ResetMprv(cfg, halt);
    NoMprv(cfg, CsrModel.ResetState(cfg, halt));
  }

  /**
   From reset, over every run of CSR operations, traps, edits, fences and accesses in which MPRV splits no address
   space and no stale page is accessed before a flush, each access ends where a walk of the page tables of that moment
   takes it.
   */
  lemma HartNeverSeesTlb(cfg: CsrModel.Config, halt: bool, env: Platform, data: seq<Entry>, steps: seq<Step>)
    requires CsrModel.ConfigOk(cfg) && StepsOk(cfg, steps) && WellFormed(env) && |data| == ENTRIES
    requires var s := CsrModel.ResetState(cfg, halt);
             CsrModel.Inv(cfg, s) && OneSpace(cfg, s, steps) && Fenced(cfg, s, env, iset{}, steps)
    ensures var s := CsrModel.ResetState(cfg, halt);
            var c, events := CsrModel.ContextOf(cfg, s), EventsOf(cfg, s, steps);
            && Legal(c) && Sensible(events) && PossibleRun(env, c, iset{}, events)
            && RunCached(env, c, Flushed(data), events) == RunUncached(env, c, events)
  {
    hide *;
    var s := CsrModel.ResetState(cfg, halt);
    var c := CsrModel.ContextOf(cfg, s);
    ResetOneSpace(cfg, halt);
    EventsPossible(cfg, s, env, iset{}, steps);
    FlushedCoherent(env, c, data);
    TlbInvisible(env, c, Flushed(data), iset{}, EventsOf(cfg, s, steps));
  }
}

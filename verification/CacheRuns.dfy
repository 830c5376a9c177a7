/**
 The cache simulator over whole runs: no store is lost, sets never overflow, and the counters of a second-level
 cache add up to the traffic of the instruction and data caches in front of it.
 */
module CacheRuns {
  import opened Common
  import opened Bits
  import opened CacheModel

  // ----- One step -----

  ghost function DirtyLines(m: Resident): set<nat> {
    set l | l in m && m[l]
  }

  /** The lines that a sequence of requests writes back. */
  function WrittenBack(g: Geometry, out: seq<Request>): set<nat>
    requires Legal(g)
  {
    set q | q in out && q.store :: q.addr / g.linesz
  }

  /** Line addresses fit the 64-bit word. */
  ghost predicate Fits(g: Geometry, m: Resident) {
    forall l :: l in m ==> l * g.linesz < WORD
  }

  /** What every run keeps. */
  ghost predicate Inv(s: State) {
    Sound(s) && WithinCapacity(s.g, Abs(s)) && Fits(s.g, Abs(s))
  }

  /** The set of lines with a store not yet written back, after an access that sent `out` on. */
  function Owe(g: Geometry, owed: set<nat>, r: Request, out: seq<Request>): set<nat>
    requires Legal(g)
  {
    (owed - WrittenBack(g, out)) + if r.store then {Line(g, r.addr)} else {}
  }

  lemma MissRequestsLines(g: Geometry, m: Resident, line: nat, victim: Option<nat>)
    requires Legal(g) && (victim.Some? ==> victim.value in m)
    ensures var out := MissRequests(g, m, line, victim);
            && WrittenBack(g, out) == (if victim.Some? && m[victim.value] then {victim.value} else {})
            && (forall q :: q in out ==> q.addr == q.addr / g.linesz * g.linesz && q.bytes == g.linesz)
            && (forall q :: q in out ==>
                  q.addr == line * g.linesz || (victim.Some? && q.addr == victim.value * g.linesz))
            && out != [] && out[|out| - 1] == Request(line * g.linesz, g.linesz, false)
  {
    LineMultiple(g, line);
    if victim.Some? {
      LineMultiple(g, victim.value);
      if m[victim.value] {
        var q := Request(victim.value * g.linesz, g.linesz, true);
        assert MissRequests(g, m, line, victim)[0] == q;
        assert q in MissRequests(g, m, line, victim);
      }
    }
  }

  lemma LineMultiple(g: Geometry, line: nat)
    requires Legal(g)
    ensures line * g.linesz / g.linesz == line
  {
    DivUnique(line * g.linesz, g.linesz, line, 0);
  }

  /** What an access does to the abstract cache: exactly the lines that are owed a writeback are dirty. */
  ghost predicate KeepsStores(g: Geometry, m: Resident, r: Request, m': Resident, out: seq<Request>)
    requires Legal(g)
  {
    && DirtyLines(m') == Owe(g, DirtyLines(m), r, out) && WrittenBack(g, out) <= DirtyLines(m)
    && (forall q :: q in out ==> q.addr < WORD && q.addr == q.addr / g.linesz * g.linesz)
    && (out == [] <==> Line(g, r.addr) in m) && Line(g, r.addr) in m'
    && WithinCapacity(g, m') && Fits(g, m')
  }

  lemma HitKeepsStores(g: Geometry, m: Resident, r: Request)
    requires Legal(g) && WithinCapacity(g, m) && Fits(g, m) && Line(g, r.addr) in m
    ensures KeepsStores(g, m, r, m[Line(g, r.addr) := m[Line(g, r.addr)] || r.store], [])
  {
    hide Line, WithinCapacity;
    AbsAccessCapacity(g, m, r, None);
    assert WrittenBack(g, []) == {};
  }

  lemma MissKeepsStores(g: Geometry, m: Resident, r: Request, victim: Option<nat>)
    requires Legal(g) && WithinCapacity(g, m) && Fits(g, m) && r.addr < WORD && Line(g, r.addr) !in m
    requires LegalVictim(g, m, Line(g, r.addr), victim) && (victim.Some? ==> victim.value in m)
    ensures var (m', out) := AbsAccess(g, m, r, victim); KeepsStores(g, m, r, m', out)
  {
    hide Line, WithinCapacity, LegalVictim, MissRequests, WrittenBack;
    LineFits(g, r.addr);
    AbsAccessCapacity(g, m, r, victim);
    MissRequestsLines(g, m, Line(g, r.addr), victim);
  }

  /** Exactly the lines that are owed a writeback are dirty, and only owed lines are written back. */
  lemma StepKeepsStores(s: State, r: Request)
    requires Inv(s) && r.addr < WORD
    ensures var (s', out) := Access(s, r);
            && Inv(s') && s'.g == s.g
            && DirtyLines(Abs(s')) == Owe(s.g, DirtyLines(Abs(s)), r, out)
            && WrittenBack(s.g, out) <= DirtyLines(Abs(s))
            && (forall q :: q in out ==> q.addr < WORD && q.addr == q.addr / s.g.linesz * s.g.linesz)
            && (out == [] <==> Line(s.g, r.addr) in Abs(s))
            && Line(s.g, r.addr) in Abs(s')
  {
    hide Sound, Abs, Access, WithinCapacity, LegalVictim, Line, MissRequests, Count, Fits, DirtyLines, Owe, WrittenBack;
    SoundLegal(s);
    var victim := AccessRefines(s, r);
    if Line(s.g, r.addr) in Abs(s) {
      HitKeepsStores(s.g, Abs(s), r);
    } else {
      VictimResident(s.g, Abs(s), Line(s.g, r.addr), victim);
      MissKeepsStores(s.g, Abs(s), r, victim);
    }
  }

  lemma SoundLegal(s: State)
    requires Sound(s)
    ensures Legal(s.g) && (!s.fully_associative ==> |s.tags| == s.g.sets * s.g.ways)
  {}

  lemma VictimResident(g: Geometry, m: Resident, line: nat, victim: Option<nat>)
    requires Legal(g) && LegalVictim(g, m, line, victim)
    ensures victim.Some? ==> victim.value in m
  {}

  lemma LineFits(g: Geometry, addr: nat)
    requires Legal(g) && addr < WORD
    ensures Line(g, addr) * g.linesz < WORD
  {
    LineBound(g, addr);
  }

  // ----- Runs of one cache -----

  predicate Addressable(rs: seq<Request>) {
    forall r :: r in rs ==> r.addr < WORD
  }

  /** The state after a run, and the requests that each access sent to the next level. */
  ghost function Run(s: State, rs: seq<Request>): (State, seq<seq<Request>>)
    requires Inv(s) && Addressable(rs)
    decreases |rs|
  {
    if rs == [] then (s, [])
    else
      StepKeepsStores(s, rs[0]);
      var (s1, out) := Access(s, rs[0]);
      var (s', outs) := Run(s1, rs[1..]);
      (s', [out] + outs)
  }

  /** The lines with a store that has not been written back, from the trace of a run alone. */
  function Owed(g: Geometry, owed: set<nat>, rs: seq<Request>, outs: seq<seq<Request>>): set<nat>
    requires Legal(g) && |outs| == |rs|
    decreases |rs|
  {
    if rs == [] then owed else Owed(g, Owe(g, owed, rs[0], outs[0]), rs[1..], outs[1..])
  }

  /** A cache that starts empty. */
  function Empty(g: Geometry, fully_associative: bool): State
    requires Legal(g)
  {
    State(g, fully_associative, seq(g.sets * g.ways, _ => 0), map[], 1, NO_STATS)
  }

  lemma EmptyInv(g: Geometry, fully_associative: bool)
    requires Legal(g) && (fully_associative ==> g.sets == 1)
    ensures Inv(Empty(g, fully_associative)) && Abs(Empty(g, fully_associative)) == map[]
  {
    var s := Empty(g, fully_associative);
    assert Abs(s) == map[];
    forall i | 0 <= i < g.sets ensures |InSet(g, Abs(s), i)| <= g.ways {
      assert InSet(g, Abs(s), i) == {};
    }
  }

  lemma {:induction false} RunKeepsStores(s: State, rs: seq<Request>)
    requires Inv(s) && Addressable(rs)
    ensures var (s', outs) := Run(s, rs);
            && Inv(s') && s'.g == s.g && |outs| == |rs|
            && DirtyLines(Abs(s')) == Owed(s.g, DirtyLines(Abs(s)), rs, outs)
    decreases |rs|
  {
    hide Inv, Access, Abs, Owe;
    InvLegal(s);
    if rs != [] {
      StepKeepsStores(s, rs[0]);
      RunKeepsStores(Access(s, rs[0]).0, rs[1..]);
    }
  }

  lemma InvLegal(s: State)
    requires Inv(s)
    ensures Sound(s) && Legal(s.g) && (!s.fully_associative ==> |s.tags| == s.g.sets * s.g.ways)
  {}

  /**
   No store is lost: after any run of an initially empty cache, the lines that hold an unwritten store are exactly
   the resident dirty lines.
   */
  lemma NoStoreLost(g: Geometry, fully_associative: bool, rs: seq<Request>)
    requires Legal(g) && (fully_associative ==> g.sets == 1) && Addressable(rs)
    ensures Inv(Empty(g, fully_associative))
    ensures var (s', outs) := Run(Empty(g, fully_associative), rs);
            && |outs| == |rs| && Inv(s')
            && DirtyLines(Abs(s')) == Owed(g, {}, rs, outs)
  {
    EmptyInv(g, fully_associative);
    RunKeepsStores(Empty(g, fully_associative), rs);
    assert DirtyLines(map[]) == {};
  }

  // ----- Instruction and data caches in front of a second level -----

  datatype AccessType = LOAD | STORE | FETCH

  /** A call of `trace` on the two first-level caches. */
  datatype Trace = Trace(addr: nat, bytes: nat, kind: AccessType)

  datatype System = System(i: State, d: State, l2: State)

  ghost function Feed(s: State, rs: seq<Request>): State
    requires Inv(s) && Addressable(rs)
  {
    Run(s, rs).0
  }

  ghost predicate SystemInv(y: System) {
    Inv(y.i) && Inv(y.d) && Inv(y.l2)
  }

  ghost function SystemStep(y: System, t: Trace): System
    requires SystemInv(y) && t.addr < WORD
  {
    if t.kind == FETCH then
      var r := Request(t.addr, t.bytes, false);
      StepKeepsStores(y.i, r);
      var (i, out) := Access(y.i, r);
      y.(i := i, l2 := Feed(y.l2, out))
    else
      var r := Request(t.addr, t.bytes, t.kind == STORE);
      StepKeepsStores(y.d, r);
      var (d, out) := Access(y.d, r);
      y.(d := d, l2 := Feed(y.l2, out))
  }

  /** Fetches go to the instruction cache, as reads; loads and stores go to the data cache. */
  lemma TracesRouted(y: System, t: Trace)
    requires SystemInv(y) && t.addr < WORD
    ensures var z := SystemStep(y, t);
            && (t.kind == FETCH ==> z.d == y.d && z.i.stats.write_accesses == y.i.stats.write_accesses)
            && (t.kind != FETCH ==> z.i == y.i)
            && (t.kind == LOAD ==> z.d.stats.write_accesses == y.d.stats.write_accesses)
            && (t.kind == STORE ==> z.d.stats.write_accesses == y.d.stats.write_accesses + 1)
  {
    hide Inv, Access, Feed;
    AccessCounts(y.i, Request(t.addr, t.bytes, false));
    AccessCounts(y.d, Request(t.addr, t.bytes, t.kind == STORE));
    StepKeepsStores(y.i, Request(t.addr, t.bytes, false));
    StepKeepsStores(y.d, Request(t.addr, t.bytes, t.kind == STORE));
  }

  /** The traffic that a first-level cache has caused, and that the second level has seen. */
  function Misses(s: State): nat { s.stats.read_misses + s.stats.write_misses }

  ghost predicate Balanced(y: System) {
    && SystemInv(y)
    && y.l2.stats.read_accesses == Misses(y.i) + Misses(y.d)
    && y.l2.stats.write_accesses == y.d.stats.writebacks
    && y.i.stats.writebacks == 0 && y.i.stats.write_accesses == 0
    && (Sound(y.i) ==> DirtyLines(Abs(y.i)) == {})
  }

  function Reads(rs: seq<Request>): nat {
    if rs == [] then 0 else (if rs[0].store then 0 else 1) + Reads(rs[1..])
  }

  function Writes(rs: seq<Request>): nat {
    if rs == [] then 0 else (if rs[0].store then 1 else 0) + Writes(rs[1..])
  }

  lemma OneRequest(q: Request)
    ensures Reads([q]) == (if q.store then 0 else 1) && Writes([q]) == (if q.store then 1 else 0)
  {
    assert [q][1..] == [];
  }

  lemma TwoRequests(p: Request, q: Request)
    ensures Reads([p, q]) == (if p.store then 0 else 1) + (if q.store then 0 else 1)
    ensures Writes([p, q]) == (if p.store then 1 else 0) + (if q.store then 1 else 0)
  {
    assert [p, q][1..] == [q];
    OneRequest(q);
  }

  /** A miss sends one read, and one write if it evicts a dirty line. */
  lemma MissCounts(g: Geometry, m: Resident, line: nat, victim: Option<nat>)
    requires victim.Some? ==> victim.value in m
    ensures var out := MissRequests(g, m, line, victim);
            Reads(out) == 1 && Writes(out) == (if out[0].store then 1 else 0)
  {
    hide Reads, Writes;
    var read := Request(line * g.linesz, g.linesz, false);
    if victim.Some? && m[victim.value] {
      var write := Request(victim.value * g.linesz, g.linesz, true);
      assert MissRequests(g, m, line, victim) == [write, read];
      TwoRequests(write, read);
    } else {
      assert MissRequests(g, m, line, victim) == [read];
      OneRequest(read);
    }
  }

  /**
   Each counter by itself: an access is a read or a write, of so many bytes, and a miss of its kind exactly when its
   line is not resident; every dirty line written back counts once.
   */
  lemma AccessCounters(s: State, r: Request)
    requires Inv(s) && r.addr < WORD
    ensures Sound(s)
    ensures var (t, t', out) := (s.stats, Access(s, r).0.stats, Access(s, r).1);
            var miss := if Line(s.g, r.addr) in Abs(s) then 0 else 1;
            t' == if r.store then
                    t.(write_accesses := t.write_accesses + 1, write_misses := t.write_misses + miss,
                       bytes_written := t.bytes_written + r.bytes, writebacks := t.writebacks + Writes(out))
                  else
                    t.(read_accesses := t.read_accesses + 1, read_misses := t.read_misses + miss,
                       bytes_read := t.bytes_read + r.bytes, writebacks := t.writebacks + Writes(out))
  {
    hide Sound, Abs, Access, WithinCapacity, LegalVictim, Line, MissRequests, Fits;
    SoundLegal(s);
    var victim := AccessRefines(s, r);
    if Line(s.g, r.addr) !in Abs(s) {
      VictimResident(s.g, Abs(s), Line(s.g, r.addr), victim);
      MissCounts(s.g, Abs(s), Line(s.g, r.addr), victim);
      MissRequestsSome(s.g, Abs(s), Line(s.g, r.addr), victim);
    }
  }

  /** The counters of an access follow from the requests it sends. */
  lemma AccessCounts(s: State, r: Request)
    requires Inv(s) && r.addr < WORD
    ensures var (s', out) := Access(s, r);
            && s'.stats.read_accesses == s.stats.read_accesses + (if r.store then 0 else 1)
            && s'.stats.write_accesses == s.stats.write_accesses + (if r.store then 1 else 0)
            && Misses(s') == Misses(s) + Reads(out)
            && s'.stats.writebacks == s.stats.writebacks + Writes(out)
  {
    hide Sound, Abs, Access, WithinCapacity, LegalVictim, Line, MissRequests, Fits;
    SoundLegal(s);
    var victim := AccessRefines(s, r);
    if Line(s.g, r.addr) !in Abs(s) {
      VictimResident(s.g, Abs(s), Line(s.g, r.addr), victim);
      MissCounts(s.g, Abs(s), Line(s.g, r.addr), victim);
      MissRequestsSome(s.g, Abs(s), Line(s.g, r.addr), victim);
    }
  }

  lemma MissRequestsSome(g: Geometry, m: Resident, line: nat, victim: Option<nat>)
    requires victim.Some? ==> victim.value in m
    ensures MissRequests(g, m, line, victim) != []
  {}

  lemma {:induction false} FeedCounts(s: State, rs: seq<Request>)
    requires Inv(s) && Addressable(rs)
    ensures var s' := Feed(s, rs);
            && Inv(s')
            && s'.stats.read_accesses == s.stats.read_accesses + Reads(rs)
            && s'.stats.write_accesses == s.stats.write_accesses + Writes(rs)
    decreases |rs|
  {
    hide Inv, Access, Misses;
    InvLegal(s);
    if rs != [] {
      StepKeepsStores(s, rs[0]);
      AccessCounts(s, rs[0]);
      FeedCounts(Access(s, rs[0]).0, rs[1..]);
    }
  }

  lemma {:induction false} NoWrites(out: seq<Request>)
    requires forall q :: q in out ==> !q.store
    ensures Writes(out) == 0
  {
    if out != [] {
      NoWrites(out[1..]);
    }
  }

  lemma NothingWrittenBack(g: Geometry, out: seq<Request>)
    requires Legal(g) && WrittenBack(g, out) == {}
    ensures forall q :: q in out ==> !q.store
  {
    forall q | q in out ensures !q.store {
      var l := q.addr / g.linesz;
      assert l !in WrittenBack(g, out);
    }
  }

  lemma SystemStepBalanced(y: System, t: Trace)
    requires Balanced(y) && t.addr < WORD
    ensures Balanced(SystemStep(y, t))
  {
    hide Inv, Access, Misses, Abs, Feed, Sound, DirtyLines;
    if t.kind == FETCH {
      var r := Request(t.addr, t.bytes, false);
      InvLegal(y.i);
      StepKeepsStores(y.i, r);
      AccessCounts(y.i, r);
      var (i, out) := Access(y.i, r);
      NothingWrittenBack(y.i.g, out);
      NoWrites(out);
      FeedCounts(y.l2, out);
      assert Owe(y.i.g, {}, r, out) == {};
    } else {
      var r := Request(t.addr, t.bytes, t.kind == STORE);
      InvLegal(y.d);
      StepKeepsStores(y.d, r);
      AccessCounts(y.d, r);
      FeedCounts(y.l2, Access(y.d, r).1);
    }
  }

  ghost function SystemRun(y: System, ts: seq<Trace>): System
    requires SystemInv(y) && forall t :: t in ts ==> t.addr < WORD
    decreases |ts|
  {
    if ts == [] then y
    else
      SystemStepInv(y, ts[0]);
      SystemRun(SystemStep(y, ts[0]), ts[1..])
  }

  lemma SystemStepInv(y: System, t: Trace)
    requires SystemInv(y) && t.addr < WORD
    ensures SystemInv(SystemStep(y, t))
  {
    hide Inv, Access, Feed;
    InvLegal(y.i);
    InvLegal(y.d);
    var r := Request(t.addr, t.bytes, t.kind == STORE);
    StepKeepsStores(y.i, r);
    StepKeepsStores(y.d, r);
    if t.kind == FETCH {
      FeedCounts(y.l2, Access(y.i, r).1);
    } else {
      FeedCounts(y.l2, Access(y.d, r).1);
    }
  }

  /**
   In every run of an I$ and a D$ in front of an L2, the reads of the L2 are the misses of the two, its writes are
   the writebacks of the D$, and the I$ never writes anything.
   */
  lemma {:induction false} SecondLevelSeesMisses(y: System, ts: seq<Trace>)
    requires Balanced(y) && forall t :: t in ts ==> t.addr < WORD
    ensures Balanced(SystemRun(y, ts))
    decreases |ts|
  {
    assert SystemInv(y);
    hide Balanced, SystemStep;
    if ts != [] {
      SystemStepBalanced(y, ts[0]);
      SystemStepInv(y, ts[0]);
      SecondLevelSeesMisses(SystemStep(y, ts[0]), ts[1..]);
    }
  }

  /** An empty cache of either kind. */
  predicate Buildable(g: Geometry, fully_associative: bool) {
    Legal(g) && (fully_associative ==> g.sets == 1)
  }

  /** The same from the start, whatever kinds of caches the three are. */
  lemma TrafficBalances(gi: Geometry, fi: bool, gd: Geometry, fd: bool, g2: Geometry, f2: bool, ts: seq<Trace>)
    requires Buildable(gi, fi) && Buildable(gd, fd) && Buildable(g2, f2) && forall t :: t in ts ==> t.addr < WORD
    ensures var y := System(Empty(gi, fi), Empty(gd, fd), Empty(g2, f2));
            && SystemInv(y)
            && var z := SystemRun(y, ts);
               && z.l2.stats.read_accesses == Misses(z.i) + Misses(z.d)
               && z.l2.stats.write_accesses == z.d.stats.writebacks
               && z.i.stats.writebacks == 0
  {
    hide Inv, Sound, SystemRun;
    EmptyInv(gi, fi);
    EmptyInv(gd, fd);
    EmptyInv(g2, f2);
    EmptyClean(gi, fi);
    SecondLevelSeesMisses(System(Empty(gi, fi), Empty(gd, fd), Empty(g2, f2)), ts);
  }

  lemma EmptyClean(g: Geometry, fully_associative: bool)
    requires Buildable(g, fully_associative)
    ensures Sound(Empty(g, fully_associative)) && DirtyLines(Abs(Empty(g, fully_associative))) == {}
  {
    EmptyInv(g, fully_associative);
    assert DirtyLines(map[]) == {};
  }
}

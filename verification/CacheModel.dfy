/**
 The cache simulator as values: tag words with their VALID and DIRTY bits, set-associative and fully associative
 lookup and replacement, and the abstract cache (lines, each clean or dirty) that both implement.
 */
module CacheModel {
  import opened Common
  import opened Bits

  const VALID := 0x8000_0000_0000_0000
  const DIRTY := 0x4000_0000_0000_0000

  /** `sets` and `linesz` are powers of two, `linesz` at least 8. */
  datatype Geometry = Geometry(sets: nat, ways: nat, linesz: nat)

  predicate Legal(g: Geometry) {
    g.sets > 0 && g.ways > 0 && g.linesz >= 8
  }

  /** A call of `access`. */
  datatype Request = Request(addr: nat, bytes: nat, store: bool)

  datatype Stats = Stats(
    read_accesses: nat, read_misses: nat, bytes_read: nat,
    write_accesses: nat, write_misses: nat, bytes_written: nat, writebacks: nat)

  const NO_STATS := Stats(0, 0, 0, 0, 0, 0, 0)

  // ----- Tag words -----

  /** `x & VALID`, `x & DIRTY` as tests, and `x & ~DIRTY`, `x | DIRTY`, `x & ~(VALID | DIRTY)`, `line | VALID`. */
  predicate IsValid(x: nat) { x / VALID % 2 == 1 }
  predicate IsDirty(x: nat) { x / DIRTY % 2 == 1 }
  function ClearDirty(x: nat): nat { if IsDirty(x) then x - DIRTY else x }
  function SetDirty(x: nat): nat { if IsDirty(x) then x else x + DIRTY }
  function TagLine(x: nat): nat { x % DIRTY }
  function SetValid(x: nat): nat { if IsValid(x) then x else x + VALID }

  /** The tag word of a resident line. */
  function Tag(line: nat, dirty: bool): nat {
    line + VALID + if dirty then DIRTY else 0
  }

  /** Lines of at least 8 bytes leave the two top bits of the word free. */
  lemma TagBits(line: nat, dirty: bool)
    requires line < DIRTY / 2
    ensures var x := Tag(line, dirty);
            && IsValid(x) && (IsDirty(x) <==> dirty) && TagLine(x) == line
            && ClearDirty(x) == Tag(line, false) && SetDirty(x) == Tag(line, true)
    ensures SetValid(line) == Tag(line, false)
    ensures !IsValid(0) && ClearDirty(0) == 0
  {}

  function Line(g: Geometry, addr: nat): nat
    requires Legal(g)
  {
    addr / g.linesz
  }

  lemma LineBound(g: Geometry, addr: nat)
    requires Legal(g) && addr < WORD
    ensures Line(g, addr) < DIRTY / 2 && Line(g, addr) * g.linesz <= addr
  {
    var line := Line(g, addr);
    assert g.linesz * line <= addr;
    MulMonotone(line, 8, g.linesz);
  }

  // ----- The abstract cache -----

  /** The resident lines, each with whether it is dirty. */
  type Resident = map<nat, bool>

  ghost function InSet(g: Geometry, m: Resident, i: nat): set<nat>
    requires Legal(g)
  {
    set l | l in m && l % g.sets == i
  }

  /** On a miss, some resident line of the same set may be evicted, and one must be when the set is full. */
  ghost predicate LegalVictim(g: Geometry, m: Resident, line: nat, victim: Option<nat>)
    requires Legal(g)
  {
    && (victim.Some? ==> victim.value in m && victim.value % g.sets == line % g.sets)
    && (|InSet(g, m, line % g.sets)| >= g.ways ==> victim.Some?)
  }

  /** The requests a miss sends to the next level: a writeback of a dirty victim, then a read of the missing line. */
  function MissRequests(g: Geometry, m: Resident, line: nat, victim: Option<nat>): seq<Request>
    requires victim.Some? ==> victim.value in m
  {
    (if victim.Some? && m[victim.value] then [Request(victim.value * g.linesz, g.linesz, true)] else [])
    + [Request(line * g.linesz, g.linesz, false)]
  }

  function AbsAccess(g: Geometry, m: Resident, r: Request, victim: Option<nat>): (Resident, seq<Request>)
    requires Legal(g) && (Line(g, r.addr) !in m && victim.Some? ==> victim.value in m)
  {
    var line := Line(g, r.addr);
    if line in m then (m[line := m[line] || r.store], [])
    else ((if victim.Some? then m - {victim.value} else m)[line := r.store], MissRequests(g, m, line, victim))
  }

  /** The counters after an access that sent `out` to the next level. */
  function Count(s: Stats, r: Request, out: seq<Request>): Stats {
    var s := if r.store then s.(write_accesses := s.write_accesses + 1, bytes_written := s.bytes_written + r.bytes)
             else s.(read_accesses := s.read_accesses + 1, bytes_read := s.bytes_read + r.bytes);
    if out == [] then s
    else
      var s := if r.store then s.(write_misses := s.write_misses + 1) else s.(read_misses := s.read_misses + 1);
      if out[0].store then s.(writebacks := s.writebacks + 1) else s
  }

  /** No set holds more lines than it has ways. */
  ghost predicate WithinCapacity(g: Geometry, m: Resident)
    requires Legal(g)
  {
    forall i :: 0 <= i < g.sets ==> |InSet(g, m, i)| <= g.ways
  }

  lemma AbsAccessCapacity(g: Geometry, m: Resident, r: Request, victim: Option<nat>)
    requires Legal(g) && WithinCapacity(g, m)
    requires Line(g, r.addr) !in m ==> LegalVictim(g, m, Line(g, r.addr), victim)
    ensures WithinCapacity(g, AbsAccess(g, m, r, victim).0) && Line(g, r.addr) in AbsAccess(g, m, r, victim).0
  {
    var line := Line(g, r.addr);
    var m' := AbsAccess(g, m, r, victim).0;
    forall i | 0 <= i < g.sets
      ensures |InSet(g, m', i)| <= g.ways
    {
      AbsAccessSet(g, m, r, victim, i);
    }
  }

  lemma InSetPut(g: Geometry, m: Resident, line: nat, dirty: bool, i: nat)
    requires Legal(g)
    ensures InSet(g, m[line := dirty], i) == InSet(g, m, i) + if line % g.sets == i then {line} else {}
  {}

  lemma InSetDrop(g: Geometry, m: Resident, l: nat, i: nat)
    requires Legal(g)
    ensures InSet(g, m - {l}, i) == InSet(g, m, i) - {l}
  {}

  lemma SetSizes(s: set<nat>, l: nat, k: nat)
    ensures |s + {k}| == if k in s then |s| else |s| + 1
    ensures |s - {l}| == if l in s then |s| - 1 else |s|
  {
    if k in s {
      assert s + {k} == s;
    }
    if l !in s {
      assert s - {l} == s;
    }
  }

  lemma AbsAccessSet(g: Geometry, m: Resident, r: Request, victim: Option<nat>, i: nat)
    requires Legal(g) && |InSet(g, m, i)| <= g.ways
    requires Line(g, r.addr) !in m ==> LegalVictim(g, m, Line(g, r.addr), victim)
    ensures |InSet(g, AbsAccess(g, m, r, victim).0, i)| <= g.ways
  {
    var line := Line(g, r.addr);
    hide Line, MissRequests;
    if line in m {
      InSetPut(g, m, line, m[line] || r.store, i);
      InSetHas(g, m, line);
    } else if i == line % g.sets {
      var kept := if victim.Some? then m - {victim.value} else m;
      InSetPut(g, kept, line, r.store, i);
      SetSizes(InSet(g, kept, i), 0, line);
      if victim.Some? {
        InSetDrop(g, m, victim.value, i);
        InSetHas(g, m, victim.value);
        SetSizes(InSet(g, m, i), victim.value, line);
      }
    } else {
      OtherSet(g, m, r, victim, i);
    }
  }

  lemma InSetHas(g: Geometry, m: Resident, l: nat)
    requires Legal(g) && l in m
    ensures l in InSet(g, m, l % g.sets)
    ensures forall i :: i == l % g.sets ==> InSet(g, m, i) + {l} == InSet(g, m, i)
  {}

  /** A miss leaves the other sets as they are. */
  lemma OtherSet(g: Geometry, m: Resident, r: Request, victim: Option<nat>, i: nat)
    requires Legal(g) && Line(g, r.addr) !in m && LegalVictim(g, m, Line(g, r.addr), victim)
    requires i != Line(g, r.addr) % g.sets
    ensures InSet(g, AbsAccess(g, m, r, victim).0, i) == InSet(g, m, i)
  {
    hide Line, MissRequests;
  }

  // ----- The two implementations -----

  datatype State = State(
    g: Geometry, fully_associative: bool, tags: seq<nat>, assoc: map<nat, nat>, lfsr: bv32, stats: Stats)

  function NextLfsr(reg: bv32): bv32 {
    (reg >> 1) ^ ((if reg & 1 == 1 then 0xffff_ffff else 0) & 0xd000_0001)
  }

  /** The generator never gets stuck at zero. */
  lemma LfsrNonzero(reg: bv32)
    requires reg != 0
    ensures NextLfsr(reg) != 0
    ensures NextLfsr(1) == 0xd000_0001 && NextLfsr(0xd000_0001) == 0xb800_0001 && NextLfsr(2) == 1
  {}

  function Slot(g: Geometry, line: nat, way: nat): nat
    requires Legal(g)
  {
    line % g.sets * g.ways + way
  }

  /** Every tag word is empty or the tag of a line of its own set, and no line has two. */
  ghost predicate ArrayOk(g: Geometry, tags: seq<nat>)
    requires Legal(g)
  {
    && |tags| == g.sets * g.ways
    && (forall i :: 0 <= i < |tags| && tags[i] != 0 ==>
          && TagLine(tags[i]) < DIRTY / 2
          && tags[i] == Tag(TagLine(tags[i]), IsDirty(tags[i]))
          && TagLine(tags[i]) % g.sets == i / g.ways)
    && (forall i, j :: 0 <= i < j < |tags| && tags[i] != 0 && tags[j] != 0 ==> TagLine(tags[i]) != TagLine(tags[j]))
  }

  ghost predicate MapOk(g: Geometry, assoc: map<nat, nat>)
    requires Legal(g)
  {
    && (forall l :: l in assoc ==> l < DIRTY / 2 && assoc[l] == Tag(l, IsDirty(assoc[l])))
    && |assoc| <= g.ways
  }

  ghost predicate Sound(s: State) {
    Legal(s.g) && if s.fully_associative then s.g.sets == 1 && MapOk(s.g, s.assoc) else ArrayOk(s.g, s.tags)
  }

  ghost function AbsMap(assoc: map<nat, nat>): Resident {
    map l | l in assoc :: IsDirty(assoc[l])
  }

  ghost function AbsArray(g: Geometry, tags: seq<nat>): Resident
    requires Legal(g) && ArrayOk(g, tags)
  {
    map i | 0 <= i < |tags| && tags[i] != 0 :: TagLine(tags[i]) := IsDirty(tags[i])
  }

  /** What is resident. */
  ghost function Abs(s: State): Resident
    requires Sound(s)
  {
    if s.fully_associative then AbsMap(s.assoc) else AbsArray(s.g, s.tags)
  }

  // ----- Lookup and replacement -----

  /** `check_tag` of `cache_sim_t`: the first way from `way` on whose tag is the line's, DIRTY aside. */
  function FindWay(g: Geometry, tags: seq<nat>, line: nat, way: nat): (r: Option<nat>)
    requires Legal(g) && |tags| == g.sets * g.ways && way <= g.ways
    ensures r.Some? ==> way <= r.value < g.ways && Slot(g, line, r.value) < |tags|
    decreases g.ways - way
  {
    SlotBound(g, line, way);
    if way == g.ways then None
    else if SetValid(line) == ClearDirty(tags[Slot(g, line, way)]) then Some(way)
    else FindWay(g, tags, line, way + 1)
  }

  lemma SlotBound(g: Geometry, line: nat, way: nat)
    requires Legal(g)
    ensures way < g.ways ==>
              Slot(g, line, way) < g.sets * g.ways && Slot(g, line, way) / g.ways == line % g.sets
  {
    var i := line % g.sets;
    if way < g.ways {
      MulMonotone(g.ways, i + 1, g.sets);
      assert g.ways * (i + 1) == i * g.ways + g.ways && g.ways * g.sets == g.sets * g.ways;
      DivUnique(Slot(g, line, way), g.ways, i, way);
    }
  }

  /** `check_tag`: where the tag word of the line is, as a position in the array or a key of the map. */
  function CheckTag(s: State, line: nat): (r: Option<nat>)
    requires Legal(s.g) && (!s.fully_associative ==> |s.tags| == s.g.sets * s.g.ways)
    ensures r.Some? ==> if s.fully_associative then r.value in s.assoc else r.value < |s.tags|
  {
    if s.fully_associative then
      if line in s.assoc then Some(line) else None
    else
      match FindWay(s.g, s.tags, line, 0)
      case None => None
      case Some(way) => Some(Slot(s.g, line, way))
  }

  /** `*hit_way |= DIRTY` */
  function MarkDirty(s: State, at: nat): State
    requires if s.fully_associative then at in s.assoc else at < |s.tags|
  {
    if s.fully_associative then s.(assoc := s.assoc[at := SetDirty(s.assoc[at])])
    else s.(tags := s.tags[at := SetDirty(s.tags[at])])
  }

  ghost function Least(keys: set<nat>): (k: nat)
    requires keys != {}
    ensures k in keys && forall l :: l in keys ==> k <= l
  {
    LeastExists(keys);
    var k :| k in keys && forall l :: l in keys ==> k <= l;
    k
  }

  lemma LeastExists(keys: set<nat>)
    requires keys != {}
    ensures exists k :: k in keys && forall l :: l in keys ==> k <= l
  {
    var k := LeastOf(keys);
  }

  lemma {:induction false} LeastOf(keys: set<nat>) returns (k: nat)
    requires keys != {}
    ensures k in keys && forall l :: l in keys ==> k <= l
    decreases |keys|
  {
    k :| k in keys;
    var rest := keys - {k};
    assert keys == rest + {k};
    if rest != {} {
      var l := LeastOf(rest);
      if l < k {
        k := l;
      }
    }
  }

  /** The `n`-th key of a map in the order of its keys. */
  ghost function NthKey(keys: set<nat>, n: nat): (k: nat)
    requires n < |keys|
    ensures k in keys
    decreases n
  {
    if n == 0 then Least(keys) else NthKey(keys - {Least(keys)}, n - 1)
  }

  /** The position that the random number picks in the set of the line. */
  function VictimSlot(g: Geometry, line: nat, random: nat): (i: nat)
    requires Legal(g)
    ensures i < g.sets * g.ways && i / g.ways == line % g.sets
  {
    SlotBound(g, line, random % g.ways);
    Slot(g, line, random % g.ways)
  }

  /** `victimize`: put a clean tag for the line in place of another; the word that was replaced, 0 if none. */
  function VictimizeArray(s: State, line: nat, reg: bv32): (State, nat)
    requires Legal(s.g) && |s.tags| == s.g.sets * s.g.ways
  {
    var at := VictimSlot(s.g, line, reg as nat);
    (s.(tags := s.tags[at := SetValid(line)], lfsr := reg), s.tags[at])
  }

  ghost function VictimizeMap(s: State, line: nat, reg: bv32): (State, nat)
    requires Legal(s.g)
  {
    if |s.assoc| == s.g.ways then
      var key := NthKey(s.assoc.Keys, (reg as nat) % s.g.ways);
      (s.(assoc := (s.assoc - {key})[line := SetValid(line)], lfsr := reg), s.assoc[key])
    else
      (s.(assoc := s.assoc[line := SetValid(line)]), 0)
  }

  ghost function Victimize(s: State, line: nat): (State, nat)
    requires Legal(s.g) && (!s.fully_associative ==> |s.tags| == s.g.sets * s.g.ways)
  {
    if s.fully_associative then VictimizeMap(s, line, NextLfsr(s.lfsr))
    else VictimizeArray(s, line, NextLfsr(s.lfsr))
  }

  /** `(victim & ~(VALID | DIRTY)) << idx_shift` */
  function VictimAddr(g: Geometry, victim: nat): nat {
    TagLine(victim) * g.linesz
  }

  /** `addr & ~(linesz - 1)` */
  function LineStart(g: Geometry, addr: nat): nat
    requires Legal(g)
  {
    addr - addr % g.linesz
  }

  /** What a miss that replaced the word `victim` sends to the next level. */
  function Replaced(g: Geometry, victim: nat, addr: nat): seq<Request>
    requires Legal(g)
  {
    (if IsValid(victim) && IsDirty(victim) then [Request(VictimAddr(g, victim), g.linesz, true)] else [])
    + [Request(LineStart(g, addr), g.linesz, false)]
  }

  /** `access`: the new state, and the requests to the next level in order. */
  ghost function Access(s: State, r: Request): (State, seq<Request>)
    requires Legal(s.g) && (!s.fully_associative ==> |s.tags| == s.g.sets * s.g.ways)
  {
    var line := Line(s.g, r.addr);
    var hit := CheckTag(s, line);
    if hit.Some? then
      var s' := if r.store then MarkDirty(s, hit.value) else s;
      (s'.(stats := Count(s.stats, r, [])), [])
    else
      var (s1, victim) := Victimize(s, line);
      var out := Replaced(s.g, victim, r.addr);
      var at := CheckTag(s1, line);
      var s2 := if r.store && at.Some? then MarkDirty(s1, at.value) else s1;
      (s2.(stats := Count(s.stats, r, out)), out)
  }

  // ----- Both implementations refine the abstract cache -----

  lemma {:induction false} FindWayCorrect(g: Geometry, tags: seq<nat>, line: nat, way: nat)
    requires Legal(g) && ArrayOk(g, tags) && way <= g.ways && line < DIRTY / 2
    ensures match FindWay(g, tags, line, way)
            case Some(w) => tags[Slot(g, line, w)] != 0 && TagLine(tags[Slot(g, line, w)]) == line
            case None => forall w :: way <= w < g.ways ==>
                           Slot(g, line, w) < |tags|
                           && !(tags[Slot(g, line, w)] != 0 && TagLine(tags[Slot(g, line, w)]) == line)
    decreases g.ways - way
  {
    if way < g.ways {
      SlotBound(g, line, way);
      FindWayCorrect(g, tags, line, way + 1);
      var x := tags[Slot(g, line, way)];
      TagBits(line, false);
      if x != 0 {
        TagBits(TagLine(x), IsDirty(x));
      }
    }
  }

  /** An access hits exactly when its line is resident. */
  lemma HitIffResident(s: State, line: nat)
    requires Sound(s) && line < DIRTY / 2
    ensures CheckTag(s, line).Some? <==> line in Abs(s)
    ensures CheckTag(s, line).Some? && !s.fully_associative ==>
              var i := CheckTag(s, line).value; s.tags[i] != 0 && TagLine(s.tags[i]) == line
  {
    hide TagLine, IsDirty, Tag, FindWay, Slot;
    if !s.fully_associative {
      FindWayCorrect(s.g, s.tags, line, 0);
      if line in Abs(s) {
        var i :| 0 <= i < |s.tags| && s.tags[i] != 0 && TagLine(s.tags[i]) == line;
        IndexIsSlot(s.g, line, i);
      }
    }
  }

  lemma IndexIsSlot(g: Geometry, line: nat, i: nat)
    requires Legal(g) && i / g.ways == line % g.sets
    ensures i % g.ways < g.ways && i == Slot(g, line, i % g.ways)
  {
    Split(i, g.ways);
  }

  /** What a step of an implementation must do in terms of the abstract cache. */
  ghost predicate Refines(s: State, r: Request, s': State, out: seq<Request>, victim: Option<nat>)
    requires Sound(s) && Sound(s')
  {
    var line := Line(s.g, r.addr);
    && s'.g == s.g && s'.fully_associative == s.fully_associative
    && s'.stats == Count(s.stats, r, out)
    && (line !in Abs(s) ==> LegalVictim(s.g, Abs(s), line, victim))
    && (Abs(s'), out) == AbsAccess(s.g, Abs(s), r, victim)
  }

  /** `addr & ~(linesz - 1)` is the address of the line. */
  lemma LineAddress(g: Geometry, addr: nat)
    requires Legal(g)
    ensures addr - addr % g.linesz == Line(g, addr) * g.linesz
  {
    Split(addr, g.linesz);
  }

  /** Setting the word of a line, possibly in place of another line's word, in a map with room for it. */
  lemma MapPut(g: Geometry, assoc: map<nat, nat>, line: nat, dirty: bool, victim: Option<nat>)
    requires Legal(g) && MapOk(g, assoc) && line < DIRTY / 2
    requires victim.Some? ==> victim.value in assoc && line !in assoc
    requires victim.None? && line !in assoc ==> |assoc| < g.ways
    ensures var kept := if victim.Some? then assoc - {victim.value} else assoc;
            var assoc' := kept[line := Tag(line, dirty)];
            && MapOk(g, assoc')
            && AbsMap(assoc') == (if victim.Some? then AbsMap(assoc) - {victim.value} else AbsMap(assoc))[line := dirty]
  {
    MapPutSize(assoc, line, Tag(line, dirty), victim);
    TagBits(line, dirty);
    hide IsDirty, Tag;
  }

  lemma MapPutSize(assoc: map<nat, nat>, line: nat, x: nat, victim: Option<nat>)
    requires victim.Some? ==> victim.value in assoc && line !in assoc
    ensures var kept := if victim.Some? then assoc - {victim.value} else assoc;
            |kept[line := x]| == if line in assoc || victim.Some? then |assoc| else |assoc| + 1
  {
    var kept := if victim.Some? then assoc - {victim.value} else assoc;
    var assoc' := kept[line := x];
    if victim.Some? {
      assert kept.Keys == assoc.Keys - {victim.value};
    }
    assert assoc'.Keys == kept.Keys + {line};
    assert |assoc'| == |assoc'.Keys| && |kept| == |kept.Keys| && |assoc| == |assoc.Keys|;
    if line in kept {
      assert assoc'.Keys == kept.Keys;
    }
  }

  lemma MapHit(s: State, r: Request)
    requires Sound(s) && s.fully_associative && r.addr < WORD && Line(s.g, r.addr) in s.assoc
    ensures Sound(Access(s, r).0) && Refines(s, r, Access(s, r).0, Access(s, r).1, None)
  {
    var line := Line(s.g, r.addr);
    TagBits(line, IsDirty(s.assoc[line]));
    MapPut(s.g, s.assoc, line, true, None);
    hide IsDirty, SetDirty, Tag, Line, LegalVictim, MapOk;
    assert SetDirty(s.assoc[line]) == Tag(line, true);
    assert !r.store ==> AbsMap(s.assoc)[line := AbsMap(s.assoc)[line]] == AbsMap(s.assoc);
  }

  /** The replaced word tells the next level exactly which line goes, and only when it was dirty. */
  lemma RequestsMatch(g: Geometry, m: Resident, word: nat, addr: nat, victim: Option<nat>)
    requires Legal(g)
    requires match victim
             case None => word == 0
             case Some(l) => l in m && l < DIRTY / 2 && word == Tag(l, m[l])
    ensures Replaced(g, word, addr) == MissRequests(g, m, Line(g, addr), victim)
  {
    LineAddress(g, addr);
    if victim.Some? {
      TagBits(victim.value, m[victim.value]);
    } else {
      TagBits(0, false);
    }
    hide Tag, IsValid, IsDirty, TagLine, Line;
  }

  lemma AbsMapHas(assoc: map<nat, nat>)
    ensures forall l :: l in AbsMap(assoc) <==> l in assoc
  {}

  lemma MapMiss(s: State, r: Request) returns (victim: Option<nat>)
    requires Sound(s) && s.fully_associative && r.addr < WORD && Line(s.g, r.addr) !in s.assoc
    ensures Sound(Access(s, r).0) && Refines(s, r, Access(s, r).0, Access(s, r).1, victim)
  {
    hide IsValid, IsDirty, TagLine, ClearDirty, SetDirty, SetValid, Tag, NextLfsr, Line, LegalVictim;
    hide MissRequests, Replaced, Count, NthKey, Victimize, Access, MapOk, AbsMap;
    var g, line := s.g, Line(s.g, r.addr);
    LineBound(g, r.addr);
    AbsMapHas(s.assoc);
    var (s1, word) := Victimize(s, line);
    victim := MapVictim(s, line);
    TagBits(line, false);
    MapPut(g, s.assoc, line, r.store, victim);
    RequestsMatch(g, AbsMap(s.assoc), word, r.addr, victim);
    MissShape(s, r, s1, word);
    var s' := Access(s, r).0;
    var kept := if victim.Some? then s.assoc - {victim.value} else s.assoc;
    assert s'.assoc == kept[line := Tag(line, r.store)];
    assert Sound(s') && line !in Abs(s);
    assert Abs(s') == AbsAccess(g, Abs(s), r, victim).0;
  }

  /** The parts of a miss that do not depend on which word was replaced. */
  lemma MissShape(s: State, r: Request, s1: State, word: nat)
    requires Legal(s.g) && (!s.fully_associative ==> |s.tags| == s.g.sets * s.g.ways)
    requires CheckTag(s, Line(s.g, r.addr)).None? && (s1, word) == Victimize(s, Line(s.g, r.addr))
    requires CheckTag(s1, Line(s.g, r.addr)).Some?
    ensures var (s', out) := Access(s, r);
            && out == Replaced(s.g, word, r.addr)
            && s' == (if r.store then MarkDirty(s1, CheckTag(s1, Line(s.g, r.addr)).value) else s1)
                     .(stats := Count(s.stats, r, out))
  {}

  /** The victim of a miss in the map: the line whose word is replaced, none if there is room. */
  lemma MapVictim(s: State, line: nat) returns (victim: Option<nat>)
    requires Sound(s) && s.fully_associative && line !in s.assoc
    ensures victim.Some? ==> victim.value in s.assoc && victim.value < DIRTY / 2
    ensures victim.None? ==> |s.assoc| < s.g.ways
    ensures LegalVictim(s.g, Abs(s), line, victim)
    ensures var (s1, word) := Victimize(s, line);
            && s1 == s.(assoc := s1.assoc, lfsr := s1.lfsr)
            && s1.assoc == (if victim.Some? then s.assoc - {victim.value} else s.assoc)[line := SetValid(line)]
            && word == match victim case None => 0 case Some(l) => Tag(l, Abs(s)[l])
  {
    hide SetValid, NextLfsr;
    var reg := NextLfsr(s.lfsr);
    victim := if |s.assoc| == s.g.ways then Some(NthKey(s.assoc.Keys, (reg as nat) % s.g.ways)) else None;
    MapVictimLegal(s.g, s.assoc, line, victim);
  }

  lemma MapVictimLegal(g: Geometry, assoc: map<nat, nat>, line: nat, victim: Option<nat>)
    requires Legal(g) && g.sets == 1 && MapOk(g, assoc)
    requires if |assoc| == g.ways then victim.Some? && victim.value in assoc else victim.None?
    ensures LegalVictim(g, AbsMap(assoc), line, victim)
  {
    var m := AbsMap(assoc);
    assert InSet(g, m, line % 1) == assoc.Keys;
    assert |assoc.Keys| == |assoc|;
  }

  /** The line a slot holds, if any. */
  function Held(tags: seq<nat>, i: nat): Option<nat>
    requires i < |tags|
  {
    if tags[i] == 0 then None else Some(TagLine(tags[i]))
  }

  /** Setting one slot of the line's set to the line's tag, when no other slot holds the line. */
  lemma ArrayPut(g: Geometry, tags: seq<nat>, i: nat, line: nat, dirty: bool)
    requires Legal(g) && ArrayOk(g, tags) && i < |tags| && line < DIRTY / 2 && i / g.ways == line % g.sets
    requires Held(tags, i) == Some(line) || line !in AbsArray(g, tags)
    ensures var tags' := tags[i := Tag(line, dirty)];
            && ArrayOk(g, tags')
            && AbsArray(g, tags') == match Held(tags, i)
                                     case None => AbsArray(g, tags)[line := dirty]
                                     case Some(l) => (AbsArray(g, tags) - {l})[line := dirty]
  {
    hide Tag, TagLine, IsDirty, ArrayOk, AbsArray;
    var m, x := AbsArray(g, tags), Tag(line, dirty);
    TagBits(line, dirty);
    OtherSlots(g, tags, i, line);
    ArrayPutOk(g, tags, i, line, dirty);
    TagNonzero(line, dirty);
    var kept := match Held(tags, i) case None => m case Some(l) => m - {l};
    forall l: nat | l != line
      ensures l in AbsArray(g, tags[i := x]) <==> l in kept
      ensures l in kept ==> AbsArray(g, tags[i := x])[l] == kept[l]
    {
      ArrayPutOther(g, tags, i, x, line, l);
    }
    SlotHolds(g, tags[i := x], i);
    MapEqual(AbsArray(g, tags[i := x]), kept, line, dirty);
  }

  lemma OtherSlots(g: Geometry, tags: seq<nat>, i: nat, line: nat)
    requires Legal(g) && ArrayOk(g, tags) && i < |tags|
    requires Held(tags, i) == Some(line) || line !in AbsArray(g, tags)
    ensures forall j :: 0 <= j < |tags| && j != i && tags[j] != 0 ==> TagLine(tags[j]) != line
  {
    hide Tag, TagLine, IsDirty;
    forall j | 0 <= j < |tags| && j != i && tags[j] != 0
      ensures TagLine(tags[j]) != line
    {
      assert TagLine(tags[j]) in AbsArray(g, tags);
    }
  }

  lemma SlotHolds(g: Geometry, tags: seq<nat>, i: nat)
    requires Legal(g) && ArrayOk(g, tags) && i < |tags| && tags[i] != 0
    ensures TagLine(tags[i]) in AbsArray(g, tags) && AbsArray(g, tags)[TagLine(tags[i])] == IsDirty(tags[i])
  {}

  lemma MapEqual(m: Resident, kept: Resident, line: nat, dirty: bool)
    requires forall l: nat :: l != line ==> (l in m <==> l in kept) && (l in kept ==> m[l] == kept[l])
    requires line in m && m[line] == dirty
    ensures m == kept[line := dirty]
  {}

  lemma TagNonzero(line: nat, dirty: bool)
    ensures Tag(line, dirty) != 0
  {}

  /** The slot that holds a resident line. */
  lemma SlotOf(g: Geometry, tags: seq<nat>, l: nat) returns (j: nat)
    requires Legal(g) && ArrayOk(g, tags) && l in AbsArray(g, tags)
    ensures j < |tags| && tags[j] != 0 && TagLine(tags[j]) == l && AbsArray(g, tags)[l] == IsDirty(tags[j])
  {
    hide Tag, TagLine, IsDirty;
    j :| 0 <= j < |tags| && tags[j] != 0 && TagLine(tags[j]) == l;
  }

  lemma ArrayPutOther(g: Geometry, tags: seq<nat>, i: nat, x: nat, line: nat, l: nat)
    requires Legal(g) && ArrayOk(g, tags) && i < |tags| && ArrayOk(g, tags[i := x])
    requires x != 0 && TagLine(x) == line && l != line
    ensures var kept := match Held(tags, i) case None => AbsArray(g, tags) case Some(k) => AbsArray(g, tags) - {k};
            && (l in AbsArray(g, tags[i := x]) <==> l in kept)
            && (l in kept ==> AbsArray(g, tags[i := x])[l] == kept[l])
  {
    hide Tag, TagLine, IsDirty, AbsArray;
    var m, m', tags' := AbsArray(g, tags), AbsArray(g, tags[i := x]), tags[i := x];
    if l in m' {
      var j := SlotOf(g, tags', l);
      assert j != i && tags[j] == tags'[j];
      SlotHolds(g, tags, j);
      OneSlot(g, tags, j, i);
    }
    if l in m && Held(tags, i) != Some(l) {
      var j := SlotOf(g, tags, l);
      assert j != i && tags[j] == tags'[j];
      SlotHolds(g, tags', j);
    }
  }

  lemma OneSlot(g: Geometry, tags: seq<nat>, j: nat, i: nat)
    requires Legal(g) && ArrayOk(g, tags) && j < |tags| && i < |tags| && j != i && tags[j] != 0
    ensures Held(tags, i) != Some(TagLine(tags[j]))
  {
    hide Tag, TagLine, IsDirty;
  }

  lemma ArrayPutOk(g: Geometry, tags: seq<nat>, i: nat, line: nat, dirty: bool)
    requires Legal(g) && ArrayOk(g, tags) && i < |tags| && line < DIRTY / 2 && i / g.ways == line % g.sets
    requires forall j :: 0 <= j < |tags| && j != i && tags[j] != 0 ==> TagLine(tags[j]) != line
    ensures ArrayOk(g, tags[i := Tag(line, dirty)])
  {
    TagBits(line, dirty);
    hide Tag, TagLine, IsDirty;
  }

  /** The slots of a set that are in use. */
  function Used(tags: seq<nat>, base: nat, n: nat): set<nat>
    requires base + n <= |tags|
  {
    set i | base <= i < base + n && tags[i] != 0
  }

  lemma UsedSnoc(tags: seq<nat>, base: nat, n: nat)
    requires n > 0 && base + n <= |tags|
    ensures var last := base + n - 1;
            && (tags[last] == 0 ==> Used(tags, base, n) == Used(tags, base, n - 1))
            && |Used(tags, base, n)| <= |Used(tags, base, n - 1)| + 1
  {
    var last := base + n - 1;
    if tags[last] == 0 {
      assert Used(tags, base, n) == Used(tags, base, n - 1);
    } else {
      assert Used(tags, base, n) == Used(tags, base, n - 1) + {last};
    }
  }

  lemma {:induction false} UsedSize(tags: seq<nat>, base: nat, n: nat, free: nat)
    requires base + n <= |tags|
    ensures |Used(tags, base, n)| <= n
    ensures base <= free < base + n && tags[free] == 0 ==> |Used(tags, base, n)| < n
    decreases n
  {
    hide Used;
    if n == 0 {
      UsedNone(tags, base);
    } else {
      UsedSize(tags, base, n - 1, free);
      UsedSnoc(tags, base, n);
    }
  }

  lemma UsedNone(tags: seq<nat>, base: nat)
    requires base <= |tags|
    ensures Used(tags, base, 0) == {}
  {}

  lemma {:induction false} LinesOfSlots(tags: seq<nat>, slots: set<nat>)
    requires forall i :: i in slots ==> i < |tags|
    ensures |set i | i in slots :: TagLine(tags[i])| <= |slots|
    decreases |slots|
  {
    if slots != {} {
      var i :| i in slots;
      LinesOfSlots(tags, slots - {i});
      assert (set j | j in slots :: TagLine(tags[j])) ==
             (set j | j in slots - {i} :: TagLine(tags[j])) + {TagLine(tags[i])};
    }
  }

  /** A set with as many lines as ways has no free slot. */
  lemma FullSet(g: Geometry, tags: seq<nat>, line: nat, i: nat)
    requires Legal(g) && ArrayOk(g, tags) && i < |tags| && i / g.ways == line % g.sets && tags[i] == 0
    ensures |InSet(g, AbsArray(g, tags), line % g.sets)| < g.ways
  {
    hide TagLine, Tag, IsDirty;
    var s, m := line % g.sets, AbsArray(g, tags);
    var base := s * g.ways;
    SetRange(g, line, i);
    var slots := Used(tags, base, g.ways);
    UsedSize(tags, base, g.ways, i);
    LinesOfSlots(tags, slots);
    forall l | l in InSet(g, m, s)
      ensures l in set j | j in slots :: TagLine(tags[j])
    {
      var j :| 0 <= j < |tags| && tags[j] != 0 && TagLine(tags[j]) == l;
      SetRange(g, line, j);
    }
    SubsetSize(InSet(g, m, s), set j | j in slots :: TagLine(tags[j]));
  }

  lemma SubsetSize<T>(a: set<T>, b: set<T>)
    requires a <= b
    ensures |a| <= |b|
  {
    assert b == a + (b - a);
  }

  /** The slots of the set of `line` are `ways` consecutive ones. */
  lemma SetRange(g: Geometry, line: nat, i: nat)
    requires Legal(g)
    ensures line % g.sets * g.ways + g.ways <= g.sets * g.ways
    ensures i / g.ways == line % g.sets <==> line % g.sets * g.ways <= i < line % g.sets * g.ways + g.ways
  {
    var s := line % g.sets;
    MulMonotone(g.ways, s + 1, g.sets);
    assert g.ways * (s + 1) == s * g.ways + g.ways && g.ways * g.sets == g.sets * g.ways;
    Split(i, g.ways);
    if s * g.ways <= i < s * g.ways + g.ways {
      DivUnique(i, g.ways, s, i - s * g.ways);
    }
  }

  lemma ArrayHit(s: State, r: Request)
    requires Sound(s) && !s.fully_associative && r.addr < WORD && Line(s.g, r.addr) in Abs(s)
    ensures Sound(Access(s, r).0) && Refines(s, r, Access(s, r).0, Access(s, r).1, None)
  {
    hide TagLine, Tag, IsDirty, SetDirty, FindWay, Line, LegalVictim, Access, CheckTag, ArrayOk, AbsArray, Count;
    var line := Line(s.g, r.addr);
    LineBound(s.g, r.addr);
    HitIffResident(s, line);
    ArraySized(s);
    var i := CheckTag(s, line).value;
    ArrayHitSlot(s.g, s.tags, i, line);
    ArrayPut(s.g, s.tags, i, line, true);
    PutTwice(Abs(s), line);
    HitShape(s, r, i);
    var s' := Access(s, r).0;
    assert s'.tags == if r.store then s.tags[i := Tag(line, true)] else s.tags;
    assert Sound(s');
    assert Abs(s') == AbsAccess(s.g, Abs(s), r, None).0;
  }

  lemma PutTwice(m: Resident, line: nat)
    requires line in m
    ensures m[line := m[line]] == m && (m - {line})[line := true] == m[line := true]
  {}

  lemma HitShape(s: State, r: Request, at: nat)
    requires Legal(s.g) && (!s.fully_associative ==> |s.tags| == s.g.sets * s.g.ways)
    requires CheckTag(s, Line(s.g, r.addr)) == Some(at)
    ensures Access(s, r) == ((if r.store then MarkDirty(s, at) else s).(stats := Count(s.stats, r, [])), [])
  {}

  lemma ArrayHitSlot(g: Geometry, tags: seq<nat>, i: nat, line: nat)
    requires Legal(g) && ArrayOk(g, tags) && i < |tags| && Held(tags, i) == Some(line)
    ensures line < DIRTY / 2 && i / g.ways == line % g.sets && SetDirty(tags[i]) == Tag(line, true)
  {
    TagBits(line, IsDirty(tags[i]));
    hide TagLine, Tag, IsDirty, SetDirty;
  }

  /** The victim of a miss in the array: the line of the slot that the random number picks, none if it is empty. */
  lemma ArrayVictim(s: State, line: nat) returns (victim: Option<nat>, i: nat)
    requires Sound(s) && !s.fully_associative && line !in Abs(s) && line < DIRTY / 2
    ensures i < |s.tags| && i / s.g.ways == line % s.g.sets && victim == Held(s.tags, i)
    ensures victim.Some? ==> victim.value in Abs(s) && victim.value < DIRTY / 2
    ensures LegalVictim(s.g, Abs(s), line, victim)
    ensures Victimize(s, line) ==
            (s.(tags := s.tags[i := SetValid(line)], lfsr := NextLfsr(s.lfsr)), s.tags[i])
    ensures s.tags[i] == match victim case None => 0 case Some(l) => Tag(l, Abs(s)[l])
  {
    hide TagLine, Tag, IsDirty, SetValid, NextLfsr;
    i := VictimSlot(s.g, line, NextLfsr(s.lfsr) as nat);
    victim := Held(s.tags, i);
    if victim.None? {
      FullSet(s.g, s.tags, line, i);
    } else {
      assert s.tags[i] != 0 && TagLine(s.tags[i]) == victim.value;
    }
  }

  lemma ArraySized(s: State)
    requires Sound(s) && !s.fully_associative
    ensures |s.tags| == s.g.sets * s.g.ways
  {}

  lemma ArrayMiss(s: State, r: Request) returns (victim: Option<nat>)
    requires Sound(s) && !s.fully_associative && r.addr < WORD && Line(s.g, r.addr) !in Abs(s)
    ensures Sound(Access(s, r).0) && Refines(s, r, Access(s, r).0, Access(s, r).1, victim)
  {
    hide IsValid, IsDirty, TagLine, ClearDirty, SetDirty, SetValid, Tag, NextLfsr, Line, LegalVictim;
    hide MissRequests, Replaced, Count, FindWay, Victimize, Access, ArrayOk, AbsArray;
    var g, line := s.g, Line(s.g, r.addr);
    LineBound(g, r.addr);
    TagBits(line, false);
    HitIffResident(s, line);
    var i;
    victim, i := ArrayVictim(s, line);
    RequestsMatch(g, Abs(s), s.tags[i], r.addr, victim);
    ArrayPut(g, s.tags, i, line, false);
    ArrayPut(g, s.tags, i, line, r.store);
    ArraySized(s);
    var s1 := Victimize(s, line).0;
    assert Sound(s1);
    HitIffResident(s1, line);
    SlotUnique(s1, line, i);
    MissShape(s, r, s1, s.tags[i]);
    var s' := Access(s, r).0;
    assert s'.tags == s.tags[i := Tag(line, r.store)];
    assert Sound(s');
    assert Abs(s') == AbsAccess(g, Abs(s), r, victim).0;
  }

  lemma SlotUnique(s: State, line: nat, i: nat)
    requires Sound(s) && !s.fully_associative && line < DIRTY / 2
    requires i < |s.tags| && s.tags[i] == Tag(line, false)
    ensures line in Abs(s) && CheckTag(s, line) == Some(i)
  {
    TagBits(line, false);
    assert s.tags[i] != 0 && TagLine(s.tags[i]) == line;
    HitIffResident(s, line);
  }

  /** Both kinds of cache refine the abstract cache, access by access. */
  lemma AccessRefines(s: State, r: Request) returns (victim: Option<nat>)
    requires Sound(s) && r.addr < WORD
    ensures Sound(Access(s, r).0) && Refines(s, r, Access(s, r).0, Access(s, r).1, victim)
  {
    if s.fully_associative {
      if Line(s.g, r.addr) in Abs(s) {
        MapHit(s, r);
        victim := None;
      } else {
        victim := MapMiss(s, r);
      }
    } else {
      if Line(s.g, r.addr) in Abs(s) {
        ArrayHit(s, r);
        victim := None;
      } else {
        victim := ArrayMiss(s, r);
      }
    }
  }

  /** After a line has been put in, `check_tag` finds it: the second lookup of a store never fails. */
  lemma FoundAfterVictimize(s: State, line: nat)
    requires Sound(s) && line < DIRTY / 2 && CheckTag(s, line).None?
    ensures CheckTag(Victimize(s, line).0, line).Some?
  {
    if !s.fully_associative {
      hide IsValid, IsDirty, TagLine, ClearDirty, SetDirty, SetValid, Tag, NextLfsr, FindWay, ArrayOk, AbsArray;
      HitIffResident(s, line);
      var victim, i := ArrayVictim(s, line);
      TagBits(line, false);
      ArrayPut(s.g, s.tags, i, line, false);
      ArraySized(s);
      SlotUnique(Victimize(s, line).0, line, i);
    }
  }
}

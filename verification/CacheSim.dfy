/**
 The class `cache_sim_t`, with the overrides of `fa_cache_sim_t` selected by `fully_associative`: tag words changed
 in place, and a chain of miss handlers that each access may run down.
 */
module CacheSim {
  import opened Common
  import opened Bits
  import opened CacheModel
  import opened CacheRuns

  // ----- A chain of caches -----

  ghost predicate AllInv(levels: seq<State>) {
    forall i :: 0 <= i < |levels| ==> Inv(levels[i])
  }

  /** An access to the first cache of a chain, each cache being the miss handler of the one before. */
  ghost function AccessLevels(levels: seq<State>, r: Request): (levels': seq<State>)
    requires AllInv(levels) && r.addr < WORD
    ensures AllInv(levels') && |levels'| == |levels|
    decreases |levels|, 0
  {
    if levels == [] then []
    else
      hide Access, Inv, Addressable;
      InvLegal(levels[0]);
      StepKeepsStores(levels[0], r);
      var (s, out) := Access(levels[0], r);
      [s] + FeedLevels(levels[1..], out)
  }

  ghost function FeedLevels(levels: seq<State>, rs: seq<Request>): (levels': seq<State>)
    requires AllInv(levels) && Addressable(rs)
    ensures AllInv(levels') && |levels'| == |levels|
    decreases |levels|, 1 + |rs|
  {
    if rs == [] then levels else FeedLevels(AccessLevels(levels, rs[0]), rs[1..])
  }

  lemma FeedOne(levels: seq<State>, r: Request)
    requires AllInv(levels) && r.addr < WORD
    ensures FeedLevels(levels, [r]) == AccessLevels(levels, r)
  {
    assert [r][1..] == [];
  }

  lemma FeedTwo(levels: seq<State>, r: Request, r': Request)
    requires AllInv(levels) && r.addr < WORD && r'.addr < WORD
    ensures Addressable([r, r'])
    ensures FeedLevels(levels, [r, r']) == AccessLevels(AccessLevels(levels, r), r')
  {
    assert [r, r'][1..] == [r'];
    FeedOne(AccessLevels(levels, r), r');
  }

  // ----- Configuration -----

  /** `x & (x - 1)` is zero exactly for the powers of two. */
  lemma {:induction false} PowerOfTwoTest(x: nat)
    requires x > 0
    ensures And(x, x - 1) == 0 <==> exists k: nat :: x == Pow2(k)
  {
    if x % 2 == 0 {
      var h := x / 2;
      PowerOfTwoTest(h);
      assert (x - 1) / 2 == h - 1 && (x - 1) % 2 == 1;
      assert And(x, x - 1) == 2 * And(h, h - 1);
      if And(h, h - 1) == 0 {
        var k: nat :| h == Pow2(k);
        assert x == Pow2(k + 1);
      } else {
        forall k: nat ensures x != Pow2(k) {
          assert k > 0 ==> h != Pow2(k - 1);
        }
      }
    } else if x == 1 {
      Pow2Literals();
      assert And(1, 0) == 0;
    } else {
      var h := x / 2;
      assert (x - 1) / 2 == h && And(x, x - 1) == 2 * And(h, h);
      AndSelf(h);
      assert h > 0 && And(x, x - 1) != 0;
      forall k: nat ensures x != Pow2(k) {
        OddPow2(k);
      }
    }
  }

  lemma {:induction false} OddPow2(k: nat)
    ensures Pow2(k) == 1 || Pow2(k) % 2 == 0
  {
    if k > 0 {
      assert Pow2(k) == 2 * Pow2(k - 1);
    }
  }

  lemma {:induction false} AndSelf(x: nat)
    ensures And(x, x) == x
  {
    if x > 0 {
      AndSelf(x / 2);
    }
  }

  class CacheSim {
    const g: Geometry
    const idx_shift: nat
    const fully_associative: bool
    const tags: array<nat>
    var assoc: map<nat, nat>
    var lfsr: bv32
    var stats: Stats
    var miss_handler: CacheSim?
    ghost var Repr: set<object>

    ghost function View(): State
      reads this, tags
    {
      State(g, fully_associative, tags[..], assoc, lfsr, stats)
    }

    ghost predicate Shaped()
      reads this, tags
    {
      && Legal(g) && (!fully_associative ==> tags.Length == g.sets * g.ways)
      && Pow2(idx_shift) == g.linesz
      && exists k: nat :: g.sets == Pow2(k)
    }

    ghost predicate Valid()
      reads this, Repr
      decreases Repr
    {
      && this in Repr && tags in Repr && Shaped() && Inv(View())
      && (miss_handler != null ==>
            && miss_handler in Repr && miss_handler.Repr < Repr
            && this !in miss_handler.Repr && tags !in miss_handler.Repr
            && miss_handler.Valid())
    }

    /** This cache and the miss handlers behind it. */
    ghost function Levels(): (levels: seq<State>)
      requires Valid()
      reads this, Repr
      ensures AllInv(levels)
      decreases Repr
    {
      [View()] + if miss_handler == null then [] else miss_handler.Levels()
    }

    /** `init`, for a configuration that has passed its checks. */
    constructor (sets: nat, ways: nat, linesz: nat, fully_associative: bool)
      requires sets > 0 && And(sets, sets - 1) == 0 && linesz >= 8 && And(linesz, linesz - 1) == 0 && ways > 0
      requires fully_associative ==> sets == 1
      ensures Valid() && fresh(Repr) && miss_handler == null
      ensures View() == Empty(Geometry(sets, ways, linesz), fully_associative)
    {
      g := Geometry(sets, ways, linesz);
      this.fully_associative := fully_associative;
      var shift := ShiftOf(linesz);
      idx_shift := shift;
      tags := new nat[sets * ways](_ => 0);
      assoc, lfsr, stats, miss_handler := map[], 1, NO_STATS, null;
      new;
      Repr := {this, tags};
      PowerOfTwoTest(sets);
      EmptyInv(g, fully_associative);
      assert tags[..] == Empty(g, fully_associative).tags;
    }

    /** The loop of cachesim.cc:47-49. */
    static method ShiftOf(linesz: nat) returns (shift: nat)
      requires linesz > 0 && And(linesz, linesz - 1) == 0
      ensures Pow2(shift) == linesz
    {
      PowerOfTwoTest(linesz);
      ghost var k: nat :| linesz == Pow2(k);
      shift := 0;
      var x := linesz;
      while x > 1
        invariant shift <= k && x == Pow2(k - shift)
        decreases x
      {
        x := x / 2;
        shift := shift + 1;
      }
    }

    method SetMissHandler(mh: CacheSim)
      requires Valid() && mh.Valid() && this !in mh.Repr && tags !in mh.Repr
      modifies this`miss_handler, this`Repr
      ensures Valid() && miss_handler == mh && Repr == old(Repr) + mh.Repr
      ensures Levels() == [old(View())] + old(mh.Levels())
    {
      miss_handler := mh;
      Repr := Repr + mh.Repr;
    }

    /** `check_tag`, on the array or on the map. */
    method CheckTagAt(addr: nat) returns (at: Option<nat>)
      requires Linked()
      ensures at == CheckTag(View(), Line(g, addr))
    {
      var line := Shr(addr, idx_shift);
      assert line == Line(g, addr);
      if fully_associative {
        return if line in assoc then Some(line) else None;
      }
      ghost var k: nat :| g.sets == Pow2(k);
      AndLow(line, k);
      var idx := And(line, g.sets - 1);
      var tag := SetValid(line);
      var i := 0;
      while i < g.ways
        invariant 0 <= i <= g.ways
        invariant FindWay(g, tags[..], line, 0) == FindWay(g, tags[..], line, i)
      {
        SlotBound(g, line, i);
        if tag == ClearDirty(tags[idx * g.ways + i]) {
          return Some(idx * g.ways + i);
        }
        i := i + 1;
      }
      return None;
    }

    /** `*hit_way |= DIRTY` */
    method MarkDirtyAt(at: nat)
      requires Linked() && if fully_associative then at in assoc else at < tags.Length
      modifies this`assoc, tags
      ensures Linked() && Behind() == old(Behind())
      ensures View() == MarkDirty(old(View()), at)
    {
      hide Inv, SetDirty;
      if fully_associative {
        assoc := assoc[at := SetDirty(assoc[at])];
        assert tags[..] == old(tags[..]);
      } else {
        tags[at] := SetDirty(tags[at]);
      }
    }

    /** `std::advance(tags.begin(), n)`: step over the `n` least keys. */
    static method Advance(keys0: set<nat>, n: nat) returns (key: nat)
      requires n < |keys0|
      ensures key == NthKey(keys0, n)
    {
      var keys, i := keys0, 0;
      key := LeastKey(keys);
      while i < n
        invariant 0 <= i <= n && n - i < |keys|
        invariant key == Least(keys)
        invariant NthKey(keys0, n) == NthKey(keys, n - i)
      {
        keys := keys - {key};
        key := LeastKey(keys);
        i := i + 1;
      }
    }

    static method LeastKey(keys: set<nat>) returns (key: nat)
      requires keys != {}
      ensures key == Least(keys)
    {
      key :| key in keys;
      var rest := keys - {key};
      while rest != {}
        invariant key in keys && rest <= keys
        invariant forall k :: k in keys && k !in rest ==> key <= k
        decreases rest
      {
        var k :| k in rest;
        rest := rest - {k};
        if k < key {
          key := k;
        }
      }
    }

    /** `fa_cache_sim_t::victimize` */
    method ReplaceInMap(line: nat) returns (victim: nat)
      requires Legal(g) && fully_associative
      modifies this`assoc, this`lfsr
      ensures (View(), victim) == Victimize(old(View()), line)
    {
      hide NextLfsr, NthKey, SetValid;
      victim := 0;
      if |assoc| == g.ways {
        lfsr := NextLfsr(lfsr);
        var key := Advance(assoc.Keys, (lfsr as nat) % g.ways);
        victim := assoc[key];
        assoc := assoc - {key};
      }
      assoc := assoc[line := SetValid(line)];
    }

    /** `cache_sim_t::victimize` */
    method ReplaceInArray(line: nat) returns (victim: nat)
      requires Shaped() && !fully_associative
      modifies this`lfsr, tags
      ensures (View(), victim) == Victimize(old(View()), line)
    {
      hide NextLfsr, Pow2, SetValid;
      ghost var k: nat :| g.sets == Pow2(k);
      AndLow(line, k);
      var idx := And(line, g.sets - 1);
      lfsr := NextLfsr(lfsr);
      var way := (lfsr as nat) % g.ways;
      SlotBound(g, line, way);
      victim := tags[idx * g.ways + way];
      tags[idx * g.ways + way] := SetValid(line);
    }

    /** `victimize`: the tag word that was replaced. */
    method Replace(addr: nat) returns (victim: nat)
      requires Linked()
      modifies this`assoc, this`lfsr, tags
      ensures Linked() && Behind() == old(Behind())
      ensures (View(), victim) == Victimize(old(View()), Line(g, addr))
    {
      hide Victimize, Inv;
      var line := Shr(addr, idx_shift);
      assert line == Line(g, addr);
      if fully_associative {
        victim := ReplaceInMap(line);
      } else {
        victim := ReplaceInArray(line);
      }
    }

    /** Valid but for the counters and the line being replaced: what holds in the middle of an access. */
    ghost predicate Linked()
      reads this, Repr
    {
      && this in Repr && tags in Repr && Shaped()
      && (miss_handler != null ==>
            && miss_handler in Repr && miss_handler.Repr < Repr
            && this !in miss_handler.Repr && tags !in miss_handler.Repr
            && miss_handler.Valid())
    }

    ghost function Behind(): (levels: seq<State>)
      requires Linked()
      reads this, Repr
      ensures AllInv(levels)
    {
      if miss_handler == null then [] else miss_handler.Levels()
    }

    lemma LinkedParts()
      requires Linked()
      ensures Shaped() && this in Repr && tags in Repr
    {}

    /** `if (miss_handler) miss_handler->access(...)` */
    method CallHandler(addr: nat, store: bool)
      requires Linked() && addr < WORD
      modifies Repr
      ensures Linked() && Repr == old(Repr) && miss_handler == old(miss_handler)
      ensures View() == old(View())
      ensures Behind() == AccessLevels(old(Behind()), Request(addr, g.linesz, store))
      decreases Repr, 0
    {
      hide Inv, AccessLevels;
      if miss_handler != null {
        miss_handler.AccessCache(addr, g.linesz, store);
      } else {
        assert AccessLevels([], Request(addr, g.linesz, store)) == [];
      }
    }

    /** Changes one of the counters. */
    method SetStats(stats': Stats)
      requires Linked()
      modifies this`stats
      ensures Linked() && Behind() == old(Behind())
      ensures View() == old(View()).(stats := stats')
    {
      hide Inv;
      stats := stats';
    }

    /** cachesim.cc:141-150: write back a dirty victim, then read the missing line, by the miss handler. */
    method ForwardMiss(addr: nat, victim: nat)
      requires Linked() && Addressable(Replaced(g, victim, addr))
      modifies Repr
      ensures Linked() && Repr == old(Repr) && miss_handler == old(miss_handler)
      ensures View() == old(View()).(stats := AfterForward(old(stats), victim))
      ensures Behind() == FeedLevels(old(Behind()), Replaced(g, victim, addr))
      decreases Repr, 1
    {
      assert Legal(g) && this in Repr;
      hide IsValid, IsDirty, VictimAddr, LineStart, Inv, Replaced, Addressable;
      hide AccessLevels, FeedLevels, Behind, Linked;
      ReplacedShape(g, victim, addr);
      ghost var behind := Behind();
      ghost var read := Request(LineStart(g, addr), g.linesz, false);
      if IsValid(victim) && IsDirty(victim) {
        var dirty_addr := VictimAddr(g, victim);
        ghost var write := Request(dirty_addr, g.linesz, true);
        CallHandler(dirty_addr, true);
        SetStats(stats.(writebacks := stats.writebacks + 1));
        FeedTwo(behind, write, read);
      } else {
        FeedOne(behind, read);
      }
      CallHandler(LineStart(g, addr), false);
    }

    /** cachesim.cc:137-153: count the miss, replace a line, tell the next level, and mark a stored line dirty. */
    method MissPath(addr: nat, store: bool)
      requires Linked()
      requires var (s1, word) := Victimize(View(), Line(g, addr));
               CheckTag(s1, Line(g, addr)).Some? && Addressable(Replaced(g, word, addr))
      modifies Repr
      ensures Linked() && Repr == old(Repr) && miss_handler == old(miss_handler)
      ensures var line := Line(g, addr);
              var (s1, word) := Victimize(old(View()), line);
              && View() == (if store then MarkDirty(s1, CheckTag(s1, line).value) else s1)
                           .(stats := AfterForward(CountMiss(old(stats), store), word))
              && Behind() == FeedLevels(old(Behind()), Replaced(g, word, addr))
      decreases Repr, 2
    {
      hide Inv, Replaced, Addressable, Victimize, CheckTag, Line, AfterForward, CountMiss;
      hide AccessLevels, FeedLevels, Behind, Linked;
      LinkedParts();
      ghost var s0, line := View(), Line(g, addr);
      SetStats(CountMiss(stats, store));
      StatsIrrelevant(s0, stats, line);
      var victim := Replace(addr);
      ForwardMiss(addr, victim);
      if store {
        StatsIrrelevant(Victimize(s0, line).0, stats, line);
        var hit := CheckTagAt(addr);
        assert hit.Some?;
        MarkDirtyAt(hit.value);
      }
    }

    /** One access: this cache and all its miss handlers end as specified, each having seen what the one before sent. */
    method AccessCache(addr: nat, bytes: nat, store: bool)
      requires Valid() && addr < WORD
      modifies Repr
      ensures Valid() && Repr == old(Repr) && miss_handler == old(miss_handler)
      ensures Levels() == AccessLevels(old(Levels()), Request(addr, bytes, store))
      decreases Repr, 3
    {
      hide Access, Inv, Abs, Sound, Line, Victimize, CheckTag, Owe, WrittenBack, DirtyLines, Replaced;
      hide Levels, AccessLevels, FeedLevels, Addressable, CountAccess, CountMiss, AfterForward, Behind, Linked;
      LevelsParts();
      ghost var r, s0, line, behind := Request(addr, bytes, store), View(), Line(g, addr), Behind();
      StepKeepsStores(s0, r);
      AccessLevelsParts(s0, behind, r);
      SetStats(CountAccess(stats, bytes, store));
      StatsIrrelevant(s0, stats, line);
      var hit := CheckTagAt(addr);
      if hit.Some? {
        HitShape(s0, r, hit.value);
        if store {
          MarkDirtyAt(hit.value);
        }
      } else {
        MissFacts(s0, r);
        StatsIrrelevant(Victimize(s0, line).0, stats, line);
        MissPath(addr, store);
      }
      assert View() == Access(s0, r).0 by { CountParts(s0, r); }
      PartsLevels();
    }

    lemma LevelsParts()
      requires Valid()
      ensures Linked() && Levels() == [View()] + Behind()
    {}

    lemma PartsLevels()
      requires Linked() && Inv(View())
      ensures Valid() && Levels() == [View()] + Behind()
    {}
  }

  /** The counters after an access has been noticed (cachesim.cc:126-127). */
  function CountAccess(s: Stats, bytes: nat, store: bool): Stats {
    if store then s.(write_accesses := s.write_accesses + 1, bytes_written := s.bytes_written + bytes)
    else s.(read_accesses := s.read_accesses + 1, bytes_read := s.bytes_read + bytes)
  }

  /** The counters after a miss has been noticed, and after it has been handled. */
  function CountMiss(s: Stats, store: bool): Stats {
    if store then s.(write_misses := s.write_misses + 1) else s.(read_misses := s.read_misses + 1)
  }

  function AfterForward(s: Stats, victim: nat): Stats {
    if IsValid(victim) && IsDirty(victim) then s.(writebacks := s.writebacks + 1) else s
  }

  /** Counting in three steps is counting. */
  lemma CountParts(s: State, r: Request)
    requires Inv(s) && r.addr < WORD
    ensures var line := Line(s.g, r.addr);
            var stats := CountAccess(s.stats, r.bytes, r.store);
            && Count(s.stats, r, []) == stats
            && (CheckTag(s, line).None? ==>
                  Access(s, r).0.stats ==
                  AfterForward(CountMiss(stats, r.store), Victimize(s, line).1))
  {
    hide IsValid, IsDirty, Victimize, CheckTag, Access, Sound, Abs, Line;
    InvLegal(s);
    if CheckTag(s, Line(s.g, r.addr)).None? {
      MissFacts(s, r);
    }
  }

  lemma AccessLevelsParts(s: State, behind: seq<State>, r: Request)
    requires Inv(s) && AllInv(behind) && r.addr < WORD
    ensures Sound(s) && Legal(s.g) && (!s.fully_associative ==> |s.tags| == s.g.sets * s.g.ways)
    ensures Addressable(Access(s, r).1)
    ensures AllInv([s] + behind)
    ensures AccessLevels([s] + behind, r) == [Access(s, r).0] + FeedLevels(behind, Access(s, r).1)
    ensures FeedLevels(behind, []) == behind
  {
    hide Inv, Access;
    InvLegal(s);
    StepKeepsStores(s, r);
    assert ([s] + behind)[1..] == behind;
  }

  lemma ReplacedShape(g: Geometry, victim: nat, addr: nat)
    requires Legal(g)
    ensures var read := Request(LineStart(g, addr), g.linesz, false);
            var write := Request(VictimAddr(g, victim), g.linesz, true);
            && Replaced(g, victim, addr) == (if IsValid(victim) && IsDirty(victim) then [write, read] else [read])
            && (Addressable(Replaced(g, victim, addr)) ==>
                  read.addr < WORD && (IsValid(victim) && IsDirty(victim) ==> write.addr < WORD))
  {
    var out := Replaced(g, victim, addr);
    assert out[|out| - 1] in out && out[0] in out;
  }

  lemma StatsIrrelevant(s: State, stats: Stats, line: nat)
    requires Legal(s.g) && (!s.fully_associative ==> |s.tags| == s.g.sets * s.g.ways)
    ensures var s1 := Victimize(s, line).0;
            s1.g == s.g && s1.fully_associative == s.fully_associative && |s1.tags| == |s.tags|
    ensures CheckTag(s.(stats := stats), line) == CheckTag(s, line)
    ensures Victimize(s.(stats := stats), line) == (Victimize(s, line).0.(stats := stats), Victimize(s, line).1)
  {}

  /** What a miss does, in the order in which the method does it. */
  lemma MissFacts(s: State, r: Request)
    requires Inv(s) && r.addr < WORD && CheckTag(s, Line(s.g, r.addr)).None?
    ensures var line := Line(s.g, r.addr);
            var (s1, word) := Victimize(s, line);
            var (s', out) := Access(s, r);
            && CheckTag(s1, line).Some?
            && out == Replaced(s.g, word, r.addr) && out != [] && Addressable(out)
            && (out[0].store <==> IsValid(word) && IsDirty(word))
            && s' == (if r.store then MarkDirty(s1, CheckTag(s1, line).value) else s1).(stats := Count(s.stats, r, out))
  {
    hide IsValid, IsDirty, TagLine, NextLfsr, FindWay, Sound, Abs, Inv, Victimize, CheckTag, Access, Line;
    InvLegal(s);
    var line := Line(s.g, r.addr);
    StepKeepsStores(s, r);
    LineBound(s.g, r.addr);
    FoundAfterVictimize(s, line);
    MissShape(s, r, Victimize(s, line).0, Victimize(s, line).1);
  }
}

/**
 `processor_t::decode_insn`: a direct-mapped opcode cache in front of a linear search of a table that moves
 the entries it finds to the front. Decoding must not depend on what was decoded before.
 */
module Decoder {
  import opened Common
  import opened Bits

  const OPCODE_CACHE_SIZE := 8191

  /** The instruction functions of an entry, for 32-bit and 64-bit harts. */
  datatype Funcs = Funcs(rv32: nat, rv64: nat)

  /** `insn_desc_t`; `pattern` is the field called match. */
  datatype Desc = Desc(pattern: reg_t, mask: reg_t, funcs: Funcs)

  const ILLEGAL := Funcs(0, 0)
  const SENTINEL := Desc(0, 0, ILLEGAL)

  predicate Matches(w: reg_t, d: Desc) {
    And(w, d.mask) == d.pattern
  }

  // ----- The table -----

  /** The table ends in the all-zero entry of `register_base_instructions`, and only that entry has no mask. */
  predicate Terminated(t: seq<Desc>) {
    && |t| > 0 && t[|t| - 1] == SENTINEL
    && forall i :: 0 <= i < |t| - 1 ==> t[i].mask != 0
  }

  /** No word matches two entries with different patterns, the terminator aside. */
  ghost predicate Disjoint(t: seq<Desc>) {
    forall d, d', w ::
      d in t && d' in t && d.mask != 0 && d'.mask != 0 && Matches(w, d) && Matches(w, d') ==>
      d.pattern == d'.pattern
  }

  /** Entries with the same pattern are neighbours. */
  predicate Grouped(t: seq<Desc>) {
    forall i, j, k :: 0 <= i < k < j < |t| && t[i].pattern == t[j].pattern ==> t[k].pattern == t[i].pattern
  }

  /** The order of `build_opcode_map`. */
  predicate Sorted(t: seq<Desc>) {
    forall i, j :: 0 <= i < j < |t| ==>
      t[i].pattern > t[j].pattern || (t[i].pattern == t[j].pattern && t[i].mask >= t[j].mask)
  }

  ghost predicate TableOk(t: seq<Desc>) {
    Terminated(t) && Disjoint(t) && Grouped(t)
  }

  lemma SortedGrouped(t: seq<Desc>)
    requires Sorted(t)
    ensures Grouped(t)
  {
    forall i, j, k | 0 <= i < k < j < |t| && t[i].pattern == t[j].pattern
      ensures t[k].pattern == t[i].pattern
    {
    }
  }

  // ----- Search -----

  /** The index of the first matching entry. */
  function Find(t: seq<Desc>, w: reg_t): (k: nat)
    requires Terminated(t)
    ensures k < |t| && Matches(w, t[k])
    ensures forall j :: 0 <= j < k ==> !Matches(w, t[j])
  {
    if Matches(w, t[0]) then 0 else 1 + Find(t[1..], w)
  }

  function Lookup(t: seq<Desc>, w: reg_t): Desc
    requires Terminated(t)
  {
    t[Find(t, w)]
  }

  lemma FindUnique(t: seq<Desc>, w: reg_t, k: nat)
    requires Terminated(t) && k < |t| && Matches(w, t[k])
    requires forall j :: 0 <= j < k ==> !Matches(w, t[j])
    ensures Find(t, w) == k
  {}

  /** In the sorted table the search finds the entry with the largest mask among all that match. */
  lemma SortedFindsLargestMask(t: seq<Desc>, w: reg_t, d: Desc)
    requires TableOk(t) && Sorted(t) && d in t && d.mask != 0 && Matches(w, d)
    ensures Lookup(t, w).pattern == d.pattern && Lookup(t, w).mask >= d.mask
  {
    hide Matches, Grouped;
    var j :| 0 <= j < |t| && t[j] == d;
    var k := Find(t, w);
    assert k <= j && t[k] in t;
    assert t[k].mask != 0;
    assert t[k].pattern == d.pattern;
  }

  // ----- Move to front -----

  function MoveToFront(t: seq<Desc>, k: nat): seq<Desc>
    requires k < |t|
  {
    [t[k]] + t[..k] + t[k + 1..]
  }

  /** processor.cc:733-734: not the terminator, not first already, and alone in its group. */
  predicate Movable(t: seq<Desc>, k: nat)
    requires Terminated(t) && k < |t|
  {
    t[k].mask != 0 && k > 0 && t[k].pattern != t[k - 1].pattern && t[k].pattern != t[k + 1].pattern
  }

  /** Where entry `j` of the new table came from. */
  function Origin(k: nat, j: nat): nat {
    if j == 0 then k else if j <= k then j - 1 else j
  }

  lemma MoveToFrontIndex(t: seq<Desc>, k: nat, j: nat)
    requires k < |t| && j < |t|
    ensures |MoveToFront(t, k)| == |t| && Origin(k, j) < |t|
    ensures MoveToFront(t, k)[j] == t[Origin(k, j)]
  {}

  lemma AloneInGroup(t: seq<Desc>, k: nat, j: nat)
    requires TableOk(t) && k < |t| && Movable(t, k) && j < |t| && j != k
    ensures t[j].pattern != t[k].pattern
  {
    var before, after := t[k - 1], t[k + 1];
  }

  /** The new table, position by position; it holds no other entries. */
  lemma MovedFrom(t: seq<Desc>, k: nat)
    requires k < |t|
    ensures |MoveToFront(t, k)| == |t|
    ensures forall j :: 0 <= j < |t| ==> Origin(k, j) < |t| && MoveToFront(t, k)[j] == t[Origin(k, j)]
    ensures forall d :: d in MoveToFront(t, k) ==> d in t
  {
    var t' := MoveToFront(t, k);
    forall j: nat | j < |t| ensures Origin(k, j) < |t| && t'[j] == t[Origin(k, j)] { MoveToFrontIndex(t, k, j); }
    forall d | d in t' ensures d in t {
      var j :| 0 <= j < |t'| && t'[j] == d;
      assert t[Origin(k, j)] == d;
    }
  }

  lemma MoveKeepsGroups(t: seq<Desc>, k: nat)
    requires TableOk(t) && k < |t| && Movable(t, k)
    ensures Grouped(MoveToFront(t, k))
  {
    MovedFrom(t, k);
    hide MoveToFront, Movable, Disjoint, Terminated;
    var t' := MoveToFront(t, k);
    forall i: nat, j: nat, l: nat | i < l < j < |t'| && t'[i].pattern == t'[j].pattern
      ensures t'[l].pattern == t'[i].pattern
    {
      if i == 0 {
        AloneInGroup(t, k, Origin(k, j));
      } else {
        assert Origin(k, i) < Origin(k, l) < Origin(k, j);
      }
    }
  }

  lemma MoveKeepsEnd(t: seq<Desc>, k: nat)
    requires Terminated(t) && k < |t| && Movable(t, k)
    ensures Terminated(MoveToFront(t, k))
  {
    MovedFrom(t, k);
    hide MoveToFront;
    var n := |t| - 1;
    assert k < n && Origin(k, n) == n;
    assert forall j :: 0 <= j < n ==> Origin(k, j) < n;
  }

  lemma MoveKeepsTableOk(t: seq<Desc>, k: nat)
    requires TableOk(t) && k < |t| && Movable(t, k)
    ensures TableOk(MoveToFront(t, k))
  {
    MoveKeepsEnd(t, k);
    MoveKeepsGroups(t, k);
    MovedFrom(t, k);
    hide MoveToFront, Movable, Grouped, Terminated, Matches;
  }

  /** Moving an entry that is alone in its group changes no search. */
  lemma MoveKeepsLookup(t: seq<Desc>, k: nat, w: reg_t)
    requires TableOk(t) && k < |t| && Movable(t, k)
    ensures Terminated(MoveToFront(t, k)) && Lookup(MoveToFront(t, k), w) == Lookup(t, w)
  {
    MoveKeepsEnd(t, k);
    if Matches(w, t[k]) {
      MoveFound(t, k, w);
    } else {
      MoveNotFound(t, k, w);
    }
  }

  /** The moved entry is the one that the word matches: it was the only candidate before, too. */
  lemma MoveFound(t: seq<Desc>, k: nat, w: reg_t)
    requires TableOk(t) && k < |t| && Movable(t, k) && Terminated(MoveToFront(t, k)) && Matches(w, t[k])
    ensures Lookup(MoveToFront(t, k), w) == Lookup(t, w) == t[k]
  {
    MovedFrom(t, k);
    hide MoveToFront, Matches, Grouped;
    assert MoveToFront(t, k)[0] == t[k];
    FindUnique(MoveToFront(t, k), w, 0);
    var f := Find(t, w);
    if f != k {
      assert t[f] in t && t[k] in t && t[f].mask != 0;
      AloneInGroup(t, k, f);
    }
  }

  lemma MoveNotFound(t: seq<Desc>, k: nat, w: reg_t)
    requires Terminated(t) && k < |t| && Terminated(MoveToFront(t, k)) && !Matches(w, t[k])
    ensures Lookup(MoveToFront(t, k), w) == Lookup(t, w)
  {
    MovedFrom(t, k);
    hide MoveToFront, Matches, Terminated;
    var f := Find(t, w);
    var f' := if f < k then f + 1 else f;
    assert Origin(k, f') == f;
    forall j: nat | j < f' ensures !Matches(w, MoveToFront(t, k)[j]) {
      assert Origin(k, j) == k || Origin(k, j) < f;
    }
    FindUnique(MoveToFront(t, k), w, f');
  }

  // ----- The decoder as a value -----

  datatype Decoder = Decoder(table: seq<Desc>, cache: seq<Desc>)

  function Line(w: reg_t): (i: nat)
    ensures i < OPCODE_CACHE_SIZE
  {
    w % OPCODE_CACHE_SIZE
  }

  predicate WellFormed(d: Decoder) {
    Terminated(d.table) && |d.cache| == OPCODE_CACHE_SIZE
  }

  function Initial(t: seq<Desc>): Decoder {
    Decoder(t, seq(OPCODE_CACHE_SIZE, _ => SENTINEL))
  }

  /** One call of `decode_insn`. */
  function Decode(d: Decoder, w: reg_t): (Decoder, Funcs)
    requires WellFormed(d)
  {
    var line := d.cache[Line(w)];
    if w == line.pattern then (d, line.funcs)
    else
      var k := Find(d.table, w);
      var desc := d.table[k];
      (Decoder(if Movable(d.table, k) then MoveToFront(d.table, k) else d.table,
               d.cache[Line(w) := desc.(pattern := w)]),
       desc.funcs)
  }

  /** The table still answers like `t`, and so does every cache line for a nonzero word. */
  ghost predicate Agrees(d: Decoder, t: seq<Desc>)
    requires Terminated(t)
  {
    && WellFormed(d) && TableOk(d.table)
    && (forall w :: Lookup(d.table, w) == Lookup(t, w))
    && (forall i :: 0 <= i < OPCODE_CACHE_SIZE ==>
          d.cache[i] == SENTINEL || d.cache[i].funcs == Lookup(t, d.cache[i].pattern).funcs)
  }

  lemma InitialAgrees(t: seq<Desc>)
    requires TableOk(t)
    ensures Agrees(Initial(t), t)
  {}

  lemma DecodeStep(d: Decoder, t: seq<Desc>, w: reg_t)
    requires Terminated(t) && Agrees(d, t)
    ensures var (d', f) := Decode(d, w);
            Agrees(d', t) && (w != 0 ==> f == Lookup(t, w).funcs)
  {
    hide Matches, MoveToFront, Movable, Grouped, Disjoint;
    var line := d.cache[Line(w)];
    if w != line.pattern {
      var k := Find(d.table, w);
      assert d.table[k] == Lookup(d.table, w) == Lookup(t, w);
      if Movable(d.table, k) {
        MoveKeepsTableOk(d.table, k);
        forall v ensures Lookup(MoveToFront(d.table, k), v) == Lookup(t, v) {
          MoveKeepsLookup(d.table, k, v);
        }
      }
    }
  }

  function After(d: Decoder, history: seq<reg_t>): (d': Decoder)
    requires WellFormed(d)
    ensures WellFormed(d')
    decreases |history|
  {
    if history == [] then d
    else
      DecodeWellFormed(d, history[0]);
      After(Decode(d, history[0]).0, history[1..])
  }

  lemma DecodeWellFormed(d: Decoder, w: reg_t)
    requires WellFormed(d)
    ensures WellFormed(Decode(d, w).0)
  {
    var k := Find(d.table, w);
    if Movable(d.table, k) {
      var t' := MoveToFront(d.table, k);
      forall j: nat | j < |d.table| ensures t'[j] == d.table[Origin(k, j)] { MoveToFrontIndex(d.table, k, j); }
    }
  }

  lemma {:induction false} AfterAgrees(d: Decoder, t: seq<Desc>, history: seq<reg_t>)
    requires Terminated(t) && Agrees(d, t)
    ensures Agrees(After(d, history), t)
    decreases |history|
  {
    if history != [] {
      DecodeStep(d, t, history[0]);
      AfterAgrees(Decode(d, history[0]).0, t, history[1..]);
    }
  }

  /** A word just decoded is in the cache: decoding it again gives the same and changes nothing. */
  lemma DecodeAgain(d: Decoder, w: reg_t)
    requires WellFormed(d)
    ensures var (d', f) := Decode(d, w);
            WellFormed(d') && Decode(d', w) == (d', f) && d'.cache[w % 8191].pattern == w
  {
    DecodeWellFormed(d, w);
    hide Movable, MoveToFront, Terminated;
  }

  /** An entry that is found, alone in its group and not first, is first afterwards; the others keep their order. */
  lemma FoundIsFirst(d: Decoder, w: reg_t, k: nat)
    requires WellFormed(d) && w != d.cache[w % 8191].pattern && k == Find(d.table, w) && 0 < k < |d.table| - 1
    requires d.table[k - 1].pattern != d.table[k].pattern && d.table[k + 1].pattern != d.table[k].pattern
    ensures Decode(d, w).0.table == [d.table[k]] + d.table[..k] + d.table[k + 1..]
  {
    hide Matches;
  }

  /** Whatever was decoded before, a nonzero word decodes to what a search of the original table finds. */
  lemma DecodingIsStable(t: seq<Desc>, history: seq<reg_t>, w: reg_t)
    requires TableOk(t) && w != 0
    ensures Decode(After(Initial(t), history), w).1 == Lookup(t, w).funcs
  {
    InitialAgrees(t);
    AfterAgrees(Initial(t), t, history);
    DecodeStep(After(Initial(t), history), t, w);
  }

  /** Every word, zero included, decodes the same after every history. */
  ghost predicate StableForAllWords(t: seq<Desc>)
    requires Terminated(t)
  {
    forall history: seq<reg_t>, w: reg_t :: Decode(After(Initial(t), history), w).1 == Lookup(t, w).funcs
  }

  /** The zero word before and after a word that shares its cache line, 8191, is decoded. */
  lemma ZeroWord(t: seq<Desc>)
    requires TableOk(t)
    ensures Decode(After(Initial(t), []), 0).1 == ILLEGAL
    ensures Decode(After(Initial(t), [8191]), 0).1 == Lookup(t, 0).funcs
  {
    hide Matches, MoveToFront, Movable, Grouped, Disjoint;
    var d := Initial(t);
    InitialAgrees(t);
    DecodeStep(d, t, 8191);
    var d1 := Decode(d, 8191).0;
    assert [8191][1..] == [];
    assert After(d, [8191]) == After(d1, []) == d1;
    assert d1.cache[0].pattern == 8191;
    assert Find(d1.table, 0) < |d1.table| && Decode(d1, 0).1 == Lookup(d1.table, 0).funcs;
  }

  /**
   The zero word is different: the untouched cache answers it with the illegal-instruction function. So decoding is
   stable for all words exactly when a search for zero finds that function too. When another entry matches zero
   (as c.addi4spn, with pattern 0, does), the answer for zero changes once word 8191 has replaced line 0.
   */
  lemma StableForAllWordsIff(t: seq<Desc>)
    requires TableOk(t)
    ensures StableForAllWords(t) <==> Lookup(t, 0).funcs == ILLEGAL
  {
    hide Agrees, Decode, After, Lookup, Matches, Grouped, Disjoint;
    ZeroWord(t);
    if Lookup(t, 0).funcs == ILLEGAL {
      forall history: seq<reg_t>, w: reg_t
        ensures Decode(After(Initial(t), history), w).1 == Lookup(t, w).funcs
      {
        if w == 0 {
          ZeroAlwaysIllegal(t, history);
        } else {
          DecodingIsStable(t, history, w);
        }
      }
    } else {
      assert Decode(After(Initial(t), []), 0).1 != Lookup(t, 0).funcs;
    }
  }

  lemma ZeroAlwaysIllegal(t: seq<Desc>, history: seq<reg_t>)
    requires TableOk(t) && Lookup(t, 0).funcs == ILLEGAL
    ensures Decode(After(Initial(t), history), 0).1 == ILLEGAL
  {
    hide Matches, MoveToFront, Movable, Grouped, Disjoint;
    InitialAgrees(t);
    AfterAgrees(Initial(t), t, history);
    var d := After(Initial(t), history);
    assert d.table[Find(d.table, 0)] == Lookup(d.table, 0);
  }

  // ----- processor_t's instruction vector and opcode cache -----

  class InsnDecoder {
    const instructions: array<Desc>
    const opcode_cache: array<Desc>
    const xlen: nat
    /** The table as `build_opcode_map` sorted it. */
    ghost const original: seq<Desc>

    ghost function View(): Decoder
      reads instructions, opcode_cache
    {
      Decoder(instructions[..], opcode_cache[..])
    }

    ghost predicate Valid()
      reads instructions, opcode_cache
    {
      instructions != opcode_cache && Terminated(original) && Agrees(View(), original)
    }

    function Select(f: Funcs): nat {
      if xlen == 64 then f.rv64 else f.rv32
    }

    /** `build_opcode_map` on a vector that has been sorted: every cache line gets the illegal-instruction entry. */
    constructor (sorted: seq<Desc>, xlen: nat)
      requires Terminated(sorted) && Disjoint(sorted) && Sorted(sorted)
      ensures Valid() && original == sorted && this.xlen == xlen && View() == Initial(sorted)
      ensures fresh(instructions) && fresh(opcode_cache)
    {
      this.xlen := xlen;
      original := sorted;
      instructions := new Desc[|sorted|](i requires 0 <= i < |sorted| => sorted[i]);
      opcode_cache := new Desc[OPCODE_CACHE_SIZE](_ => SENTINEL);
      new;
      assert instructions[..] == sorted;
      assert opcode_cache[..] == Initial(sorted).cache;
      SortedGrouped(sorted);
      InitialAgrees(sorted);
    }

    /** The linear search of processor.cc:728-730. */
    method Search(bits: reg_t) returns (p: nat)
      requires Terminated(instructions[..])
      ensures p == Find(instructions[..], bits)
    {
      p := 0;
      while !Matches(bits, instructions[p])
        invariant p < instructions.Length
        invariant forall j :: 0 <= j < p ==> !Matches(bits, instructions[j])
        decreases instructions.Length - p
      {
        assert instructions[p] != SENTINEL by { MatchesSentinel(bits); }
        p := p + 1;
      }
      FindUnique(instructions[..], bits, p);
    }

    /** processor.cc:736-738: shift the entries before `k` up by one and put entry `k` first. */
    method ShiftToFront(k: nat)
      requires k < instructions.Length
      modifies instructions
      ensures instructions[..] == MoveToFront(old(instructions[..]), k)
    {
      var desc := instructions[k];
      var p := k;
      while p > 0
        invariant 0 <= p <= k
        invariant forall j :: 0 <= j < p ==> instructions[j] == old(instructions[j])
        invariant forall j :: p < j <= k ==> instructions[j] == old(instructions[j - 1])
        invariant forall j :: k < j < instructions.Length ==> instructions[j] == old(instructions[j])
      {
        p := p - 1;
        instructions[p + 1] := instructions[p];
      }
      instructions[0] := desc;
      ghost var t := old(instructions[..]);
      forall j: nat | j < instructions.Length ensures instructions[j] == MoveToFront(t, k)[j] {
        MoveToFrontIndex(t, k, j);
      }
    }

    /** `decode_insn`: for a nonzero word, the function that the original table gives it. */
    method DecodeInsn(bits: reg_t) returns (func: nat)
      requires Valid()
      modifies instructions, opcode_cache
      ensures Valid()
      ensures (View(), func) == (Decode(old(View()), bits).0, Select(Decode(old(View()), bits).1))
      ensures bits != 0 ==>
                var funcs := Lookup(original, bits).funcs; func == if xlen == 64 then funcs.rv64 else funcs.rv32
    {
      hide Matches, MoveToFront, Grouped, Disjoint;
      DecodeStep(View(), original, bits);
      ghost var d := View();
      var idx := bits % OPCODE_CACHE_SIZE;
      var desc := opcode_cache[idx];
      if bits != desc.pattern {
        var p := Search(bits);
        desc := instructions[p];
        if desc.mask != 0 && p > 0 {
          if desc.pattern != instructions[p - 1].pattern && desc.pattern != instructions[p + 1].pattern {
            ShiftToFront(p);
          }
        }
        opcode_cache[idx] := desc.(pattern := bits);
      }
      assert View() == Decode(d, bits).0;
      return Select(desc.funcs);
    }
  }

  lemma MatchesSentinel(w: reg_t)
    ensures Matches(w, SENTINEL)
  {}
}

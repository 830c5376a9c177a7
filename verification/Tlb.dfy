/**
 The software TLB of `mmu_t`: three tag arrays (fetch, load, store) in front of one data array.
 A hit must reach the location that a fresh page walk would reach.
 */
module Tlb {
  import opened Common
  import opened Bits
  import opened PageWalk

  const ENTRIES := 256
  const INVALID := WORD - 1
  const TLB_CHECK_TRIGGERS := 0x8000_0000_0000_0000

  /**
   The machine around the MMU: the page tables, `addr_to_mem` as the host address of a physical
   address, whether a device answers at an address, and whether a memory tracer wants to see a page.
   */
  datatype Platform = Platform(
    mem: Memory, host: nat -> Option<nat>,
    mmio: (nat, Access) -> bool, traced: (nat, Access) -> bool)

  /** Host memory is contiguous over each 4 KiB page. Nothing is asked of what it holds. */
  ghost predicate WellFormed(env: Platform) {
    forall p: nat :: p < WORD ==>
      match env.host(p / PAGE * PAGE)
      case None => env.host(p) == None
      case Some(h) => env.host(p) == Some(h + p % PAGE) && h + p % PAGE < WORD
  }

  /** Where an access ends up: a byte of host memory, or a device at a physical address. */
  datatype Location = Ram(host: nat) | Device(paddr: nat)

  function EffectivePrv(c: Context, access: Access): nat {
    if access != FETCH && !c.debug && c.mprv then c.mpp else c.prv
  }

  /** Fetches and data accesses go through the same page tables. */
  predicate SameSpace(c: Context)
    requires Legal(c)
  {
    DecodeVmInfo(c.xlen, EffectivePrv(c, FETCH), c.satp) ==
    DecodeVmInfo(c.xlen, EffectivePrv(c, LOAD), c.satp)
  }

  // ----- Translation without a TLB -----

  /** The physical address of `va`: the page that the walk finds, at the offset of `va`. */
  ghost function TranslateSpec(m: Memory, c: Context, va: nat, access: Access): Result<nat, Fault>
    requires Legal(c)
  {
    match PageSpec(Unmasked, m, c, va, access, EffectivePrv(c, access))
    case Err(f) => Err(f)
    case Ok(page) => Ok(AtOffset(page, va))
  }

  /** By the standard's reading of the page number it is the same address, if the entries on the way conform. */
  ghost function StandardSpec(m: Memory, c: Context, va: nat, access: Access): Result<nat, Fault>
    requires Legal(c)
  {
    match PageSpec(Masked, m, c, va, access, EffectivePrv(c, access))
    case Err(f) => Err(f)
    case Ok(page) => Ok(AtOffset(page, va))
  }

  /**
   MPRV: outside debug mode, loads and stores translate as in the privilege of MPP; fetches never, and nothing does in
   debug mode.
   */
  lemma MprvMeans(m: Memory, c: Context, va: nat, access: Access)
    requires Legal(c)
    ensures var plain := c.(mprv := false);
            TranslateSpec(m, c, va, access) ==
            if access == FETCH || c.debug || !c.mprv then TranslateSpec(m, plain, va, access)
            else TranslateSpec(m, plain.(prv := c.mpp), va, access)
  {
    hide PageSpec;
    var plain := c.(mprv := false);
    SettingsAside(m, c, plain, va, access, EffectivePrv(c, access));
    SettingsAside(m, c, plain.(prv := c.mpp), va, access, EffectivePrv(c, access));
  }

  /** The walk looks at satp, SUM and MXR, and at no other setting. */
  lemma SettingsAside(m: Memory, c: Context, c': Context, va: nat, access: Access, prv: nat)
    requires Legal(c) && Legal(c') && prv in {PRV_U, PRV_S, PRV_M}
    requires c'.xlen == c.xlen && c'.satp == c.satp && c'.sum == c.sum && c'.mxr == c.mxr
    ensures PageSpec(Unmasked, m, c', va, access, prv) == PageSpec(Unmasked, m, c, va, access, prv)
  {
    hide WalkSpec, Canonical, DecodeVmInfo;
    var vm := DecodeVmInfo(c.xlen, prv, c.satp);
    DecodeBounds(c, prv, vm);
    if vm.levels > 0 {
      WalkSettings(m, c, c', prv, access, va, vm.idxbits, vm.ptesize, vm.ptbase, vm.levels - 1);
    }
  }

  lemma {:induction false} WalkSettings(m: Memory, c: Context, c': Context, prv: nat, access: Access, va: nat,
                                        bits: nat, size: nat, a: nat, i: nat)
    requires c'.sum == c.sum && c'.mxr == c.mxr
    ensures WalkSpec(Unmasked, m, c', prv, access, va, bits, size, a, i)
            == WalkSpec(Unmasked, m, c, prv, access, va, bits, size, a, i)
    decreases i
  {
    hide Vpn, Ppn, V, R, W, X, U, A, D, Unaligned, SplicePpn, Permitted;
    var e := m.read(a + Vpn(va, bits, i) * size, size);
    if e.Some? && i > 0 {
      WalkSettings(m, c, c', prv, access, va, bits, size, Ppn(Unmasked, e.value) * PAGE, i - 1);
    }
  }

  lemma TranslateStandard(m: Memory, c: Context, va: nat, access: Access)
    requires Legal(c) && Conforms(m, c, va, access, EffectivePrv(c, access))
    ensures TranslateSpec(m, c, va, access) == StandardSpec(m, c, va, access)
  {
    hide PageSpec, Conforms;
    ConformsIsStandard(m, c, va, access, EffectivePrv(c, access));
  }

  function AtOffset(page: nat, va: nat): nat {
    page / PAGE * PAGE + va % PAGE
  }

  /** What an access of `size` bytes reaches when every access walks the page tables. */
  ghost function AccessSpec(env: Platform, c: Context, va: nat, size: nat, access: Access): Result<Location, Fault>
    requires Legal(c) && size > 0
  {
    if va % size != 0 then Err(Misaligned(access, va))
    else
      match TranslateSpec(env.mem, c, va, access)
      case Err(f) => Err(f)
      case Ok(paddr) =>
        match env.host(paddr)
        case Some(h) => Ok(Ram(h))
        case None => if env.mmio(paddr, access) then Ok(Device(paddr)) else Err(AccessFault(access, va))
  }

  /**
   How an access ends: every fault reports it and its address, a page fault only if the tables say so; RAM is reached
   exactly where there is RAM, and a device only where none is and it answers to this kind of access.
   */
  lemma AccessEnds(env: Platform, c: Context, va: nat, size: nat, access: Access)
    requires Legal(c) && size > 0
    ensures var r, t := AccessSpec(env, c, va, size, access), TranslateSpec(env.mem, c, va, access);
            && (r.Err? ==> r.error in {Misaligned(access, va), PageFault(access, va), AccessFault(access, va)})
            && (r == Err(Misaligned(access, va)) <==> va % size != 0)
            && (va % size == 0 && t.Err? ==> r.Err? && r.error == t.error)
            && (va % size == 0 && t.Ok? ==>
                  && (r.Ok? <==> env.host(t.value).Some? || env.mmio(t.value, access))
                  && (r.Ok? ==> r.value == if env.host(t.value).Some? then Ram(env.host(t.value).value)
                                           else Device(t.value))
                  && (r.Err? ==> r.error == AccessFault(access, va)))
  {
    hide WalkSpec, Canonical;
    var prv := EffectivePrv(c, access);
    var vm := DecodeVmInfo(c.xlen, prv, c.satp);
    if vm.levels > 0 {
      WalkFaults(Unmasked, env.mem, c, prv, access, va, vm.idxbits, vm.ptesize, vm.ptbase, vm.levels - 1);
    }
  }

  // ----- The TLB as a value -----

  datatype Entry = Entry(host_offset: nat, target_offset: nat)

  datatype Arrays = Arrays(insn: seq<nat>, load: seq<nat>, store: seq<nat>, data: seq<Entry>) {
    predicate Sized() {
      |insn| == ENTRIES && |load| == ENTRIES && |store| == ENTRIES && |data| == ENTRIES
    }

    function Tags(access: Access): seq<nat> {
      match access
      case FETCH => insn
      case LOAD => load
      case STORE => store
    }
  }

  /** `a - b` on 64-bit words. */
  function Sub(a: int, b: int): nat {
    (a - b) % WORD
  }

  /** A tag without its TLB_CHECK_TRIGGERS bit. */
  function Strip(tag: nat): nat {
    And(tag, TLB_CHECK_TRIGGERS - 1)
  }

  function Flushed(data: seq<Entry>): Arrays {
    var none := seq(ENTRIES, _ => INVALID);
    Arrays(none, none, none, data)
  }

  function Keep(tag: nat, expected: nat): nat {
    if Strip(tag) != expected then INVALID else tag
  }

  /** The arrays after `refill_tlb`. */
  function Refill(t: Arrays, vaddr: nat, paddr: nat, host_addr: nat, access: Access, check: bool): (t': Arrays)
    requires t.Sized()
    ensures t'.Sized()
  {
    var vpn := vaddr / PAGE;
    var i := vpn % ENTRIES;
    var tag := if check then Or(vpn, TLB_CHECK_TRIGGERS) else vpn;
    Arrays(
      t.insn[i := if access == FETCH then tag else Keep(t.insn[i], vpn)],
      t.load[i := if access == LOAD then tag else Keep(t.load[i], vpn)],
      t.store[i := if access == STORE then tag else Keep(t.store[i], vpn)],
      t.data[i := Entry(Sub(host_addr, vaddr), Sub(paddr, vaddr))])
  }

  /** The fast test of `load_func`, `store_func` and `translate_insn_addr`. */
  predicate Hit(t: Arrays, va: nat, access: Access)
    requires t.Sized()
  {
    var vpn := va / PAGE;
    var tag := t.Tags(access)[vpn % ENTRIES];
    tag == vpn || tag == Or(vpn, TLB_CHECK_TRIGGERS)
  }

  /** One access through the TLB: the arrays afterwards, and what it reaches. */
  ghost function Lookup(env: Platform, c: Context, t: Arrays, va: nat, size: nat, access: Access, check: bool)
    : (r: (Arrays, Result<Location, Fault>))
    requires Legal(c) && t.Sized() && size > 0
    ensures r.0.Sized()
  {
    if va % size != 0 then (t, Err(Misaligned(access, va)))
    else if Hit(t, va, access) then
      (t, Ok(Ram((t.data[va / PAGE % ENTRIES].host_offset + va) % WORD)))
    else
      match TranslateSpec(env.mem, c, va, access)
      case Err(f) => (t, Err(f))
      case Ok(paddr) =>
        match env.host(paddr)
        case Some(h) =>
          (if access != FETCH && env.traced(paddr, access) then t else Refill(t, va, paddr, h, access, check),
           Ok(Ram(h)))
        case None =>
          (t, if env.mmio(paddr, access) then Ok(Device(paddr)) else Err(AccessFault(access, va)))
  }

  // ----- Coherence -----

  /** `e` is what a refill for page `vpn` would store now. */
  ghost predicate Current(env: Platform, c: Context, vpn: nat, access: Access, e: Entry)
    requires Legal(c)
  {
    var r := TranslateSpec(env.mem, c, vpn * PAGE, access);
    && r.Ok?
    && env.host(r.value).Some?
    && e == Entry(Sub(env.host(r.value).value, vpn * PAGE), Sub(r.value, vpn * PAGE))
  }

  /** Every tag that names a page, in any of the three arrays, stands for a current entry; `stale` pages aside. */
  ghost predicate Coherent(env: Platform, c: Context, t: Arrays, stale: iset<nat>)
    requires Legal(c) && t.Sized()
  {
    forall vpn: nat, access: Access ::
      vpn < VPNS && vpn !in stale && Strip(t.Tags(access)[vpn % ENTRIES]) == vpn ==>
      Current(env, c, vpn, access, t.data[vpn % ENTRIES])
  }

  /** An entry for page `vpn` that was current is no longer. A page that faulted is never among these. */
  ghost predicate Outdated(env: Platform, env': Platform, c: Context, vpn: nat)
    requires Legal(c)
  {
    exists access, e :: Current(env, c, vpn, access, e) && !Current(env', c, vpn, access, e)
  }

  /** The pages that a change of the page tables or of the memory map makes stale. */
  ghost function Changed(env: Platform, env': Platform, c: Context): iset<nat>
    requires Legal(c)
  {
    iset vpn: nat | Outdated(env, env', c, vpn)
  }

  lemma EditCoherent(env: Platform, env': Platform, c: Context, t: Arrays, stale: iset<nat>)
    requires Legal(c) && t.Sized() && Coherent(env, c, t, stale)
    ensures Coherent(env', c, t, stale + Changed(env, env', c))
  {
    hide Current, Strip;
    forall vpn: nat, access: Access
      | vpn < VPNS && vpn !in stale + Changed(env, env', c) && Strip(t.Tags(access)[vpn % ENTRIES]) == vpn
      ensures Current(env', c, vpn, access, t.data[vpn % ENTRIES])
    {
      assert Current(env, c, vpn, access, t.data[vpn % ENTRIES]);
      assert !Outdated(env, env', c, vpn);
    }
  }

  lemma StripTag(vpn: nat)
    requires vpn < VPNS
    ensures Strip(vpn) == vpn && Strip(Or(vpn, TLB_CHECK_TRIGGERS)) == vpn
    ensures Strip(INVALID) >= VPNS
  {
    hide Pow2, And, Or;
    Pow2Word();
    AndLow(vpn, 63);
    OrCommutes(vpn, TLB_CHECK_TRIGGERS);
    OrDisjoint(TLB_CHECK_TRIGGERS, vpn, 63);
    AndLow(vpn + TLB_CHECK_TRIGGERS, 63);
    AndLow(INVALID, 63);
  }

  lemma Pow2Word()
    ensures Pow2(63) == TLB_CHECK_TRIGGERS && Pow2(64) == WORD && Pow2(32) == 0x1_0000_0000
  {
    Pow2Literals();
    Pow2Add(40, 23);
    Pow2Add(40, 24);
    assert Pow2(23) == 0x80_0000 && Pow2(24) == 0x100_0000 && Pow2(32) == 0x1_0000_0000;
  }

  /** A flush is coherent with every page table and every mode: it names no page. */
  lemma FlushedCoherent(env: Platform, c: Context, data: seq<Entry>)
    requires Legal(c) && |data| == ENTRIES
    ensures Flushed(data).Sized() && Coherent(env, c, Flushed(data), iset{})
  {
    StripTag(0);
  }

  /** Within a page, translation and host address move with the offset. */
  lemma SamePage(env: Platform, c: Context, va: nat, access: Access)
    requires Legal(c) && WellFormed(env) && va < WORD
    requires TranslateSpec(env.mem, c, va, access).Ok? || TranslateSpec(env.mem, c, va / PAGE * PAGE, access).Ok?
    ensures var r, r' := TranslateSpec(env.mem, c, va / PAGE * PAGE, access), TranslateSpec(env.mem, c, va, access);
            && r.Ok? && r'.Ok? && r'.value == r.value + va % PAGE && r'.value < WORD
            && (env.host(r'.value).Some? ==> env.host(r'.value).value < WORD)
            && env.host(r'.value) == match env.host(r.value)
                                     case None => None
                                     case Some(h) => Some(h + va % PAGE)
  {
    hide PageSpec, DecodeVmInfo;
    var base := va / PAGE * PAGE;
    assert base / PAGE == va / PAGE && base % PAGE == 0;
    var prv := EffectivePrv(c, access);
    if Paged(c, prv) {
      SamePagePaged(env.mem, c, va, base, access, prv);
    } else {
      SamePageBare(env.mem, c, va, base, access, prv);
    }
    var p := TranslateSpec(env.mem, c, va, access).value;
    OffsetParts(PageSpec(Unmasked, env.mem, c, va, access, prv).value, va);
    assert p / PAGE * PAGE == TranslateSpec(env.mem, c, base, access).value;
    assert p < WORD;
  }

  lemma OffsetParts(page: nat, va: nat)
    ensures AtOffset(page, va) / PAGE == page / PAGE && AtOffset(page, va) % PAGE == va % PAGE
  {}

  lemma SamePagePaged(m: Memory, c: Context, va: nat, base: nat, access: Access, prv: nat)
    requires LegalSatp(c.xlen, c.satp) && prv in {PRV_U, PRV_S, PRV_M} && Paged(c, prv)
    requires va / PAGE == base / PAGE
    requires PageSpec(Unmasked, m, c, va, access, prv).Ok? || PageSpec(Unmasked, m, c, base, access, prv).Ok?
    ensures PageSpec(Unmasked, m, c, va, access, prv) == PageSpec(Unmasked, m, c, base, access, prv)
    ensures PageSpec(Unmasked, m, c, va, access, prv).value % PAGE == 0
    ensures PageSpec(Unmasked, m, c, va, access, prv).value < WORD
  {
    hide PageSpec;
    if PageSpec(Unmasked, m, c, va, access, prv).Ok? {
      PageSpecSamePage(Unmasked, m, c, va, base, access, prv);
    } else {
      PageSpecSamePage(Unmasked, m, c, base, va, access, prv);
    }
    PageSpecAligned(Unmasked, m, c, va, access, prv);
  }

  lemma SamePageBare(m: Memory, c: Context, va: nat, base: nat, access: Access, prv: nat)
    requires LegalSatp(c.xlen, c.satp) && prv in {PRV_U, PRV_S, PRV_M} && !Paged(c, prv)
    requires va < WORD && base == va / PAGE * PAGE
    ensures PageSpec(Unmasked, m, c, va, access, prv).Ok? && PageSpec(Unmasked, m, c, base, access, prv).Ok?
    ensures PageSpec(Unmasked, m, c, va, access, prv).value / PAGE
            == PageSpec(Unmasked, m, c, base, access, prv).value / PAGE
    ensures PageSpec(Unmasked, m, c, va, access, prv).value < WORD
  {
    hide WalkSpec, Canonical, Pow2;
    Pow2Word();
    PageSpecUnfold(Unmasked, m, c, va, access, prv, DecodeVmInfo(c.xlen, prv, c.satp));
    PageSpecUnfold(Unmasked, m, c, base, access, prv, DecodeVmInfo(c.xlen, prv, c.satp));
    Truncated(va);
  }

  lemma Truncated(va: nat)
    requires va < WORD
    ensures va % 0x1_0000_0000 / PAGE == va / PAGE * PAGE % 0x1_0000_0000 / PAGE
    ensures va % WORD == va && va / PAGE * PAGE % WORD / PAGE == va / PAGE
  {
    var q, off := va / PAGE, va % PAGE;
    var high, low := q / 0x10_0000, q % 0x10_0000;
    DivUnique(va, 0x1_0000_0000, high, low * PAGE + off);
    DivUnique(q * PAGE, 0x1_0000_0000, high, low * PAGE);
  }

  /** A refill is used: the next access of its kind to the page hits, and reports the same offsets. */
  lemma RefillHits(t: Arrays, va: nat, paddr: nat, h: nat, access: Access, check: bool, va': nat)
    requires t.Sized() && va' / PAGE == va / PAGE
    ensures var t' := Refill(t, va, paddr, h, access, check);
            && Hit(t', va', access)
            && t'.data[va' / PAGE % ENTRIES] == Entry((h - va) % WORD, (paddr - va) % WORD)
            && t'.Tags(access)[va' / PAGE % ENTRIES]
               == if check then Or(va / PAGE, 0x8000_0000_0000_0000) else va / PAGE
  {
    hide Or, Keep;
  }

  /** An access that reaches RAM refills, unless it is a load or store that a tracer wants to see each time. */
  lemma MissRefills(env: Platform, c: Context, t: Arrays, va: nat, size: nat, access: Access, check: bool)
    requires Legal(c) && t.Sized() && size > 0 && va % size == 0 && !Hit(t, va, access)
    requires TranslateSpec(env.mem, c, va, access).Ok?
    requires env.host(TranslateSpec(env.mem, c, va, access).value).Some?
    ensures var paddr := TranslateSpec(env.mem, c, va, access).value;
            var (t', _) := Lookup(env, c, t, va, size, access, check);
            if access != FETCH && env.traced(paddr, access) then t' == t else Hit(t', va, access)
  {
    hide TranslateSpec, Or, Keep;
  }

  /** A hit in a coherent TLB reaches exactly what the page walk would reach. */
  lemma HitIsFresh(env: Platform, c: Context, t: Arrays, stale: iset<nat>, va: nat, access: Access)
    requires Legal(c) && WellFormed(env) && t.Sized() && Coherent(env, c, t, stale)
    requires va < WORD && va / PAGE !in stale && Hit(t, va, access)
    ensures var e := t.data[va / PAGE % ENTRIES];
            var r := TranslateSpec(env.mem, c, va, access);
            && r.Ok?
            && (e.target_offset + va) % WORD == r.value
            && env.host(r.value) == Some((e.host_offset + va) % WORD)
  {
    hide And, Or, Pow2, PageSpec, DecodeVmInfo, TranslateSpec;
    var vpn := va / PAGE;
    StripTag(vpn);
    assert Strip(t.Tags(access)[vpn % ENTRIES]) == vpn;
    assert Current(env, c, vpn, access, t.data[vpn % ENTRIES]);
    SamePage(env, c, va, access);
    var r := TranslateSpec(env.mem, c, vpn * PAGE, access).value;
    assert env.host(r + va % PAGE).Some? && env.host(r + va % PAGE).value < WORD;
    OffsetAdd(r, vpn * PAGE, va % PAGE);
    OffsetAdd(env.host(r).value, vpn * PAGE, va % PAGE);
  }

  lemma OffsetAdd(p: nat, v: nat, off: nat)
    requires p + off < WORD
    ensures (Sub(p, v) + (v + off)) % WORD == p + off
  {
    var k := (p - v) / WORD;
    assert Sub(p, v) == p - v - WORD * k;
  }

  /** The offsets stored by a refill at `va` are the ones of its page. */
  lemma OffsetOfPage(p: nat, v: nat, off: nat)
    ensures Sub(p + off, v + off) == Sub(p, v)
  {}

  /** What a refill leaves in slot `i` of the arrays. */
  lemma RefillAt(t: Arrays, va: nat, paddr: nat, h: nat, access: Access, check: bool, a: Access, i: nat)
    requires t.Sized() && i < ENTRIES
    ensures var t' := Refill(t, va, paddr, h, access, check);
            if i != va / PAGE % ENTRIES then t'.Tags(a)[i] == t.Tags(a)[i] && t'.data[i] == t.data[i]
            else
              && t'.data[i] == Entry(Sub(h, va), Sub(paddr, va))
              && t'.Tags(a)[i] == if a == access then (if check then Or(va / PAGE, TLB_CHECK_TRIGGERS) else va / PAGE)
                                  else Keep(t.Tags(a)[i], va / PAGE)
  {
    hide Or, Sub, Keep;
  }

  lemma CoherentAt(env: Platform, c: Context, t: Arrays, stale: iset<nat>, vpn: nat, access: Access)
    requires Legal(c) && t.Sized() && Coherent(env, c, t, stale)
    requires vpn < VPNS && vpn !in stale && Strip(t.Tags(access)[vpn % ENTRIES]) == vpn
    ensures Current(env, c, vpn, access, t.data[vpn % ENTRIES])
  {
    hide Current, Strip;
  }

  /** The entry that a refill at `va` stores is the current one of its page. */
  lemma NewEntryCurrent(env: Platform, c: Context, va: nat, access: Access)
    requires Legal(c) && WellFormed(env) && va < WORD
    requires TranslateSpec(env.mem, c, va, access).Ok?
    requires env.host(TranslateSpec(env.mem, c, va, access).value).Some?
    ensures var paddr := TranslateSpec(env.mem, c, va, access).value;
            Current(env, c, va / PAGE, access, Entry(Sub(env.host(paddr).value, va), Sub(paddr, va)))
  {
    hide PageSpec, DecodeVmInfo, TranslateSpec, WellFormed;
    SamePage(env, c, va, access);
    var page := TranslateSpec(env.mem, c, va / PAGE * PAGE, access).value;
    OffsetOfPage(page, va / PAGE * PAGE, va % PAGE);
    OffsetOfPage(env.host(page).value, va / PAGE * PAGE, va % PAGE);
  }

  /** In one address space, an entry current for one kind of access is current for another that succeeds. */
  lemma SharedCurrent(env: Platform, c: Context, vpn: nat, access: Access, a: Access, e: Entry, e': Entry)
    requires Legal(c) && SameSpace(c) && Current(env, c, vpn, access, e) && Current(env, c, vpn, a, e')
    ensures e == e'
  {
    hide TranslateSpec;
    SameTarget(env.mem, c, vpn * PAGE, access, a);
  }

  /** Which tags of the refilled slot can name a page: its own, whatever the kind of access. */
  lemma RefilledNames(t: Arrays, va: nat, paddr: nat, h: nat, access: Access, check: bool, a: Access, vpn: nat)
    requires t.Sized() && va < WORD && vpn < VPNS && vpn % ENTRIES == va / PAGE % ENTRIES
    requires Strip(Refill(t, va, paddr, h, access, check).Tags(a)[vpn % ENTRIES]) == vpn
    ensures vpn == va / PAGE
    ensures a != access ==> Strip(t.Tags(a)[vpn % ENTRIES]) == vpn
  {
    hide Strip, Or, Refill;
    RefillAt(t, va, paddr, h, access, check, a, vpn % ENTRIES);
    StripTag(va / PAGE);
  }

  /**
   A refill keeps the TLB coherent. The entry it overwrites may be shared with tags of the other two
   kinds that name the same page; they stay right because the address does not depend on the access.
   */
  lemma RefillCoherent(env: Platform, c: Context, t: Arrays, stale: iset<nat>, va: nat, access: Access, check: bool)
    requires Legal(c) && WellFormed(env) && SameSpace(c) && t.Sized() && Coherent(env, c, t, stale)
    requires va < WORD && va / PAGE !in stale
    requires TranslateSpec(env.mem, c, va, access).Ok?
    requires env.host(TranslateSpec(env.mem, c, va, access).value).Some?
    ensures var paddr := TranslateSpec(env.mem, c, va, access).value;
            Coherent(env, c, Refill(t, va, paddr, env.host(paddr).value, access, check), stale)
  {
    var paddr := TranslateSpec(env.mem, c, va, access).value;
    var h := env.host(paddr).value;
    var t' := Refill(t, va, paddr, h, access, check);
    forall vpn: nat, a: Access | vpn < VPNS && vpn !in stale && Strip(t'.Tags(a)[vpn % ENTRIES]) == vpn
      ensures Current(env, c, vpn, a, t'.data[vpn % ENTRIES])
    {
      hide *;
      RefillAt(t, va, paddr, h, access, check, a, vpn % ENTRIES);
      if vpn % ENTRIES == va / PAGE % ENTRIES {
        RefilledNames(t, va, paddr, h, access, check, a, vpn);
        NewEntryCurrent(env, c, va, access);
        if a != access {
          CoherentAt(env, c, t, stale, vpn, a);
          SharedCurrent(env, c, vpn, access, a, t'.data[vpn % ENTRIES], t.data[vpn % ENTRIES]);
        }
      } else {
        CoherentAt(env, c, t, stale, vpn, a);
      }
    }
  }

  lemma SameTarget(m: Memory, c: Context, va: nat, access: Access, access': Access)
    requires Legal(c) && SameSpace(c)
    requires TranslateSpec(m, c, va, access).Ok? && TranslateSpec(m, c, va, access').Ok?
    ensures TranslateSpec(m, c, va, access) == TranslateSpec(m, c, va, access')
  {
    hide PageSpec;
    PageSpecUnique(Unmasked, m, c, va, access, access', EffectivePrv(c, access), EffectivePrv(c, access'));
  }

  /** One access through a coherent TLB gives the result of an uncached access and leaves it coherent. */
  lemma LookupIsFresh(env: Platform, c: Context, t: Arrays, stale: iset<nat>,
                      va: nat, size: nat, access: Access, check: bool)
    requires Legal(c) && WellFormed(env) && SameSpace(c) && t.Sized() && Coherent(env, c, t, stale)
    requires va < WORD && size > 0 && va / PAGE !in stale
    ensures var (t', r) := Lookup(env, c, t, va, size, access, check);
            r == AccessSpec(env, c, va, size, access) && Coherent(env, c, t', stale)
  {
    hide And, Or, Pow2, PageSpec, DecodeVmInfo, TranslateSpec, WellFormed, Coherent, Refill;
    if va % size == 0 {
      if Hit(t, va, access) {
        HitIsFresh(env, c, t, stale, va, access);
      } else {
        var r := TranslateSpec(env.mem, c, va, access);
        if r.Ok? && env.host(r.value).Some? {
          RefillCoherent(env, c, t, stale, va, access, check);
        }
      }
    }
  }

  // ----- Every run -----

  /** What happens to the MMU: accesses, changes of mode, and changes of the page tables or the memory map. */
  datatype Event =
    | Touch(va: nat, size: nat, access: Access, check: bool)
    | Switch(to: Context, flush: bool)
    | Edit(env: Platform)

  /**
   An event the hart can produce. A change of mode comes with a flush; a change of the page tables may come at any
   time, but until the next flush the pages that it makes `stale` are not accessed.
   */
  ghost predicate Possible(c: Context, stale: iset<nat>, e: Event) {
    match e
    case Touch(va, size, _, _) => va < WORD && size > 0 && va / PAGE !in stale
    case Switch(to, flush) => Legal(to) && SameSpace(to) && (flush || to == c)
    case Edit(env) => WellFormed(env)
  }

  ghost predicate PossibleRun(env: Platform, c: Context, stale: iset<nat>, events: seq<Event>)
    requires Legal(c)
    decreases |events|
  {
    events == [] ||
    (Possible(c, stale, events[0]) &&
     match events[0]
     case Touch(_, _, _, _) => PossibleRun(env, c, stale, events[1..])
     case Switch(to, flush) => PossibleRun(env, to, if flush then iset{} else stale, events[1..])
     case Edit(env') => PossibleRun(env', c, stale + Changed(env, env', c), events[1..]))
  }

  /** All modes of the run are legal, and all its accesses have a size. */
  predicate Sensible(events: seq<Event>) {
    forall k :: 0 <= k < |events| ==>
      (events[k].Touch? ==> events[k].size > 0) && (events[k].Switch? ==> Legal(events[k].to))
  }

  /** The results of a run through the TLB. */
  ghost function RunCached(env: Platform, c: Context, t: Arrays, events: seq<Event>): seq<Result<Location, Fault>>
    requires Legal(c) && t.Sized() && Sensible(events)
    decreases |events|
  {
    if events == [] then []
    else
      match events[0]
      case Touch(va, size, access, check) =>
        var (t', r) := Lookup(env, c, t, va, size, access, check);
        [r] + RunCached(env, c, t', events[1..])
      case Switch(to, flush) => RunCached(env, to, if flush then Flushed(t.data) else t, events[1..])
      case Edit(env') => RunCached(env', c, t, events[1..])
  }

  /** The results of the same run when every access walks the page tables. */
  ghost function RunUncached(env: Platform, c: Context, events: seq<Event>): seq<Result<Location, Fault>>
    requires Legal(c) && Sensible(events)
    decreases |events|
  {
    if events == [] then []
    else
      match events[0]
      case Touch(va, size, access, _) => [AccessSpec(env, c, va, size, access)] + RunUncached(env, c, events[1..])
      case Switch(to, _) => RunUncached(env, to, events[1..])
      case Edit(env') => RunUncached(env', c, events[1..])
  }

  /** The TLB is invisible: every run from a coherent state, of any length, has the uncached results. */
  lemma {:induction false} TlbInvisible(env: Platform, c: Context, t: Arrays, stale: iset<nat>, events: seq<Event>)
    requires Legal(c) && WellFormed(env) && SameSpace(c) && t.Sized() && Coherent(env, c, t, stale)
    requires Sensible(events) && PossibleRun(env, c, stale, events)
    ensures RunCached(env, c, t, events) == RunUncached(env, c, events)
    decreases |events|
  {
    hide And, Or, Pow2, PageSpec, DecodeVmInfo, TranslateSpec, WellFormed, Coherent, Refill, Lookup, AccessSpec;
    hide Changed, Legal, SameSpace;
    if events != [] {
      match events[0]
      case Touch(va, size, access, check) =>
        LookupIsFresh(env, c, t, stale, va, size, access, check);
        TlbInvisible(env, c, Lookup(env, c, t, va, size, access, check).0, stale, events[1..]);
      case Switch(to, flush) =>
        FlushedCoherent(env, to, t.data);
        TlbInvisible(env, to, if flush then Flushed(t.data) else t, if flush then iset{} else stale, events[1..]);
      case Edit(env') =>
        EditCoherent(env, env', c, t, stale);
        TlbInvisible(env', c, t, stale + Changed(env, env', c), events[1..]);
    }
  }

  // ----- The side condition on MPRV is exactly what sharing one data array needs -----

  predicate OnlyTouches(events: seq<Event>)
    ensures OnlyTouches(events) ==> Sensible(events)
  {
    forall k :: 0 <= k < |events| ==> events[k].Touch? && events[k].va < WORD && events[k].size > 0
  }

  /** Nothing becomes stale when the mode and the tables stay as they are. */
  lemma {:induction false} TouchesPossible(env: Platform, c: Context, events: seq<Event>)
    requires Legal(c) && OnlyTouches(events)
    ensures PossibleRun(env, c, iset{}, events)
    decreases |events|
  {
    hide Legal;
    if events != [] {
      TouchesPossible(env, c, events[1..]);
    }
  }

  /** On this machine the accesses, through a TLB that starts out empty, have the uncached results. */
  ghost predicate Unseen(env: Platform, c: Context, data: seq<Entry>, events: seq<Event>)
    requires Legal(c) && |data| == ENTRIES && OnlyTouches(events)
  {
    RunCached(env, c, Flushed(data), events) == RunUncached(env, c, events)
  }

  /** In mode `c`, no accesses on any machine show the TLB. */
  ghost predicate InvisibleIn(c: Context)
    requires Legal(c)
  {
    forall env: Platform, data: seq<Entry>, events: seq<Event> ::
      WellFormed(env) && |data| == ENTRIES && OnlyTouches(events) ==> Unseen(env, c, data, events)
  }

  /** A machine whose every page-table entry is a superpage leaf open to mode `u ? U : S`, mapping 0 elsewhere. */
  function LeafMachine(u: bool): Platform {
    var flags := 0xCF + if u then 0x10 else 0;
    Platform(
      Memory((a: nat, size: nat) =>
        Some(if size == 4 then 0x10_0000 + flags else 0x20_0000_0000 + flags)),
      p => Some(p), (p, access) => false, (p, access) => false)
  }

  lemma LeafMachineWalk(c: Context, prv: nat, access: Access, bits: nat, size: nat, a: nat, i: nat)
    requires prv in {PRV_U, PRV_S}
    requires (size == 4 && bits == 10 && i == 1) || (size == 8 && bits == 9 && i in {2, 3})
    requires access != STORE
    ensures var r := WalkSpec(Unmasked, LeafMachine(prv == PRV_U).mem, c, prv, access, 0, bits, size, a, i);
            r.Ok? && PAGE <= r.value < WORD && r.value % PAGE == 0
  {
    hide Pow2, And, SplicePpn, Vpn, V, R, W, X, U, A, D;
    var ppn := if size == 4 then 1024 else 0x800_0000;
    var e := LeafMachine(prv == PRV_U).mem.read(a + Vpn(0, bits, i) * size, size);
    LeafMachineEntry(prv == PRV_U, size, e.value);
    SpecUnfold(Unmasked, LeafMachine(prv == PRV_U).mem, c, prv, access, 0, bits, size, a, i, e);
    Pow2Literals();
    assert i * bits in {10, 18, 27};
    assert ppn % Pow2(i * bits) == 0;
    Alignment(ppn, bits, i);
    SpliceIsSum(ppn, 0, bits, i);
    RemainderBound(0, Pow2(i * bits), 0x800_0000);
  }

  lemma LeafMachineEntry(u: bool, size: nat, pte: nat)
    requires LeafMachine(u).mem.read(0, size) == Some(pte)
    ensures V(pte) && R(pte) && W(pte) && X(pte) && A(pte) && D(pte) && (U(pte) <==> u)
    ensures Ppn(Unmasked, pte) == if size == 4 then 1024 else 0x800_0000
  {
    LeafFlags(pte);
    LeafPpn(pte);
    hide V, R, W, X, A, D, U, Ppn;
  }

  lemma LeafFlags(pte: nat)
    ensures pte in {0x10_00CF, 0x20_0000_00CF} ==>
              V(pte) && R(pte) && W(pte) && X(pte) && A(pte) && D(pte) && !U(pte)
    ensures pte in {0x10_00DF, 0x20_0000_00DF} ==>
              V(pte) && R(pte) && W(pte) && X(pte) && A(pte) && D(pte) && U(pte)
  {}

  lemma LeafPpn(pte: nat)
    ensures 0x10_0000 <= pte < 0x10_0400 ==> Ppn(Unmasked, pte) == 1024
    ensures 0x20_0000_0000 <= pte < 0x20_0000_0400 ==> Ppn(Unmasked, pte) == 0x800_0000
  {}

  lemma LeafMachinePage(c: Context, prv: nat, access: Access)
    requires Legal(c) && prv in {PRV_U, PRV_S, PRV_M} && access != STORE
    ensures Paged(c, prv) ==>
              var r := PageSpec(Unmasked, LeafMachine(prv == PRV_U).mem, c, 0, access, prv);
              r.Ok? && PAGE <= r.value < WORD && r.value % PAGE == 0
    ensures !Paged(c, prv) ==> forall u :: PageSpec(Unmasked, LeafMachine(u).mem, c, 0, access, prv) == Ok(0)
  {
    hide Pow2;
    var vm := DecodeVmInfo(c.xlen, prv, c.satp);
    if vm.levels > 0 {
      LeafMachineWalk(c, prv, access, vm.idxbits, vm.ptesize, vm.ptbase, vm.levels - 1);
      forall b: nat ensures !Bit(0, b) { assert 0 / Pow2(b) == 0; }
    }
  }

  lemma OneIsPaged(c: Context)
    requires Legal(c) && !SameSpace(c)
    ensures Paged(c, EffectivePrv(c, FETCH)) != Paged(c, EffectivePrv(c, LOAD))
  {}

  lemma LeafMachineWellFormed(u: bool)
    ensures WellFormed(LeafMachine(u))
  {}

  /** One access of a run. */
  lemma RunTouch(env: Platform, c: Context, t: Arrays, e: Event, rest: seq<Event>)
    requires Legal(c) && t.Sized() && OnlyTouches([e] + rest) && OnlyTouches(rest) && e.Touch? && e.size > 0
    ensures var (t', r) := Lookup(env, c, t, e.va, e.size, e.access, e.check);
            RunCached(env, c, t, [e] + rest) == [r] + RunCached(env, c, t', rest)
    ensures RunUncached(env, c, [e] + rest) == [AccessSpec(env, c, e.va, e.size, e.access)] + RunUncached(env, c, rest)
  {
    hide Lookup, AccessSpec, Legal;
    assert ([e] + rest)[0] == e && ([e] + rest)[1..] == rest;
  }

  /** With split spaces, an access through one of them is answered by the entry that the other one left. */
  lemma SplitSpaceShows(c: Context) returns (env: Platform, data: seq<Entry>, events: seq<Event>)
    requires Legal(c) && !SameSpace(c)
    ensures WellFormed(env) && |data| == ENTRIES && OnlyTouches(events) && !Unseen(env, c, data, events)
  {
    hide And, Or, Pow2, PageSpec, DecodeVmInfo, RunCached, RunUncached, Lookup, Refill, AccessSpec;
    OneIsPaged(c);
    var paged := if Paged(c, EffectivePrv(c, FETCH)) then FETCH else LOAD;
    var bare := if Paged(c, EffectivePrv(c, FETCH)) then LOAD else FETCH;
    var u := EffectivePrv(c, paged) == PRV_U;
    env, data := LeafMachine(u), seq(ENTRIES, _ => Entry(0, 0));
    LeafMachineWellFormed(u);
    LeafMachinePage(c, EffectivePrv(c, paged), paged);
    LeafMachinePage(c, EffectivePrv(c, bare), bare);
    var first, second := Touch(0, 1, paged, false), Touch(0, 1, bare, false);
    events := [first, second, first];
    var page := TranslateSpec(env.mem, c, 0, paged).value;
    var t1 := Refill(Flushed(data), 0, page, page, paged, false);
    var t2 := Refill(t1, 0, 0, 0, bare, false);
    SplitLookups(env, c, data, paged, bare, page);
    assert events == [first] + [second, first] && [second, first] == [second] + [first] && [first] == [first] + [];
    RunTouch(env, c, Flushed(data), first, [second, first]);
    RunTouch(env, c, t1, second, [first]);
    RunTouch(env, c, t2, first, []);
    assert RunCached(env, c, Flushed(data), events)[2] == Ok(Ram(0));
    assert RunUncached(env, c, events)[2] == Ok(Ram(page));
  }

  lemma SplitLookups(env: Platform, c: Context, data: seq<Entry>, paged: Access, bare: Access, page: nat)
    requires Legal(c) && |data| == ENTRIES && paged != bare && 0 < page < WORD
    requires env.host(0) == Some(0) && env.host(page) == Some(page)
    requires forall p, a :: !env.traced(p, a)
    requires TranslateSpec(env.mem, c, 0, paged) == Ok(page) && TranslateSpec(env.mem, c, 0, bare) == Ok(0)
    ensures var t1 := Refill(Flushed(data), 0, page, page, paged, false);
            var t2 := Refill(t1, 0, 0, 0, bare, false);
            && Lookup(env, c, Flushed(data), 0, 1, paged, false) == (t1, Ok(Ram(page)))
            && Lookup(env, c, t1, 0, 1, bare, false) == (t2, Ok(Ram(0)))
            && Lookup(env, c, t2, 0, 1, paged, false) == (t2, Ok(Ram(0)))
            && AccessSpec(env, c, 0, 1, paged) == Ok(Ram(page))
  {
    hide And, Or, Pow2, TranslateSpec;
    StripTag(0);
  }

  /** The TLB is invisible in a mode exactly when all accesses of that mode share one address space. */
  lemma InvisibleIff(c: Context)
    requires Legal(c)
    ensures InvisibleIn(c) <==> SameSpace(c)
  {
    hide *;
    if SameSpace(c) {
      forall env: Platform, data: seq<Entry>, events: seq<Event>
        | WellFormed(env) && |data| == ENTRIES && OnlyTouches(events)
        ensures Unseen(env, c, data, events)
      {
        TouchesPossible(env, c, events);
        FlushedCoherent(env, c, data);
        TlbInvisible(env, c, Flushed(data), iset{}, events);
        UnseenIf(env, c, data, events);
      }
      InvisibleIf(c);
    } else {
      var env, data, events := SplitSpaceShows(c);
      VisibleIf(c, env, data, events);
    }
  }

  lemma UnseenIf(env: Platform, c: Context, data: seq<Entry>, events: seq<Event>)
    requires Legal(c) && |data| == ENTRIES && OnlyTouches(events)
    requires RunCached(env, c, Flushed(data), events) == RunUncached(env, c, events)
    ensures Unseen(env, c, data, events)
  {}

  lemma InvisibleIf(c: Context)
    requires Legal(c)
    requires forall env: Platform, data: seq<Entry>, events: seq<Event> ::
               WellFormed(env) && |data| == ENTRIES && OnlyTouches(events) ==> Unseen(env, c, data, events)
    ensures InvisibleIn(c)
  {}

  lemma VisibleIf(c: Context, env: Platform, data: seq<Entry>, events: seq<Event>)
    requires Legal(c) && WellFormed(env) && |data| == ENTRIES && OnlyTouches(events) && !Unseen(env, c, data, events)
    ensures !InvisibleIn(c)
  {}
}

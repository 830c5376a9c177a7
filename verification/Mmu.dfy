/**
 The class `mmu_t`: the TLB arrays updated in place by accesses, refills and flushes. Its invariant is
 coherence, so every access ends where a walk of the page tables would take it.
 */
module Mmu {
  import opened Common
  import opened Bits
  import opened PageWalk
  import opened Tlb

  class Mmu {
    var env: Platform
    var c: Context
    const tlb_insn_tag: array<nat>
    const tlb_load_tag: array<nat>
    const tlb_store_tag: array<nat>
    const tlb_data: array<Entry>
    var check_triggers_fetch: bool
    var check_triggers_load: bool
    var check_triggers_store: bool
    var load_reservation_address: nat
    ghost var stale: iset<nat>  // pages whose cached entries an edit since the last flush has outdated

    ghost predicate Shaped()
      reads this
    {
      && tlb_insn_tag.Length == ENTRIES && tlb_load_tag.Length == ENTRIES
      && tlb_store_tag.Length == ENTRIES && tlb_data.Length == ENTRIES
      && tlb_insn_tag != tlb_load_tag && tlb_insn_tag != tlb_store_tag && tlb_load_tag != tlb_store_tag
    }

    /** The tags and entries now. */
    ghost function View(): (t: Arrays)
      requires Shaped()
      reads this, tlb_insn_tag, tlb_load_tag, tlb_store_tag, tlb_data
      ensures t.Sized()
    {
      Arrays(tlb_insn_tag[..], tlb_load_tag[..], tlb_store_tag[..], tlb_data[..])
    }

    ghost predicate Valid()
      reads this, tlb_insn_tag, tlb_load_tag, tlb_store_tag, tlb_data
    {
      Shaped() && WellFormed(env) && Legal(c) && SameSpace(c) && Coherent(env, c, View(), stale)
    }

    function Checked(access: Access): bool
      reads this
    {
      match access
      case FETCH => check_triggers_fetch
      case LOAD => check_triggers_load
      case STORE => check_triggers_store
    }

    constructor (env: Platform, c: Context)
      requires WellFormed(env) && Legal(c) && SameSpace(c)
      ensures Valid() && this.env == env && this.c == c && stale == iset{}
      ensures fresh(tlb_insn_tag) && fresh(tlb_load_tag) && fresh(tlb_store_tag) && fresh(tlb_data)
    {
      this.env, this.c := env, c;
      tlb_insn_tag := new nat[ENTRIES];
      tlb_load_tag := new nat[ENTRIES];
      tlb_store_tag := new nat[ENTRIES];
      tlb_data := new Entry[ENTRIES](_ => Entry(0, 0));
      check_triggers_fetch, check_triggers_load, check_triggers_store := false, false, false;
      load_reservation_address, stale := INVALID, iset{};
      new;
      FlushTlb();
      FlushedCoherent(env, c, tlb_data[..]);
    }

    method FlushTlb()
      requires Shaped()
      modifies tlb_insn_tag, tlb_load_tag, tlb_store_tag
      ensures View() == Flushed(old(View().data))
    {
      for i := 0 to ENTRIES
        invariant forall k :: 0 <= k < i ==>
                    tlb_insn_tag[k] == tlb_load_tag[k] == tlb_store_tag[k] == INVALID
      {
        tlb_insn_tag[i] := INVALID;
        tlb_load_tag[i] := INVALID;
        tlb_store_tag[i] := INVALID;
      }
      assert View() == Flushed(old(View().data));
    }

    method Translate(addr: nat, access: Access) returns (r: Result<nat, Fault>)
      requires Legal(c) && addr < WORD
      ensures r == TranslateSpec(env.mem, c, addr, access)
      ensures Conforms(env.mem, c, addr, access, EffectivePrv(c, access)) ==>
                r == StandardSpec(env.mem, c, addr, access)
    {
      hide PageSpec, Canonical, WalkSpec, DecodeVmInfo, Pow2, And, Or, Conforms, StandardSpec;
      if Conforms(env.mem, c, addr, access, EffectivePrv(c, access)) {
        TranslateStandard(env.mem, c, addr, access);
      }
      var mode := c.prv;
      if access != FETCH {
        if !c.debug && c.mprv {
          mode := c.mpp;
        }
      }
      var page := Walk(env.mem, c, addr, access, mode);
      if page.Err? {
        return page;
      }
      AndLow(addr, 12);
      Pow2Literals();
      OrOffset(env.mem, c, addr, access, page.value);
      return Ok(Or(page.value, And(addr, PAGE - 1)));
    }

    /** `if ((tags[idx] & ~TLB_CHECK_TRIGGERS) != tag) tags[idx] = -1` */
    static method Evict(tags: array<nat>, idx: nat, tag: nat)
      requires idx < tags.Length
      modifies tags
      ensures tags[..] == old(tags[..])[idx := Keep(old(tags[idx]), tag)]
    {
      hide Strip;
      if Strip(tags[idx]) != tag {
        tags[idx] := INVALID;
      }
    }

    /** Evict other pages from the slot, then install the page for the access, and its offsets. */
    method RefillTlb(vaddr: nat, paddr: nat, host_addr: nat, access: Access) returns (entry: Entry)
      requires Shaped() && vaddr < WORD
      modifies tlb_insn_tag, tlb_load_tag, tlb_store_tag, tlb_data
      ensures View() == Refill(old(View()), vaddr, paddr, host_addr, access, Checked(access))
      ensures entry == Entry(Sub(host_addr, vaddr), Sub(paddr, vaddr))
    {
      hide And, Or, Pow2, WellFormed, Strip, Sub, Keep;
      var idx := vaddr / PAGE % ENTRIES;
      var expected_tag := vaddr / PAGE;
      Evict(tlb_load_tag, idx, expected_tag);
      Evict(tlb_store_tag, idx, expected_tag);
      Evict(tlb_insn_tag, idx, expected_tag);

      if (check_triggers_fetch && access == FETCH) ||
         (check_triggers_load && access == LOAD) ||
         (check_triggers_store && access == STORE) {
        expected_tag := Or(expected_tag, TLB_CHECK_TRIGGERS);
      }

      if access == FETCH {
        tlb_insn_tag[idx] := expected_tag;
      } else if access == STORE {
        tlb_store_tag[idx] := expected_tag;
      } else {
        tlb_load_tag[idx] := expected_tag;
      }

      entry := Entry(Sub(host_addr, vaddr), Sub(paddr, vaddr));
      tlb_data[idx] := entry;
    }

    /** `load_slow_path` and `store_slow_path`, and `fetch_slow_path`, which never consults the tracer. */
    method SlowPath(addr: nat, access: Access) returns (r: Result<Location, Fault>)
      requires Shaped() && Legal(c) && addr < WORD
      requires !Hit(View(), addr, access)
      modifies tlb_insn_tag, tlb_load_tag, tlb_store_tag, tlb_data
      ensures (View(), r) == Lookup(env, c, old(View()), addr, 1, access, Checked(access))
    {
      var paddr := Translate(addr, access);
      match paddr {
        case Err(f) => return Err(f);
        case Ok(p) =>
          match env.host(p) {
            case Some(host_addr) =>
              if access == FETCH || !env.traced(p, access) {
                var _ := RefillTlb(addr, p, host_addr, access);
              }
              return Ok(Ram(host_addr));
            case None =>
              if env.mmio(p, access) {
                return Ok(Device(p));
              }
              return Err(AccessFault(access, addr));
          }
      }
    }

    /** A load, store or fetch of `size` bytes reaches what an access without a TLB would reach. */
    method Touch(addr: nat, size: nat, access: Access) returns (r: Result<Location, Fault>)
      requires Valid() && addr < WORD && size in {1, 2, 4, 8} && addr / PAGE !in stale
      modifies tlb_insn_tag, tlb_load_tag, tlb_store_tag, tlb_data
      ensures Valid()
      ensures View() == Lookup(env, c, old(View()), addr, size, access, Checked(access)).0
      ensures r == AccessSpec(env, c, addr, size, access)
    {
      hide And, Or, Pow2, PageSpec, TranslateSpec, WellFormed, Coherent, DecodeVmInfo, Refill;
      LookupIsFresh(env, c, View(), stale, addr, size, access, Checked(access));
      AlignmentTest(addr, size);
      if And(addr, size - 1) != 0 {
        return Err(Misaligned(access, addr));
      }
      var tags := match access case FETCH => tlb_insn_tag case LOAD => tlb_load_tag case STORE => tlb_store_tag;
      var vpn := addr / PAGE;
      if tags[vpn % ENTRIES] == vpn || tags[vpn % ENTRIES] == Or(vpn, TLB_CHECK_TRIGGERS) {
        return Ok(Ram((tlb_data[vpn % ENTRIES].host_offset + addr) % WORD));
      }
      r := SlowPath(addr, access);
    }

    method AcquireLoadReservation(vaddr: nat) returns (r: Result<(), Fault>)
      requires Valid() && vaddr < WORD && vaddr / PAGE !in stale
      modifies this`load_reservation_address, tlb_insn_tag, tlb_load_tag, tlb_store_tag, tlb_data
      ensures Valid()
      ensures var paddr := TranslateSpec(env.mem, c, vaddr, LOAD);
              if paddr.Err? then r == Err(paddr.error)
              else if env.host(paddr.value).None? then r == Err(AccessFault(LOAD, vaddr))
              else r.Ok? && load_reservation_address == paddr.value
      ensures r.Err? ==> load_reservation_address == old(load_reservation_address)
    {
      hide And, Or, Pow2, PageSpec, TranslateSpec, WellFormed, Coherent, DecodeVmInfo;
      var paddr := Translate(vaddr, LOAD);
      if paddr.Err? {
        return Err(paddr.error);
      }
      if env.host(paddr.value).None? {
        return Err(AccessFault(LOAD, vaddr));
      }
      RefillCoherent(env, c, View(), stale, vaddr, LOAD, Checked(LOAD));
      SamePage(env, c, vaddr, LOAD);
      var e := RefillTlb(vaddr, paddr.value, env.host(paddr.value).value, LOAD);
      load_reservation_address := (e.target_offset + vaddr) % WORD;
      OffsetAdd(paddr.value, vaddr, 0);
      return Ok(());
    }

    method CheckLoadReservation(vaddr: nat) returns (r: Result<bool, Fault>)
      requires Valid() && vaddr < WORD && vaddr / PAGE !in stale
      modifies tlb_insn_tag, tlb_load_tag, tlb_store_tag, tlb_data
      ensures Valid()
      ensures var paddr := TranslateSpec(env.mem, c, vaddr, STORE);
              r == if paddr.Err? then Err(paddr.error)
                   else if env.host(paddr.value).None? then Err(AccessFault(STORE, vaddr))
                   else Ok(load_reservation_address == paddr.value)
    {
      hide And, Or, Pow2, PageSpec, TranslateSpec, WellFormed, Coherent, DecodeVmInfo;
      var paddr := Translate(vaddr, STORE);
      if paddr.Err? {
        return Err(paddr.error);
      }
      if env.host(paddr.value).None? {
        return Err(AccessFault(STORE, vaddr));
      }
      RefillCoherent(env, c, View(), stale, vaddr, STORE, Checked(STORE));
      SamePage(env, c, vaddr, STORE);
      var e := RefillTlb(vaddr, paddr.value, env.host(paddr.value).value, STORE);
      OffsetAdd(paddr.value, vaddr, 0);
      return Ok(load_reservation_address == (e.target_offset + vaddr) % WORD);
    }

    /** `set_privilege`, `enter_debug_mode`, writes of satp and SFENCE.VMA: flush, then go on in the new mode. */
    method FlushAndSwitch(to: Context)
      requires Valid() && Legal(to) && SameSpace(to)
      modifies this`c, this`stale, tlb_insn_tag, tlb_load_tag, tlb_store_tag
      ensures Valid() && c == to && stale == iset{}
      ensures View() == Flushed(old(View().data))
    {
      FlushTlb();
      c, stale := to, iset{};
      FlushedCoherent(env, to, tlb_data[..]);
    }

    /**
     Stores change the page tables, or the host changes the memory map, and nothing is flushed: what is cached stays
     right for the pages that the change leaves alone.
     */
    method Edit(now: Platform)
      requires Valid() && WellFormed(now)
      modifies this`env, this`stale
      ensures Valid() && env == now && stale == old(stale) + Changed(old(env), now, c)
      ensures View() == old(View())
    {
      EditCoherent(env, now, c, View(), stale);
      stale := stale + Changed(env, now, c);
      env := now;
    }

    /** A write of mstatus: flush only when the value written differs in MPP, MPRV, SUM or MXR; then legalize MPP. */
    method WriteMstatus(mprv: bool, mpp: nat, sum: bool, mxr: bool)
      requires Valid() && mpp <= 3
      requires var to := c.(mprv := mprv, mpp := Legalized(mpp), sum := sum, mxr := mxr); Legal(to) && SameSpace(to)
      modifies this`c, this`stale, tlb_insn_tag, tlb_load_tag, tlb_store_tag
      ensures Valid()
      ensures c == old(c).(mprv := mprv, mpp := Legalized(mpp), sum := sum, mxr := mxr)
      ensures (View(), stale) ==
              if mprv == old(c).mprv && mpp == old(c).mpp && sum == old(c).sum && mxr == old(c).mxr
              then (old(View()), old(stale)) else (Flushed(old(View().data)), iset{})
    {
      hide WellFormed, Coherent, SameSpace, Legal;
      var differs := mprv != c.mprv || mpp != c.mpp || sum != c.sum || mxr != c.mxr;
      LegalMpp();
      if differs {
        FlushTlb();
      }
      c := c.(mprv := mprv, mpp := Legalized(mpp), sum := sum, mxr := mxr);
      if differs {
        stale := iset{};
        FlushedCoherent(env, c, tlb_data[..]);
      }
    }

    lemma LegalMpp()
      requires Legal(c)
      ensures Legalized(c.mpp) == c.mpp
    {}
  }

  /** `legalize_privilege` on a hart with S and U: mode 2 is reserved. */
  function Legalized(prv: nat): nat {
    if prv == 2 then PRV_U else prv
  }

  lemma OrOffset(m: Memory, c: Context, va: nat, access: Access, page: nat)
    requires Legal(c) && va < WORD
    requires PageSpec(Unmasked, m, c, va, access, EffectivePrv(c, access)) == Ok(page)
    ensures Or(page, va % PAGE) == AtOffset(page, va)
  {
    hide PageSpec, Or, Pow2;
    var prv := EffectivePrv(c, access);
    Pow2Literals();
    if Paged(c, prv) {
      PageSpecAligned(Unmasked, m, c, va, access, prv);
      OrDisjoint(page, va % PAGE, 12);
    } else {
      BareOffset(m, c, va, access, prv);
      OrAbsorb(page, 12);
    }
  }

  lemma BareOffset(m: Memory, c: Context, va: nat, access: Access, prv: nat)
    requires LegalSatp(c.xlen, c.satp) && prv in {PRV_U, PRV_S, PRV_M} && !Paged(c, prv) && va < WORD
    ensures PageSpec(Unmasked, m, c, va, access, prv).Ok?
    ensures PageSpec(Unmasked, m, c, va, access, prv).value % PAGE == va % PAGE
  {
    hide WalkSpec, Canonical, Pow2;
    Pow2Word();
    PageSpecUnfold(Unmasked, m, c, va, access, prv, DecodeVmInfo(c.xlen, prv, c.satp));
    TruncatedOffset(va);
  }

  lemma TruncatedOffset(va: nat)
    requires va < WORD
    ensures va % 0x1_0000_0000 % PAGE == va % PAGE && va % WORD == va
  {
    var high, low := va / 0x1_0000_0000, va % 0x1_0000_0000;
    DivUnique(va, PAGE, high * 0x10_0000 + low / PAGE, low % PAGE);
  }

  lemma AlignmentTest(addr: nat, size: nat)
    requires size in {1, 2, 4, 8}
    ensures And(addr, size - 1) == addr % size
  {
    var k := match size case 1 => 0 case 2 => 1 case 4 => 2 case _ => 3;
    assert Pow2(k) == size;
    AndLow(addr, k);
  }
}

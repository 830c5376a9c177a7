/**
 Address translation: the algorithm of section 4.3.2 of the RISC-V Privileged Architecture v1.10,
 written as a recursion over the levels of the page table, and `mmu_t::walk`, the loop of the simulator.
 */
module PageWalk {
  import opened Common
  import opened Bits

  const PRV_U := 0
  const PRV_S := 1
  const PRV_M := 3
  const PAGE := 4096
  const VPNS := 0x10_0000_0000_0000

  datatype Access = FETCH | LOAD | STORE

  datatype Fault =
    | PageFault(access: Access, tval: nat)
    | AccessFault(access: Access, tval: nat)
    | Misaligned(access: Access, tval: nat)

  /** The state a translation depends on. `debug` says that `dcsr.cause` is nonzero. */
  datatype Context = Context(
    xlen: nat, prv: nat, satp: nat,
    mprv: bool, mpp: nat, sum: bool, mxr: bool, debug: bool)

  /** Physical memory as the walk sees it: the word of `size` bytes at an address, if memory is there. */
  datatype Memory = Memory(read: (nat, nat) -> Option<nat>)

  /**
   Which bits of an entry are its page number: bits 53:10, as the standard has it, or bits 61:10, which is what is
   left of the entry when the code has shifted it right by 10 and left by 12 without a mask.
   */
  datatype Reading = Masked | Unmasked

  /** Of the reserved bits 63:54, those that the code takes for a part of the page number. */
  predicate ReservedClear(pte: nat) {
    pte / 0x40_0000_0000_0000 % 256 == 0
  }

  // ----- Decoding satp -----

  datatype VmInfo = VmInfo(levels: nat, idxbits: nat, ptesize: nat, ptbase: nat)

  function SatpMode(xlen: nat, satp: nat): nat {
    if xlen == 32 then satp / 0x8000_0000 % 2 else satp / 0x1000_0000_0000_0000 % 16
  }

  /** The values of `satp` that `set_csr` stores. */
  predicate LegalSatp(xlen: nat, satp: nat) {
    xlen == 32 || (xlen == 64 && SatpMode(xlen, satp) in {0, 8, 9})
  }

  predicate Legal(c: Context) {
    && LegalSatp(c.xlen, c.satp)
    && c.prv in {PRV_U, PRV_S, PRV_M}
    && c.mpp in {PRV_U, PRV_S, PRV_M}
  }

  function DecodeVmInfo(xlen: nat, prv: nat, satp: nat): VmInfo
    requires LegalSatp(xlen, satp) && prv in {PRV_U, PRV_S, PRV_M}
  {
    if prv == PRV_M then VmInfo(0, 0, 0, 0)
    else if xlen == 32 then
      if SatpMode(32, satp) == 0 then VmInfo(0, 0, 0, 0)
      else VmInfo(2, 10, 4, satp % 0x40_0000 * PAGE)
    else
      match SatpMode(64, satp)
      case 0 => VmInfo(0, 0, 0, 0)
      case 8 => VmInfo(3, 9, 8, satp % 0x1000_0000_0000 * PAGE)
      case _ => VmInfo(4, 9, 8, satp % 0x1000_0000_0000 * PAGE)
  }

  predicate PagedInfo(vm: VmInfo) {
    || (vm.levels == 2 && vm.idxbits == 10 && vm.ptesize == 4)
    || (vm.levels in {3, 4} && vm.idxbits == 9 && vm.ptesize == 8)
  }

  // ----- The specification -----

  predicate V(pte: nat) { pte % 2 == 1 }
  predicate R(pte: nat) { pte / 2 % 2 == 1 }
  predicate W(pte: nat) { pte / 4 % 2 == 1 }
  predicate X(pte: nat) { pte / 8 % 2 == 1 }
  predicate U(pte: nat) { pte / 16 % 2 == 1 }
  predicate A(pte: nat) { pte / 64 % 2 == 1 }
  predicate D(pte: nat) { pte / 128 % 2 == 1 }

  /** How many page numbers there are. */
  function Pages(rd: Reading): nat {
    match rd case Masked => 0x1000_0000_0000 case Unmasked => VPNS
  }

  function Ppn(rd: Reading, pte: nat): nat { pte / 1024 % Pages(rd) }

  /** Field `i` of a virtual page number, and of a physical one, when fields are `bits` wide. */
  function Vpn(va: nat, bits: nat, i: nat): nat {
    Shr(va, 12 + i * bits) % Pow2(bits)
  }

  function PpnField(ppn: nat, bits: nat, i: nat): nat {
    Shr(ppn, i * bits) % Pow2(bits)
  }

  /** Step 5: the access is allowed by the U, R, W and X bits, the privilege, SUM and MXR. */
  predicate Permitted(pte: nat, access: Access, prv: nat, sum: bool, mxr: bool) {
    && (match access
        case FETCH => X(pte)
        case LOAD => R(pte) || (mxr && X(pte))
        case STORE => W(pte))
    && (if U(pte) then prv == PRV_U || (sum && access != FETCH) else prv == PRV_S)
  }

  /** Step 8: fields `i` and up from the page table entry, fields below `i` from the virtual address. */
  function SplicePpn(ppn: nat, vpn: nat, bits: nat, i: nat): nat
    decreases i
  {
    if i == 0 then ppn
    else Join(SplicePpn(Shr(ppn, bits), Shr(vpn, bits), bits, i - 1), vpn % Pow2(bits), bits)
  }

  ghost predicate Unaligned(rd: Reading, pte: nat, bits: nat, i: nat) {
    exists j: nat :: j < i && PpnField(Ppn(rd, pte), bits, j) != 0
  }

  /** Steps 5 to 8 for a leaf entry found at level `i`. */
  ghost function LeafSpec(rd: Reading, c: Context, prv: nat, access: Access, va: nat,
                          bits: nat, i: nat, pte: nat): Result<nat, Fault>
  {
    if !Permitted(pte, access, prv, c.sum, c.mxr) then
      Err(PageFault(access, va))
    else if Unaligned(rd, pte, bits, i) then
      Err(PageFault(access, va))
    else if !A(pte) || (access == STORE && !D(pte)) then
      Err(PageFault(access, va))
    else
      Ok(SplicePpn(Ppn(rd, pte), va / PAGE, bits, i) * PAGE)
  }

  /** Steps 2 to 8 at level `i`, with the table at `a`. The result is the address of the physical page. */
  ghost function WalkSpec(rd: Reading, m: Memory, c: Context, prv: nat, access: Access, va: nat,
                          bits: nat, size: nat, a: nat, i: nat): Result<nat, Fault>
    decreases i
  {
    match m.read(a + Vpn(va, bits, i) * size, size)
    case None => Err(AccessFault(access, va))
    case Some(pte) =>
      if !V(pte) || (!R(pte) && W(pte)) then
        Err(PageFault(access, va))
      else if !R(pte) && !X(pte) then
        if i == 0 then Err(PageFault(access, va))
        else WalkSpec(rd, m, c, prv, access, va, bits, size, Ppn(rd, pte) * PAGE, i - 1)
      else
        LeafSpec(rd, c, prv, access, va, bits, i, pte)
  }

  /** The bits of an address above the translated ones all equal the highest translated bit. */
  ghost predicate Canonical(va: nat, xlen: nat, vaBits: nat)
    requires vaBits > 0
  {
    forall b: nat :: vaBits - 1 <= b < xlen ==> Bit(va, b) == Bit(va, vaBits - 1)
  }

  /** The page an access in privilege mode `prv` reaches. Bare translation gives the whole address. */
  ghost function PageSpec(rd: Reading, m: Memory, c: Context, va: nat, access: Access, prv: nat)
    : Result<nat, Fault>
    requires LegalSatp(c.xlen, c.satp) && prv in {PRV_U, PRV_S, PRV_M}
  {
    var vm := DecodeVmInfo(c.xlen, prv, c.satp);
    if vm.levels == 0 then Ok(va % Pow2(c.xlen))
    else if !Canonical(va, c.xlen, 12 + vm.levels * vm.idxbits) then Err(PageFault(access, va))
    else WalkSpec(rd, m, c, prv, access, va, vm.idxbits, vm.ptesize, vm.ptbase, vm.levels - 1)
  }

  // ----- Mask and shift arithmetic of the code -----

  /** `x << k` on a 64-bit word. */
  function Shl(x: nat, k: nat): nat {
    x * Pow2(k) % WORD
  }

  lemma {:induction false} TopBits(x: nat, n: nat)
    requires n > 0
    ensures (x % Pow2(n) == 0 || x % Pow2(n) == Pow2(n) - 1)
            <==> forall j: nat :: j < n ==> Bit(x, j) == Bit(x, 0)
  {
    AllEqual(x, n, false);
    AllEqual(x, n, true);
    assert Pow2(n) > 1;
    assert Bit(x, 0) == (x % 2 == 1) by { assert Pow2(0) == 1; }
    if x % Pow2(n) == 0 {
      assert !Bit(x, 0);
    } else if x % Pow2(n) == Pow2(n) - 1 {
      assert Bit(x, 0);
    }
  }

  lemma {:induction false} AllEqual(x: nat, n: nat, one: bool)
    ensures (x % Pow2(n) == if one then Pow2(n) - 1 else 0) <==> forall j: nat :: j < n ==> Bit(x, j) == one
  {
    if n > 0 {
      HalfMod(x, n);
      AllEqual(x / 2, n - 1, one);
      forall j: nat | 0 < j < n
        ensures Bit(x, j) == Bit(x / 2, j - 1)
      {
        DivDiv(x, 2, Pow2(j - 1));
      }
      assert Bit(x, 0) == (x % 2 == 1) by { assert Pow2(0) == 1; }
      assert forall j: nat :: j < n - 1 ==> Bit(x / 2, j) == Bit(x, j + 1);
    } else {
      assert Pow2(0) == 1;
    }
  }

  /** The test of mmu.cc:173-175 is exactly the canonical-address rule. */
  lemma CanonicalTest(va: nat, xlen: nat, vaBits: nat)
    requires 0 < vaBits <= xlen
    ensures var ones := Pow2(xlen - (vaBits - 1)) - 1;
            var msbs := And(Shr(va, vaBits - 1), ones);
            Canonical(va, xlen, vaBits) <==> msbs == 0 || msbs == ones
  {
    var lo, n := vaBits - 1, xlen - (vaBits - 1);
    var x := Shr(va, lo);
    AndLow(x, n);
    TopBits(x, n);
    forall j: nat
      ensures Bit(x, j) == Bit(va, lo + j)
    {
      DivDiv(va, Pow2(lo), Pow2(j));
      Pow2Add(lo, j);
    }
    if Canonical(va, xlen, vaBits) {
      forall j: nat | j < n ensures Bit(x, j) == Bit(x, 0) {
        assert Bit(va, lo + j) == Bit(va, lo);
      }
    }
    if forall j: nat :: j < n ==> Bit(x, j) == Bit(x, 0) {
      forall b: nat | vaBits - 1 <= b < xlen ensures Bit(va, b) == Bit(va, vaBits - 1) {
        assert Bit(x, b - lo) == Bit(x, 0);
      }
    }
  }

  lemma {:induction false} SpliceIsOr(ppn: nat, vpn: nat, bits: nat, i: nat)
    requires ppn % Pow2(i * bits) == 0
    ensures SplicePpn(ppn, vpn, bits, i) == Or(ppn, And(vpn, Pow2(i * bits) - 1))
    ensures SplicePpn(ppn, vpn, bits, i) == ppn + vpn % Pow2(i * bits)
  {
    AndLow(vpn, i * bits);
    OrDisjoint(ppn, vpn % Pow2(i * bits), i * bits);
    SpliceIsSum(ppn, vpn, bits, i);
  }

  lemma {:induction false} SpliceIsSum(ppn: nat, vpn: nat, bits: nat, i: nat)
    requires ppn % Pow2(i * bits) == 0
    ensures SplicePpn(ppn, vpn, bits, i) == ppn + vpn % Pow2(i * bits)
    decreases i
  {
    if i == 0 {
      assert i * bits == 0;
    } else {
      assert bits + (i - 1) * bits == i * bits;
      Pow2Add(bits, (i - 1) * bits);
      SpliceStep(ppn, vpn, Pow2(bits), Pow2((i - 1) * bits));
      SpliceIsSum(Shr(ppn, bits), Shr(vpn, bits), bits, i - 1);
    }
  }

  lemma SpliceStep(ppn: nat, vpn: nat, p: nat, q: nat)
    requires p > 0 && q > 0
    ensures p * q > 0
    ensures ppn % (p * q) == 0 ==> ppn / p % q == 0
    ensures ppn % (p * q) == 0 ==> (ppn / p + vpn / p % q) * p + vpn % p == ppn + vpn % (p * q)
  {
    ModProduct(ppn, p, q);
    ModProduct(vpn, p, q);
    if ppn % (p * q) == 0 {
      Distribute(p, ppn / p, vpn / p % q);
      Split(ppn, p);
    }
  }

  lemma Distribute(p: int, a: int, b: int)
    ensures (a + b) * p == p * a + p * b
  {}

  /** The remainder by a product is the low remainder and the remainder of the quotient. */
  lemma ModProduct(x: nat, p: nat, q: nat)
    requires p > 0 && q > 0
    ensures p * q > 0
    ensures x % (p * q) == x % p + p * (x / p % q)
    ensures x % (p * q) == 0 ==> x % p == 0 && x / p % q == 0
  {
    var y := x / p;
    DivDivSum(x, p, q, y, x % p, y / q, y % q);
    DivUnique(x, p * q, y / q, p * (y % q) + x % p);
    if p * (y % q) + x % p == 0 && y % q != 0 {
      MulMonotone(p, 1, y % q);
    }
  }

  /** mmu.cc:206: the alignment test looks at all the fields below the leaf's level at once. */
  lemma {:induction false} Alignment(ppn: nat, bits: nat, i: nat)
    ensures And(ppn, Pow2(i * bits) - 1) == ppn % Pow2(i * bits)
    ensures ppn % Pow2(i * bits) != 0 <==> exists j: nat :: j < i && PpnField(ppn, bits, j) != 0
  {
    AndLow(ppn, i * bits);
    LowFields(ppn, bits, i);
  }

  lemma {:induction false} LowFields(ppn: nat, bits: nat, i: nat)
    ensures ppn % Pow2(i * bits) == 0 <==> forall j: nat :: j < i ==> PpnField(ppn, bits, j) == 0
  {
    if i == 0 {
      assert i * bits == 0 && Pow2(0) == 1;
    } else {
      var p, q := Pow2((i - 1) * bits), Pow2(bits);
      assert (i - 1) * bits + bits == i * bits;
      Pow2Add((i - 1) * bits, bits);
      ModProduct(ppn, p, q);
      LowFields(ppn, bits, i - 1);
      assert PpnField(ppn, bits, i - 1) == ppn / p % q;
    }
  }

  // ----- mmu_t::walk -----

  /** `PTE_TABLE(pte)`: of V, R, W and X, exactly V is set. */
  predicate PteTable(pte: nat) {
    And(pte, 15) == 1
  }

  lemma TableTest(pte: nat)
    ensures PteTable(pte) <==> V(pte) && !R(pte) && !W(pte) && !X(pte)
  {
    AndLow(pte, 4);
    LowNibble(pte);
  }

  lemma LowNibble(x: nat)
    ensures x % Pow2(4) == x % 2 + 2 * (x / 2 % 2) + 4 * (x / 4 % 2) + 8 * (x / 8 % 2)
  {
    HalfMod(x, 4);
    HalfMod(x / 2, 3);
    HalfMod(x / 4, 2);
    assert x / 2 / 2 == x / 4 && x / 4 / 2 == x / 8;
    assert Pow2(1) == 2;
  }

  /** `pte >> PTE_PPN_SHIFT`: the page number with all the bits above it. */
  function RawPpn(pte: nat): nat { pte / 1024 }

  /** The tests of mmu.cc:198-215 on an entry that is not a pointer: the page it maps, if all of them pass. */
  function LeafAddress(c: Context, mode: nat, access: Access, addr: nat, pte: nat, ptshift: nat): Option<nat> {
    var s_mode := mode == PRV_S;
    var ppn := RawPpn(pte);
    if (if U(pte) then s_mode && (access == FETCH || !c.sum) else !s_mode) then None
    else if !V(pte) || (!R(pte) && W(pte)) then None
    else if (match access
             case FETCH => !X(pte)
             case LOAD => !R(pte) && !(c.mxr && X(pte))
             case STORE => !(R(pte) && W(pte))) then None
    else if And(ppn, Pow2(ptshift) - 1) != 0 then None
    else if !A(pte) || (access == STORE && !D(pte)) then None
    else Some(Shl(Or(ppn, And(addr / PAGE, Pow2(ptshift) - 1)), 12))
  }

  lemma LeafMeetsSpec(c: Context, mode: nat, access: Access, va: nat, bits: nat, i: nat, pte: nat)
    requires mode in {PRV_U, PRV_S}
    requires !PteTable(pte) && i * bits <= 40
    ensures var spec := if !V(pte) || (!R(pte) && W(pte)) then Err(PageFault(access, va))
                        else LeafSpec(Unmasked, c, mode, access, va, bits, i, pte);
            spec == match LeafAddress(c, mode, access, va, pte, i * bits)
                    case None => Err(PageFault(access, va))
                    case Some(page) => Ok(page)
  {
    hide V, R, W, X, A, D, U, PteTable, Unaligned, SplicePpn, Ppn, RawPpn, Shl, And, Or, Pow2;
    TableTest(pte);
    LeafCode(pte, va, bits, i);
    var k := i * bits;
    assert LeafAddress(c, mode, access, va, pte, k).Some? ==>
        LeafAddress(c, mode, access, va, pte, k).value == Shl(Or(RawPpn(pte), And(va / PAGE, Pow2(k) - 1)), 12);
  }

  /** The alignment test and the address that the code builds, on any entry. */
  lemma LeafCode(pte: nat, va: nat, bits: nat, i: nat)
    requires i * bits <= 40
    ensures Unaligned(Unmasked, pte, bits, i) <==> And(RawPpn(pte), Pow2(i * bits) - 1) != 0
    ensures !Unaligned(Unmasked, pte, bits, i) ==>
              SplicePpn(Ppn(Unmasked, pte), va / PAGE, bits, i) * PAGE ==
              Shl(Or(RawPpn(pte), And(va / PAGE, Pow2(i * bits) - 1)), 12)
  {
    LeafAlignment(Unmasked, pte, bits, i);
    hide *;
    if !Unaligned(Unmasked, pte, bits, i) {
      var low := LeafSums(Unmasked, pte, va / PAGE, bits, i);
      ShlKeeps(pte, low);
    }
  }

  /** It is the address of the standard exactly when the reserved bits are clear. */
  lemma LeafPage(pte: nat, va: nat, bits: nat, i: nat)
    requires i * bits <= 40
    ensures Unaligned(Masked, pte, bits, i) <==> And(RawPpn(pte), Pow2(i * bits) - 1) != 0
    ensures !Unaligned(Masked, pte, bits, i) ==>
              (SplicePpn(Ppn(Masked, pte), va / PAGE, bits, i) * PAGE ==
               Shl(Or(RawPpn(pte), And(va / PAGE, Pow2(i * bits) - 1)), 12)
               <==> ReservedClear(pte))
  {
    LeafAlignment(Masked, pte, bits, i);
    hide *;
    if !Unaligned(Masked, pte, bits, i) {
      var low := LeafSums(Masked, pte, va / PAGE, bits, i);
      ShlWrap(pte, low);
    }
  }

  /** The alignment test of the code on the raw page number, and the specification's on the field. */
  lemma LeafAlignment(rd: Reading, pte: nat, bits: nat, i: nat)
    requires i * bits <= 40
    ensures Unaligned(rd, pte, bits, i) <==> And(RawPpn(pte), Pow2(i * bits) - 1) != 0
    ensures Unaligned(rd, pte, bits, i) <==> Ppn(rd, pte) % Pow2(i * bits) != 0
    ensures Ppn(rd, pte) % Pow2(i * bits) == RawPpn(pte) % Pow2(i * bits)
  {
    hide Pow2, And, PpnField;
    Alignment(Ppn(rd, pte), bits, i);
    AndLow(RawPpn(pte), i * bits);
    LowAgree(rd, RawPpn(pte), i * bits);
  }

  /** On an aligned page number both ways of filling in the low fields add the same number. */
  lemma LeafSums(rd: Reading, pte: nat, vpn: nat, bits: nat, i: nat) returns (low: nat)
    requires i * bits <= 40 && !Unaligned(rd, pte, bits, i)
    ensures SplicePpn(Ppn(rd, pte), vpn, bits, i) == Ppn(rd, pte) + low < Pages(rd)
    ensures Or(RawPpn(pte), And(vpn, Pow2(i * bits) - 1)) == RawPpn(pte) + low
  {
    hide *;
    var k := i * bits;
    low := vpn % Pow2(k);
    LeafAlignment(rd, pte, bits, i);
    SpliceIsSum(Ppn(rd, pte), vpn, bits, i);
    PpnBound(rd, pte);
    FitsField(rd, Ppn(rd, pte), vpn, k);
    AndLow(vpn, k);
    OrDisjoint(RawPpn(pte), low, k);
  }

  lemma PpnBound(rd: Reading, pte: nat)
    ensures Ppn(rd, pte) < Pages(rd)
  {}

  /** The number of pages is a power of two. */
  lemma PagesSplit(rd: Reading, k: nat) returns (rest: nat)
    requires k <= 40
    ensures Pow2(k) * Pow2(rest) == Pages(rd)
  {
    Pow2Literals();
    rest := (match rd case Masked => 44 case Unmasked => 52) - k;
    Pow2Add(k, rest);
    Pow2Add(44, 8);
    assert Pow2(8) == 256;
    hide Pow2;
  }

  /** Reducing a page number to its field does not change the bits below the field's top. */
  lemma LowAgree(rd: Reading, raw: nat, k: nat)
    requires k <= 40
    ensures raw % Pages(rd) % Pow2(k) == raw % Pow2(k)
  {
    hide *;
    var rest := PagesSplit(rd, k);
    var p, q := Pow2(k), Pow2(rest);
    ModProduct(raw, p, q);
    DivUnique(raw % (p * q), p, raw / p % q, raw % p);
  }

  /** An aligned page number with low fields filled in still fits the field. */
  lemma FitsField(rd: Reading, ppn: nat, vpn: nat, k: nat)
    requires ppn < Pages(rd) && k <= 40 && ppn % Pow2(k) == 0
    ensures ppn + vpn % Pow2(k) < Pages(rd)
  {
    hide *;
    var rest := PagesSplit(rd, k);
    Split(ppn, Pow2(k));
    BelowMultiple(Pow2(k), Pow2(rest), ppn / Pow2(k), vpn % Pow2(k));
  }

  lemma BelowMultiple(p: nat, q: nat, n: nat, r: nat)
    requires p * n < p * q && r < p
    ensures p * n + r < p * q
  {
    if n >= q {
      MulMonotone(p, q, n);
    } else {
      assert p * (n + 1) == p * n + p;
      MulMonotone(p, n + 1, q);
    }
  }

  /** Shifting a raw page number loses bits 63:62 of the entry; bits 61:54 end up in the address. */
  lemma ShlKeeps(pte: nat, low: nat)
    requires Ppn(Unmasked, pte) + low < VPNS
    ensures Shl(RawPpn(pte) + low, 12) == (Ppn(Unmasked, pte) + low) * PAGE
  {
    Pow2Literals();
    RawSplit(Unmasked, pte);
    hide Pow2, Ppn, RawPpn;
    DivUnique((RawPpn(pte) + low) * PAGE, WORD, pte / 1024 / VPNS, (Ppn(Unmasked, pte) + low) * PAGE);
  }

  lemma RawSplit(rd: Reading, pte: nat)
    ensures RawPpn(pte) == Pages(rd) * (pte / 1024 / Pages(rd)) + Ppn(rd, pte)
  {
    Split(pte / 1024, Pages(rd));
  }

  /** The two readings of an entry differ by its reserved bits. */
  lemma Readings(pte: nat)
    ensures Ppn(Unmasked, pte) == Ppn(Masked, pte) + 0x1000_0000_0000 * (pte / 0x40_0000_0000_0000 % 256)
  {
    var r := pte / 0x40_0000_0000_0000;
    assert pte / 1024 / 0x1000_0000_0000 == r;
    RawSplit(Masked, pte);
    DivUnique(pte / 1024, VPNS, r / 256, Ppn(Masked, pte) + 0x1000_0000_0000 * (r % 256));
  }

  /** So the shift gives the address of the standard exactly when they are clear. */
  lemma ShlWrap(pte: nat, low: nat)
    requires Ppn(Masked, pte) + low < 0x1000_0000_0000
    ensures Shl(RawPpn(pte) + low, 12) == (Ppn(Masked, pte) + low) * PAGE <==> ReservedClear(pte)
  {
    Readings(pte);
    hide Shl, RawPpn, Ppn;
    ShlKeeps(pte, low);
  }

  /** The address arithmetic of mmu.cc:181-184. */
  function EntryAddress(va: nat, vm: VmInfo, base: nat, i: nat): nat {
    var idx := And(Shr(va, 12 + i * vm.idxbits), Pow2(vm.idxbits) - 1);
    (base + idx * vm.ptesize) % WORD
  }

  /** It stays below 2^64 and indexes by the field of the address. */
  lemma PteAddress(base: nat, va: nat, vm: VmInfo, i: nat)
    requires PagedInfo(vm) && base < WORD && base % PAGE == 0
    ensures EntryAddress(va, vm, base, i) == base + Vpn(va, vm.idxbits, i) * vm.ptesize
  {
    hide Pow2, And, Shr, Vpn;
    var x := Shr(va, 12 + i * vm.idxbits);
    TableSize(vm);
    hide PagedInfo;
    AndLow(x, vm.idxbits);
    RemainderBound(x, Pow2(vm.idxbits), PAGE / vm.ptesize);
    EntryFits(base, x % Pow2(vm.idxbits), vm.ptesize);
    assert x % Pow2(vm.idxbits) == Vpn(va, vm.idxbits, i) by { VpnIs(va, vm.idxbits, i); }
  }

  /** A table fills a page. */
  lemma TableSize(vm: VmInfo)
    requires PagedInfo(vm)
    ensures vm.ptesize in {4, 8} && Pow2(vm.idxbits) == PAGE / vm.ptesize
  {
    Pow2Literals();
    hide Pow2;
  }

  lemma VpnIs(va: nat, bits: nat, i: nat)
    ensures Vpn(va, bits, i) == Shr(va, 12 + i * bits) % Pow2(bits)
  {}

  lemma RemainderBound(x: nat, p: nat, bound: nat)
    requires 0 < p <= bound
    ensures 0 <= x % p < bound
  {}

  lemma EntryFits(base: nat, idx: nat, size: nat)
    requires base < WORD && base % PAGE == 0 && size in {4, 8} && idx < PAGE / size
    ensures (base + idx * size) % WORD == base + idx * size
  {
    assert idx * size < PAGE;
  }

  /** One iteration of the loop in terms of the next. */
  ghost function Iteration(m: Memory, c: Context, mode: nat, access: Access, va: nat,
                           vm: VmInfo, base: nat, i: nat): Result<nat, Fault>
  {
    match m.read(EntryAddress(va, vm, base, i), vm.ptesize)
    case None => Err(AccessFault(access, va))
    case Some(pte) =>
      if PteTable(pte) then
        if i == 0 then Err(PageFault(access, va))
        else WalkSpec(Unmasked, m, c, mode, access, va, vm.idxbits, vm.ptesize, Shl(RawPpn(pte), 12), i - 1)
      else
        match LeafAddress(c, mode, access, va, pte, i * vm.idxbits)
        case None => Err(PageFault(access, va))
        case Some(page) => Ok(page)
  }

  lemma IterationUnfold(m: Memory, c: Context, mode: nat, access: Access, va: nat, vm: VmInfo, base: nat, i: nat)
    requires PagedInfo(vm)
    ensures var e := m.read(EntryAddress(va, vm, base, i), vm.ptesize);
            var r := Iteration(m, c, mode, access, va, vm, base, i);
            && (e.None? ==> r == Err(AccessFault(access, va)))
            && (e.Some? && PteTable(e.value) ==>
                  var next := Shl(RawPpn(e.value), 12);
                  r == if i == 0 then Err(PageFault(access, va))
                       else WalkSpec(Unmasked, m, c, mode, access, va, vm.idxbits, vm.ptesize, next, i - 1))
            && (e.Some? && !PteTable(e.value) ==>
                  var page := LeafAddress(c, mode, access, va, e.value, i * vm.idxbits);
                  r == if page.None? then Err(PageFault(access, va)) else Ok(page.value))
  {
    hide WalkSpec, LeafAddress, PteTable, Shl, EntryAddress, RawPpn;
  }

  /** A pointer, whatever its reserved bits, leads to a table at a page boundary. */
  lemma TablePointer(pte: nat)
    ensures Shl(RawPpn(pte), 12) == Ppn(Unmasked, pte) * PAGE
    ensures Shl(RawPpn(pte), 12) < WORD && Shl(RawPpn(pte), 12) % PAGE == 0
  {
    PpnBound(Unmasked, pte);
    hide Shl, RawPpn, Ppn;
    ShlKeeps(pte, 0);
  }

  lemma SpecUnfold(rd: Reading, m: Memory, c: Context, prv: nat, access: Access, va: nat,
                   bits: nat, size: nat, a: nat, i: nat, e: Option<nat>)
    requires e == m.read(a + Vpn(va, bits, i) * size, size)
    ensures WalkSpec(rd, m, c, prv, access, va, bits, size, a, i) ==
            match e
            case None => Err(AccessFault(access, va))
            case Some(pte) =>
              if !V(pte) || (!R(pte) && W(pte)) then
                Err(PageFault(access, va))
              else if !R(pte) && !X(pte) then
                if i == 0 then Err(PageFault(access, va))
                else WalkSpec(rd, m, c, prv, access, va, bits, size, Ppn(rd, pte) * PAGE, i - 1)
              else
                LeafSpec(rd, c, prv, access, va, bits, i, pte)
  {}

  lemma IterationMeetsSpec(m: Memory, c: Context, mode: nat, access: Access, va: nat,
                           vm: VmInfo, base: nat, i: nat)
    requires mode in {PRV_U, PRV_S}
    requires PagedInfo(vm) && i < vm.levels && base < WORD && base % PAGE == 0
    ensures WalkSpec(Unmasked, m, c, mode, access, va, vm.idxbits, vm.ptesize, base, i) ==
            Iteration(m, c, mode, access, va, vm, base, i)
  {
    hide WalkSpec, LeafSpec, LeafAddress, PteTable, Shl, V, R, W, X, Pow2, And, Vpn, RawPpn, Ppn;
    var bits, size := vm.idxbits, vm.ptesize;
    var e := m.read(base + Vpn(va, bits, i) * size, size);
    PteAddress(base, va, vm, i);
    SpecUnfold(Unmasked, m, c, mode, access, va, bits, size, base, i, e);
    if e.Some? {
      TableTest(e.value);
      TablePointer(e.value);
      if !PteTable(e.value) {
        LeafMeetsSpec(c, mode, access, va, bits, i, e.value);
      }
    }
  }

  lemma PageSpecUnfold(rd: Reading, m: Memory, c: Context, va: nat, access: Access, prv: nat, vm: VmInfo)
    requires LegalSatp(c.xlen, c.satp) && prv in {PRV_U, PRV_S, PRV_M}
    requires vm == DecodeVmInfo(c.xlen, prv, c.satp)
    ensures PageSpec(rd, m, c, va, access, prv) ==
            if vm.levels == 0 then Ok(va % Pow2(c.xlen))
            else if !Canonical(va, c.xlen, 12 + vm.levels * vm.idxbits) then Err(PageFault(access, va))
            else WalkSpec(rd, m, c, prv, access, va, vm.idxbits, vm.ptesize, vm.ptbase, vm.levels - 1)
  {}

  lemma DecodeBounds(c: Context, prv: nat, vm: VmInfo)
    requires LegalSatp(c.xlen, c.satp) && prv in {PRV_U, PRV_S, PRV_M}
    requires vm == DecodeVmInfo(c.xlen, prv, c.satp)
    ensures vm.levels > 0 ==> prv != PRV_M && PagedInfo(vm) && vm.ptbase < 0x100_0000_0000_0000 && vm.ptbase % PAGE == 0
    ensures vm.levels > 0 ==> 12 + vm.levels * vm.idxbits <= c.xlen
  {}

  // ----- When that is the standard -----

  /**
   The entries that the walk follows have their reserved bits clear: the pointers, and the leaf if it maps the page.
   Nothing is asked of other words of memory, nor of an entry that faults.
   */
  ghost predicate ConformingPath(m: Memory, c: Context, prv: nat, access: Access, va: nat,
                                 bits: nat, size: nat, a: nat, i: nat)
    decreases i
  {
    match m.read(a + Vpn(va, bits, i) * size, size)
    case None => true
    case Some(pte) =>
      if !V(pte) || (!R(pte) && W(pte)) then true
      else if !R(pte) && !X(pte) then
        i == 0 ||
        (ReservedClear(pte) &&
         ConformingPath(m, c, prv, access, va, bits, size, Ppn(Masked, pte) * PAGE, i - 1))
      else LeafSpec(Masked, c, prv, access, va, bits, i, pte).Ok? ==> ReservedClear(pte)
  }

  /** The addresses of the entries that a walk reads. */
  ghost function EntriesRead(rd: Reading, m: Memory, va: nat, bits: nat, size: nat, a: nat, i: nat): seq<nat>
    decreases i
  {
    var at := a + Vpn(va, bits, i) * size;
    match m.read(at, size)
    case None => [at]
    case Some(pte) =>
      if V(pte) && !R(pte) && !W(pte) && !X(pte) && i > 0 then
        [at] + EntriesRead(rd, m, va, bits, size, Ppn(rd, pte) * PAGE, i - 1)
      else [at]
  }

  lemma PpnAgrees(pte: nat)
    ensures Ppn(Masked, pte) == Ppn(Unmasked, pte) <==> ReservedClear(pte)
  {
    Readings(pte);
    hide Ppn;
  }

  /** A leaf means the same under both readings, unless it maps the page and has reserved bits set. */
  lemma LeafReadings(c: Context, prv: nat, access: Access, va: nat, bits: nat, i: nat, pte: nat)
    requires i * bits <= 40
    ensures LeafSpec(Unmasked, c, prv, access, va, bits, i, pte) == LeafSpec(Masked, c, prv, access, va, bits, i, pte)
            <==> (LeafSpec(Masked, c, prv, access, va, bits, i, pte).Ok? ==> ReservedClear(pte))
  {
    LeafCode(pte, va, bits, i);
    LeafPage(pte, va, bits, i);
    hide Unaligned, Permitted, Ppn, Shl, RawPpn, And, Or, Pow2, ReservedClear, SplicePpn, A, D;
  }

  lemma FirstRead(rd: Reading, m: Memory, va: nat, bits: nat, size: nat, a: nat, i: nat)
    ensures |EntriesRead(rd, m, va, bits, size, a, i)| > 0
    ensures EntriesRead(rd, m, va, bits, size, a, i)[0] == a + Vpn(va, bits, i) * size
  {}

  lemma SameTail(at: nat, s: seq<nat>, t: seq<nat>)
    ensures [at] + s == [at] + t <==> s == t
  {
    assert ([at] + s)[1..] == s && ([at] + t)[1..] == t;
  }

  /** The code's walk reads the entries that the standard's reads, and ends alike, exactly when the path conforms. */
  lemma {:induction false} WalkStandardIff(m: Memory, c: Context, prv: nat, access: Access, va: nat,
                                           bits: nat, size: nat, a: nat, i: nat)
    requires i * bits <= 40
    ensures (&& EntriesRead(Unmasked, m, va, bits, size, a, i) == EntriesRead(Masked, m, va, bits, size, a, i)
             && WalkSpec(Unmasked, m, c, prv, access, va, bits, size, a, i)
                == WalkSpec(Masked, m, c, prv, access, va, bits, size, a, i))
            <==> ConformingPath(m, c, prv, access, va, bits, size, a, i)
    decreases i
  {
    hide LeafSpec, V, R, W, X, Ppn, Vpn, ReservedClear;
    var at := a + Vpn(va, bits, i) * size;
    var e := m.read(at, size);
    if e.Some? {
      var pte := e.value;
      if V(pte) && !R(pte) && !W(pte) && !X(pte) && i > 0 {
        var u, s := Ppn(Unmasked, pte) * PAGE, Ppn(Masked, pte) * PAGE;
        PpnAgrees(pte);
        SameTail(at, EntriesRead(Unmasked, m, va, bits, size, u, i - 1),
                 EntriesRead(Masked, m, va, bits, size, s, i - 1));
        if ReservedClear(pte) {
          MulMonotone(bits, i - 1, i);
          WalkStandardIff(m, c, prv, access, va, bits, size, s, i - 1);
        } else {
          FirstRead(Unmasked, m, va, bits, size, u, i - 1);
          FirstRead(Masked, m, va, bits, size, s, i - 1);
        }
      } else {
        LeafReadings(c, prv, access, va, bits, i, pte);
      }
    }
  }

  /** An Sv32 entry has no reserved bits: there every path conforms. */
  lemma {:induction false} Sv32Conforms(m: Memory, c: Context, prv: nat, access: Access, va: nat,
                                        bits: nat, a: nat, i: nat)
    requires forall at, v :: m.read(at, 4) == Some(v) ==> v < 0x1_0000_0000
    ensures ConformingPath(m, c, prv, access, va, bits, 4, a, i)
    decreases i
  {
    hide LeafSpec, Vpn;
    var e := m.read(a + Vpn(va, bits, i) * 4, 4);
    if e.Some? && i > 0 {
      Sv32Conforms(m, c, prv, access, va, bits, Ppn(Masked, e.value) * PAGE, i - 1);
    }
  }

  /** The walk for an address conforms, if it takes one. */
  ghost predicate Conforms(m: Memory, c: Context, va: nat, access: Access, prv: nat)
    requires LegalSatp(c.xlen, c.satp) && prv in {PRV_U, PRV_S, PRV_M}
  {
    var vm := DecodeVmInfo(c.xlen, prv, c.satp);
    vm.levels > 0 && Canonical(va, c.xlen, 12 + vm.levels * vm.idxbits) ==>
      ConformingPath(m, c, prv, access, va, vm.idxbits, vm.ptesize, vm.ptbase, vm.levels - 1)
  }

  lemma ConformsIsStandard(m: Memory, c: Context, va: nat, access: Access, prv: nat)
    requires LegalSatp(c.xlen, c.satp) && prv in {PRV_U, PRV_S, PRV_M} && Conforms(m, c, va, access, prv)
    ensures PageSpec(Unmasked, m, c, va, access, prv) == PageSpec(Masked, m, c, va, access, prv)
  {
    hide WalkSpec, ConformingPath, EntriesRead, Canonical, Pow2;
    var vm := DecodeVmInfo(c.xlen, prv, c.satp);
    if vm.levels > 0 {
      WalkStandardIff(m, c, prv, access, va, vm.idxbits, vm.ptesize, vm.ptbase, vm.levels - 1);
    }
  }

  // ----- The method -----

  /**
   `mmu_t::walk` is the specified algorithm, fault for fault, on every memory, with the page number that the code reads;
   and that is the standard's wherever the entries it follows have their reserved bits clear.
   */
  method Walk(m: Memory, c: Context, addr: nat, access: Access, mode: nat) returns (r: Result<nat, Fault>)
    requires LegalSatp(c.xlen, c.satp) && mode in {PRV_U, PRV_S, PRV_M}
    ensures r == PageSpec(Unmasked, m, c, addr, access, mode)
    ensures Conforms(m, c, addr, access, mode) ==> r == PageSpec(Masked, m, c, addr, access, mode)
  {
    hide WalkSpec, PageSpec, Canonical, LeafAddress, PteTable, Shl, Pow2, And, Shr, DecodeVmInfo, SatpMode, LegalSatp;
    hide RawPpn, Ppn, Iteration, Conforms;
    if Conforms(m, c, addr, access, mode) {
      ConformsIsStandard(m, c, addr, access, mode);
    }
    var vm := DecodeVmInfo(c.xlen, mode, c.satp);
    DecodeBounds(c, mode, vm);
    PageSpecUnfold(Unmasked, m, c, addr, access, mode, vm);
    if vm.levels == 0 {
      AndLow(addr, c.xlen);
      return Ok(And(addr, Pow2(c.xlen) - 1));
    }

    // A non-canonical address gets a walk over no levels, hence a page fault.
    var levels := vm.levels;
    var va_bits := 12 + levels * vm.idxbits;
    var mask := Pow2(c.xlen - (va_bits - 1)) - 1;
    var masked_msbs := And(Shr(addr, va_bits - 1), mask);
    CanonicalTest(addr, c.xlen, va_bits);
    if masked_msbs != 0 && masked_msbs != mask {
      levels := 0;
    }

    ghost var spec := PageSpec(Unmasked, m, c, addr, access, mode);
    var base: nat := vm.ptbase;
    var i := levels - 1;
    while i >= 0
      invariant -1 <= i < levels
      invariant base < WORD && base % PAGE == 0
      invariant i >= 0 ==> spec == WalkSpec(Unmasked, m, c, mode, access, addr, vm.idxbits, vm.ptesize, base, i)
      invariant i < 0 ==> spec == Err(PageFault(access, addr))
    {
      var ptshift := i * vm.idxbits;
      var idx := And(Shr(addr, 12 + ptshift), Pow2(vm.idxbits) - 1);
      IterationMeetsSpec(m, c, mode, access, addr, vm, base, i);
      IterationUnfold(m, c, mode, access, addr, vm, base, i);

      match m.read((base + idx * vm.ptesize) % WORD, vm.ptesize) {
        case None => return Err(AccessFault(access, addr));
        case Some(pte) =>
          if PteTable(pte) {
            TablePointer(pte);
            base := Shl(RawPpn(pte), 12);
          } else {
            match LeafAddress(c, mode, access, addr, pte, ptshift) {
              case None => return Err(PageFault(access, addr));
              case Some(page) => return Ok(page);
            }
          }
      }
      i := i - 1;
    }
    return Err(PageFault(access, addr));
  }

  // ----- What the TLB relies on -----

  /** The address of a successful walk does not depend on the kind of access, the privilege, SUM or MXR. */
  lemma {:induction false} WalkAddressUnique(rd: Reading, m: Memory, c: Context, c': Context, prv: nat, prv': nat,
                                             access: Access, access': Access, va: nat,
                                             bits: nat, size: nat, a: nat, i: nat)
    requires WalkSpec(rd, m, c, prv, access, va, bits, size, a, i).Ok?
    requires WalkSpec(rd, m, c', prv', access', va, bits, size, a, i).Ok?
    ensures WalkSpec(rd, m, c, prv, access, va, bits, size, a, i) ==
            WalkSpec(rd, m, c', prv', access', va, bits, size, a, i)
    decreases i
  {
    hide Pow2, Unaligned, Permitted, Vpn, Ppn, V, R, W, X, A, D, SplicePpn;
    var e := m.read(a + Vpn(va, bits, i) * size, size);
    if !R(e.value) && !X(e.value) {
      WalkAddressUnique(rd, m, c, c', prv, prv', access, access', va, bits, size, Ppn(rd, e.value) * PAGE, i - 1);
    }
  }

  /** The level at which the walk for `va` meets something other than a pointer to the next table. */
  ghost function LeafLevel(rd: Reading, m: Memory, va: nat, bits: nat, size: nat, a: nat, i: nat): nat
    decreases i
  {
    match m.read(a + Vpn(va, bits, i) * size, size)
    case None => i
    case Some(pte) =>
      if V(pte) && !R(pte) && !W(pte) && !X(pte) && i > 0 then
        LeafLevel(rd, m, va, bits, size, Ppn(rd, pte) * PAGE, i - 1)
      else i
  }

  lemma ShrShr(x: nat, j: nat, k: nat)
    ensures Shr(Shr(x, j), k) == Shr(x, j + k)
  {
    DivDiv(x, Pow2(j), Pow2(k));
    Pow2Add(j, k);
  }

  /** Addresses that agree from level `l` up have the same table indexes there. */
  lemma SameIndex(va: nat, va': nat, bits: nat, l: nat, j: nat)
    requires l <= j && Shr(va, 12 + l * bits) == Shr(va', 12 + l * bits)
    ensures Vpn(va, bits, j) == Vpn(va', bits, j)
  {
    var k := 12 + l * bits;
    assert k + (j - l) * bits == 12 + j * bits;
    MulMonotone(bits, 0, j - l);
    ShrShr(va, k, (j - l) * bits);
    ShrShr(va', k, (j - l) * bits);
  }

  lemma {:induction false} LeafLevelBelow(rd: Reading, m: Memory, va: nat, bits: nat, size: nat, a: nat, i: nat)
    ensures LeafLevel(rd, m, va, bits, size, a, i) <= i
    decreases i
  {
    hide V, R, W, X, Vpn, Ppn;
    match m.read(a + Vpn(va, bits, i) * size, size)
    case None =>
    case Some(pte) =>
      if V(pte) && !R(pte) && !W(pte) && !X(pte) && i > 0 {
        LeafLevelBelow(rd, m, va, bits, size, Ppn(rd, pte) * PAGE, i - 1);
      }
  }

  /**
   The mapping is linear over the superpage that a successful walk ends in: every address that agrees
   above the level of the leaf is mapped too, at the same distance.
   */
  lemma {:induction false} WalkLinear(rd: Reading, m: Memory, c: Context, prv: nat, access: Access, va: nat, va': nat,
                                      bits: nat, size: nat, a: nat, i: nat)
    requires WalkSpec(rd, m, c, prv, access, va, bits, size, a, i).Ok?
    requires var l := LeafLevel(rd, m, va, bits, size, a, i);
             Shr(va, 12 + l * bits) == Shr(va', 12 + l * bits)
    ensures WalkSpec(rd, m, c, prv, access, va', bits, size, a, i).Ok?
    ensures WalkSpec(rd, m, c, prv, access, va', bits, size, a, i).value -
            WalkSpec(rd, m, c, prv, access, va, bits, size, a, i).value == (va' / PAGE - va / PAGE) * PAGE
    decreases i
  {
    hide Pow2, And, Or, Unaligned, Permitted, V, A, D, U, Vpn, Ppn, SplicePpn;
    var l := LeafLevel(rd, m, va, bits, size, a, i);
    LeafLevelBelow(rd, m, va, bits, size, a, i);
    SameIndex(va, va', bits, l, i);
    var pte := m.read(a + Vpn(va, bits, i) * size, size).value;
    if !R(pte) && !X(pte) {
      WalkLinear(rd, m, c, prv, access, va, va', bits, size, Ppn(rd, pte) * PAGE, i - 1);
    } else {
      assert l == i;
      LeafLinear(rd, pte, va, va', bits, i);
    }
  }

  lemma LeafLinear(rd: Reading, pte: nat, va: nat, va': nat, bits: nat, i: nat)
    requires !Unaligned(rd, pte, bits, i)
    requires Shr(va, 12 + i * bits) == Shr(va', 12 + i * bits)
    ensures SplicePpn(Ppn(rd, pte), va' / PAGE, bits, i) - SplicePpn(Ppn(rd, pte), va / PAGE, bits, i) ==
            va' / PAGE - va / PAGE
  {
    hide Pow2, And, SplicePpn;
    var k := i * bits;
    Alignment(Ppn(rd, pte), bits, i);
    SpliceIsSum(Ppn(rd, pte), va / PAGE, bits, i);
    SpliceIsSum(Ppn(rd, pte), va' / PAGE, bits, i);
    Pow2Literals();
    ShrShr(va, 12, k);
    ShrShr(va', 12, k);
    SameQuotient(va / PAGE, va' / PAGE, Pow2(k));
  }

  lemma SameQuotient(x: nat, y: nat, p: nat)
    requires p > 0 && x / p == y / p
    ensures x - y == x % p - y % p
  {
    Split(x, p);
    Split(y, p);
  }

  lemma SpliceFits(rd: Reading, pte: nat, vpn: nat, bits: nat, i: nat)
    requires !Unaligned(rd, pte, bits, i) && i * bits <= 40
    ensures SplicePpn(Ppn(rd, pte), vpn, bits, i) < Pages(rd)
  {
    hide Pow2, And, SplicePpn;
    Alignment(Ppn(rd, pte), bits, i);
    SpliceIsSum(Ppn(rd, pte), vpn, bits, i);
    PpnBound(rd, pte);
    FitsField(rd, Ppn(rd, pte), vpn, i * bits);
  }

  lemma PageAligned(n: nat)
    ensures n * PAGE % PAGE == 0
  {}

  predicate Paged(c: Context, prv: nat)
    requires LegalSatp(c.xlen, c.satp) && prv in {PRV_U, PRV_S, PRV_M}
  {
    DecodeVmInfo(c.xlen, prv, c.satp).levels > 0
  }

  /** Pages are aligned, and the offset within the page plays no part in finding them. */
  lemma PageSpecAligned(rd: Reading, m: Memory, c: Context, va: nat, access: Access, prv: nat)
    requires LegalSatp(c.xlen, c.satp) && prv in {PRV_U, PRV_S, PRV_M}
    requires Paged(c, prv) && PageSpec(rd, m, c, va, access, prv).Ok?
    ensures PageSpec(rd, m, c, va, access, prv).value % PAGE == 0
    ensures PageSpec(rd, m, c, va, access, prv).value < Pages(rd) * PAGE
  {
    var vm := DecodeVmInfo(c.xlen, prv, c.satp);
    WalkAligned(rd, m, c, prv, access, va, vm.idxbits, vm.ptesize, vm.ptbase, vm.levels - 1);
  }

  lemma {:induction false} WalkAligned(rd: Reading, m: Memory, c: Context, prv: nat, access: Access, va: nat,
                                       bits: nat, size: nat, a: nat, i: nat)
    requires WalkSpec(rd, m, c, prv, access, va, bits, size, a, i).Ok? && i * bits <= 40
    ensures WalkSpec(rd, m, c, prv, access, va, bits, size, a, i).value % PAGE == 0
    ensures WalkSpec(rd, m, c, prv, access, va, bits, size, a, i).value < Pages(rd) * PAGE
    decreases i
  {
    hide Pow2, Unaligned, Permitted, Vpn, SplicePpn;
    var pte := m.read(a + Vpn(va, bits, i) * size, size).value;
    if !R(pte) && !X(pte) {
      WalkAligned(rd, m, c, prv, access, va, bits, size, Ppn(rd, pte) * PAGE, i - 1);
    } else {
      PageAligned(SplicePpn(Ppn(rd, pte), va / PAGE, bits, i));
      SpliceFits(rd, pte, va / PAGE, bits, i);
    }
  }

  /** `translate` for two kinds of access through the same tables: if both succeed, they agree. */
  lemma PageSpecUnique(rd: Reading, m: Memory, c: Context, va: nat, access: Access, access': Access,
                       prv: nat, prv': nat)
    requires LegalSatp(c.xlen, c.satp) && prv in {PRV_U, PRV_S, PRV_M} && prv' in {PRV_U, PRV_S, PRV_M}
    requires DecodeVmInfo(c.xlen, prv, c.satp) == DecodeVmInfo(c.xlen, prv', c.satp)
    requires PageSpec(rd, m, c, va, access, prv).Ok? && PageSpec(rd, m, c, va, access', prv').Ok?
    ensures PageSpec(rd, m, c, va, access, prv) == PageSpec(rd, m, c, va, access', prv')
  {
    hide WalkSpec, Canonical, Pow2;
    var vm := DecodeVmInfo(c.xlen, prv, c.satp);
    if vm.levels > 0 {
      WalkAddressUnique(rd, m, c, c, prv, prv', access, access', va, vm.idxbits, vm.ptesize, vm.ptbase, vm.levels - 1);
    }
  }

  /** The same outcome for another address: a fault reports the address that was asked for. */
  function Reported(r: Result<nat, Fault>, va: nat): Result<nat, Fault> {
    match r
    case Ok(page) => Ok(page)
    case Err(PageFault(access, _)) => Err(PageFault(access, va))
    case Err(AccessFault(access, _)) => Err(AccessFault(access, va))
    case Err(Misaligned(access, _)) => Err(Misaligned(access, va))
  }

  lemma {:induction false} WalkSamePage(rd: Reading, m: Memory, c: Context, prv: nat, access: Access, va: nat, va': nat,
                                        bits: nat, size: nat, a: nat, i: nat)
    requires va / PAGE == va' / PAGE
    ensures WalkSpec(rd, m, c, prv, access, va', bits, size, a, i)
            == Reported(WalkSpec(rd, m, c, prv, access, va, bits, size, a, i), va')
    decreases i
  {
    hide Pow2, Shr, SplicePpn, Unaligned, Permitted, V, R, W, X, U, A, D, Ppn;
    SamePageShr(va, va', i * bits);
    assert Vpn(va, bits, i) == Vpn(va', bits, i);
    var pte := m.read(a + Vpn(va, bits, i) * size, size);
    if pte.Some? && i > 0 {
      WalkSamePage(rd, m, c, prv, access, va, va', bits, size, Ppn(rd, pte.value) * PAGE, i - 1);
    }
  }

  /** Addresses on one page translate together: to the same page, or to a fault of the same kind. */
  lemma PageSpecSamePage(rd: Reading, m: Memory, c: Context, va: nat, va': nat, access: Access, prv: nat)
    requires LegalSatp(c.xlen, c.satp) && prv in {PRV_U, PRV_S, PRV_M} && Paged(c, prv)
    requires va / PAGE == va' / PAGE
    ensures PageSpec(rd, m, c, va', access, prv) == Reported(PageSpec(rd, m, c, va, access, prv), va')
  {
    hide Pow2, WalkSpec, Canonical;
    var vm := DecodeVmInfo(c.xlen, prv, c.satp);
    SamePageCanonical(va, va', c.xlen, 12 + vm.levels * vm.idxbits);
    WalkSamePage(rd, m, c, prv, access, va, va', vm.idxbits, vm.ptesize, vm.ptbase, vm.levels - 1);
  }

  lemma SamePageShr(va: nat, va': nat, k: nat)
    requires va / PAGE == va' / PAGE
    ensures Shr(va, 12 + k) == Shr(va', 12 + k)
  {
    Pow2Literals();
    ShrShr(va, 12, k);
    ShrShr(va', 12, k);
  }

  lemma SamePageCanonical(va: nat, va': nat, xlen: nat, vaBits: nat)
    requires va / PAGE == va' / PAGE && vaBits > 12
    ensures Canonical(va, xlen, vaBits) <==> Canonical(va', xlen, vaBits)
  {
    forall b: nat | b >= 12
      ensures Bit(va, b) == Bit(va', b)
    {
      SamePageShr(va, va', b - 12);
    }
    assert forall b: nat :: b >= 12 ==> Bit(va, b) == Bit(va', b);
  }

  // ----- Mode by mode -----

  /** All bits of the 64-bit address from `low` up are the same. */
  ghost predicate TopBitsAgree(va: nat, low: nat) {
    forall b: nat :: low <= b < 64 ==> Bit(va, b) == Bit(va, low)
  }

  /** Sv39: bits 63:38 agree, and the walk goes over three levels of nine bits from the root that satp gives. */
  lemma Sv39Translation(rd: Reading, m: Memory, c: Context, va: nat, access: Access, prv: nat)
    requires c.xlen == 64 && c.satp / 0x1000_0000_0000_0000 % 16 == 8 && prv in {PRV_U, PRV_S}
    ensures PageSpec(rd, m, c, va, access, prv) ==
            if TopBitsAgree(va, 38) then
              WalkSpec(rd, m, c, prv, access, va, 9, 8, c.satp % 0x1000_0000_0000 * 4096, 2)
            else Err(PageFault(access, va))
  {
    hide WalkSpec, Bit;
  }

  /** Sv48: bits 63:47 agree, and there is a fourth level. */
  lemma Sv48Translation(rd: Reading, m: Memory, c: Context, va: nat, access: Access, prv: nat)
    requires c.xlen == 64 && c.satp / 0x1000_0000_0000_0000 % 16 == 9 && prv in {PRV_U, PRV_S}
    ensures PageSpec(rd, m, c, va, access, prv) ==
            if TopBitsAgree(va, 47) then
              WalkSpec(rd, m, c, prv, access, va, 9, 8, c.satp % 0x1000_0000_0000 * 4096, 3)
            else Err(PageFault(access, va))
  {
    hide WalkSpec, Bit;
  }

  /** Sv32: every address is canonical, and the walk goes over two levels of ten bits. */
  lemma Sv32Translation(rd: Reading, m: Memory, c: Context, va: nat, access: Access, prv: nat)
    requires c.xlen == 32 && c.satp / 0x8000_0000 % 2 == 1 && prv in {PRV_U, PRV_S}
    ensures PageSpec(rd, m, c, va, access, prv) ==
            WalkSpec(rd, m, c, prv, access, va, 10, 4, c.satp % 0x40_0000 * 4096, 1)
  {
    hide WalkSpec, Bit;
  }

  /** M-mode and mode 0 translate nothing: the address is taken as it is, in the width of the hart. */
  lemma BareTranslation(rd: Reading, m: Memory, c: Context, va: nat, access: Access, prv: nat)
    requires LegalSatp(c.xlen, c.satp) && prv in {PRV_U, PRV_S, PRV_M}
    requires || prv == PRV_M
             || (c.xlen == 32 && c.satp / 0x8000_0000 % 2 == 0)
             || (c.xlen == 64 && c.satp / 0x1000_0000_0000_0000 % 16 == 0)
    ensures PageSpec(rd, m, c, va, access, prv) == Ok(va % if c.xlen == 32 then 0x1_0000_0000 else WORD)
  {
    hide WalkSpec, Canonical;
    Pow2Literals();
    Pow2Add(40, 24);
    Pow2Add(12, 12);
    Pow2Add(18, 14);
    assert Pow2(14) == 0x4000;
    assert c.xlen == 32 || c.xlen == 64;
  }

  /** A walk that fails reports the access and the address that were asked for, as a page fault or an access fault. */
  lemma {:induction false} WalkFaults(rd: Reading, m: Memory, c: Context, prv: nat, access: Access, va: nat,
                                      bits: nat, size: nat, a: nat, i: nat)
    ensures var r := WalkSpec(rd, m, c, prv, access, va, bits, size, a, i);
            r.Err? ==> r.error == PageFault(access, va) || r.error == AccessFault(access, va)
    decreases i
  {
    hide V, R, W, X, A, D, Ppn, Vpn, Unaligned, Permitted, SplicePpn;
    var e := m.read(a + Vpn(va, bits, i) * size, size);
    if e.Some? && i > 0 {
      WalkFaults(rd, m, c, prv, access, va, bits, size, Ppn(rd, e.value) * PAGE, i - 1);
    }
  }
}

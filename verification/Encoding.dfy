/**
 The instruction encoders of opcodes.h, the field extractors of `insn_t`, and the laws that make each undo the other.
 Words are 32 bits wide; `insn_t` sees them sign-extended to 64.
 */
module Encoding {

  const MATCH_JAL: bv32 := 0x6f
  const MATCH_LW: bv32 := 0x2003
  const MATCH_LD: bv32 := 0x3003
  const MATCH_SW: bv32 := 0x2023
  const MATCH_SD: bv32 := 0x3023
  const MATCH_EBREAK: bv32 := 0x100073
  const MATCH_CSRRW: bv32 := 0x1073
  const MATCH_CSRRS: bv32 := 0x2073
  const MATCH_FLW: bv32 := 0x2007
  const MATCH_FLD: bv32 := 0x3007
  const MATCH_FSW: bv32 := 0x2027
  const MATCH_FSD: bv32 := 0x3027

  // ----- opcodes.h -----

  function Jal(rd: bv32, imm: bv32): bv32 {
    (((imm >> 20) & 1) << 31) | (((imm >> 1) & 0x3ff) << 21) | (((imm >> 11) & 1) << 20)
    | (((imm >> 12) & 0xff) << 12) | (rd << 7) | MATCH_JAL
  }

  /** `sw`, `sd`, `fsw` and `fsd` differ only in the opcode. */
  function Store(src: bv32, base: bv32, offset: bv32, opcode: bv32): bv32 {
    (((offset >> 5) & 0x7f) << 25) | (src << 20) | (base << 15) | ((offset & 0x1f) << 7) | opcode
  }

  /** `lw`, `ld`, `flw` and `fld` differ only in the opcode. */
  function Load(rd: bv32, base: bv32, offset: bv32, opcode: bv32): bv32 {
    ((offset & 0xfff) << 20) | (base << 15) | ((rd & 0x1f) << 7) | opcode
  }

  function Csrw(source: bv32, csr: bv32): bv32 {
    (csr << 20) | (source << 15) | MATCH_CSRRW
  }

  function Csrr(rd: bv32, csr: bv32): bv32 {
    (csr << 20) | (rd << 7) | MATCH_CSRRS
  }

  // ----- insn_t -----

  /** The 64-bit `insn_bits_t` of a 32-bit word, as `refill_icache` assembles it. */
  function Sext(w: bv32): bv64 {
    if w & 0x8000_0000 == 0 then w as bv64 else (w as bv64) | 0xffff_ffff_0000_0000
  }

  predicate Negative(b: bv64) {
    b & 0x8000_0000_0000_0000 != 0
  }

  function Rd(b: bv64): bv64 { (b >> 7) & 0x1f }
  function Rs1(b: bv64): bv64 { (b >> 15) & 0x1f }
  function Rs2(b: bv64): bv64 { (b >> 20) & 0x1f }
  function Csr(b: bv64): bv64 { (b >> 20) & 0xfff }

  /** `int64_t(b) >> 20` */
  function IImm(b: bv64): bv64 {
    if Negative(b) then !((!b) >> 20) else b >> 20
  }

  /** `xs(25, 7)`: bits 31:25, sign-extended. */
  function Xs25(b: bv64): bv64 {
    var t := b << 32;
    if Negative(t) then !((!t) >> 57) else t >> 57
  }

  function SLow(b: bv64): bv64 { (b >> 7) & 0x1f }
  function SHigh(b: bv64): bv64 { Xs25(b) << 5 }

  function SImm(b: bv64): bv64 {
    SLow(b) + SHigh(b)
  }

  /** `xs(63, 1)` */
  function ImmSign(b: bv64): bv64 {
    if Negative(b) then 0xffff_ffff_ffff_ffff else 0
  }

  function Uj10_1(b: bv64): bv64 { ((b >> 21) & 0x3ff) << 1 }
  function Uj11(b: bv64): bv64 { ((b >> 20) & 1) << 11 }
  function Uj19_12(b: bv64): bv64 { ((b >> 12) & 0xff) << 12 }
  function Uj20(b: bv64): bv64 { ImmSign(b) << 20 }

  function UjImm(b: bv64): bv64 {
    Uj10_1(b) + Uj11(b) + Uj19_12(b) + Uj20(b)
  }

  // ----- Round trips -----

  /** The register number or CSR number `r` fits its field. */
  predicate IsReg(r: bv32) { r & 0x1f == r }
  predicate IsCsr(c: bv32) { c & 0xfff == c }

  /** Sign extension of a 12-bit and of a 21-bit immediate. */
  function Sext12(imm: bv32): bv64 {
    if imm & 0x800 == 0 then (imm & 0xfff) as bv64 else ((imm & 0xfff) as bv64) | 0xffff_ffff_ffff_f000
  }

  function Sext21(imm: bv32): bv64 {
    if imm & 0x10_0000 == 0 then (imm & 0x1f_ffff) as bv64 else ((imm & 0x1f_ffff) as bv64) | 0xffff_ffff_ffe0_0000
  }

  lemma AddDisjoint(a: bv64, b: bv64)
    requires a & b == 0
    ensures a + b == a | b
  {}

  // Sign extension does not touch the fields of the word.

  lemma RdOfWord(w: bv32) ensures Rd(Sext(w)) == ((w >> 7) & 0x1f) as bv64 {}
  lemma Rs1OfWord(w: bv32) ensures Rs1(Sext(w)) == ((w >> 15) & 0x1f) as bv64 {}
  lemma Rs2OfWord(w: bv32) ensures Rs2(Sext(w)) == ((w >> 20) & 0x1f) as bv64 {}
  lemma CsrOfWord(w: bv32) ensures Csr(Sext(w)) == ((w >> 20) & 0xfff) as bv64 {}
  lemma IImmPositive(w: bv32) requires w & 0x8000_0000 == 0 ensures IImm(Sext(w)) == Sext12(w >> 20) {}
  lemma IImmNegative(w: bv32) requires w & 0x8000_0000 != 0 ensures IImm(Sext(w)) == Sext12(w >> 20) {}
  lemma IImmOfWord(w: bv32)
    ensures IImm(Sext(w)) == Sext12(w >> 20)
  {
    hide *;
    if w & 0x8000_0000 == 0 {
      IImmPositive(w);
    } else {
      IImmNegative(w);
    }
  }
  lemma Sext12Low(x: bv32, y: bv32) requires x & 0xfff == y & 0xfff ensures Sext12(x) == Sext12(y) {}

  // The fields that the encoders put in.

  lemma LoadRd(rd: bv32, base: bv32, offset: bv32, op: bv32)
    requires IsReg(rd) && IsReg(base) && op & 0x707f == op
    ensures (Load(rd, base, offset, op) >> 7) & 0x1f == rd
  {}
  lemma LoadBase(rd: bv32, base: bv32, offset: bv32, op: bv32)
    requires IsReg(rd) && IsReg(base) && op & 0x707f == op
    ensures (Load(rd, base, offset, op) >> 15) & 0x1f == base
  {}
  lemma LoadOffset(rd: bv32, base: bv32, offset: bv32, op: bv32)
    requires IsReg(rd) && IsReg(base) && op & 0x707f == op
    ensures (Load(rd, base, offset, op) >> 20) & 0xfff == offset & 0xfff
  {}
  lemma LoadOpcode(rd: bv32, base: bv32, offset: bv32, op: bv32)
    requires IsReg(rd) && IsReg(base) && op & 0x707f == op
    ensures Load(rd, base, offset, op) & 0x707f == op
  {}

  /** Loads: opcode and funct3, destination, base and sign-extended offset all survive. */
  lemma LoadRoundTrip(rd: bv32, base: bv32, offset: bv32, op: bv32)
    requires IsReg(rd) && IsReg(base) && op & 0x707f == op
    ensures var w := Load(rd, base, offset, op);
            && w & 0x707f == op
            && Rd(Sext(w)) == rd as bv64 && Rs1(Sext(w)) == base as bv64 && IImm(Sext(w)) == Sext12(offset)
  {
    hide *;
    var w := Load(rd, base, offset, op);
    LoadOpcode(rd, base, offset, op);
    LoadRd(rd, base, offset, op);
    LoadBase(rd, base, offset, op);
    LoadOffset(rd, base, offset, op);
    RdOfWord(w);
    Rs1OfWord(w);
    IImmOfWord(w);
    Sext12Low(w >> 20, offset);
  }

  lemma StoreSrc(src: bv32, base: bv32, offset: bv32, op: bv32)
    requires IsReg(src) && IsReg(base) && op & 0x707f == op
    ensures (Store(src, base, offset, op) >> 20) & 0x1f == src
  {}
  lemma StoreBase(src: bv32, base: bv32, offset: bv32, op: bv32)
    requires IsReg(src) && IsReg(base) && op & 0x707f == op
    ensures (Store(src, base, offset, op) >> 15) & 0x1f == base
  {}
  lemma StoreLow(src: bv32, base: bv32, offset: bv32, op: bv32)
    requires IsReg(src) && IsReg(base) && op & 0x707f == op
    ensures SLow(Sext(Store(src, base, offset, op))) == Sext12(offset) & 0x1f
  {}
  lemma StoreHigh(src: bv32, base: bv32, offset: bv32, op: bv32)
    requires IsReg(src) && IsReg(base) && op & 0x707f == op
    ensures SHigh(Sext(Store(src, base, offset, op))) == Sext12(offset) & 0xffff_ffff_ffff_ffe0
  {}
  lemma StoreOpcode(src: bv32, base: bv32, offset: bv32, op: bv32)
    requires IsReg(src) && IsReg(base) && op & 0x707f == op
    ensures Store(src, base, offset, op) & 0x707f == op
  {}

  lemma SSum(lo: bv64, hi: bv64, z: bv64)
    requires lo == z & 0x1f && hi == z & 0xffff_ffff_ffff_ffe0
    ensures lo + hi == z
  {
    AddDisjoint(lo, hi);
  }

  lemma SImmSum(b: bv64) ensures SImm(b) == SLow(b) + SHigh(b) {}

  lemma SImmOfParts(b: bv64, z: bv64)
    requires SLow(b) == z & 0x1f && SHigh(b) == z & 0xffff_ffff_ffff_ffe0
    ensures SImm(b) == z
  {
    hide *;
    SImmSum(b);
    SSum(SLow(b), SHigh(b), z);
  }

  /** Stores: opcode and funct3, source, base and the offset that is split over two fields. */
  lemma StoreRoundTrip(src: bv32, base: bv32, offset: bv32, op: bv32)
    requires IsReg(src) && IsReg(base) && op & 0x707f == op
    ensures var w := Store(src, base, offset, op);
            && w & 0x707f == op
            && Rs2(Sext(w)) == src as bv64 && Rs1(Sext(w)) == base as bv64 && SImm(Sext(w)) == Sext12(offset)
  {
    var w := Store(src, base, offset, op);
    hide *;
    StoreOpcode(src, base, offset, op);
    StoreSrc(src, base, offset, op);
    StoreBase(src, base, offset, op);
    StoreLow(src, base, offset, op);
    StoreHigh(src, base, offset, op);
    Rs1OfWord(w);
    Rs2OfWord(w);
    SImmOfParts(Sext(w), Sext12(offset));
  }

  lemma CsrwSource(source: bv32, csr: bv32)
    requires IsReg(source) && IsCsr(csr)
    ensures (Csrw(source, csr) >> 15) & 0x1f == source
  {}
  lemma CsrwCsr(source: bv32, csr: bv32)
    requires IsReg(source) && IsCsr(csr)
    ensures (Csrw(source, csr) >> 20) & 0xfff == csr
  {}
  lemma CsrwOpcode(source: bv32, csr: bv32)
    requires IsReg(source) && IsCsr(csr)
    ensures Csrw(source, csr) & 0x707f == MATCH_CSRRW
  {}
  lemma CsrwRd(source: bv32, csr: bv32)
    requires IsReg(source) && IsCsr(csr)
    ensures (Csrw(source, csr) >> 7) & 0x1f == 0
  {}

  lemma CsrwRoundTrip(source: bv32, csr: bv32)
    requires IsReg(source) && IsCsr(csr)
    ensures var w := Csrw(source, csr);
            && w & 0x707f == MATCH_CSRRW
            && Rd(Sext(w)) == 0 && Rs1(Sext(w)) == source as bv64 && Csr(Sext(w)) == csr as bv64
  {
    hide *;
    var w := Csrw(source, csr);
    CsrwSource(source, csr);
    CsrwCsr(source, csr);
    CsrwOpcode(source, csr);
    CsrwRd(source, csr);
    RdOfWord(w);
    Rs1OfWord(w);
    CsrOfWord(w);
  }

  lemma CsrrRd(rd: bv32, csr: bv32)
    requires IsReg(rd) && IsCsr(csr)
    ensures (Csrr(rd, csr) >> 7) & 0x1f == rd
  {}
  lemma CsrrCsr(rd: bv32, csr: bv32)
    requires IsReg(rd) && IsCsr(csr)
    ensures (Csrr(rd, csr) >> 20) & 0xfff == csr
  {}
  lemma CsrrOpcode(rd: bv32, csr: bv32)
    requires IsReg(rd) && IsCsr(csr)
    ensures Csrr(rd, csr) & 0x707f == MATCH_CSRRS
  {}
  lemma CsrrSource(rd: bv32, csr: bv32)
    requires IsReg(rd) && IsCsr(csr)
    ensures (Csrr(rd, csr) >> 15) & 0x1f == 0
  {}

  lemma CsrrRoundTrip(rd: bv32, csr: bv32)
    requires IsReg(rd) && IsCsr(csr)
    ensures var w := Csrr(rd, csr);
            && w & 0x707f == MATCH_CSRRS
            && Rd(Sext(w)) == rd as bv64 && Rs1(Sext(w)) == 0 && Csr(Sext(w)) == csr as bv64
  {
    hide *;
    var w := Csrr(rd, csr);
    CsrrRd(rd, csr);
    CsrrCsr(rd, csr);
    CsrrOpcode(rd, csr);
    CsrrSource(rd, csr);
    RdOfWord(w);
    Rs1OfWord(w);
    CsrOfWord(w);
  }

  // jal: the four fields of the immediate, each where the ISA puts it

  lemma JalRd(rd: bv32, imm: bv32) requires IsReg(rd) ensures (Jal(rd, imm) >> 7) & 0x1f == rd {}
  lemma JalOpcode(rd: bv32, imm: bv32) requires IsReg(rd) ensures Jal(rd, imm) & 0x7f == MATCH_JAL {}
  lemma Jal10_1(rd: bv32, imm: bv32) requires IsReg(rd)
    ensures Uj10_1(Sext(Jal(rd, imm))) == Sext21(imm & 0xffff_fffe) & 0x7fe {}
  lemma Jal11(rd: bv32, imm: bv32) requires IsReg(rd)
    ensures Uj11(Sext(Jal(rd, imm))) == Sext21(imm & 0xffff_fffe) & 0x800 {}
  lemma Jal19_12(rd: bv32, imm: bv32) requires IsReg(rd)
    ensures Uj19_12(Sext(Jal(rd, imm))) == Sext21(imm & 0xffff_fffe) & 0xf_f000 {}
  lemma Jal20(rd: bv32, imm: bv32) requires IsReg(rd)
    ensures Uj20(Sext(Jal(rd, imm))) == Sext21(imm & 0xffff_fffe) & 0xffff_ffff_fff0_0000 {}
  lemma EvenOffset(imm: bv32) ensures Sext21(imm & 0xffff_fffe) & 1 == 0 {}

  lemma UjSum(p: bv64, q: bv64, r: bv64, s: bv64, z: bv64)
    requires p == z & 0x7fe && q == z & 0x800 && r == z & 0xf_f000 && s == z & 0xffff_ffff_fff0_0000
    requires z & 1 == 0
    ensures p + q + r + s == z
  {
    AddDisjoint(p, q);
    AddDisjoint(p | q, r);
    AddDisjoint(p | q | r, s);
  }

  lemma UjImmSum(b: bv64) ensures UjImm(b) == Uj10_1(b) + Uj11(b) + Uj19_12(b) + Uj20(b) {}

  lemma UjImmOfParts(b: bv64, z: bv64)
    requires Uj10_1(b) == z & 0x7fe && Uj11(b) == z & 0x800
    requires Uj19_12(b) == z & 0xf_f000 && Uj20(b) == z & 0xffff_ffff_fff0_0000 && z & 1 == 0
    ensures UjImm(b) == z
  {
    hide *;
    UjImmSum(b);
    UjSum(Uj10_1(b), Uj11(b), Uj19_12(b), Uj20(b), z);
  }

  /** Even offsets survive; bit 0 of the offset has no place in the word. */
  lemma JalRoundTrip(rd: bv32, imm: bv32)
    requires IsReg(rd)
    ensures var w := Jal(rd, imm);
            && w & 0x7f == MATCH_JAL && Rd(Sext(w)) == rd as bv64
            && UjImm(Sext(w)) == Sext21(imm & 0xffff_fffe)
  {
    hide *;
    var w := Jal(rd, imm);
    JalRd(rd, imm);
    JalOpcode(rd, imm);
    RdOfWord(w);
    Jal10_1(rd, imm);
    Jal11(rd, imm);
    Jal19_12(rd, imm);
    Jal20(rd, imm);
    EvenOffset(imm);
    UjImmOfParts(Sext(w), Sext21(imm & 0xffff_fffe));
  }
}

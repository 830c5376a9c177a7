/** The high half of a 64-bit by 64-bit product, from four 32-bit products. */
module MulHi {
  import opened Common
  import opened Bits

  const HALF: nat := 0x1_0000_0000
  const SIGN := 0x8000_0000_0000_0000

  type int64 = x: int | -SIGN <= x < SIGN

  // Arithmetic as the C++ types do it.

  function Wrap64(x: int): reg_t { x % WORD }
  function Wrap32(x: nat): nat { x % HALF }
  function ToSigned(x: reg_t): int64 { if x < SIGN then x else x - WORD }

  lemma ProductBound(x: nat, y: nat)
    requires x < HALF && y < HALF
    ensures x * y <= MAX_PRODUCT
  {
    MulMonotone(x, y, HALF - 1);
    MulMonotone(HALF - 1, x, HALF - 1);
    assert x * (HALF - 1) == (HALF - 1) * x;
  }

  /** School multiplication: the product of two-digit numbers from the products of their digits. */
  lemma Digits(a1: nat, a0: nat, b1: nat, b0: nat)
    ensures (HALF * a1 + a0) * (HALF * b1 + b0) == HALF * HALF * (a1 * b1) + HALF * (a1 * b0 + a0 * b1) + a0 * b0
  {
    var b := HALF * b1 + b0;
    calc {
      (HALF * a1 + a0) * b;
      HALF * (a1 * b) + a0 * b;
      { assert a1 * b == HALF * (a1 * b1) + a1 * b0; }
      { assert a0 * b == HALF * (a0 * b1) + a0 * b0; }
      HALF * (HALF * (a1 * b1) + a1 * b0) + HALF * (a0 * b1) + a0 * b0;
    }
  }

  /** Carrying the digits: what is left over stays below the digit carried to. */
  lemma Carries(hh: nat, hl: nat, lh: nat, ll: nat, t1: nat, t2: nat)
    requires t1 == hl + ll / HALF && t2 == lh + t1 % HALF
    ensures var high := hh + t1 / HALF + t2 / HALF;
            var rest := HALF * (t2 % HALF) + ll % HALF;
            HALF * HALF * hh + HALF * (hl + lh) + ll == WORD * high + rest && rest < WORD
  {
    Split(ll, HALF);
    Split(t1, HALF);
    Split(t2, HALF);
  }

  const MAX_PRODUCT: nat := 0xffff_fffe_0000_0001

  lemma NoWrap(t: nat)
    requires t < WORD
    ensures Wrap64(t) == t && Wrap32(t) == t % HALF && Wrap32(t / HALF) == t / HALF
    ensures HALF * (t / HALF) + t % HALF == t && t / HALF < HALF
  {}

  /** The first two sums, and the third, stay below 2^64. */
  lemma SumsFit(hh: nat, hl: nat, lh: nat, ll: nat)
    requires hl <= MAX_PRODUCT && lh <= MAX_PRODUCT && ll <= MAX_PRODUCT
    requires HALF * HALF * hh + HALF * (hl + lh) + ll < WORD * WORD
    ensures var t1 := hl + ll / HALF;
            var t2 := lh + t1 % HALF;
            var t3 := hh + t1 / HALF + t2 / HALF;
            && t1 < WORD && t2 < WORD && t3 < WORD
            && t3 == (HALF * HALF * hh + HALF * (hl + lh) + ll) / WORD
  {
    var t1 := hl + ll / HALF;
    var t2 := lh + t1 % HALF;
    var t3 := hh + t1 / HALF + t2 / HALF;
    Carries(hh, hl, lh, ll, t1, t2);
    DivUnique(HALF * HALF * hh + HALF * (hl + lh) + ll, WORD, t3, HALF * (t2 % HALF) + ll % HALF);
  }

  /** mulhi.h:15-26, on the four products: no sum wraps, and the result is the carry out of the low word. */
  method AddUp(hh: nat, hl: nat, lh: nat, ll: nat) returns (r: reg_t)
    requires hl <= MAX_PRODUCT && lh <= MAX_PRODUCT && ll <= MAX_PRODUCT
    requires HALF * HALF * hh + HALF * (hl + lh) + ll < WORD * WORD
    ensures r == (HALF * HALF * hh + HALF * (hl + lh) + ll) / WORD
  {
    hide Wrap64, Wrap32;
    SumsFit(hh, hl, lh, ll);
    NoWrap(hl + ll / HALF);
    var t := Wrap64(hl + ll / HALF);
    var y1 := Wrap32(t);
    var y2 := Wrap32(t / HALF);
    NoWrap(lh + y1);
    t := Wrap64(lh + y1);
    y1 := Wrap32(t);
    NoWrap(hh + y2 + t / HALF);
    t := Wrap64(hh + y2 + t / HALF);
    y2 := Wrap32(t);
    var y3 := Wrap32(t / HALF);
    r := HALF * y3 + y2;
  }

  lemma WordSquare(a: nat, b: nat)
    requires a < WORD && b < WORD
    ensures a * b < WORD * WORD
  {
    MulMonotone(a, b, WORD);
    MulMonotone(WORD, a, WORD);
    assert a * WORD == WORD * a;
  }

  /** `mulhu` is the high word of the product. */
  method Mulhu(a: reg_t, b: reg_t) returns (r: reg_t)
    ensures r == a * b / WORD
  {
    var a0, a1 := a % HALF, a / HALF;
    var b0, b1 := b % HALF, b / HALF;
    ProductBound(a1, b1);
    ProductBound(a1, b0);
    ProductBound(a0, b1);
    ProductBound(a0, b0);
    Digits(a1, a0, b1, b0);
    WordSquare(a, b);
    r := AddUp(a1 * b1, a1 * b0, a0 * b1, a0 * b0);
  }

  /** The magnitude of a signed number, as the cast of its negation to `uint64_t` gives it. */
  function Magnitude(a: int64): reg_t { if a < 0 then -(a as int) else a }

  /** `~res + (low == 0)` on the magnitude's product is the floored quotient of the negated product. */
  lemma NegatedHigh(p: int)
    requires p >= 0
    ensures (-p) / WORD == if p % WORD == 0 then -(p / WORD) else -(p / WORD) - 1
  {}

  /** The high word of the negation, where the magnitudes' product is below 2^127. */
  function Negate(res: reg_t, lowIsZero: bool): reg_t {
    Wrap64(WORD - 1 - res + if lowIsZero then 1 else 0)
  }

  lemma NegateIs(p: int)
    requires 0 <= p < SIGN * WORD
    ensures p / WORD < SIGN
    ensures ToSigned(Negate(p / WORD, p % WORD == 0)) == (-p) / WORD
    ensures ToSigned(p / WORD) == p / WORD
  {
    NegatedHigh(p);
  }

  lemma SignedProduct(a: int64, b: int64)
    ensures var p := Magnitude(a) * Magnitude(b);
            p <= SIGN * SIGN && a * b == if (a < 0) != (b < 0) then -p else p
  {
    var x: int, y: int := Magnitude(a), Magnitude(b);
    MulMonotone(x, y, SIGN);
    MulMonotone(SIGN, x, SIGN);
    assert x * SIGN == SIGN * x;
    assert (-x) * y == -(x * y) && x * (-y) == -(x * y) && (-x) * (-y) == x * y;
  }

  lemma LowOfNegative(p: int)
    requires p >= 0
    ensures (-p) % WORD == 0 <==> p % WORD == 0
  {}

  /** `mulh` is the floored high word of the signed product, for all inputs including the most negative ones. */
  method Mulh(a: int64, b: int64) returns (r: int64)
    ensures r == a * b / WORD
  {
    var negate := (a < 0) != (b < 0);
    var res := Mulhu(Magnitude(a), Magnitude(b));
    var low := Wrap64(a * b);
    r := ToSigned(if negate then Negate(res, low == 0) else res);
    ghost var p := Magnitude(a) * Magnitude(b);
    SignedProduct(a, b);
    LowOfNegative(p);
    NegateIs(p);
  }

  lemma MixedProduct(a: int64, b: reg_t)
    ensures var p := Magnitude(a) * b;
            p < SIGN * WORD && a * b == if a < 0 then -p else p
  {
    var x: int := Magnitude(a);
    MulMonotone(x, b, WORD - 1);
    MulMonotone(WORD - 1, x, SIGN);
    assert x * (WORD - 1) == (WORD - 1) * x;
    assert (-x) * b == -(x * b);
  }

  /** `mulhsu` likewise, with an unsigned second factor. */
  method Mulhsu(a: int64, b: reg_t) returns (r: int64)
    ensures r == a * b / WORD
  {
    var negate := a < 0;
    var res := Mulhu(Magnitude(a), b);
    var low := Wrap64(a * b);
    r := ToSigned(if negate then Negate(res, low == 0) else res);
    ghost var p := Magnitude(a) * b;
    MixedProduct(a, b);
    LowOfNegative(p);
    NegateIs(p);
  }
}

/**
 The bit operations of the simulator's unsigned words, on natural numbers: bit tests, `&` and `|`,
 and the laws that turn the masks and shifts of the code into divisions and remainders.
 */
module Bits {

  function Pow2(k: nat): (p: nat)
    ensures p > 0
  {
    if k == 0 then 1 else 2 * Pow2(k - 1)
  }

  /** `x` without its low `k` bits. */
  function Shr(x: nat, k: nat): nat {
    Quotient(x, Pow2(k))
  }

  function Quotient(x: nat, p: nat): nat
    requires p > 0
  {
    x / p
  }

  /** The number whose bits from `k` up are those of `high`, and below those of `low`. */
  function Join(high: nat, low: nat, k: nat): nat {
    high * Pow2(k) + low
  }

  /** Bit `k` of the word `x`. */
  predicate Bit(x: nat, k: nat) {
    x / Pow2(k) % 2 == 1
  }

  /** The C operator `a & b`. */
  function And(a: nat, b: nat): nat {
    if a == 0 || b == 0 then 0
    else 2 * And(a / 2, b / 2) + (if a % 2 == 1 && b % 2 == 1 then 1 else 0)
  }

  /** The C operator `a | b`. */
  function Or(a: nat, b: nat): nat
    decreases a + b
  {
    if a == 0 && b == 0 then 0
    else 2 * Or(a / 2, b / 2) + (if a % 2 == 1 || b % 2 == 1 then 1 else 0)
  }

  lemma {:induction false} Pow2Add(a: nat, b: nat)
    ensures Pow2(a + b) == Pow2(a) * Pow2(b)
  {
    if a > 0 {
      Pow2Add(a - 1, b);
      assert Pow2(a + b) == 2 * Pow2(a - 1 + b);
    }
  }

  lemma {:induction false} Pow2Monotone(a: nat, b: nat)
    requires a <= b
    ensures Pow2(a) <= Pow2(b)
  {
    if a < b {
      Pow2Monotone(a, b - 1);
    }
  }

  lemma {:induction false} MulMonotone(d: nat, a: nat, b: nat)
    requires a <= b
    ensures d * a <= d * b
  {
    if d > 0 {
      MulMonotone(d - 1, a, b);
      assert d * a == (d - 1) * a + a && d * b == (d - 1) * b + b;
    }
  }

  /** Quotient and remainder are determined by `x == d * q + r` with `r < d`. */
  lemma DivUnique(x: nat, d: nat, q: nat, r: nat)
    requires d > 0 && r < d && x == d * q + r
    ensures x / d == q && x % d == r
  {
    var q', r' := x / d, x % d;
    assert x == d * q' + r' && 0 <= r' < d;
    QuotientUnique(d, q, r, q', r');
  }

  lemma QuotientUnique(d: nat, q: nat, r: nat, q': nat, r': nat)
    requires r < d && r' < d && d * q + r == d * q' + r'
    ensures q == q' && r == r'
  {
    if q < q' {
      assert d * (q + 1) == d * q + d;
      MulMonotone(d, q + 1, q');
    } else if q' < q {
      assert d * (q' + 1) == d * q' + d;
      MulMonotone(d, q' + 1, q);
    }
  }

  /** Division by a product, one factor at a time. */
  lemma DivDiv(x: nat, p: nat, q: nat)
    requires p > 0 && q > 0
    ensures p * q > 0 && x / p / q == x / (p * q)
  {
    var y, r := x / p, x % p;
    var z, s := y / q, y % q;
    DivDivSum(x, p, q, y, r, z, s);
    DivUnique(x, p * q, z, p * s + r);
  }

  lemma DivDivSum(x: nat, p: nat, q: nat, y: nat, r: nat, z: nat, s: nat)
    requires x == p * y + r && r < p
    requires y == q * z + s && s < q
    ensures p * q > 0 && x == (p * q) * z + (p * s + r) && p * s + r < p * q
  {
    calc {
      p * (q * z + s);
      p * (q * z) + p * s;
      (p * q) * z + p * s;
    }
    MulMonotone(p, s + 1, q);
    assert p * (s + 1) == p * s + p;
  }

  /** A word is its part above bit `k` and its part below. */
  lemma Split(x: nat, p: nat)
    requires p > 0
    ensures x == p * (x / p) + x % p
  {}

  /** Halving commutes with the remainder by a power of two. */
  lemma HalfMod(x: nat, k: nat)
    requires k > 0
    ensures x % Pow2(k) / 2 == x / 2 % Pow2(k - 1)
    ensures x % Pow2(k) % 2 == x % 2
    ensures x % Pow2(k) == 2 * (x / 2 % Pow2(k - 1)) + x % 2
  {
    var p := Pow2(k - 1);
    var q := x / 2 / p;
    var r := x / 2 % p;
    assert x / 2 == p * q + r;
    assert x == (2 * p) * q + (2 * r + x % 2) by {
      assert 2 * (p * q) == (2 * p) * q;
    }
    DivUnique(x, 2 * p, q, 2 * r + x % 2);
  }

  /** `x & ((1 << k) - 1)` keeps the low `k` bits. */
  lemma {:induction false} AndLow(x: nat, k: nat)
    ensures And(x, Pow2(k) - 1) == x % Pow2(k)
    decreases k
  {
    if k > 0 {
      AndLow(x / 2, k - 1);
      HalfMod(x, k);
      AndOdd(x, Pow2(k - 1) - 1);
    }
  }

  lemma AndOdd(x: nat, mask: nat)
    ensures And(x, 2 * mask + 1) == 2 * And(x / 2, mask) + x % 2
  {}

  /** `a | b` is a sum when `a` has only high bits and `b` only low bits: the bits never overlap. */
  lemma {:induction false} OrDisjoint(a: nat, b: nat, k: nat)
    requires a % Pow2(k) == 0 && b < Pow2(k)
    ensures Or(a, b) == a + b
    decreases k
  {
    if k == 0 {
      OrZero(a);
    } else {
      HalfMod(a, k);
      assert a % 2 == 0 && a / 2 % Pow2(k - 1) == 0;
      OrDisjoint(a / 2, b / 2, k - 1);
    }
  }

  lemma {:induction false} OrCommutes(a: nat, b: nat)
    ensures Or(a, b) == Or(b, a)
    decreases a + b
  {
    if a != 0 || b != 0 {
      OrCommutes(a / 2, b / 2);
    }
  }

  lemma {:induction false} OrZero(a: nat)
    ensures Or(a, 0) == a
  {
    if a > 0 {
      OrZero(a / 2);
    }
  }

  /** Or-ing in bits that are already there changes nothing. */
  lemma {:induction false} OrAbsorb(a: nat, k: nat)
    ensures Or(a, a % Pow2(k)) == a
    decreases k
  {
    if k == 0 {
      OrZero(a);
    } else {
      var low := a % Pow2(k);
      HalfMod(a, k);
      OrAbsorb(a / 2, k - 1);
      assert Or(a / 2, low / 2) == a / 2;
    }
  }

  lemma {:induction false} OrBound(a: nat, b: nat, k: nat)
    requires a < Pow2(k) && b < Pow2(k)
    ensures Or(a, b) < Pow2(k)
    decreases k
  {
    if k > 0 {
      OrBound(a / 2, b / 2, k - 1);
    }
  }

  /** The powers of two that appear as literals in the code. */
  lemma Pow2Literals()
    ensures Pow2(0) == 1 && Pow2(9) == 512 && Pow2(10) == 1024 && Pow2(12) == 4096
    ensures Pow2(18) == 0x4_0000 && Pow2(27) == 0x800_0000
    ensures Pow2(40) == 0x100_0000_0000 && Pow2(44) == 0x1000_0000_0000
  {}
}

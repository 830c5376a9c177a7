/** `get_field` and `set_field` of decode.h: the macros find a field's shift from its mask alone. */
module Fields {
  import opened Bits

  /** `a & ~b` */
  function AndNot(a: nat, b: nat): nat
    decreases a
  {
    if a == 0 then 0 else 2 * AndNot(a / 2, b / 2) + (if a % 2 == 1 && b % 2 == 0 then 1 else 0)
  }

  /** `mask & ~(mask << 1)`; a bit shifted out of the word would not be in the mask. */
  function LowBit(mask: nat): nat {
    AndNot(mask, 2 * mask)
  }

  function GetField(reg: nat, mask: nat): nat
    requires LowBit(mask) > 0
  {
    Quotient(And(reg, mask), LowBit(mask))
  }

  function SetField(reg: nat, mask: nat, val: nat): nat {
    Or(AndNot(reg, mask), And(val * LowBit(mask), mask))
  }

  /** `width` ones from bit `k` up. */
  function Mask(k: nat, width: nat): nat {
    if k > 0 then 2 * Mask(k - 1, width) else Pow2(width) - 1
  }

  lemma {:induction false} SelfShifted(width: nat)
    ensures AndNot(Pow2(width) - 1, 2 * Pow2(width) - 1) == 0
  {
    if width > 0 {
      SelfShifted(width - 1);
      assert (Pow2(width) - 1) / 2 == Pow2(width - 1) - 1 && (2 * Pow2(width) - 1) / 2 == Pow2(width) - 1;
    }
  }

  /** The expression on the mask is the weight of the field's lowest bit. */
  lemma {:induction false} LowBitOfMask(k: nat, width: nat)
    requires width > 0
    ensures LowBit(Mask(k, width)) == Pow2(k)
    decreases k
  {
    if k > 0 {
      LowBitOfMask(k - 1, width);
      MaskPositive(k - 1, width);
    } else {
      SelfShifted(width - 1);
      var m := Pow2(width) - 1;
      assert m / 2 == Pow2(width - 1) - 1 && m % 2 == 1;
      assert 2 * m / 2 == m && 2 * m % 2 == 0;
      assert AndNot(m, 2 * m) == 2 * AndNot(m / 2, m) + 1;
    }
  }

  lemma {:induction false} MaskPositive(k: nat, width: nat)
    requires width > 0
    ensures Mask(k, width) > 0
    decreases k
  {
    if k > 0 {
      MaskPositive(k - 1, width);
    }
  }

  /** Masking with a contiguous mask keeps the field in place. */
  lemma {:induction false} AndMask(x: nat, k: nat, width: nat)
    ensures And(x, Mask(k, width)) == Pow2(k) * (Shr(x, k) % Pow2(width))
    decreases k
  {
    if k == 0 {
      AndLow(x, width);
    } else {
      AndMask(x / 2, k - 1, width);
      var m := Mask(k - 1, width);
      assert And(x, 2 * m) == 2 * And(x / 2, m);
      DivDiv(x, 2, Pow2(k - 1));
      Doubling(Pow2(k - 1), Shr(x, k) % Pow2(width));
    }
  }

  lemma Doubling(p: nat, y: nat)
    ensures 2 * (p * y) == (2 * p) * y
  {}

  // The laws of the bit operations that make reading undo writing.

  lemma AndHalf(a: nat, b: nat)
    ensures And(a, b) / 2 == And(a / 2, b / 2) && (And(a, b) % 2 == 1 <==> a % 2 == 1 && b % 2 == 1)
  {}

  lemma OrHalf(a: nat, b: nat)
    ensures Or(a, b) / 2 == Or(a / 2, b / 2) && (Or(a, b) % 2 == 1 <==> a % 2 == 1 || b % 2 == 1)
  {}

  lemma AndNotHalf(a: nat, b: nat)
    ensures AndNot(a, b) / 2 == AndNot(a / 2, b / 2) && (AndNot(a, b) % 2 == 1 <==> a % 2 == 1 && b % 2 == 0)
  {}

  /** The merged word has the field's bits of `y` and the other bits of `a`. */
  lemma {:induction false} Merge(a: nat, y: nat, m: nat)
    ensures var merged := Or(AndNot(a, m), And(y, m)); And(merged, m) == And(y, m) && AndNot(merged, m) == AndNot(a, m)
    decreases a + y, 1
  {
    if a != 0 || y != 0 {
      MergeStep(a, y, m);
    }
  }

  lemma {:induction false} MergeStep(a: nat, y: nat, m: nat)
    requires a != 0 || y != 0
    ensures var merged := Or(AndNot(a, m), And(y, m)); And(merged, m) == And(y, m) && AndNot(merged, m) == AndNot(a, m)
    decreases a + y, 0
  {
    hide And, Or, AndNot;
    var merged := Or(AndNot(a, m), And(y, m));
    Merge(a / 2, y / 2, m / 2);
    AndNotHalf(a, m);
    AndHalf(y, m);
    OrHalf(AndNot(a, m), And(y, m));
    AndHalf(merged, m);
    AndNotHalf(merged, m);
  }

  lemma QuotientOfShifted(v: nat, p: nat)
    requires p > 0
    ensures Quotient(v * p, p) == v
  {
    DivUnique(v * p, p, v, 0);
  }

  lemma InPlace(p: nat, q: nat, w: nat, val: nat)
    requires w > 0 && val < w && q == val
    ensures p * (q % w) == val * p
  {}

  lemma FieldInPlace(k: nat, width: nat, val: nat)
    requires val < Pow2(width)
    ensures And(val * Pow2(k), Mask(k, width)) == val * Pow2(k)
  {
    hide And, Mask, Pow2, Quotient;
    AndMask(val * Pow2(k), k, width);
    QuotientOfShifted(val, Pow2(k));
    InPlace(Pow2(k), Shr(val * Pow2(k), k), Pow2(width), val);
  }

  /** A field written is read back, and no other bit of the register changes. */
  lemma FieldReadsBack(reg: nat, k: nat, width: nat, val: nat)
    requires width > 0 && val < Pow2(width)
    ensures var mask := Mask(k, width);
            && LowBit(mask) > 0
            && GetField(SetField(reg, mask, val), mask) == val
            && AndNot(SetField(reg, mask, val), mask) == AndNot(reg, mask)
  {
    hide Or, And, AndNot, Pow2, Mask, LowBit, Quotient;
    var mask := Mask(k, width);
    LowBitOfMask(k, width);
    Merge(reg, val * Pow2(k), mask);
    FieldInPlace(k, width, val);
    QuotientOfShifted(val, Pow2(k));
  }
}

/**
 `_or` and `_and` (types.h:390-411) on numbers of every kind, bit by bit.
 */
module Bitwise {
  import opened Words
  import opened Numbers
  import opened Arithmetic

  lemma {:induction false} Pow2Four(n: nat)
    ensures Pow2(n + 4) == 0x10 * Pow2(n)
  {
    assert Pow2(n + 2) == 2 * Pow2(n + 1);
    assert Pow2(n + 4) == 2 * Pow2(n + 3);
  }

  lemma {:induction false} Pow2Eight(n: nat)
    ensures Pow2(n + 8) == 0x100 * Pow2(n)
  {
    hide Pow2;
    Pow2Four(n);
    Pow2Four(n + 4);
  }

  lemma {:induction false} SmallPowers()
    ensures Pow2(1) == 2 && Pow2(8) == 0x100
  {
    Pow2Eight(0);
    assert Pow2(0) == 1;
  }

  lemma {:induction false} ModulusIsPow2(k: Kind)
    ensures Modulus(k) == Pow2(Bits(k))
  {
    hide Pow2;
    SmallPowers();
    Pow2Eight(8);
    Pow2Eight(16);
    Pow2Eight(24);
    Pow2Eight(32);
    Pow2Eight(40);
    Pow2Eight(48);
    Pow2Eight(56);
  }

  lemma {:induction false} BitsBelow(a: nat, b: nat, n: nat)
    requires a < Pow2(n) && b < Pow2(n)
    ensures BitOr(a, b) < Pow2(n) && BitAnd(a, b) < Pow2(n)
  {
    if a > 0 && b > 0 {
      BitsBelow(a / 2, b / 2, n - 1);
    }
  }

  lemma {:induction false} ValueThatFits(k: Kind, v: nat)
    requires v < Modulus(k)
    ensures OfValue(k, v) == Num(k, DEFINED, v, Id(k))
  {
  }

  /** `|` of defined numbers: every bit of the result is the disjunction of the operands' bits. */
  lemma {:induction false} OrIsBitwise(a: Num, b: Num, junk: nat, i: nat)
    requires a.kind == b.kind && a.val < Modulus(a.kind) && b.val < Modulus(b.kind)
    requires a.status == DEFINED && b.status == DEFINED
    ensures var r := Apply(Or, a, b, junk);
            r.kind == a.kind && r.status == DEFINED && r.val < Modulus(r.kind) &&
            Bit(r.val, i) == if Bit(a.val, i) == 1 || Bit(b.val, i) == 1 then 1 else 0
  {
    hide Bit, BitOr, Pow2, Modulus, OfValue, Bits, Id;
    ModulusIsPow2(a.kind);
    BitsBelow(a.val, b.val, Bits(a.kind));
    ValueThatFits(a.kind, BitOr(a.val, b.val));
    BitOrBits(a.val, b.val, i);
  }

  /** `&` likewise, with the conjunction. */
  lemma {:induction false} AndIsBitwise(a: Num, b: Num, junk: nat, i: nat)
    requires a.kind == b.kind && a.val < Modulus(a.kind) && b.val < Modulus(b.kind)
    requires a.status == DEFINED && b.status == DEFINED
    ensures var r := Apply(And, a, b, junk);
            r.kind == a.kind && r.status == DEFINED && r.val < Modulus(r.kind) &&
            Bit(r.val, i) == if Bit(a.val, i) == 1 && Bit(b.val, i) == 1 then 1 else 0
  {
    hide Bit, BitAnd, Pow2, Modulus, OfValue, Bits, Id;
    ModulusIsPow2(a.kind);
    BitsBelow(a.val, b.val, Bits(a.kind));
    ValueThatFits(a.kind, BitAnd(a.val, b.val));
    BitAndBits(a.val, b.val, i);
  }
}

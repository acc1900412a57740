/**
 Arithmetic on tagged integers of one kind (types.h) and comparison of ints (eval.cpp).

 A result that is only a status carries whatever bit pattern the default constructor leaves; it is
 the parameter `junk` here.
 */
module Arithmetic {
  import opened Numbers

  datatype Op = Add | Sub | Mul | Div | Or | And

  function OfStatus(k: Kind, s: Status, junk: nat): Num {
    Num(k, s, junk % Modulus(k), Id(k))
  }

  function OfValue(k: Kind, v: int): Num {
    Num(k, DEFINED, v % Modulus(k), Id(k))
  }

  /** The integer that a bit pattern stands for. */
  function ToSigned(k: Kind, v: nat): int {
    if Signed(k) && v >= Modulus(k) / 2 then v - Modulus(k) else v
  }

  /** `sdiv` truncates toward zero. */
  function TruncDiv(a: int, b: int): int
    requires b != 0
  {
    if a >= 0 then (if b > 0 then a / b else -(a / -b))
    else (if b > 0 then -(-a / b) else -a / -b)
  }

  function BitOr(a: nat, b: nat): nat {
    if a == 0 then b else if b == 0 then a
    else 2 * BitOr(a / 2, b / 2) + if a % 2 == 1 || b % 2 == 1 then 1 else 0
  }

  function BitAnd(a: nat, b: nat): nat {
    if a == 0 || b == 0 then 0
    else 2 * BitAnd(a / 2, b / 2) + if a % 2 == 1 && b % 2 == 1 then 1 else 0
  }

  /** The common shape of `add`, `sub`, `mul`, `div`, `_or` and `_and`. */
  function Apply(op: Op, a: Num, b: Num, junk: nat): Num
    requires a.kind == b.kind && a.val < Modulus(a.kind) && b.val < Modulus(b.kind)
  {
    var k := a.kind;
    if a.status == UNDEFINED || b.status == UNDEFINED then OfStatus(k, UNDEFINED, junk)
    else if a.status == UNINITIALIZED || b.status == UNINITIALIZED then OfStatus(k, UNINITIALIZED, junk)
    else match op
      case Add => OfValue(k, a.val + b.val)
      case Sub => OfValue(k, a.val - b.val)
      case Mul => OfValue(k, a.val * b.val)
      case Div =>
        if b.val == 0 then OfStatus(k, UNDEFINED, junk)
        else OfValue(k, TruncDiv(ToSigned(k, a.val), ToSigned(k, b.val)))
      case Or => OfValue(k, BitOr(a.val, b.val))
      case And => OfValue(k, BitAnd(a.val, b.val))
  }

  /** `neg` negates the value as a 64-bit word and keeps the low bits. */
  function Negate(a: Num, junk: nat): Num {
    if a.status != DEFINED then OfStatus(a.kind, a.status, junk)
    else OfValue(a.kind, (0x1_0000_0000_0000_0000 - a.val) % 0x1_0000_0000_0000_0000)
  }

  function LogicalNot(a: Num, junk: nat): Num {
    if a.status != DEFINED then OfStatus(a.kind, a.status, junk)
    else OfValue(a.kind, if a.val == 0 then 1 else 0)
  }

  // ----- What the single operations mean -----

  function Bit(v: nat, i: nat): nat {
    if i == 0 then v % 2 else Bit(v / 2, i - 1)
  }

  lemma {:induction false} BitsOfZero(i: nat)
    ensures Bit(0, i) == 0
  {
    if i > 0 {
      BitsOfZero(i - 1);
    }
  }

  lemma {:induction false} BitOrBits(a: nat, b: nat, i: nat)
    ensures Bit(BitOr(a, b), i) == if Bit(a, i) == 1 || Bit(b, i) == 1 then 1 else 0
  {
    BitIsBit(a, i);
    BitIsBit(b, i);
    if a == 0 || b == 0 {
      BitsOfZero(i);
    } else if i > 0 {
      HalfPlus(BitOr(a / 2, b / 2), if a % 2 == 1 || b % 2 == 1 then 1 else 0);
      BitOrBits(a / 2, b / 2, i - 1);
    }
  }

  lemma {:induction false} BitAndBits(a: nat, b: nat, i: nat)
    ensures Bit(BitAnd(a, b), i) == if Bit(a, i) == 1 && Bit(b, i) == 1 then 1 else 0
  {
    if a == 0 || b == 0 {
      BitsOfZero(i);
    } else if i > 0 {
      HalfPlus(BitAnd(a / 2, b / 2), if a % 2 == 1 && b % 2 == 1 then 1 else 0);
      BitAndBits(a / 2, b / 2, i - 1);
    }
  }

  lemma {:induction false} BitIsBit(v: nat, i: nat)
    ensures Bit(v, i) < 2
  {
    if i > 0 {
      BitIsBit(v / 2, i - 1);
    }
  }

  lemma {:induction false} HalfPlus(h: nat, r: nat)
    requires r < 2
    ensures (2 * h + r) / 2 == h
  {
  }

  function Abs(a: int): nat {
    if a < 0 then -a else a
  }

  lemma {:induction false} DivFacts(n: nat, d: nat)
    requires d > 0
    ensures var q := n / d;
            0 <= q <= n && 0 <= n - q * d < d && (d > 1 && n > 0 ==> q < n) && (d == 1 ==> q == n)
  {
    var q := n / d;
    assert q * d == q * (d - 1) + q;
    Nonneg(q, d - 1);
    if d > 1 {
      assert q * d == q * (d - 2) + q + q;
      Nonneg(q, d - 2);
    }
  }

  lemma {:induction false} Nonneg(a: nat, b: nat)
    ensures a * b >= 0
  {
  }

  /** The quotient is rounded toward zero: the remainder is smaller than the divisor and has the sign of `a`. */
  lemma {:induction false} DivTruncates(a: int, b: int)
    requires b != 0
    ensures var r := a - TruncDiv(a, b) * b; Abs(r) < Abs(b) && (r == 0 || (r < 0 <==> a < 0))
  {
    var n: int, d: int := Abs(a), Abs(b);
    var q: int := n / d;
    DivFacts(n, d);
    NegProduct(q, d);
    SignedQuotient(a, b);
    assert TruncDiv(a, b) * b == if a < 0 then -(q * d) else q * d;
  }

  lemma {:induction false} SignedQuotient(a: int, b: int)
    requires b != 0
    ensures TruncDiv(a, b) == if (a < 0) == (b < 0) then Abs(a) / Abs(b) else -(Abs(a) / Abs(b))
  {
  }

  lemma {:induction false} NegProduct(q: int, d: int)
    ensures (-q) * d == -(q * d) && q * (-d) == -(q * d) && (-q) * (-d) == q * d
  {
  }

  /** Division of defined numbers is exact truncated division, except for the one quotient that does not fit. */
  lemma {:induction false} DivIsSignedDivision(a: Num, b: Num, junk: nat)
    requires a.kind == b.kind && a.val < Modulus(a.kind) && b.val < Modulus(b.kind)
    requires a.status == DEFINED && b.status == DEFINED && b.val != 0
    ensures var x, y := ToSigned(a.kind, a.val), ToSigned(b.kind, b.val);
            y != 0 &&
            (ToSigned(a.kind, Apply(Div, a, b, junk).val) == TruncDiv(x, y) <==>
             !(Signed(a.kind) && x == -(Modulus(a.kind) / 2) && y == -1))
  {
    var k, m := a.kind, Modulus(a.kind);
    var x, y := ToSigned(k, a.val), ToSigned(k, b.val);
    DivFacts(Abs(x), Abs(y));
    SignedQuotient(x, y);
    var q := TruncDiv(x, y);
    assert Abs(q) == Abs(x) / Abs(y);
    assert if Signed(k) then -(m / 2) <= q <= m / 2 else 0 <= q < m;
    WrapsTo(k, q);
  }

  /** A quotient keeps its value in the word, unless it is the one that is too large. */
  lemma {:induction false} WrapsTo(k: Kind, q: int)
    requires if Signed(k) then -(Modulus(k) / 2) <= q <= Modulus(k) / 2 else 0 <= q < Modulus(k)
    ensures ToSigned(k, q % Modulus(k)) == q <==> !(Signed(k) && q == Modulus(k) / 2)
  {
  }

  // ----- Expressions over numbers of one kind -----

  datatype Tree = Leaf(n: Num) | Neg(a: Tree) | Not(a: Tree) | Bin(op: Op, l: Tree, r: Tree)

  predicate OfKind(t: Tree, k: Kind) {
    match t
    case Leaf(n) => n.kind == k && NumOk(n)
    case Neg(a) => OfKind(a, k)
    case Not(a) => OfKind(a, k)
    case Bin(_, l, r) => OfKind(l, k) && OfKind(r, k)
  }

  function EvalTree(t: Tree, k: Kind, junk: nat): (n: Num)
    requires OfKind(t, k)
    ensures n.kind == k && n.val < Modulus(k)
  {
    match t
    case Leaf(n) => n
    case Neg(a) => Negate(EvalTree(a, k, junk), junk)
    case Not(a) => LogicalNot(EvalTree(a, k, junk), junk)
    case Bin(op, l, r) => Apply(op, EvalTree(l, k, junk), EvalTree(r, k, junk), junk)
  }

  // ----- Values -----

  /** Only addition, subtraction, multiplication and negation, over defined numbers. */
  predicate Ring(t: Tree) {
    match t
    case Leaf(n) => n.status == DEFINED
    case Neg(a) => Ring(a)
    case Not(_) => false
    case Bin(op, l, r) => (op == Add || op == Sub || op == Mul) && Ring(l) && Ring(r)
  }

  /** The value in the integers. */
  function Exact(t: Tree, k: Kind): int
    requires OfKind(t, k) && Ring(t)
  {
    match t
    case Leaf(n) => ToSigned(k, n.val)
    case Neg(a) => -Exact(a, k)
    case Bin(op, l, r) =>
      if op == Add then Exact(l, k) + Exact(r, k)
      else if op == Sub then Exact(l, k) - Exact(r, k)
      else Exact(l, k) * Exact(r, k)
  }

  /** `x` and `y` differ by a multiple of `m`. */
  ghost predicate Congruent(x: int, y: int, m: nat) {
    exists q: int :: x - y == Times(q, m)
  }

  function Times(q: int, m: nat): int {
    q * m
  }

  lemma {:induction false} Distribute(p: int, q: int, m: nat)
    ensures Times(p, m) + Times(q, m) == Times(p + q, m) && Times(p, m) - Times(q, m) == Times(p - q, m)
  {
  }

  lemma {:induction false} CongruentMod(x: int, m: nat)
    requires m > 0
    ensures Congruent(x % m, x, m)
  {
    assert x % m - x == Times(-(x / m), m);
  }

  lemma {:induction false} CongruentTrans(x: int, y: int, z: int, m: nat)
    requires Congruent(x, y, m) && Congruent(y, z, m)
    ensures Congruent(x, z, m)
  {
    var p: int :| x - y == Times(p, m);
    var q: int :| y - z == Times(q, m);
    Distribute(p, q, m);
    assert x - z == Times(p + q, m);
  }

  lemma {:induction false} CongruentSum(a: int, a': int, b: int, b': int, m: nat)
    requires Congruent(a, a', m) && Congruent(b, b', m)
    ensures Congruent(a + b, a' + b', m) && Congruent(a - b, a' - b', m)
  {
    var p: int :| a - a' == Times(p, m);
    var q: int :| b - b' == Times(q, m);
    Distribute(p, q, m);
    assert a + b - (a' + b') == Times(p + q, m);
    assert a - b - (a' - b') == Times(p - q, m);
  }

  lemma {:induction false} CongruentProduct(a: int, a': int, b: int, b': int, m: nat)
    requires Congruent(a, a', m) && Congruent(b, b', m)
    ensures Congruent(a * b, a' * b', m)
  {
    var p: int :| a - a' == Times(p, m);
    var q: int :| b - b' == Times(q, m);
    ProductDifference(a, a', b, b', p, q, m);
    assert a * b - a' * b' == Times(p * b + a' * q, m);
  }

  lemma {:induction false} ProductDifference(a: int, a': int, b: int, b': int, p: int, q: int, m: nat)
    requires a - a' == p * m && b - b' == q * m
    ensures a * b - a' * b' == (p * b + a' * q) * m
  {
    assert a * b - a' * b' == (a - a') * b + a' * (b - b');
    assert (p * m) * b == (p * b) * m;
    assert a' * (q * m) == (a' * q) * m;
    assert (p * b + a' * q) * m == (p * b) * m + (a' * q) * m;
  }

  /** 64-bit words wrap at a multiple of every modulus. */
  lemma {:induction false} WordWraps(k: Kind)
    ensures Congruent(0x1_0000_0000_0000_0000, 0, Modulus(k))
  {
    var q := match k
      case Bool => 0x8000_0000_0000_0000
      case Char | UChar => 0x100_0000_0000_0000
      case Short | UShort => 0x1_0000_0000_0000
      case Int | UInt | Long | ULong => 0x1_0000_0000
      case LongLong | ULongLong => 1;
    assert 0x1_0000_0000_0000_0000 - 0 == Times(q, Modulus(k));
  }

  lemma {:induction false} NegateCongruent(a: Num, x: int, junk: nat)
    requires a.status == DEFINED && a.val < Modulus(a.kind) && Congruent(a.val, x, Modulus(a.kind))
    ensures Congruent(Negate(a, junk).val, -x, Modulus(a.kind))
  {
    var m, w := Modulus(a.kind), 0x1_0000_0000_0000_0000;
    var v := (w - a.val) % w;
    WordWraps(a.kind);
    assert 0 - 0 == Times(0, m);
    CongruentSum(0, 0, a.val, x, m);
    CongruentSum(w, 0, 0 - a.val, 0 - x, m);
    assert v == if a.val == 0 then 0 - a.val else w - a.val;
    CongruentMod(v, m);
    CongruentTrans(v % m, v, -x, m);
  }

  lemma {:induction false} ApplyCongruent(op: Op, a: Num, b: Num, x: int, y: int, junk: nat)
    requires a.kind == b.kind && a.val < Modulus(a.kind) && b.val < Modulus(b.kind)
    requires a.status == DEFINED && b.status == DEFINED && (op == Add || op == Sub || op == Mul)
    requires Congruent(a.val, x, Modulus(a.kind)) && Congruent(b.val, y, Modulus(a.kind))
    ensures Apply(op, a, b, junk).status == DEFINED
    ensures Congruent(Apply(op, a, b, junk).val,
                      if op == Add then x + y else if op == Sub then x - y else x * y, Modulus(a.kind))
  {
    var m := Modulus(a.kind);
    if op == Mul {
      CongruentProduct(a.val, x, b.val, y, m);
      CongruentMod(a.val * b.val, m);
      CongruentTrans((a.val * b.val) % m, a.val * b.val, x * y, m);
    } else {
      CongruentSum(a.val, x, b.val, y, m);
      var c, z := if op == Add then a.val + b.val else a.val - b.val, if op == Add then x + y else x - y;
      CongruentMod(c, m);
      CongruentTrans(c % m, c, z, m);
    }
  }

  /** Wrapping arithmetic is exact modulo 2^w: the result is defined and congruent to the integer value. */
  lemma {:induction false} EvalIsExactModulo(t: Tree, k: Kind, junk: nat)
    requires OfKind(t, k) && Ring(t)
    ensures EvalTree(t, k, junk).status == DEFINED
    ensures Congruent(EvalTree(t, k, junk).val, Exact(t, k), Modulus(k))
  {
    match t
    case Leaf(n) =>
      assert n.val - ToSigned(k, n.val) == Times(if n.val == ToSigned(k, n.val) then 0 else 1, Modulus(k));
    case Neg(a) =>
      EvalIsExactModulo(a, k, junk);
      NegateCongruent(EvalTree(a, k, junk), Exact(a, k), junk);
    case Bin(op, l, r) =>
      EvalIsExactModulo(l, k, junk);
      EvalIsExactModulo(r, k, junk);
      ApplyCongruent(op, EvalTree(l, k, junk), EvalTree(r, k, junk), Exact(l, k), Exact(r, k), junk);
  }

  // ----- Status -----

  function LeafMinimum(t: Tree): Status {
    match t
    case Leaf(n) => n.status
    case Neg(a) => LeafMinimum(a)
    case Not(a) => LeafMinimum(a)
    case Bin(_, l, r) => MinStatus(LeafMinimum(l), LeafMinimum(r))
  }

  /** Somewhere in `t` a defined number is divided by a defined zero. */
  predicate DividesByZero(t: Tree, k: Kind, junk: nat)
    requires OfKind(t, k)
  {
    match t
    case Leaf(_) => false
    case Neg(a) => DividesByZero(a, k, junk)
    case Not(a) => DividesByZero(a, k, junk)
    case Bin(op, l, r) =>
      DividesByZero(l, k, junk) || DividesByZero(r, k, junk) ||
      (op == Div && EvalTree(l, k, junk).status == DEFINED &&
       EvalTree(r, k, junk).status == DEFINED && EvalTree(r, k, junk).val == 0)
  }

  /** The status of an expression is the worst of its operands, unless it divides by a defined zero. */
  lemma {:induction false} StatusIsLeafMinimum(t: Tree, k: Kind, junk: nat)
    requires OfKind(t, k)
    ensures EvalTree(t, k, junk).status == if DividesByZero(t, k, junk) then UNDEFINED else LeafMinimum(t)
  {
    match t
    case Leaf(_) =>
    case Neg(a) => StatusIsLeafMinimum(a, k, junk);
    case Not(a) => StatusIsLeafMinimum(a, k, junk);
    case Bin(op, l, r) =>
      StatusIsLeafMinimum(l, k, junk);
      StatusIsLeafMinimum(r, k, junk);
  }

  // ----- Comparison of ints -----

  datatype Cmp = LT | GT | LE | GE | EQ | NE

  predicate Holds(c: Cmp, a: int, b: int) {
    match c
    case LT => a < b
    case GT => a > b
    case LE => a <= b
    case GE => a >= b
    case EQ => a == b
    case NE => a != b
  }

  /** The comparison of eval.cpp: signed when the left side is negative, by sign or unsigned otherwise. */
  function Compare(c: Cmp, l: nat, r: nat): (n: Num)
    requires l < Modulus(Int) && r < Modulus(Int)
  {
    var negative := Modulus(Int) / 2;
    OfValue(Int,
      if l >= negative then (if Holds(c, ToSigned(Int, l), ToSigned(Int, r)) then 1 else 0)
      else if r >= negative then (if c == GT || c == GE || c == NE then 1 else 0)
      else (if Holds(c, l, r) then 1 else 0))
  }

  lemma {:induction false} CompareIsSignedOrder(c: Cmp, l: nat, r: nat)
    requires l < Modulus(Int) && r < Modulus(Int)
    ensures Compare(c, l, r) == OfValue(Int, if Holds(c, ToSigned(Int, l), ToSigned(Int, r)) then 1 else 0)
  {
  }
}

/**
 The executor's 32-bit patterns compute what C says of integers, wherever C says anything.
 */
module CArithmetic {
  import opened Options
  import opened Words
  import opened Numbers
  import opened Arithmetic
  import opened RefExec
  import opened EvalOrder
  import Bitwise
  import C = CSemantics

  lemma {:induction false} SignOf(v: int)
    requires InRangeInt(v)
    ensures ToSigned(Int, IntOf(v).val) == v && IntOf(v).val == v % 0x1_0000_0000 && (IntOf(v).val == 0 <==> v == 0)
    ensures IntOf(v).status == DEFINED && IntOf(v).kind == Int && CastInt(IntOf(v)) == IntOf(v)
    ensures Literal(v) == Some(IntOf(v))
  {
  }

  lemma {:induction false} SameInt(v: int, w: int)
    requires InRangeInt(v) && InRangeInt(w)
    ensures IntOf(v).val == IntOf(w).val <==> v == w
  {
  }

  lemma {:induction false} ModProduct(x: int, y: int, m: nat)
    requires m > 0
    ensures ((x % m) * (y % m)) % m == (x * y) % m
  {
    CongruentMod(x, m);
    CongruentMod(y, m);
    CongruentProduct(x % m, x, y % m, y, m);
    SameRemainder((x % m) * (y % m), x * y, m);
  }

  lemma {:induction false} SameRemainder(a: int, b: int, m: nat)
    requires m > 0 && Congruent(a, b, m)
    ensures a % m == b % m
  {
    var q: int :| a - b == Times(q, m);
    CongruentMod(a, m);
    CongruentMod(b, m);
    var s: int :| a % m - a == Times(s, m);
    var t: int :| b % m - b == Times(t, m);
    Distribute(s, q, m);
    Distribute(s + q, t, m);
    NoMultiple(a % m - b % m, s + q - t, m);
  }

  lemma {:induction false} NoMultiple(d: int, q: int, m: int)
    requires m > 0 && d == Times(q, m) && 0 - m < d < m
    ensures d == 0
  {
    if q > 0 {
      AtLeast(q, m);
    } else if q < 0 {
      AtLeast(-q, m);
      NegProduct(q, m);
    }
  }

  lemma {:induction false} AtLeast(q: nat, m: nat)
    requires q > 0
    ensures q * m >= m
  {
    Nonneg(q - 1, m);
    assert q * m == (q - 1) * m + m;
  }

  lemma {:induction false} ModSum(x: int, y: int, m: nat)
    requires m > 0
    ensures (x % m + y % m) % m == (x + y) % m && (x % m - y % m) % m == (x - y) % m
  {
    CongruentMod(x, m);
    CongruentMod(y, m);
    CongruentSum(x % m, x, y % m, y, m);
    SameRemainder(x % m + y % m, x + y, m);
    SameRemainder(x % m - y % m, x - y, m);
  }

  lemma {:induction false} BitsAgree(x: int, y: int)
    requires InRangeInt(x) && InRangeInt(y)
    ensures var a, b := C.Pattern(x), C.Pattern(y);
            BitOr(a, b) < 0x1_0000_0000 && BitAnd(a, b) < 0x1_0000_0000
  {
    hide BitOr, BitAnd, Pow2;
    Bitwise.ModulusIsPow2(Int);
    Bitwise.BitsBelow(C.Pattern(x), C.Pattern(y), Bits(Int));
  }

  lemma {:induction false} SignedBack(v: nat)
    requires v < 0x1_0000_0000
    ensures InRangeInt(ToSigned(Int, v)) && IntOf(ToSigned(Int, v)) == OfValue(Int, v)
  {
  }

  lemma {:induction false} ArithmeticAgrees(op: Op, x: int, y: int, junk: nat)
    requires InRangeInt(x) && InRangeInt(y) && C.Arithmetical(op, x, y).Some?
    ensures var z := C.Arithmetical(op, x, y).value;
            InRangeInt(z) && Apply(op, IntOf(x), IntOf(y), junk) == IntOf(z)
  {
    hide BitOr, BitAnd, TruncDiv, ToSigned;
    SignOf(x);
    SignOf(y);
    match op
    case Add => ModSum(x, y, 0x1_0000_0000);
    case Sub => ModSum(x, y, 0x1_0000_0000);
    case Mul => ModProduct(x, y, 0x1_0000_0000);
    case Div =>
    case Or =>
      BitsAgree(x, y);
      SignedBack(BitOr(C.Pattern(x), C.Pattern(y)));
    case And =>
      BitsAgree(x, y);
      SignedBack(BitAnd(C.Pattern(x), C.Pattern(y)));
  }

  lemma {:induction false} BinaryAgrees(op: BinOp, x: int, y: int, junk: nat)
    requires InRangeInt(x) && InRangeInt(y) && C.BinaryOf(op, x, y).Some?
    ensures var z := C.BinaryOf(op, x, y).value;
            InRangeInt(z) && ApplyBinary(op, IntOf(x), IntOf(y), junk) == IntOf(z)
  {
    hide Apply, C.Arithmetical, Compare, ToSigned;
    match op
    case Arith(a) => ArithmeticAgrees(a, x, y, junk);
    case Rel(c) =>
      SignOf(x);
      SignOf(y);
      CompareIsSignedOrder(c, IntOf(x).val, IntOf(y).val);
  }

  lemma {:induction false} UnaryAgrees(op: UnOp, x: int, junk: nat)
    requires InRangeInt(x) && C.UnaryOf(op, x).Some?
    ensures var z := C.UnaryOf(op, x).value;
            InRangeInt(z) && ApplyUnary(op, IntOf(x), junk) == IntOf(z)
  {
    SignOf(x);
    if op == Minus {
      NegationAgrees(x, junk);
    }
  }

  lemma {:induction false} NegationAgrees(x: int, junk: nat)
    requires InRangeInt(x)
    ensures Negate(IntOf(x), junk) == IntOf(-x)
  {
    var m, a := 0x1_0000_0000, IntOf(x);
    SignOf(x);
    CongruentMod(x, m);
    NegateCongruent(a, x, junk);
    SameRemainder(Negate(a, junk).val, -x, m);
  }
}

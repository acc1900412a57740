/**
 `getSizeOf` and `zero_init` (cast.cpp): the size that the type promises and the size that a
 zero-initialised value of the type has.
 */
module Sizes {
  import opened Numbers
  import opened Values

  const TWO_32: nat := 0x1_0000_0000
  const TWO_64: nat := 0x1_0000_0000_0000_0000

  /** Integers, pointers, constant arrays, structs and non-empty unions; both functions abort on others. */
  predicate Sizeable(t: Ty) {
    match t
    case TNum(_) => true
    case TPtr(_) => true
    case TFunc(_) => false
    case TArr(_, e) => Sizeable(e)
    case TStruct(fs) => SizeableAll(fs)
    case TUnion(fs) => fs.Field? && Sizeable(fs.ty) && SizeableAll(fs.rest)
  }

  predicate SizeableAll(fs: Fields) {
    match fs
    case NoFields => true
    case Field(t, rest) => Sizeable(t) && SizeableAll(rest)
  }

  // ----- getSizeOf -----

  function Max(a: nat, b: nat): nat {
    if a < b then b else a
  }

  /** The size without the wrap-around of `size_t`. */
  function ExactSize(t: Ty): (n: nat)
    requires Sizeable(t)
    ensures n >= 4
  {
    match t
    case TNum(k) => NumSize(k)
    case TPtr(_) => SIZE_PTR
    case TArr(n, e) => MulNat(n, ExactSize(e)) + 4
    case TStruct(fs) => ExactSum(fs) + 4
    case TUnion(fs) => Max(ExactSize(fs.ty), ExactMax(fs.rest))
  }

  function ExactSum(fs: Fields): nat
    requires SizeableAll(fs)
  {
    match fs
    case NoFields => 0
    case Field(t, rest) => ExactSize(t) + ExactSum(rest)
  }

  function ExactMax(fs: Fields): nat
    requires SizeableAll(fs)
  {
    match fs
    case NoFields => 0
    case Field(t, rest) => Max(ExactSize(t), ExactMax(rest))
  }

  function MulNat(a: nat, b: nat): nat {
    a * b
  }

  /** `getSizeOf`, in `size_t` arithmetic. */
  function GetSizeOf(t: Ty): nat
    requires Sizeable(t)
  {
    match t
    case TNum(k) => NumSize(k)
    case TPtr(_) => SIZE_PTR
    case TArr(n, e) => (MulNat(n, GetSizeOf(e)) + 4) % TWO_64
    case TStruct(fs) => SumFrom(4, fs)
    case TUnion(fs) => MaxFrom(0, fs)
  }

  /** The loop over the members of a struct, with `ans` so far. */
  function SumFrom(ans: nat, fs: Fields): nat
    requires SizeableAll(fs)
    decreases fs
  {
    match fs
    case NoFields => ans
    case Field(t, rest) => SumFrom((ans + GetSizeOf(t)) % TWO_64, rest)
  }

  /** The loop over the members of a union. */
  function MaxFrom(ans: nat, fs: Fields): nat
    requires SizeableAll(fs)
    decreases fs
  {
    match fs
    case NoFields => ans
    case Field(t, rest) => MaxFrom(Max(ans, GetSizeOf(t)), rest)
  }

  /** `getSizeOf` as it runs: recursion on the type, loops over members. */
  method GetSizeOfLoop(t: Ty) returns (ans: nat)
    requires Sizeable(t)
    ensures ans == GetSizeOf(t)
    decreases t
  {
    match t {
      case TNum(k) => ans := NumSize(k);
      case TPtr(_) => ans := SIZE_PTR;
      case TArr(n, e) =>
        var sub := GetSizeOfLoop(e);
        ans := (n * sub + 4) % TWO_64;
      case TStruct(fs) =>
        ans := 4;
        var it := fs;
        while it.Field?
          invariant SizeableAll(it) && SumFrom(ans, it) == GetSizeOf(t)
          invariant it == t.fields || it < t.fields
          decreases it
        {
          var size := GetSizeOfLoop(it.ty);
          ans := (ans + size) % TWO_64;
          it := it.rest;
        }
      case TUnion(fs) =>
        ans := 0;
        var it := fs;
        while it.Field?
          invariant SizeableAll(it) && MaxFrom(ans, it) == GetSizeOf(t)
          invariant it == t.fields || it < t.fields
          decreases it
        {
          var temp := GetSizeOfLoop(it.ty);
          if temp > ans { ans := temp; }
          it := it.rest;
        }
    }
  }

  lemma {:induction false} MulGrows(a: nat, b: nat)
    ensures a > 0 ==> b <= MulNat(a, b)
    ensures a == 0 ==> MulNat(a, b) == 0
  {
    if a > 0 {
      assert a * b == (a - 1) * b + b;
    }
  }

  /** Nothing wraps around as long as the exact size fits a `size_t`. */
  lemma {:induction false} SizeOfIsExact(t: Ty)
    requires Sizeable(t) && ExactSize(t) < TWO_64
    ensures GetSizeOf(t) == ExactSize(t)
  {
    match t
    case TNum(_) =>
    case TPtr(_) =>
    case TArr(n, e) =>
      MulGrows(n, ExactSize(e));
      if n > 0 {
        SizeOfIsExact(e);
      } else {
        MulGrows(n, GetSizeOf(e));
      }
    case TStruct(fs) => SumIsExact(4, fs);
    case TUnion(fs) => MaxIsExact(0, fs);
  }

  lemma {:induction false} NoWrap(n: nat)
    requires n < TWO_64
    ensures n % TWO_64 == n
  {
  }

  lemma {:induction false} SumIsExact(ans: nat, fs: Fields)
    requires SizeableAll(fs) && ans + ExactSum(fs) < TWO_64
    ensures SumFrom(ans, fs) == ans + ExactSum(fs)
    decreases fs
  {
    if fs.Field? {
      SizeOfIsExact(fs.ty);
      NoWrap(ans + GetSizeOf(fs.ty));
      SumIsExact(ans + GetSizeOf(fs.ty), fs.rest);
    }
  }

  lemma {:induction false} MaxIsExact(ans: nat, fs: Fields)
    requires SizeableAll(fs) && ExactMax(fs) < TWO_64
    ensures MaxFrom(ans, fs) == Max(ans, ExactMax(fs))
    decreases fs
  {
    if fs.Field? {
      SizeOfIsExact(fs.ty);
      MaxIsExact(Max(ans, ExactSize(fs.ty)), fs.rest);
    }
  }

  // ----- zero_init -----

  function Repeat(n: nat, v: Val): Members {
    if n == 0 then NoMembers else Member(v, Repeat(n - 1, v))
  }

  /** `zero_init`; the element count of an array passes through an `unsigned int`. */
  function ZeroInit(t: Ty): Val
    requires Sizeable(t)
  {
    match t
    case TNum(k) => VNum(Num(k, DEFINED, 0, Id(k)))
    case TPtr(_) => VPtr(t, DEFINED, NullRef, 0)
    case TArr(n, e) => VStruct(t, DEFINED, ZERO_ID, Repeat(n % TWO_32, ZeroInit(e)))
    case TStruct(fs) => VStruct(t, DEFINED, ZERO_ID, ZeroInitAll(fs))
    case TUnion(fs) => ZeroInit(fs.ty)
  }

  function ZeroInitAll(fs: Fields): Members
    requires SizeableAll(fs)
  {
    match fs
    case NoFields => NoMembers
    case Field(t, rest) => Member(ZeroInit(t), ZeroInitAll(rest))
  }

  /**
   Every array reached has fewer than 2^32 elements, and the first member of every union reached is
   as large as any other (in particular: a type without unions and without such arrays).
   */
  predicate Tight(t: Ty)
    requires Sizeable(t)
  {
    match t
    case TNum(_) => true
    case TPtr(_) => true
    case TArr(n, e) => n == 0 || (n < TWO_32 && Tight(e))
    case TStruct(fs) => TightAll(fs)
    case TUnion(fs) => Tight(fs.ty) && ExactMax(fs.rest) <= ExactSize(fs.ty)
  }

  predicate TightAll(fs: Fields)
    requires SizeableAll(fs)
  {
    match fs
    case NoFields => true
    case Field(t, rest) => Tight(t) && TightAll(rest)
  }

  lemma {:induction false} RepeatSize(n: nat, v: Val)
    ensures SizeAll(Repeat(n, v)) == MulNat(n, Size(v))
  {
    if n > 0 {
      RepeatSize(n - 1, v);
      assert n * Size(v) == (n - 1) * Size(v) + Size(v);
    }
  }

  lemma {:induction false} MulCompare(a: nat, b: nat, c: nat, d: nat)
    requires a <= b && c <= d && d > 0
    ensures MulNat(a, c) <= MulNat(b, d)
    ensures MulNat(a, c) == MulNat(b, d) <==> b == 0 || (a == b && c == d)
  {
    assert b * d == a * d + (b - a) * d;
    assert a * d == a * c + a * (d - c);
    if a < b {
      MulGrows(b - a, d);
    }
    if a > 0 && c < d {
      MulGrows(a, d - c);
    }
    if b == 0 {
      assert a * c == 0 && b * d == 0;
    }
  }

  /**
   A zero-initialised value is never larger than its type's size, and exactly as large if and only if
   the type is tight.
   */
  lemma {:induction false} SizeAgreement(t: Ty)
    requires Sizeable(t)
    ensures Size(ZeroInit(t)) <= ExactSize(t)
    ensures Size(ZeroInit(t)) == ExactSize(t) <==> Tight(t)
  {
    match t
    case TNum(_) =>
    case TPtr(_) =>
    case TArr(n, e) =>
      SizeAgreement(e);
      ArrayAgreement(t);
    case TStruct(fs) => SumAgreement(fs);
    case TUnion(fs) => SizeAgreement(fs.ty);
  }

  lemma {:induction false} ArrayAgreement(t: Ty)
    requires Sizeable(t) && t.TArr? && Size(ZeroInit(t.elem)) <= ExactSize(t.elem)
    ensures Size(ZeroInit(t)) <= ExactSize(t)
    ensures Size(ZeroInit(t)) == ExactSize(t) <==>
            t.len == 0 || (t.len < TWO_32 && Size(ZeroInit(t.elem)) == ExactSize(t.elem))
  {
    var n := t.len % TWO_32;
    RepeatSize(n, ZeroInit(t.elem));
    MulCompare(n, t.len, Size(ZeroInit(t.elem)), ExactSize(t.elem));
  }

  lemma {:induction false} SumAgreement(fs: Fields)
    requires SizeableAll(fs)
    ensures SizeAll(ZeroInitAll(fs)) <= ExactSum(fs)
    ensures SizeAll(ZeroInitAll(fs)) == ExactSum(fs) <==> TightAll(fs)
  {
    if fs.Field? {
      SizeAgreement(fs.ty);
      SumAgreement(fs.rest);
    }
  }

  /** The same for `getSizeOf` itself, for every type whose size fits a `size_t`. */
  lemma {:induction false} ZeroInitFits(t: Ty)
    requires Sizeable(t) && ExactSize(t) < TWO_64
    ensures Size(ZeroInit(t)) <= GetSizeOf(t)
    ensures Size(ZeroInit(t)) == GetSizeOf(t) <==> Tight(t)
  {
    SizeOfIsExact(t);
    SizeAgreement(t);
  }

  /** No unions, and no arrays whose length needs more than 32 bits. */
  predicate UnionFree(t: Ty)
    requires Sizeable(t)
  {
    match t
    case TNum(_) => true
    case TPtr(_) => true
    case TArr(n, e) => n < TWO_32 && UnionFree(e)
    case TStruct(fs) => UnionFreeAll(fs)
    case TUnion(_) => false
  }

  predicate UnionFreeAll(fs: Fields)
    requires SizeableAll(fs)
  {
    match fs
    case NoFields => true
    case Field(t, rest) => UnionFree(t) && UnionFreeAll(rest)
  }

  /** So for these types the sizes are equal. */
  lemma {:induction false} UnionFreeAgrees(t: Ty)
    requires Sizeable(t) && UnionFree(t) && ExactSize(t) < TWO_64
    ensures Size(ZeroInit(t)) == GetSizeOf(t)
  {
    UnionFreeIsTight(t);
    ZeroInitFits(t);
  }

  lemma {:induction false} UnionFreeIsTight(t: Ty)
    requires Sizeable(t) && UnionFree(t)
    ensures Tight(t)
  {
    match t
    case TNum(_) =>
    case TPtr(_) =>
    case TArr(_, e) => UnionFreeIsTight(e);
    case TStruct(fs) => AllUnionFree(fs);
  }

  lemma {:induction false} AllUnionFree(fs: Fields)
    requires SizeableAll(fs) && UnionFreeAll(fs)
    ensures TightAll(fs)
  {
    if fs.Field? {
      UnionFreeIsTight(fs.ty);
      AllUnionFree(fs.rest);
    }
  }
}

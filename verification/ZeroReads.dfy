/**
 What `zero_init` (cast.cpp:82-131) leaves in a block, as the load constructors then read it.
 */
module ZeroReads {
  import opened Options
  import opened Words
  import opened Numbers
  import opened Values
  import opened ValueProofs
  import opened Sizes

  /** Every number in it is zero, and every pointer is null. */
  predicate IsZero(v: Val) {
    match v
    case VNum(n) => n.status == DEFINED && n.val == 0 && n.tag == Id(n.kind)
    case VPtr(_, status, ref, offset) => status == DEFINED && ref == NullRef && offset == 0
    case VStruct(_, status, _, ms) => status == DEFINED && AllAreZero(ms)
    case _ => false
  }

  predicate AllAreZero(ms: Members) {
    ms.Member? ==> IsZero(ms.v) && AllAreZero(ms.rest)
  }

  /** Of whatever type: what is made is zero throughout. */
  lemma {:induction false} ZeroInitIsZero(t: Ty)
    requires Sizeable(t)
    ensures IsZero(ZeroInit(t))
  {
    match t
    case TNum(_) =>
    case TPtr(_) =>
    case TArr(n, e) =>
      ZeroInitIsZero(e);
      RepeatIsZero(n % TWO_32, ZeroInit(e));
    case TStruct(fs) => FieldsAreZero(fs);
    case TUnion(fs) => ZeroInitIsZero(fs.ty);
  }

  lemma {:induction false} RepeatIsZero(n: nat, v: Val)
    requires IsZero(v)
    ensures AllAreZero(Repeat(n, v))
  {
    if n > 0 {
      RepeatIsZero(n - 1, v);
    }
  }

  lemma {:induction false} FieldsAreZero(fs: Fields)
    requires SizeableAll(fs)
    ensures AllAreZero(ZeroInitAll(fs))
  {
    if fs.Field? {
      ZeroInitIsZero(fs.ty);
      FieldsAreZero(fs.rest);
    }
  }

  /** Numbers, pointers, and structs of these. */
  predicate Plainly(t: Ty) {
    match t
    case TNum(_) => true
    case TPtr(_) => true
    case TStruct(fs) => AllPlainly(fs)
    case _ => false
  }

  predicate AllPlainly(fs: Fields) {
    fs.Field? ==> Plainly(fs.ty) && AllPlainly(fs.rest)
  }

  /** Every number is a defined zero; every pointer and every struct is undefined. */
  predicate ReadsAsZero(v: Val) {
    match v
    case VNum(n) => n.status == DEFINED && n.val == 0
    case VPtr(_, status, _, offset) => status == UNDEFINED && offset == 0
    case VStruct(_, status, tag, ms) => status == UNDEFINED && tag == ZERO_ID && AllReadAsZero(ms)
    case _ => false
  }

  predicate AllReadAsZero(ms: Members) {
    ms.Member? ==> ReadsAsZero(ms.v) && AllReadAsZero(ms.rest)
  }

  lemma {:induction false} NullReads(ty: Ty, tb: Tables)
    requires BLOCK_ID_NULL !in tb.blocks
    ensures ReadsAsZero(LoadPtr(ty, EncodePtr(DEFINED, NullRef, 0), tb))
  {
    Limits();
    ThreeParts(Le(PTR_ID, 4), Le(BLOCK_ID_NULL, 4), Le(0, 8));
    LeWord(PTR_ID, 4);
    LeWord(BLOCK_ID_NULL, 4);
    LeWord(0, 8);
  }

  lemma {:induction false} ZeroScalarReads(t: Ty, tb: Tables)
    requires (t.TNum? || t.TPtr?) && BLOCK_ID_NULL !in tb.blocks
    ensures Size(ZeroInit(t)) == ScalarExtent(t) && ReadsAsZero(LoadScalar(t, Encode(ZeroInit(t)), tb))
  {
    hide LoadPtr, EncodePtr, LoadNum, EncodeNum;
    match t
    case TNum(k) =>
      BytesOfKind(k);
      LoadAfterStore(Num(k, DEFINED, 0, Id(k)));
    case TPtr(_) => NullReads(t, tb);
  }

  /**
   A zero-initialised value reads back with every number a defined zero. But its null pointers and its
   structs read as undefined: no block has the id of null, and the zero tag is not that of a struct.
   */
  lemma {:induction false} ZeroInitReads(t: Ty, data: seq<byte>, o: nat, tb: Tables)
    requires Plainly(t) && Sizeable(t) && BLOCK_ID_NULL !in tb.blocks
    requires StoredAt(data, o, Encode(ZeroInit(t)))
    ensures var r := Load(t, data, o, tb);
            r.Some? && ReadsAsZero(r.value) && Size(r.value) == Size(ZeroInit(t))
    decreases t
  {
    hide LoadScalar, FromLe, Slice, EncodePtr, EncodeNum, Le;
    if t.TStruct? {
      StoredParts(data, o, Le(ZERO_ID, 4), EncodeAll(ZeroInitAll(t.fields)));
      AllZeroRead(t.fields, data, o + 4, tb);
      SliceIsRange(data, o, 4);
      Limits();
      LeWord(ZERO_ID, 4);
      WorsenAllIsMinimum(UNDEFINED, LoadAll(t.fields, data, o + 4, tb).value);
    } else {
      ZeroScalarReads(t, tb);
      SliceIsRange(data, o, ScalarExtent(t));
      ScalarSize(t, Slice(data, o, ScalarExtent(t)), tb);
    }
  }

  lemma {:induction false} AllZeroRead(fs: Fields, data: seq<byte>, o: nat, tb: Tables)
    requires AllPlainly(fs) && SizeableAll(fs) && BLOCK_ID_NULL !in tb.blocks
    requires StoredAt(data, o, EncodeAll(ZeroInitAll(fs)))
    ensures var r := LoadAll(fs, data, o, tb);
            r.Some? && AllReadAsZero(r.value) && SizeAll(r.value) == SizeAll(ZeroInitAll(fs))
    decreases fs
  {
    hide Load, Encode, ZeroInit, Size, Plainly, ReadsAsZero, StoredAt, Sizeable;
    if fs.Field? {
      var v, rest := ZeroInit(fs.ty), ZeroInitAll(fs.rest);
      StoredParts(data, o, Encode(v), EncodeAll(rest));
      ZeroInitReads(fs.ty, data, o, tb);
      AllZeroRead(fs.rest, data, o + Size(v), tb);
    }
  }
}

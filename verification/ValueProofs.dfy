/**
 What storing and loading do to each other (Values.dfy): for pointers, functions and stack positions,
 and for structs of any nesting.
 */
module ValueProofs {
  import opened Options
  import opened Words
  import opened Numbers
  import opened Values

  // ----- Words in a row -----

  lemma {:induction false} TwoParts(a: seq<byte>, b: seq<byte>)
    ensures (a + b)[..|a|] == a && (a + b)[|a|..] == b
  {
  }

  lemma {:induction false} ThreeParts(a: seq<byte>, b: seq<byte>, c: seq<byte>)
    ensures var s := a + b + c; s[..|a|] == a && s[|a|..|a| + |b|] == b && s[|a| + |b|..] == c
  {
  }

  lemma {:induction false} Cut(s: seq<byte>, i: nat, j: nat)
    requires i <= j <= |s|
    ensures s == s[..i] + s[i..j] + s[j..]
  {
  }

  lemma {:induction false} Limits()
    ensures Pow256(4) == 0x1_0000_0000 && Pow256(8) == SIZE_MAX + 1
  {
    BytesOfKind(LongLong);
  }

  // ----- Pointers -----

  /** The one form in which an uninitialised pointer is stored. */
  function UninitPtr(): seq<byte> {
    EncodePtr(UNINITIALIZED, NullRef, 0)
  }

  lemma {:induction false} PtrStoreAfterLoad(ty: Ty, b: seq<byte>, tb: Tables)
    requires |b| == SIZE_PTR
    ensures Encode(LoadPtr(ty, b, tb)) == b <==> LoadPtr(ty, b, tb).status != UNINITIALIZED || b == UninitPtr()
    ensures var c := Encode(LoadPtr(ty, b, tb)); Encode(LoadPtr(ty, c, tb)) == c
  {
    LeBytes(b[..4]);
    LeBytes(b[4..8]);
    LeBytes(b[8..]);
    Cut(b, 4, 8);
    if LoadPtr(ty, b, tb).status == UNINITIALIZED {
      Limits();
      var c := UninitPtr();
      ThreeParts(Le(Uninit(PTR_ID), 4), Le(BLOCK_ID_INVALID, 4), Le(SIZE_MAX, 8));
      LeWord(Uninit(PTR_ID), 4);
      assert FromLe(c[..4]) == Uninit(PTR_ID);
    }
  }

  predicate LiveRef(ref: Ref, offset: nat, tb: Tables) {
    ref.BlockRef? && ref.id in tb.blocks && ref.id < 0x1_0000_0000 && offset <= SIZE_MAX
  }

  lemma {:induction false} PtrLoadAfterStore(ty: Ty, ref: Ref, offset: nat, tb: Tables)
    requires LiveRef(ref, offset, tb)
    ensures LoadPtr(ty, EncodePtr(DEFINED, ref, offset), tb) == VPtr(ty, DEFINED, ref, offset)
  {
    Limits();
    ThreeParts(Le(PTR_ID, 4), Le(ref.id, 4), Le(offset, 8));
    LeWord(PTR_ID, 4);
    LeWord(ref.id, 4);
    LeWord(offset, 8);
  }

  /** A stored pointer to a block that is no longer active loads as undefined. */
  lemma {:induction false} DanglingLoadsUndefined(ty: Ty, id: nat, offset: nat, tb: Tables)
    requires id !in tb.blocks && id < 0x1_0000_0000
    ensures LoadPtr(ty, EncodePtr(DEFINED, BlockRef(id), offset), tb).status == UNDEFINED
  {
    Limits();
    ThreeParts(Le(PTR_ID, 4), Le(id, 4), Le(offset, 8));
    LeWord(PTR_ID, 4);
    LeWord(id, 4);
  }

  // ----- Functions and stack positions -----

  lemma {:induction false} FuncStoreAfterLoad(ty: Ty, b: seq<byte>, tb: Tables)
    requires |b| == SIZE_FUNC
    ensures Encode(LoadFunc(ty, b, tb)) == b
  {
    LeBytes(b[..4]);
    LeBytes(b[4..]);
  }

  lemma {:induction false} FuncLoadAfterStore(ty: Ty, fid: nat, tb: Tables)
    requires fid in tb.funcs && fid < 0x1_0000_0000
    ensures LoadFunc(ty, Encode(VFunc(ty, DEFINED, FUNC_ID, fid)), tb) == VFunc(ty, DEFINED, FUNC_ID, fid)
  {
    Limits();
    TwoParts(Le(FUNC_ID, 4), Le(fid, 4));
    LeWord(FUNC_ID, 4);
    LeWord(fid, 4);
  }

  lemma {:induction false} StackPosStoreAfterLoad(b: seq<byte>)
    requires |b| == SIZE_STACKPOS
    ensures Encode(LoadStackPos(b)) == b
  {
    LeBytes(b[..4]);
    LeBytes(b[4..8]);
    LeBytes(b[8..]);
    Cut(b, 4, 8);
  }

  lemma {:induction false} StackPosLoadAfterStore(level: nat, num: nat)
    requires level < 0x1_0000_0000 && num < 0x1_0000_0000
    ensures var v := VStackPos(DEFINED, STACKPOS_ID, level, num); LoadStackPos(Encode(v)) == v
  {
    Limits();
    ThreeParts(Le(STACKPOS_ID, 4), Le(level, 4), Le(num, 4));
    LeWord(STACKPOS_ID, 4);
    LeWord(level, 4);
    LeWord(num, 4);
  }

  // ----- The status that a tag gives -----

  /** A stored pointer is uninitialised by its tag alone, and defined when it names an active block. */
  lemma {:induction false} PtrStatus(ty: Ty, tag: nat, id: nat, offset: nat, tb: Tables)
    requires tag < 0x1_0000_0000 && id < 0x1_0000_0000 && offset <= SIZE_MAX
    ensures LoadPtr(ty, Le(tag, 4) + Le(id, 4) + Le(offset, 8), tb) ==
            if tag == 0xE0E0_E0E0 then VPtr(ty, UNINITIALIZED, RawRef(tag, id), offset)
            else if tag == 0x6060_6060 && id in tb.blocks then VPtr(ty, DEFINED, BlockRef(id), offset)
            else VPtr(ty, UNDEFINED, RawRef(tag, id), offset)
  {
    Limits();
    ThreeParts(Le(tag, 4), Le(id, 4), Le(offset, 8));
    LeWord(tag, 4);
    LeWord(id, 4);
    LeWord(offset, 8);
  }

  /** So an uninitialised pointer stays one, and a stored null pointer loads as undefined: its id 1 is no block's. */
  lemma {:induction false} UninitAndNull(ty: Ty, ref: Ref, offset: nat, tb: Tables)
    requires offset <= SIZE_MAX
    ensures LoadPtr(ty, EncodePtr(UNINITIALIZED, ref, offset), tb).status == UNINITIALIZED
    ensures LoadPtr(ty, EncodePtr(DEFINED, NullRef, offset), tb).status ==
            if BLOCK_ID_NULL in tb.blocks then DEFINED else UNDEFINED
  {
    Limits();
    PtrStatus(ty, Uninit(PTR_ID), BLOCK_ID_INVALID, SIZE_MAX, tb);
    PtrStatus(ty, PTR_ID, BLOCK_ID_NULL, offset, tb);
  }

  /** A stored function is uninitialised by its tag alone, and defined when it is registered. */
  lemma {:induction false} FuncStatus(ty: Ty, tag: nat, fid: nat, tb: Tables)
    requires tag < 0x1_0000_0000 && fid < 0x1_0000_0000
    ensures LoadFunc(ty, Le(tag, 4) + Le(fid, 4), tb) ==
            VFunc(ty,
                  if tag == 0x8282_8282 then UNINITIALIZED
                  else if tag == 0x0202_0202 && fid in tb.funcs then DEFINED
                  else UNDEFINED,
                  tag, fid)
  {
    Limits();
    TwoParts(Le(tag, 4), Le(fid, 4));
    LeWord(tag, 4);
    LeWord(fid, 4);
  }

  lemma {:induction false} StackPosStatus(tag: nat, level: nat, num: nat)
    requires tag < 0x1_0000_0000 && level < 0x1_0000_0000 && num < 0x1_0000_0000
    ensures LoadStackPos(Le(tag, 4) + Le(level, 4) + Le(num, 4)) ==
            VStackPos(if tag == 0x8585_8585 then UNINITIALIZED else if tag == 0x0505_0505 then DEFINED else UNDEFINED,
                      tag, level, num)
  {
    Limits();
    ThreeParts(Le(tag, 4), Le(level, 4), Le(num, 4));
    LeWord(tag, 4);
    LeWord(level, 4);
    LeWord(num, 4);
  }

  /**
   A stored struct, by its own tag: uninitialised or worse under the tag that says so, and undefined
   under any but that and the tag of a struct; the zero tag, which `zero_init` gives, is no exception.
   */
  lemma {:induction false} StructStatus(ty: Ty, tag: nat, members: seq<byte>, tb: Tables)
    requires IsRecord(ty) && tag < 0x1_0000_0000 && Load(ty, Le(tag, 4) + members, 0, tb).Some?
    ensures var v := Load(ty, Le(tag, 4) + members, 0, tb).value;
            v.VStruct? && v.tag == tag &&
            v.status == if tag == 0x8484_8484 then MinStatus(UNINITIALIZED, MinOfMembers(v.members))
                        else if tag == 0x0404_0404 then MinOfMembers(v.members)
                        else UNDEFINED
  {
    hide LoadAll, FromLe, Le;
    Limits();
    var data := Le(tag, 4) + members;
    LeWord(tag, 4);
    TwoParts(Le(tag, 4), members);
    SliceIsRange(data, 0, 4);
    assert data[0..4] == data[..4];
    StructStatusIsMinimum(ty, data, 0, tb);
  }

  // ----- Struct status -----

  function MinOfMembers(ms: Members): Status {
    match ms
    case NoMembers => DEFINED
    case Member(v, rest) => MinStatus(StatusOf(v), MinOfMembers(rest))
  }

  lemma {:induction false} WorsenAllIsMinimum(temp: Status, ms: Members)
    ensures WorsenAll(temp, ms) == MinStatus(temp, MinOfMembers(ms))
    decreases ms
  {
    if ms.Member? {
      WorsenAllIsMinimum(Worsen(temp, StatusOf(ms.v)), ms.rest);
    }
  }

  /** Whatever is stored, a struct reads with the worst status among its own tag and its members. */
  lemma {:induction false} StructStatusIsMinimum(ty: Ty, data: seq<byte>, o: nat, tb: Tables)
    requires IsRecord(ty) && Load(ty, data, o, tb).Some?
    ensures var v := Load(ty, data, o, tb).value;
            v.VStruct? && o + 4 <= |data| && v.tag == FromLe(Slice(data, o, 4)) &&
            v.status == MinStatus(StructTagStatus(v.tag), MinOfMembers(v.members))
  {
    var v := Load(ty, data, o, tb).value;
    WorsenAllIsMinimum(StructTagStatus(v.tag), v.members);
  }

  // ----- Struct round trip -----

  /** `v` is an initialised value of type `ty` whose tags and references are live. */
  predicate Live(v: Val, ty: Ty, tb: Tables)
    decreases v
  {
    match v
    case VNum(n) => ty == TNum(n.kind) && NumOk(n) && n.status == DEFINED && Recognised(n)
    case VPtr(t, status, ref, offset) =>
      t == ty && (ty.TPtr? || ty.TArr?) && status == DEFINED && LiveRef(ref, offset, tb)
    case VFunc(t, status, tag, fid) =>
      t == ty && ty.TFunc? && status == DEFINED && tag == FUNC_ID && fid in tb.funcs && fid < 0x1_0000_0000
    case VStackPos(_, _, _, _) => false
    case VStruct(t, status, tag, ms) =>
      t == ty && ty.TStruct? && status == DEFINED && tag == STRUCT_ID && LiveAll(ms, ty.fields, tb)
  }

  predicate LiveAll(ms: Members, fs: Fields, tb: Tables)
    decreases ms
  {
    match ms
    case NoMembers => fs == NoFields
    case Member(v, rest) => fs.Field? && Live(v, fs.ty, tb) && LiveAll(rest, fs.rest, tb)
  }

  /** `data` holds the stored form of `v` at `o`. */
  predicate StoredAt(data: seq<byte>, o: nat, b: seq<byte>) {
    o + |b| <= |data| && data[o..o + |b|] == b
  }

  lemma {:induction false} StoredParts(data: seq<byte>, o: nat, a: seq<byte>, b: seq<byte>)
    requires StoredAt(data, o, a + b)
    ensures StoredAt(data, o, a) && StoredAt(data, o + |a|, b)
  {
    var s := data[o..o + |a + b|];
    assert data[o..o + |a|] == s[..|a|];
    assert data[o + |a|..o + |a| + |b|] == s[|a|..];
    TwoParts(a, b);
  }

  lemma {:induction false} ScalarRoundTrip(v: Val, ty: Ty, tb: Tables)
    requires Live(v, ty, tb) && !v.VStruct?
    ensures !IsRecord(ty) && ScalarExtent(ty) == Size(v) && LoadScalar(ty, Encode(v), tb) == v
  {
    match v
    case VNum(n) => LoadAfterStore(n);
    case VPtr(_, _, ref, offset) => PtrLoadAfterStore(ty, ref, offset, tb);
    case VFunc(_, _, _, fid) => FuncLoadAfterStore(ty, fid, tb);
  }

  /** Reading a stored value back at its offset returns an equal value, at any depth of nesting. */
  lemma {:induction false} RoundTrip(v: Val, ty: Ty, data: seq<byte>, o: nat, tb: Tables)
    requires Live(v, ty, tb) && StoredAt(data, o, Encode(v))
    ensures Load(ty, data, o, tb) == Some(v)
    decreases v
  {
    hide LoadScalar, FromLe, Slice;
    if v.VStruct? {
      StoredParts(data, o, Le(STRUCT_ID, 4), EncodeAll(v.members));
      RoundTripAll(v.members, ty.fields, data, o + 4, tb);
      SliceIsRange(data, o, 4);
      Limits();
      LeWord(STRUCT_ID, 4);
      WorsenAllIsMinimum(DEFINED, v.members);
    } else {
      SliceIsRange(data, o, Size(v));
      ScalarRoundTrip(v, ty, tb);
    }
  }

  lemma {:induction false} RoundTripAll(ms: Members, fs: Fields, data: seq<byte>, o: nat, tb: Tables)
    requires LiveAll(ms, fs, tb) && StoredAt(data, o, EncodeAll(ms))
    ensures LoadAll(fs, data, o, tb) == Some(ms) && MinOfMembers(ms) == DEFINED
    decreases ms
  {
    hide LoadScalar, Record, Slice, FromLe, EncodeNum, EncodePtr;
    if ms.Member? {
      StoredParts(data, o, Encode(ms.v), EncodeAll(ms.rest));
      RoundTrip(ms.v, fs.ty, data, o, tb);
      RoundTripAll(ms.rest, fs.rest, data, o + Size(ms.v), tb);
      LoadAllCons(fs, data, o, tb, ms.v, ms.rest);
      LiveStatus(ms.v, fs.ty, tb);
    }
  }

  lemma {:induction false} LiveStatus(v: Val, ty: Ty, tb: Tables)
    requires Live(v, ty, tb)
    ensures StatusOf(v) == DEFINED
  {
  }

  lemma {:induction false} LoadAllCons(fs: Fields, data: seq<byte>, o: nat, tb: Tables, v: Val, ms: Members)
    requires fs.Field? && Load(fs.ty, data, o, tb) == Some(v) && LoadAll(fs.rest, data, o + Size(v), tb) == Some(ms)
    ensures LoadAll(fs, data, o, tb) == Some(Member(v, ms))
  {
    hide LoadScalar, Record, Slice, FromLe;
  }

  // ----- What a load depends on -----

  /** The number of bytes that a load of type `ty` reads. */
  function Extent(ty: Ty): nat {
    if IsRecord(ty) then 4 + ExtentAll(ty.fields) else ScalarExtent(ty)
  }

  function ExtentAll(fs: Fields): nat {
    match fs
    case NoFields => 0
    case Field(ty, rest) => Extent(ty) + ExtentAll(rest)
  }

  lemma {:induction false} ScalarSize(ty: Ty, b: seq<byte>, tb: Tables)
    requires !IsRecord(ty) && |b| == ScalarExtent(ty)
    ensures Size(LoadScalar(ty, b, tb)) == ScalarExtent(ty)
  {
    hide FromLe, ValueOf;
  }

  /** A load succeeds exactly when its extent lies in the block, and yields a value of that size. */
  lemma {:induction false} LoadExtent(ty: Ty, data: seq<byte>, o: nat, tb: Tables)
    ensures Load(ty, data, o, tb).Some? <==> o + Extent(ty) <= |data|
    ensures Load(ty, data, o, tb).Some? ==> Size(Load(ty, data, o, tb).value) == Extent(ty)
    decreases ty
  {
    hide LoadScalar, FromLe, Slice, WorsenAll;
    if IsRecord(ty) {
      if o + 4 <= |data| {
        LoadExtentAll(ty.fields, data, o + 4, tb);
      }
    } else if o + ScalarExtent(ty) <= |data| {
      ScalarSize(ty, Slice(data, o, ScalarExtent(ty)), tb);
    }
  }

  lemma {:induction false} LoadExtentAll(fs: Fields, data: seq<byte>, o: nat, tb: Tables)
    requires o <= |data|
    ensures LoadAll(fs, data, o, tb).Some? <==> o + ExtentAll(fs) <= |data|
    ensures LoadAll(fs, data, o, tb).Some? ==> SizeAll(LoadAll(fs, data, o, tb).value) == ExtentAll(fs)
    decreases fs
  {
    hide LoadScalar, Record, Slice, FromLe;
    if fs.Field? {
      LoadExtent(fs.ty, data, o, tb);
      if o + Extent(fs.ty) <= |data| {
        LoadExtentAll(fs.rest, data, o + Extent(fs.ty), tb);
      }
    }
  }

  // ----- The bound as written -----

  /**
   What the checks let through where the room for a number does not include its tag (cast.cpp:163); the
   members of a struct follow one another, as in `Load`.
   */
  predicate Admits(ty: Ty, data: seq<byte>, o: nat)
    decreases ty
  {
    if o > |data| then false
    else match ty
      case TNum(k) => |data| - o >= Bytes(k)
      case TStruct(fs) => |data| - o >= 4 && AdmitsAll(fs, data, o + 4)
      case TUnion(fs) => |data| - o >= 4 && AdmitsAll(fs, data, o + 4)
      case _ => |data| - o >= ScalarExtent(ty)
  }

  predicate AdmitsAll(fs: Fields, data: seq<byte>, o: nat)
    decreases fs
  {
    fs.Field? ==> Admits(fs.ty, data, o) && AdmitsAll(fs.rest, data, o + Extent(fs.ty))
  }

  /** The last thing that a load of the type reads is a number. */
  predicate EndsInNumber(ty: Ty) {
    match ty
    case TNum(_) => true
    case TStruct(fs) => LastIsNumber(fs)
    case TUnion(fs) => LastIsNumber(fs)
    case _ => false
  }

  predicate LastIsNumber(fs: Fields) {
    fs.Field? && if fs.rest.NoFields? then EndsInNumber(fs.ty) else LastIsNumber(fs.rest)
  }

  /**
   The checks as written let a load read past the end of the block exactly when the last thing it reads is
   a number whose last one to four bytes are missing; no other load is let through that does not fit.
   */
  lemma {:induction false} AdmitsExactly(ty: Ty, data: seq<byte>, o: nat, tb: Tables)
    ensures Admits(ty, data, o) && Load(ty, data, o, tb).None? <==>
            EndsInNumber(ty) && o + Extent(ty) - 4 <= |data| < o + Extent(ty)
    ensures Load(ty, data, o, tb).Some? ==> Admits(ty, data, o)
  {
    LoadExtent(ty, data, o, tb);
    AdmitsSlack(ty, data, o);
  }

  lemma {:induction false} AdmitsSlack(ty: Ty, data: seq<byte>, o: nat)
    ensures Admits(ty, data, o) <==> o + Extent(ty) - (if EndsInNumber(ty) then 4 else 0) <= |data|
    ensures Extent(ty) >= 4 && (EndsInNumber(ty) ==> Extent(ty) > 4)
    decreases ty
  {
    match ty
    case TNum(k) => BytesOfKind(k);
    case TStruct(fs) => AdmitsAllSlack(fs, data, o + 4);
    case TUnion(fs) => AdmitsAllSlack(fs, data, o + 4);
    case _ =>
  }

  lemma {:induction false} AdmitsAllSlack(fs: Fields, data: seq<byte>, o: nat)
    ensures o <= |data| || fs.Field? ==>
              (AdmitsAll(fs, data, o) <==> o + ExtentAll(fs) - (if LastIsNumber(fs) then 4 else 0) <= |data|)
    ensures fs.Field? ==> ExtentAll(fs) >= 4 && (LastIsNumber(fs) ==> ExtentAll(fs) > 4)
    decreases fs
  {
    if fs.Field? {
      AdmitsSlack(fs.ty, data, o);
      AdmitsAllSlack(fs.rest, data, o + Extent(fs.ty));
    }
  }

  /** For instance, an `int` in a block of four bytes. */
  lemma {:induction false} ReadsPastBlock(data: seq<byte>, tb: Tables)
    requires |data| == 4
    ensures Admits(TNum(Int), data, 0) && Load(TNum(Int), data, 0, tb) == None
  {
    AdmitsExactly(TNum(Int), data, 0, tb);
  }

  // ----- Storing what was loaded -----

  /** Every scalar in `v` is stored as it was loaded: none is uninitialised, and no bool is among them. */
  predicate Plain(v: Val) {
    match v
    case VNum(n) => n.status != UNINITIALIZED && n.kind != Bool
    case VPtr(_, status, _, _) => status != UNINITIALIZED
    case VFunc(_, _, _, _) => true
    case VStackPos(_, _, _, _) => true
    case VStruct(_, _, _, ms) => PlainAll(ms)
  }

  predicate PlainAll(ms: Members) {
    match ms
    case NoMembers => true
    case Member(v, rest) => Plain(v) && PlainAll(rest)
  }

  lemma {:induction false} ScalarStoreAfterLoad(ty: Ty, b: seq<byte>, tb: Tables)
    requires !IsRecord(ty) && |b| == ScalarExtent(ty) && Plain(LoadScalar(ty, b, tb))
    ensures Encode(LoadScalar(ty, b, tb)) == b
  {
    match ty
    case TNum(k) => StoreAfterLoad(k, Id(k), b);
    case TPtr(_) => PtrStoreAfterLoad(ty, b, tb);
    case TArr(_, _) => PtrStoreAfterLoad(ty, b, tb);
    case TFunc(_) => FuncStoreAfterLoad(ty, b, tb);
  }

  /** Storing a loaded value back, of any type, reproduces the bytes it was read from. */
  lemma {:induction false} ValueStoreAfterLoad(ty: Ty, data: seq<byte>, o: nat, tb: Tables)
    requires Load(ty, data, o, tb).Some? && Plain(Load(ty, data, o, tb).value)
    ensures StoredAt(data, o, Encode(Load(ty, data, o, tb).value))
    decreases ty
  {
    hide LoadScalar, FromLe, Slice, WorsenAll;
    if IsRecord(ty) {
      ValuesStoreAfterLoad(ty.fields, data, o + 4, tb);
      SliceIsRange(data, o, 4);
      LeBytes(Slice(data, o, 4));
      JoinParts(data, o, Slice(data, o, 4), EncodeAll(LoadAll(ty.fields, data, o + 4, tb).value));
    } else {
      SliceIsRange(data, o, ScalarExtent(ty));
      ScalarStoreAfterLoad(ty, Slice(data, o, ScalarExtent(ty)), tb);
    }
  }

  lemma {:induction false} JoinParts(data: seq<byte>, o: nat, a: seq<byte>, b: seq<byte>)
    requires StoredAt(data, o, a) && StoredAt(data, o + |a|, b)
    ensures StoredAt(data, o, a + b)
  {
    assert data[o..o + |a| + |b|] == data[o..o + |a|] + data[o + |a|..o + |a| + |b|];
  }

  lemma {:induction false} ValuesStoreAfterLoad(fs: Fields, data: seq<byte>, o: nat, tb: Tables)
    requires o <= |data| && LoadAll(fs, data, o, tb).Some? && PlainAll(LoadAll(fs, data, o, tb).value)
    ensures StoredAt(data, o, EncodeAll(LoadAll(fs, data, o, tb).value))
    decreases fs
  {
    hide LoadScalar, Record, Slice, FromLe, EncodeNum, EncodePtr;
    if fs.Field? {
      var ms := LoadAll(fs, data, o, tb).value;
      ValueStoreAfterLoad(fs.ty, data, o, tb);
      ValuesStoreAfterLoad(fs.rest, data, o + Size(ms.v), tb);
      JoinParts(data, o, Encode(ms.v), EncodeAll(ms.rest));
    }
  }

  predicate SameBytes(d: seq<byte>, e: seq<byte>, lo: nat, hi: nat) {
    |d| == |e| && forall i :: lo <= i < hi && i < |d| ==> d[i] == e[i]
  }

  lemma {:induction false} SameSlice(d: seq<byte>, e: seq<byte>, lo: nat, hi: nat, o: nat, n: nat)
    requires SameBytes(d, e, lo, hi) && lo <= o && o + n <= hi && o + n <= |d|
    ensures Slice(d, o, n) == Slice(e, o, n)
  {
    SliceIsRange(d, o, n);
    SliceIsRange(e, o, n);
  }

  lemma {:induction false} SameLength(d: seq<byte>, e: seq<byte>, lo: nat, hi: nat)
    requires SameBytes(d, e, lo, hi)
    ensures |d| == |e|
  {
  }

  lemma {:induction false} Narrow(d: seq<byte>, e: seq<byte>, lo: nat, mid: nat, hi: nat)
    requires SameBytes(d, e, lo, hi) && lo <= mid <= hi
    ensures SameBytes(d, e, lo, mid) && SameBytes(d, e, mid, hi)
  {
  }

  /** A load depends only on the bytes of its extent. */
  lemma {:induction false} LoadLocal(ty: Ty, d: seq<byte>, e: seq<byte>, o: nat, tb: Tables)
    requires SameBytes(d, e, o, o + Extent(ty))
    ensures Load(ty, d, o, tb) == Load(ty, e, o, tb)
    decreases ty
  {
    hide LoadScalar, FromLe, Slice, Record, LoadAll, SameBytes, ScalarExtent;
    SameLength(d, e, o, o + Extent(ty));
    if o + Extent(ty) > |d| {
      LoadExtent(ty, d, o, tb);
      LoadExtent(ty, e, o, tb);
    } else if IsRecord(ty) {
      SameSlice(d, e, o, o + Extent(ty), o, 4);
      Narrow(d, e, o, o + 4, o + Extent(ty));
      LoadLocalAll(ty.fields, d, e, o + 4, tb);
    } else {
      SameSlice(d, e, o, o + Extent(ty), o, Extent(ty));
    }
  }

  lemma {:induction false} LoadLocalAll(fs: Fields, d: seq<byte>, e: seq<byte>, o: nat, tb: Tables)
    requires SameBytes(d, e, o, o + ExtentAll(fs)) && o + ExtentAll(fs) <= |d|
    ensures LoadAll(fs, d, o, tb) == LoadAll(fs, e, o, tb)
    decreases fs
  {
    hide Load, Slice, SameBytes;
    SameLength(d, e, o, o + ExtentAll(fs));
    if fs.Field? {
      Narrow(d, e, o, o + Extent(fs.ty), o + ExtentAll(fs));
      LoadExtent(fs.ty, d, o, tb);
      LoadLocal(fs.ty, d, e, o, tb);
      LoadLocalAll(fs.rest, d, e, o + Extent(fs.ty), tb);
    }
  }

  /** The bytes of a block after a value is stored at `off`. */
  function Patch(data: seq<byte>, off: nat, b: seq<byte>): (r: seq<byte>)
    requires off + |b| <= |data|
    ensures |r| == |data|
  {
    data[..off] + b + data[off + |b|..]
  }

  /** A write changes no byte outside its footprint, and no load that does not touch it. */
  lemma {:induction false} WriteIsLocal(v: Val, off: nat, ty: Ty, data: seq<byte>, o: nat, tb: Tables)
    requires off + Size(v) <= |data| && (o + Extent(ty) <= off || off + Size(v) <= o)
    ensures var d := Patch(data, off, Encode(v));
            StoredAt(d, off, Encode(v)) && SameBytes(d, data, 0, off) && SameBytes(d, data, off + Size(v), |data|) &&
            Load(ty, d, o, tb) == Load(ty, data, o, tb)
  {
    var d := Patch(data, off, Encode(v));
    ThreeParts(data[..off], Encode(v), data[off + Size(v)..]);
    assert forall i :: 0 <= i < off ==> d[i] == data[i];
    assert forall i :: off + Size(v) <= i < |data| ==> d[i] == data[i];
    LoadLocal(ty, d, data, o, tb);
  }
}

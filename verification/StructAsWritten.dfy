/**
 Reading a struct as the source does it (types.cpp:577-649): the tag is taken from the start of the
 block, and neither the field nor the offset advances, so every member is read as the first one. Its
 numbers are read as the source reads them too (types.h:252-263), by the tag of `int` whatever their kind.
 Nothing is repaired here.
 */
module StructAsWritten {
  import opened Options
  import opened Words
  import opened Numbers
  import opened Values
  import opened ValueProofs

  function Count(fs: Fields): nat {
    if fs.NoFields? then 0 else 1 + Count(fs.rest)
  }

  function Copies(n: nat, v: Val): Members {
    if n == 0 then NoMembers else Member(v, Copies(n - 1, v))
  }

  function FirstWord(data: seq<byte>): nat
    requires |data| >= 4
  {
    FromLe(Slice(data, 0, 4))
  }

  /** A value without members; of the tags of numbers, only that of `int` is known. */
  function LoadScalarCoded(ty: Ty, b: seq<byte>, tb: Tables): Val
    requires !IsRecord(ty) && |b| == ScalarExtent(ty)
  {
    if ty.TNum? then VNum(LoadNumAs(ty.kind, INT_ID, b)) else LoadScalar(ty, b, tb)
  }

  /** None is an aborted run, or one that reads past the end of the block. */
  function LoadCoded(ty: Ty, data: seq<byte>, o: nat, tb: Tables): Option<Val>
    decreases ty
  {
    if o > |data| then None
    else if !IsRecord(ty) then
      if |data| - o < ScalarExtent(ty) then None
      else Some(LoadScalarCoded(ty, Slice(data, o, ScalarExtent(ty)), tb))
    else if |data| - o < 4 then None
    else if ty.fields.NoFields? then Record(ty, FirstWord(data), Some(NoMembers))
    else
      var first := LoadCoded(ty.fields.ty, data, o + 4, tb);
      if first.None? then None else Record(ty, FirstWord(data), Some(Copies(Count(ty.fields), first.value)))
  }

  predicate AllAre(ms: Members, v: Val) {
    ms.Member? ==> ms.v == v && AllAre(ms.rest, v)
  }

  /** At every level of nesting, all members of a struct are equal. */
  predicate Uniform(v: Val) {
    v.VStruct? && v.members.Member? ==> Uniform(v.members.v) && AllAre(v.members, v.members.v)
  }

  /** The number that is read, down the first members, has the tag of `int`, or the zero tag on a zero. */
  predicate KnownTag(v: Val) {
    match v
    case VNum(n) => n.tag == INT_ID || (n.tag == ZERO_ID && n.val == 0)
    case VStruct(_, _, _, ms) => ms.Member? ==> KnownTag(ms.v)
    case _ => true
  }

  function Number(ms: Members): nat {
    if ms.NoMembers? then 0 else 1 + Number(ms.rest)
  }

  lemma {:induction false} LiveCount(ms: Members, fs: Fields, tb: Tables)
    requires LiveAll(ms, fs, tb)
    ensures Number(ms) == Count(fs)
    decreases ms
  {
    hide Live;
    if ms.Member? {
      LiveCount(ms.rest, fs.rest, tb);
    }
  }

  lemma {:induction false} CopiesAre(ms: Members, v: Val)
    ensures ms == Copies(Number(ms), v) <==> AllAre(ms, v)
  {
    if ms.Member? {
      CopiesAre(ms.rest, v);
    }
  }

  lemma {:induction false} CopiesStatus(n: nat, v: Val)
    requires StatusOf(v) == DEFINED
    ensures WorsenAll(DEFINED, Copies(n, v)) == DEFINED
  {
    if n > 0 {
      CopiesStatus(n - 1, v);
    }
  }

  lemma {:induction false} ScalarReads(v: Val, ty: Ty, data: seq<byte>, o: nat, tb: Tables)
    requires Live(v, ty, tb) && !v.VStruct? && StoredAt(data, o, Encode(v))
    ensures LoadCoded(ty, data, o, tb) == Some(v) <==> KnownTag(v)
  {
    hide LoadNumAs, LoadScalar, Slice;
    SliceIsRange(data, o, Size(v));
    ScalarRoundTrip(v, ty, tb);
    if v.VNum? {
      LoadAfterStoreAsWritten(v.n);
    }
  }

  /** What it takes for a live value to be read back as it was stored. */
  predicate ReadsBack(v: Val, data: seq<byte>) {
    Uniform(v) && KnownTag(v) && (v.VStruct? ==> |data| >= 4 && FirstWord(data) == STRUCT_ID)
  }

  /**
   As written, a value of initialised scalars is read back equal exactly when, at every level, all
   members of a struct are equal; the number in the first place, if it is one, has a known tag; and the
   block starts with the tag of a struct.
   */
  lemma {:induction false} AsWrittenReads(v: Val, ty: Ty, data: seq<byte>, o: nat, tb: Tables)
    requires Live(v, ty, tb) && StoredAt(data, o, Encode(v))
    ensures LoadCoded(ty, data, o, tb) == Some(v) <==> ReadsBack(v, data)
    decreases v
  {
    hide LoadScalarCoded, FromLe, Slice, EncodeNum, EncodePtr, WorsenAll;
    if !v.VStruct? {
      ScalarReads(v, ty, data, o, tb);
    } else {
      StoredParts(data, o, Le(STRUCT_ID, 4), EncodeAll(v.members));
      if v.members.Member? {
        MembersRead(v, ty, data, o, tb);
      } else {
        NoMembersStatus();
      }
    }
  }

  lemma {:induction false} NoMembersStatus()
    ensures WorsenAll(StructTagStatus(STRUCT_ID), NoMembers) == DEFINED
  {
  }

  lemma {:induction false} MembersRead(v: Val, ty: Ty, data: seq<byte>, o: nat, tb: Tables)
    requires Live(v, ty, tb) && v.VStruct? && v.members.Member? && o + 4 <= |data|
    requires StoredAt(data, o + 4, EncodeAll(v.members))
    ensures LoadCoded(ty, data, o, tb) == Some(v) <==> ReadsBack(v, data)
    decreases v, 0
  {
    hide LoadScalarCoded, FromLe, Slice, EncodeNum, EncodePtr, WorsenAll, FirstWord;
    var ms := v.members;
    var m := ms.v;
    StoredParts(data, o + 4, Encode(m), EncodeAll(ms.rest));
    AsWrittenReads(m, ty.fields.ty, data, o + 4, tb);
    LiveCount(ms, ty.fields, tb);
    LiveStatus(m, ty.fields.ty, tb);
    CopiesStatus(Number(ms), m);
    CopiesAre(ms, m);
    var first := LoadCoded(ty.fields.ty, data, o + 4, tb);
    if first.Some? && ms == Copies(Number(ms), first.value) {
      assert first.value == m;
    }
  }

  /** A struct of one `char`, defined and at the start of its block, meets all else and does not come back. */
  lemma {:induction false} CharIsNotRead(tb: Tables)
    ensures var ty := TStruct(Field(TNum(Char), NoFields));
            var v := VStruct(ty, DEFINED, STRUCT_ID, Member(VNum(Num(Char, DEFINED, 5, Id(Char))), NoMembers));
            Live(v, ty, tb) && Uniform(v) && FirstWord(Encode(v)) == STRUCT_ID &&
            LoadCoded(ty, Encode(v), 0, tb) != Some(v)
  {
    hide LoadCoded;
    var ty := TStruct(Field(TNum(Char), NoFields));
    var n := Num(Char, DEFINED, 5, Id(Char));
    var v := VStruct(ty, DEFINED, STRUCT_ID, Member(VNum(n), NoMembers));
    Limits();
    assert NumOk(n) && LiveAll(v.members, ty.fields, tb);
    LeWord(STRUCT_ID, 4);
    SliceIsRange(Encode(v), 0, 4);
    assert Encode(v)[0..4] == Le(STRUCT_ID, 4);
    assert Encode(v)[0..0 + |Encode(v)|] == Encode(v);
    AsWrittenReads(v, ty, Encode(v), 0, tb);
    assert !KnownTag(v.members.v);
  }
}

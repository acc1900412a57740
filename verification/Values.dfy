/**
 Values as they are stored in memory blocks: pointers, functions, stack positions and structs
 (types.cpp), and `from_lvalue` (cast.cpp), which reads them back.

 Reading is modelled with these repairs: a number is recognised by the tag of its own kind
 (types.h:252-263), a struct's tag is read at the struct's own offset and its members one after the
 other (types.cpp:586, 604-645), and the bound for a number includes its tag (cast.cpp:163).
 Storing is as written.
 */
module Values {
  import opened Options
  import opened Words
  import opened Numbers

  datatype Ty =
    | TNum(kind: Kind)
    | TPtr(pointee: nat)
    | TFunc(signature: nat)
    | TArr(len: nat, elem: Ty)
    | TStruct(fields: Fields)
    | TUnion(fields: Fields)

  datatype Fields = NoFields | Field(ty: Ty, rest: Fields)

  /** What a pointer holds: a block, null, or (when it is undefined) the stored words. */
  datatype Ref = BlockRef(id: nat) | NullRef | RawRef(tag: nat, id: nat)

  datatype Val =
    | VNum(n: Num)
    | VPtr(ty: Ty, status: Status, ref: Ref, offset: nat)
    | VFunc(ty: Ty, status: Status, tag: nat, fid: nat)
    | VStackPos(status: Status, tag: nat, level: nat, num: nat)
    | VStruct(ty: Ty, status: Status, tag: nat, members: Members)

  datatype Members = NoMembers | Member(v: Val, rest: Members)

  datatype MemType = STATIC | GLOBAL | STACK | HEAP | EXTERN | INVALID | FREED

  const BLOCK_ID_NULL: nat := 1
  const BLOCK_ID_INVALID: nat := 2
  const SIZE_MAX: nat := 0xFFFF_FFFF_FFFF_FFFF

  const SIZE_PTR: nat := 16
  const SIZE_FUNC: nat := 8
  const SIZE_STACKPOS: nat := 12

  function StatusOf(v: Val): Status {
    match v
    case VNum(n) => n.status
    case VPtr(_, s, _, _) => s
    case VFunc(_, s, _, _) => s
    case VStackPos(s, _, _, _) => s
    case VStruct(_, s, _, _) => s
  }

  // ----- Store -----

  /** `size()` */
  function Size(v: Val): nat {
    match v
    case VNum(n) => NumSize(n.kind)
    case VPtr(_, _, _, _) => SIZE_PTR
    case VFunc(_, _, _, _) => SIZE_FUNC
    case VStackPos(_, _, _, _) => SIZE_STACKPOS
    case VStruct(_, _, _, ms) => 4 + SizeAll(ms)
  }

  function SizeAll(ms: Members): nat {
    match ms
    case NoMembers => 0
    case Member(v, rest) => Size(v) + SizeAll(rest)
  }

  function EncodePtr(status: Status, ref: Ref, offset: nat): (b: seq<byte>)
    ensures |b| == SIZE_PTR
  {
    if status == UNINITIALIZED then Le(Uninit(PTR_ID), 4) + Le(BLOCK_ID_INVALID, 4) + Le(SIZE_MAX, 8)
    else match ref
      case BlockRef(id) => Le(PTR_ID, 4) + Le(id, 4) + Le(offset, 8)
      case NullRef => Le(PTR_ID, 4) + Le(BLOCK_ID_NULL, 4) + Le(offset, 8)
      case RawRef(tag, id) => Le(tag, 4) + Le(id, 4) + Le(offset, 8)
  }

  /** `dump_repr`; it writes `Size(v)` bytes. */
  function Encode(v: Val): (b: seq<byte>)
    ensures |b| == Size(v)
  {
    match v
    case VNum(n) => EncodeNum(n)
    case VPtr(_, status, ref, offset) => EncodePtr(status, ref, offset)
    case VFunc(_, _, tag, fid) => Le(tag, 4) + Le(fid, 4)
    case VStackPos(_, tag, level, num) => Le(tag, 4) + Le(level, 4) + Le(num, 4)
    case VStruct(_, _, tag, ms) => Le(tag, 4) + EncodeAll(ms)
  }

  function EncodeAll(ms: Members): (b: seq<byte>)
    ensures |b| == SizeAll(ms)
  {
    match ms
    case NoMembers => []
    case Member(v, rest) => Encode(v) + EncodeAll(rest)
  }

  // ----- Load -----

  /** The ids of the blocks in `active_mem`, and of the functions in `global_functions`. */
  datatype Tables = Tables(blocks: set<nat>, funcs: set<nat>)

  function LoadPtr(ty: Ty, b: seq<byte>, tb: Tables): Val
    requires |b| == SIZE_PTR
  {
    var tag, id, offset := FromLe(b[..4]), FromLe(b[4..8]), FromLe(b[8..]);
    if tag == Uninit(PTR_ID) then VPtr(ty, UNINITIALIZED, RawRef(tag, id), offset)
    else if tag == PTR_ID && id in tb.blocks then VPtr(ty, DEFINED, BlockRef(id), offset)
    else VPtr(ty, UNDEFINED, RawRef(tag, id), offset)
  }

  function LoadFunc(ty: Ty, b: seq<byte>, tb: Tables): Val
    requires |b| == SIZE_FUNC
  {
    var tag, id := FromLe(b[..4]), FromLe(b[4..]);
    VFunc(ty,
          if tag == Uninit(FUNC_ID) then UNINITIALIZED
          else if tag == FUNC_ID && id in tb.funcs then DEFINED
          else UNDEFINED,
          tag, id)
  }

  function LoadStackPos(b: seq<byte>): Val
    requires |b| == SIZE_STACKPOS
  {
    var tag := FromLe(b[..4]);
    VStackPos(if tag == Uninit(STACKPOS_ID) then UNINITIALIZED
              else if tag == STACKPOS_ID then DEFINED
              else UNDEFINED,
              tag, FromLe(b[4..8]), FromLe(b[8..]))
  }

  function StructTagStatus(tag: nat): Status {
    if tag == Uninit(STRUCT_ID) then UNINITIALIZED else if tag == STRUCT_ID then DEFINED else UNDEFINED
  }

  /** The status loop of the struct constructor, on one member. */
  function Worsen(temp: Status, s: Status): Status {
    if s == temp then temp
    else if s == UNDEFINED then s
    else if temp != UNDEFINED && s != DEFINED then s
    else temp
  }

  function WorsenAll(temp: Status, ms: Members): Status
    decreases ms
  {
    match ms
    case NoMembers => temp
    case Member(v, rest) => WorsenAll(Worsen(temp, StatusOf(v)), rest)
  }

  predicate IsRecord(ty: Ty) {
    ty.TStruct? || ty.TUnion?
  }

  /** The bytes that a load of a type without members reads. */
  function ScalarExtent(ty: Ty): nat
    requires !IsRecord(ty)
  {
    match ty
    case TNum(k) => NumSize(k)
    case TFunc(_) => SIZE_FUNC
    case TPtr(_) => SIZE_PTR
    case TArr(_, _) => SIZE_PTR
  }

  function LoadScalar(ty: Ty, b: seq<byte>, tb: Tables): Val
    requires !IsRecord(ty) && |b| == ScalarExtent(ty)
  {
    match ty
    case TNum(k) => VNum(LoadNum(k, b))
    case TFunc(_) => LoadFunc(ty, b, tb)
    case TPtr(_) => LoadPtr(ty, b, tb)
    case TArr(_, _) => LoadPtr(ty, b, tb)
  }

  /** A struct from its tag and its members. */
  function Record(ty: Ty, tag: nat, ms: Option<Members>): Option<Val> {
    if ms.None? then None else Some(VStruct(ty, WorsenAll(StructTagStatus(tag), ms.value), tag, ms.value))
  }

  function Joined(v: Val, ms: Option<Members>): Option<Members> {
    if ms.None? then None else Some(Member(v, ms.value))
  }

  /** `from_lvalue` at offset `o` of a block that holds `data`; None is an aborted run. */
  function Load(ty: Ty, data: seq<byte>, o: nat, tb: Tables): Option<Val>
    decreases ty
  {
    if o > |data| then None
    else if IsRecord(ty) then
      if |data| - o < 4 then None
      else Record(ty, FromLe(Slice(data, o, 4)), LoadAll(ty.fields, data, o + 4, tb))
    else if |data| - o < ScalarExtent(ty) then None
    else Some(LoadScalar(ty, Slice(data, o, ScalarExtent(ty)), tb))
  }

  function LoadAll(fs: Fields, data: seq<byte>, o: nat, tb: Tables): Option<Members>
    decreases fs
  {
    if fs.NoFields? then Some(NoMembers)
    else
      var first := Load(fs.ty, data, o, tb);
      if first.None? then None else Joined(first.value, LoadAll(fs.rest, data, o + Size(first.value), tb))
  }
}

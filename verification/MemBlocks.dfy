/**
 A memory block (mem.cpp): its bytes and its typed tags, `write`, the `dump_repr` loops that fill the
 bytes (types.h, types.cpp), and `newarr` (cast.cpp).
 */
module MemBlocks {
  import opened Options
  import opened Words
  import opened Numbers
  import opened Values
  import opened ValueProofs
  import T = TagSpec
  import R = TagRuns
  import opened TagBlock

  // ----- Storing into a buffer -----

  lemma {:induction false} PatchTwice(d: seq<byte>, at: nat, a: seq<byte>, b: seq<byte>)
    requires at + |a| + |b| <= |d|
    ensures Patch(Patch(d, at, a), at + |a|, b) == Patch(d, at, a + b)
  {
  }

  lemma {:induction false} PatchOne(d: seq<byte>, at: nat, done: seq<byte>, x: byte)
    requires at + |done| < |d|
    ensures Patch(d, at, done)[at + |done| := x] == Patch(d, at, done + [x])
  {
  }

  lemma {:induction false} NextByte(done: seq<byte>, t: nat, w: nat, all: seq<byte>)
    requires w > 0 && done + Le(t, w) == all
    ensures done + [t % 0x100] + Le(t / 0x100, w - 1) == all
  {
    assert done + ([t % 0x100] + Le(t / 0x100, w - 1)) == done + [t % 0x100] + Le(t / 0x100, w - 1);
  }

  method PutByte(x: byte, buf: array<byte>, at: nat, i: nat, ghost d: seq<byte>, ghost done: seq<byte>)
    requires |d| == buf.Length && i == |done| && at + i < buf.Length && buf[..] == Patch(d, at, done)
    modifies buf
    ensures buf[..] == Patch(d, at, done + [x])
  {
    PatchOne(d, at, done, x);
    buf[at + i] := x;
    assert buf[..] == Patch(d, at, done)[at + i := x];
  }

  /** A host word of `w` bytes. */
  method PutWord(n: nat, w: nat, buf: array<byte>, at: nat)
    requires at + w <= buf.Length
    modifies buf
    ensures buf[..] == Patch(old(buf[..]), at, Le(n, w))
  {
    var t, i := n, 0;
    ghost var d, all := buf[..], Le(n, w);
    ghost var done: seq<byte> := [];
    while i < w
      invariant i == |done| <= w && done + Le(t, w - i) == all && buf[..] == Patch(d, at, done)
    {
      NextByte(done, t, w - i, all);
      PutByte(t % 0x100, buf, at, i, d, done);
      done := done + [t % 0x100];
      t := t / 0x100;
      i := i + 1;
    }
    assert done == all;
  }

  method DumpNum(n: Num, buf: array<byte>, at: nat)
    requires at + NumSize(n.kind) <= buf.Length
    modifies buf
    ensures buf[..] == Patch(old(buf[..]), at, EncodeNum(n))
  {
    hide Le, Be, Uninit, Id, Bits;
    ghost var d := buf[..];
    if n.status == UNINITIALIZED {
      PutWord(Uninit(Id(n.kind)), 4, buf, at);
      PutOnes(Bytes(n.kind), buf, at + 4);
      PatchTwice(d, at, Le(Uninit(Id(n.kind)), 4), seq(Bytes(n.kind), _ => 1));
    } else {
      PutWord(n.tag, 4, buf, at);
      EncodeValue(n.val, Bytes(n.kind), buf, at + 4);
      PatchTwice(d, at, Le(n.tag, 4), Be(n.val, Bytes(n.kind)));
    }
  }

  method PutOnes(n: nat, buf: array<byte>, at: nat)
    requires at + n <= buf.Length
    modifies buf
    ensures buf[..] == Patch(old(buf[..]), at, seq(n, _ => 1))
  {
    for i := 0 to n
      invariant forall j :: 0 <= j < buf.Length ==> buf[j] == if at <= j < at + i then 1 else old(buf[j])
    {
      buf[at + i] := 1;
    }
  }

  method DumpPtr(status: Status, ref: Ref, offset: nat, buf: array<byte>, at: nat)
    requires at + SIZE_PTR <= buf.Length
    modifies buf
    ensures buf[..] == Patch(old(buf[..]), at, EncodePtr(status, ref, offset))
  {
    var tag, id, o;
    if status == UNINITIALIZED {
      tag, id, o := Uninit(PTR_ID), BLOCK_ID_INVALID, SIZE_MAX;
    } else {
      match ref {
        case BlockRef(b) => tag, id, o := PTR_ID, b, offset;
        case NullRef => tag, id, o := PTR_ID, BLOCK_ID_NULL, offset;
        case RawRef(t, b) => tag, id, o := t, b, offset;
      }
    }
    PutThree(tag, id, o, 8, buf, at);
  }

  method PutThree(a: nat, b: nat, c: nat, w: nat, buf: array<byte>, at: nat)
    requires at + 8 + w <= buf.Length
    modifies buf
    ensures buf[..] == Patch(old(buf[..]), at, Le(a, 4) + Le(b, 4) + Le(c, w))
  {
    ghost var d := buf[..];
    PutWord(a, 4, buf, at);
    PutWord(b, 4, buf, at + 4);
    PatchTwice(d, at, Le(a, 4), Le(b, 4));
    PutWord(c, w, buf, at + 8);
    PatchTwice(d, at, Le(a, 4) + Le(b, 4), Le(c, w));
  }

  /** `dump_repr` of any value: exactly the footprint of the value changes. */
  method Dump(v: Val, buf: array<byte>, at: nat)
    requires at + Size(v) <= buf.Length
    modifies buf
    ensures buf[..] == Patch(old(buf[..]), at, Encode(v))
    decreases v, 0
  {
    ghost var d := buf[..];
    match v {
      case VNum(n) => DumpNum(n, buf, at);
      case VPtr(_, status, ref, offset) => DumpPtr(status, ref, offset, buf, at);
      case VFunc(_, _, tag, fid) =>
        PutWord(tag, 4, buf, at);
        PutWord(fid, 4, buf, at + 4);
        PatchTwice(d, at, Le(tag, 4), Le(fid, 4));
      case VStackPos(_, tag, level, num) => PutThree(tag, level, num, 4, buf, at);
      case VStruct(_, _, tag, ms) => DumpStruct(tag, ms, buf, at);
    }
  }

  lemma {:induction false} NextMember(done: seq<byte>, it: Members, all: seq<byte>)
    requires it.Member? && done + EncodeAll(it) == all
    ensures done + Encode(it.v) + EncodeAll(it.rest) == all
    ensures |done| + Size(it.v) + SizeAll(it.rest) == |all|
  {
    assert done + (Encode(it.v) + EncodeAll(it.rest)) == done + Encode(it.v) + EncodeAll(it.rest);
  }

  /** One round of the loop in `EmuStruct::dump_repr`; `done` is what the earlier rounds wrote. */
  method DumpMember(v: Val, buf: array<byte>, at: nat, offset: nat, ghost d: seq<byte>, ghost done: seq<byte>)
    requires |d| == buf.Length && offset == |done| && at + |done| + Size(v) <= buf.Length
    requires buf[..] == Patch(d, at, done)
    modifies buf
    ensures buf[..] == Patch(d, at, done + Encode(v))
    decreases v, 1
  {
    Dump(v, buf, at + offset);
    PatchTwice(d, at, done, Encode(v));
  }

  method DumpStruct(tag: nat, ms: Members, buf: array<byte>, at: nat)
    requires at + 4 + SizeAll(ms) <= buf.Length
    modifies buf
    ensures buf[..] == Patch(old(buf[..]), at, Le(tag, 4) + EncodeAll(ms))
    decreases ms
  {
    ghost var d, all := buf[..], Le(tag, 4) + EncodeAll(ms);
    PutWord(tag, 4, buf, at);
    var offset, it := 4, ms;
    ghost var done := Le(tag, 4);
    while it.Member?
      invariant (it == ms || it < ms) && offset == |done| && done + EncodeAll(it) == all
      invariant buf[..] == Patch(d, at, done)
      decreases it
    {
      NextMember(done, it, all);
      DumpMember(it.v, buf, at, offset, d, done);
      done := done + Encode(it.v);
      offset := offset + Size(it.v);
      it := it.rest;
    }
    assert done == all;
  }

  // ----- Blocks -----

  lemma {:induction false} SizePos(v: Val)
    ensures Size(v) >= 4
  {
    if v.VNum? {
      BytesOfKind(v.n.kind);
    }
  }

  /** The tag type of an object: the identity of its C type, which determines its size. */
  function TagTy(id: nat, v: Val): T.Ty {
    SizePos(v);
    T.Obj(id, Size(v))
  }

  class MemBlock {
    const size: nat
    const data: array<byte>
    const tags: TagList
    var memtype: MemType

    ghost predicate Valid()
      reads this, data, tags, tags.repr
    {
      data.Length == size && tags.Valid() && T.FitsBlock(tags.view, size)
    }

    constructor (memtype: MemType, size: nat)
      ensures Valid() && fresh(data) && fresh(tags) && fresh(tags.repr)
      ensures this.memtype == memtype && this.size == size && tags.view == []
    {
      this.memtype := memtype;
      this.size := size;
      data := new byte[size];
      tags := new TagList();
    }

    /** False is an aborted run. */
    method Write(v: Val, id: nat, offset: nat) returns (ok: bool)
      requires Valid()
      modifies data, tags, tags.repr
      ensures ok <==> offset + Size(v) <= size
      ensures !ok ==> data[..] == old(data[..]) && tags.view == old(tags.view)
      ensures ok ==> data[..] == Patch(old(data[..]), offset, Encode(v))
      ensures ok ==> tags.view == T.Write(old(tags.view), TagTy(id, v), offset)
      ensures Valid() && fresh(tags.repr - old(tags.repr))
    {
      var s := size;
      if offset > s {
        return false;
      }
      var typesize := Size(v);
      if s - offset < typesize {
        return false;
      }
      Dump(v, data, offset);
      tags.Update(TagTy(id, v), offset);
      T.WriteFits(old(tags.view), T.Store(TagTy(id, v), offset), size);
      return true;
    }

    /** `from_lvalue` on an offset of this block; None is an aborted run. */
    method Read(ty: Ty, offset: nat, tb: Tables) returns (r: Option<Val>)
      requires Valid()
      ensures r.Some? <==> memtype != FREED && offset + Extent(ty) <= size
      ensures r.Some? ==> r == Load(ty, data[..], offset, tb) && Size(r.value) == Extent(ty)
      ensures forall v :: Live(v, ty, tb) && StoredAt(data[..], offset, Encode(v)) && memtype != FREED ==> r == Some(v)
    {
      LoadExtent(ty, data[..], offset, tb);
      forall v | Live(v, ty, tb) && StoredAt(data[..], offset, Encode(v))
        ensures Load(ty, data[..], offset, tb) == Some(v)
      {
        RoundTrip(v, ty, data[..], offset, tb);
      }
      if memtype == FREED {
        return None;
      }
      return Load(ty, data[..], offset, tb);
    }

    /** A value that is written and then read, and what else is read before and after. */
    method WriteThenRead(v: Val, id: nat, offset: nat, ty: Ty, elsewhere: nat, other: Ty, tb: Tables)
      returns (before: Option<Val>, back: Option<Val>, after: Option<Val>)
      requires Valid() && offset + Size(v) <= size && Live(v, ty, tb)
      modifies data, tags, tags.repr
      ensures Valid() && back == (if memtype == FREED then None else Some(v))
      ensures elsewhere + Extent(other) <= offset || offset + Size(v) <= elsewhere ==> after == before
    {
      hide Load, Encode, Patch, Live, StoredAt, Extent, T.FitsBlock, T.Write;
      before := Read(other, elsewhere, tb);
      ghost var d := data[..];
      var ok := Write(v, id, offset);
      if elsewhere + Extent(other) <= offset || offset + Size(v) <= elsewhere {
        WriteIsLocal(v, offset, other, d, elsewhere, tb);
      }
      PatchStores(d, offset, Encode(v));
      back := Read(ty, offset, tb);
      after := Read(other, elsewhere, tb);
    }
  }

  lemma {:induction false} PatchStores(d: seq<byte>, off: nat, b: seq<byte>)
    requires off + |b| <= |d|
    ensures StoredAt(Patch(d, off, b), off, b)
  {
  }

  // ----- Arrays -----

  function Repeat(b: seq<byte>, n: nat): (r: seq<byte>)
    requires |b| > 0
    ensures |r| == T.Span(|b|, n)
  {
    if n == 0 then [] else Repeat(b, n - 1) + b
  }

  /** The tags of `n` objects of type `ty` written one after the other: a single run. */
  function Run(ty: T.Ty, n: nat): seq<T.Tag> {
    if n == 0 then [] else [T.Tag(0, ty, n)]
  }

  /** `newarr`: `num` copies of `sub` in a new block; None is an aborted run. */
  method NewArr(sub: Val, id: nat, num: nat, memtype: MemType) returns (r: Option<MemBlock>)
    ensures r.None? <==> num * Size(sub) > SIZE_MAX
    ensures r.Some? ==> fresh(r.value) && r.value.Valid() && r.value.memtype == memtype
    ensures r.Some? ==> r.value.size == num * Size(sub) && r.value.data[..] == Repeat(Encode(sub), num)
    ensures r.Some? ==> r.value.tags.view == Run(TagTy(id, sub), num)
  {
    SizePos(sub);
    var s := Size(sub);
    var maxnum := SIZE_MAX / s;
    QuotientBound(num, s, SIZE_MAX);
    if num > maxnum {
      return None;
    }
    T.SpanIsProduct(s, num);
    var block := new MemBlock(memtype, num * s);
    FillArray(block, sub, id, num);
    return Some(block);
  }

  lemma {:induction false} Scale(a: nat, b: nat, s: nat)
    requires a <= b
    ensures a * s <= b * s
  {
  }

  lemma {:induction false} QuotientBound(n: nat, s: nat, m: nat)
    requires s > 0
    ensures n > m / s <==> n * s > m
  {
    var q := m / s;
    if n > q {
      Scale(q + 1, n, s);
    } else {
      Scale(n, q, s);
    }
  }

  /** The `k`-th element, at offset `i`, after the earlier ones. */
  method FillOne(block: MemBlock, sub: Val, id: nat, i: nat, ghost k: nat)
    requires block.Valid() && block.tags.view == Run(TagTy(id, sub), k)
    requires Size(sub) > 0 && i == T.Span(Size(sub), k)
    requires i + Size(sub) <= block.size && block.data[..i] == Repeat(Encode(sub), k)
    modifies block.data, block.tags, block.tags.repr
    ensures block.Valid() && fresh(block.tags.repr - old(block.tags.repr))
    ensures block.tags.view == Run(TagTy(id, sub), k + 1)
    ensures block.data[..i + Size(sub)] == Repeat(Encode(sub), k + 1)
  {
    hide T.FitsBlock, T.Write, Encode, T.Span;
    R.ArrayIsOneRun(TagTy(id, sub), if k == 0 then 1 else k);
    SpanZero(Size(sub));
    PatchPrefix(block.data[..], i, Encode(sub));
    var ok := block.Write(sub, id, i);
  }

  lemma {:induction false} SpanZero(s: nat)
    requires s > 0
    ensures T.Span(s, 0) == 0
  {
  }

  method FillArray(block: MemBlock, sub: Val, id: nat, num: nat)
    requires block.Valid() && Size(sub) > 0 && block.size == T.Span(Size(sub), num) && block.tags.view == []
    modifies block.data, block.tags, block.tags.repr
    ensures block.Valid() && fresh(block.tags.repr - old(block.tags.repr))
    ensures block.data[..] == Repeat(Encode(sub), num) && block.tags.view == Run(TagTy(id, sub), num)
  {
    hide T.FitsBlock, Encode;
    SizePos(sub);
    var s, i := Size(sub), 0;
    ghost var k := 0;
    while i < block.size
      invariant k <= num && i == T.Span(s, k) && block.Valid() && block.tags.view == Run(TagTy(id, sub), k)
      invariant i <= block.size && block.data[..i] == Repeat(Encode(sub), k)
      invariant fresh(block.tags.repr - old(block.tags.repr))
      decreases num - k
    {
      NextElement(s, k, num, i);
      FillOne(block, sub, id, i, k);
      k := k + 1;
      i := i + s;
    }
    LastElement(s, k, num);
    assert block.data[..i] == block.data[..];
  }

  lemma {:induction false} NextElement(s: nat, k: nat, num: nat, i: nat)
    requires s > 0 && k <= num && i == T.Span(s, k) && i < T.Span(s, num)
    ensures k < num && i + s <= T.Span(s, num) && i + s == T.Span(s, k + 1)
  {
    T.SpanMono(s, k, num);
  }

  lemma {:induction false} LastElement(s: nat, k: nat, num: nat)
    requires s > 0 && k <= num && T.Span(s, k) >= T.Span(s, num)
    ensures k == num
  {
    if k < num {
      T.SpanMono(s, k, num);
    }
  }

  lemma {:induction false} PatchPrefix(d: seq<byte>, i: nat, b: seq<byte>)
    requires i + |b| <= |d|
    ensures Patch(d, i, b)[..i + |b|] == d[..i] + b
  {
  }
}

/**
 The typed-tag run list of a memory block (mem.cpp), on values.

 A block is annotated with an ordered run-length list of tags; `Write` is the list that
 `update_tag_write` leaves behind, and `Overwrite` is what a write means on a plain map from
 byte to cell.  `WriteRefinesOverwrite` says the two agree.  The tag that a write starts from is the
 last one at or before its offset (`Below`), by full comparison: the source's search narrows offsets to
 `int` (TagAsWritten.dfy).  The pointer-linked version that updates the nodes in place is in
 TagBlock.dfy.
 */
module TagSpec {

  type pos = n: nat | n > 0 witness 1

  /** The C type a tag carries.  A type determines the size of its objects. */
  datatype Ty = Raw | Obj(id: nat, size: pos)

  function ElemSize(t: Ty): pos {
    if t.Raw? then 1 else t.size
  }

  /** `count` consecutive objects of type `ty`, the first one at `offset`. */
  datatype Tag = Tag(offset: nat, ty: Ty, count: nat)

  /** The size of `n` objects of `s` bytes, that is `s * n` (`SpanIsProduct`). */
  function Span(s: pos, n: nat): (r: nat)
    ensures s == 1 ==> r == n
    ensures n == 1 ==> r == s
  {
    if n == 0 then 0 else s + Span(s, n - 1)
  }

  /** The number of whole `s`-byte objects in `d` bytes, and the bytes left over (`QuotRemAreDivMod`). */
  function Quot(d: nat, s: pos): nat {
    if d < s then 0 else 1 + Quot(d - s, s)
  }

  function Rem(d: nat, s: pos): nat {
    if d < s then d else Rem(d - s, s)
  }

  function End(t: Tag): nat {
    t.offset + Span(ElemSize(t.ty), t.count)
  }

  predicate Covers(t: Tag, b: nat) {
    t.offset <= b < End(t)
  }

  /** Sorted, disjoint, non-empty runs, none of them before `lo`. */
  predicate WellFormed(lo: nat, ts: seq<Tag>)
    decreases |ts|
  {
    ts == [] || (lo <= ts[0].offset && ts[0].count > 0 && WellFormed(End(ts[0]), ts[1..]))
  }

  // ----- What a list of tags says about each byte -----

  /** What is known of one byte: nothing, raw data, or the `at`-th byte of an object. */
  datatype Cell = Unwritten | RawByte | Part(ty: Ty, at: nat)

  function CellOf(t: Tag, b: nat): Cell
    requires t.offset <= b
  {
    if t.ty.Raw? then RawByte else Part(t.ty, Rem(b - t.offset, t.ty.size))
  }

  function CellAt(ts: seq<Tag>, b: nat): Cell {
    if ts == [] then Unwritten
    else if Covers(ts[0], b) then CellOf(ts[0], b)
    else CellAt(ts[1..], b)
  }

  /** Does byte `b` belong to an object that has a byte in [off, endpos)? */
  predicate Cut(c: Cell, b: nat, off: nat, endpos: nat) {
    c.Part? && b < c.at + endpos && off + c.at < b + ElemSize(c.ty)
  }

  /** The reference semantics of a write, one byte at a time. */
  function OverwriteCell(c: Cell, ty: Ty, off: nat, b: nat): Cell {
    if off <= b < off + ElemSize(ty) then Part(ty, b - off)
    else if Cut(c, b, off, off + ElemSize(ty)) then RawByte
    else c
  }

  // ----- The list algorithm -----

  /** The first object of `a` that a write ending at `endpos` leaves whole. */
  function FirstValid(a: Tag, endpos: nat): (f: nat)
    requires a.offset < endpos < End(a)
    ensures f <= a.count && endpos <= a.offset + Span(ElemSize(a.ty), f) < endpos + ElemSize(a.ty)
  {
    CeilFacts(endpos - a.offset, ElemSize(a.ty));
    FitsCount(a, Quot(endpos - a.offset + ElemSize(a.ty) - 1, ElemSize(a.ty)), endpos);
    Quot(endpos - a.offset + ElemSize(a.ty) - 1, ElemSize(a.ty))
  }

  /** What remains of `a` from byte `endpos` on: the rest of a cut object as raw, then whole objects. */
  function CutFront(a: Tag, endpos: nat): seq<Tag>
    requires a.offset < endpos < End(a)
  {
    var ts := ElemSize(a.ty);
    var firstvalid := FirstValid(a, endpos);
    var alignbytes := a.offset + Span(ts, firstvalid) - endpos;
    var newcount := a.count - firstvalid;
    if alignbytes == 0 then [Tag(endpos, a.ty, newcount)]
    else if newcount == 0 then [Tag(endpos, Raw, alignbytes)]
    else [Tag(endpos, Raw, alignbytes), Tag(endpos + alignbytes, a.ty, newcount)]
  }

  /** What remains of `a` before byte `off`: whole objects, then the start of a cut object as raw. */
  function CutBack(a: Tag, off: nat): seq<Tag>
    requires a.offset <= off
  {
    var ts := ElemSize(a.ty);
    var lastvalid := Quot(off - a.offset, ts);
    FloorFacts(off - a.offset, ts);
    var validbytes := Span(ts, lastvalid);
    var alignbytes := off - (a.offset + validbytes);
    (if lastvalid == 0 then [] else [a.(count := lastvalid)])
    + (if alignbytes == 0 then [] else [Tag(a.offset + validbytes, Raw, alignbytes)])
  }

  /** `deal_with_end`: the list from `extended` on, once the tags of `rest` have made room for it. */
  function DealWithEnd(extended: Tag, rest: seq<Tag>, endpos: nat): seq<Tag>
    decreases |rest|
  {
    if rest == [] then [extended]
    else
      var affected := rest[0];
      if affected.offset >= endpos then
        if affected.offset == endpos && extended.ty == affected.ty then
          DealWithEnd(extended.(count := extended.count + affected.count), rest[1..], endpos)
        else
          [extended] + rest
      else if End(affected) > endpos then
        [extended] + CutFront(affected, endpos) + rest[1..]
      else
        DealWithEnd(extended, rest[1..], endpos)
  }

  /** The number of leading tags that start at or before `off`; `findBelow` returns the last of them. */
  function Below(ts: seq<Tag>, off: nat): (n: nat)
    ensures n <= |ts|
  {
    if ts == [] || ts[0].offset > off then 0 else 1 + Below(ts[1..], off)
  }

  function Aligned(t: Tag, off: nat): bool
    requires t.offset <= off
  {
    Rem(off - t.offset, ElemSize(t.ty)) == 0
  }

  /** `update_tag_write` from its `start` tag on. */
  function WriteFrom(start: Tag, rest: seq<Tag>, ty: Ty, off: nat): seq<Tag>
    requires start.offset <= off
  {
    var endpos := off + ElemSize(ty);
    var fresh' := Tag(off, ty, 1);
    if off == End(start) && ty == start.ty then
      DealWithEnd(start.(count := start.count + 1), rest, endpos)
    else if off >= End(start) then
      [start] + DealWithEnd(fresh', rest, endpos)
    else if Aligned(start, off) && ty == start.ty then
      [start] + rest
    else if endpos < End(start) then
      CutBack(start, off) + [fresh'] + CutFront(start, endpos) + rest
    else
      CutBack(start, off) + DealWithEnd(fresh', rest, endpos)
  }

  /** `update_tag_write`: the list of tags after an object of type `ty` is written at `off`. */
  function Write(ts: seq<Tag>, ty: Ty, off: nat): seq<Tag> {
    var i := Below(ts, off);
    if i == 0 then
      DealWithEnd(Tag(off, ty, 1), ts, off + ElemSize(ty))
    else
      BelowFacts(ts, off);
      ts[..i - 1] + WriteFrom(ts[i - 1], ts[i..], ty, off)
  }

  lemma {:induction false} BelowFacts(ts: seq<Tag>, off: nat)
    ensures var i := Below(ts, off);
            (i > 0 ==> ts[i - 1].offset <= off) && (i < |ts| ==> off < ts[i].offset)
  {
    if ts != [] && ts[0].offset <= off {
      BelowFacts(ts[1..], off);
    }
  }

  // ----- Arithmetic of elements -----

  lemma {:induction false} SpanIsProduct(s: pos, n: nat)
    ensures Span(s, n) == s * n
  {
    if n > 0 {
      SpanIsProduct(s, n - 1);
    }
  }

  lemma {:induction false} SpanAdd(s: pos, a: nat, b: nat)
    ensures Span(s, a + b) == Span(s, a) + Span(s, b)
  {
    if b > 0 {
      SpanAdd(s, a, b - 1);
    }
  }

  lemma {:induction false} SpanMono(s: pos, a: nat, b: nat)
    requires a < b
    ensures Span(s, a) + s <= Span(s, b)
  {
    SpanAdd(s, a, b - a);
  }

  lemma {:induction false} FloorFacts(d: nat, s: pos)
    ensures Span(s, Quot(d, s)) + Rem(d, s) == d && Rem(d, s) < s
  {
    if d >= s {
      FloorFacts(d - s, s);
    }
  }

  lemma {:induction false} MulMono(s: pos, a: nat, b: nat)
    requires a < b
    ensures s * a + s <= s * b
  {
    SpanIsProduct(s, a);
    SpanIsProduct(s, b);
    SpanMono(s, a, b);
  }

  lemma {:induction false} DivModUnique(d: nat, s: pos, q: nat, r: nat)
    requires d == s * q + r && r < s
    ensures d / s == q && d % s == r
  {
    if d / s < q {
      MulMono(s, d / s, q);
    } else if q < d / s {
      MulMono(s, q, d / s);
    }
  }

  lemma {:induction false} QuotRemAreDivMod(d: nat, s: pos)
    ensures Quot(d, s) == d / s && Rem(d, s) == d % s
  {
    FloorFacts(d, s);
    SpanIsProduct(s, Quot(d, s));
    DivModUnique(d, s, Quot(d, s), Rem(d, s));
  }

  lemma {:induction false} CeilFacts(d: nat, s: pos)
    requires d > 0
    ensures var f := Quot(d + s - 1, s); f > 0 && d <= Span(s, f) < d + s
  {
    FloorFacts(d + s - 1, s);
  }

  lemma {:induction false} FitsCount(a: Tag, f: nat, endpos: nat)
    requires a.offset < endpos < End(a)
    requires Span(ElemSize(a.ty), f) < endpos - a.offset + ElemSize(a.ty)
    ensures f <= a.count
  {
    if f > a.count {
      SpanMono(ElemSize(a.ty), a.count, f);
    }
  }

  lemma {:induction false} DivUnique(x: nat, s: pos, q: nat, r: nat)
    requires x == Span(s, q) + r && r < s
    ensures Quot(x, s) == q && Rem(x, s) == r
  {
    FloorFacts(x, s);
    if Quot(x, s) < q {
      SpanMono(s, Quot(x, s), q);
    } else if q < Quot(x, s) {
      SpanMono(s, q, Quot(x, s));
    }
  }

  lemma {:induction false} ModShift(x: nat, k: nat, s: pos)
    ensures Rem(Span(s, k) + x, s) == Rem(x, s)
  {
    FloorFacts(x, s);
    SpanAdd(s, k, Quot(x, s));
    DivUnique(Span(s, k) + x, s, k + Quot(x, s), Rem(x, s));
  }

  // ----- Lists of cells -----

  lemma {:induction false} CellAppend(a: seq<Tag>, b: seq<Tag>, x: nat)
    ensures CellAt(a + b, x) == if CellAt(a, x).Unwritten? then CellAt(b, x) else CellAt(a, x)
  {
    if a == [] {
      assert a + b == b;
    } else {
      assert (a + b)[1..] == a[1..] + b;
      CellAppend(a[1..], b, x);
    }
  }

  lemma {:induction false} NothingBefore(lo: nat, ts: seq<Tag>, x: nat)
    requires WellFormed(lo, ts) && x < lo
    ensures CellAt(ts, x) == Unwritten
    decreases |ts|
  {
    if ts != [] {
      NothingBefore(End(ts[0]), ts[1..], x);
    }
  }

  function LastEnd(lo: nat, ts: seq<Tag>): nat {
    if ts == [] then lo else End(ts[|ts| - 1])
  }

  lemma {:induction false} NothingAfter(lo: nat, ts: seq<Tag>, x: nat)
    requires WellFormed(lo, ts) && LastEnd(lo, ts) <= x
    ensures lo <= LastEnd(lo, ts)
    ensures CellAt(ts, x) == Unwritten
    decreases |ts|
  {
    if ts != [] {
      NothingAfter(End(ts[0]), ts[1..], x);
    }
  }

  lemma {:induction false} WellFormedAppend(lo: nat, a: seq<Tag>, b: seq<Tag>)
    ensures WellFormed(lo, a + b) <==> WellFormed(lo, a) && WellFormed(LastEnd(lo, a), b)
    decreases |a|
  {
    if a == [] {
      assert a + b == b;
    } else {
      assert (a + b)[1..] == a[1..] + b;
      WellFormedAppend(End(a[0]), a[1..], b);
    }
  }

  lemma {:induction false} Weaken(lo: nat, lo': nat, ts: seq<Tag>)
    requires WellFormed(lo, ts) && (ts == [] || lo' <= ts[0].offset)
    ensures WellFormed(lo', ts)
  {
  }

  // ----- Cutting a run -----

  /** The object that byte `x` of run `t` belongs to is the `q`-th one. */
  lemma {:induction false} Locate(t: Tag, x: nat) returns (q: nat)
    requires Covers(t, x)
    ensures q == Quot(x - t.offset, ElemSize(t.ty)) && q < t.count
    ensures t.offset + Span(ElemSize(t.ty), q) <= x < t.offset + Span(ElemSize(t.ty), q + 1)
    ensures t.ty.Obj? ==> CellOf(t, x) == Part(t.ty, x - t.offset - Span(ElemSize(t.ty), q))
  {
    q := Quot(x - t.offset, ElemSize(t.ty));
    FloorFacts(x - t.offset, ElemSize(t.ty));
    if t.count <= q {
      if t.count < q { SpanMono(ElemSize(t.ty), t.count, q); }
      assert false;
    }
  }

  /** Dropping the first `k` objects of a run does not change what it says of the others. */
  lemma {:induction false} Trimmed(t: Tag, k: nat, x: nat)
    requires k <= t.count && t.offset + Span(ElemSize(t.ty), k) <= x
    ensures var u := Tag(t.offset + Span(ElemSize(t.ty), k), t.ty, t.count - k);
            End(u) == End(t) && CellOf(u, x) == CellOf(t, x)
  {
    var s := ElemSize(t.ty);
    SpanAdd(s, k, t.count - k);
    if t.ty.Obj? {
      ModShift(x - (t.offset + Span(s, k)), k, s);
    }
  }

  /** A byte of `a` belongs to an object cut by `endpos` exactly when it lies before the first whole one. */
  lemma {:induction false} CutFrontByte(a: Tag, endpos: nat, x: nat)
    requires a.offset < endpos < End(a) && endpos <= x < End(a)
    ensures a.ty.Obj? ==>
              (x < CellOf(a, x).at + endpos <==> x < a.offset + Span(ElemSize(a.ty), FirstValid(a, endpos)))
  {
    var s := ElemSize(a.ty);
    var f := FirstValid(a, endpos);
    var q := Locate(a, x);
    if q < f {
      SpanMono(s, q, f);
    } else if f < q {
      SpanMono(s, f, q);
    }
  }

  lemma {:induction false} CutFrontShape(a: Tag, endpos: nat)
    requires a.offset < endpos < End(a)
    ensures WellFormed(endpos, CutFront(a, endpos))
    ensures LastEnd(endpos, CutFront(a, endpos)) == End(a)
  {
    var k := Span(ElemSize(a.ty), FirstValid(a, endpos));
    Trimmed(a, FirstValid(a, endpos), a.offset + k);
    var c := CutFront(a, endpos);
    assert c[1..] == [] || (|c| == 2 && c[1..] == [c[1]]);
  }

  lemma {:induction false} CutFrontCells(a: Tag, endpos: nat, x: nat)
    requires a.offset < endpos < End(a)
    ensures CellAt(CutFront(a, endpos), x) ==
            if x < endpos || End(a) <= x then Unwritten
            else if CellOf(a, x).Part? && x < CellOf(a, x).at + endpos then RawByte
            else CellOf(a, x)
  {
    CutFrontShape(a, endpos);
    var c := CutFront(a, endpos);
    if x < endpos {
      NothingBefore(endpos, c, x);
    } else if End(a) <= x {
      NothingAfter(endpos, c, x);
    } else {
      CutFrontByte(a, endpos, x);
      var f := FirstValid(a, endpos);
      Trimmed(a, f, a.offset + Span(ElemSize(a.ty), f));
      assert c[1..] == [] || (|c| == 2 && c[1..] == [c[1]]);
      if a.offset + Span(ElemSize(a.ty), f) <= x {
        Trimmed(a, f, x);
      }
    }
  }

  lemma {:induction false} CutBackShape(a: Tag, off: nat)
    requires a.offset <= off < End(a)
    ensures WellFormed(a.offset, CutBack(a, off))
    ensures LastEnd(a.offset, CutBack(a, off)) == off
  {
    FloorFacts(off - a.offset, ElemSize(a.ty));
    var c := CutBack(a, off);
    assert |c| > 0 ==> c[1..] == [] || (|c| == 2 && c[1..] == [c[1]]);
  }

  /** A byte of `a` belongs to an object cut at `off` exactly when it lies after the last whole one. */
  lemma {:induction false} CutBackByte(a: Tag, off: nat, x: nat)
    requires a.offset <= x < off < End(a)
    ensures a.ty.Obj? ==>
              (off + CellOf(a, x).at < x + ElemSize(a.ty) <==>
               a.offset + Span(ElemSize(a.ty), Quot(off - a.offset, ElemSize(a.ty))) <= x)
  {
    var s := ElemSize(a.ty);
    var lv := Quot(off - a.offset, s);
    FloorFacts(off - a.offset, s);
    var q := Locate(a, x);
    if q < lv { SpanMono(s, q, lv); } else if lv < q { SpanMono(s, lv, q); }
  }

  lemma {:induction false} CutBackCells(a: Tag, off: nat, x: nat)
    requires a.offset <= off < End(a)
    ensures CellAt(CutBack(a, off), x) ==
            if x < a.offset || off <= x then Unwritten
            else if CellOf(a, x).Part? && off + CellOf(a, x).at < x + ElemSize(a.ty) then RawByte
            else CellOf(a, x)
  {
    CutBackShape(a, off);
    var c := CutBack(a, off);
    FloorFacts(off - a.offset, ElemSize(a.ty));
    if x < a.offset {
      NothingBefore(a.offset, c, x);
    } else if off <= x {
      NothingAfter(a.offset, c, x);
    } else {
      CutBackByte(a, off, x);
      CutBackLists(a, off, x);
    }
  }

  lemma {:induction false} CutBackLists(a: Tag, off: nat, x: nat)
    requires a.offset <= x < off < End(a)
    ensures CellAt(CutBack(a, off), x) ==
            if a.offset + Span(ElemSize(a.ty), Quot(off - a.offset, ElemSize(a.ty))) <= x then RawByte
            else CellOf(a, x)
  {
    FloorFacts(off - a.offset, ElemSize(a.ty));
    var c := CutBack(a, off);
    assert c[1..] == [] || (|c| == 2 && c[1..] == [c[1]]);
  }

  // ----- deal_with_end -----

  lemma {:induction false} ObjectsStartAfter(lo: nat, ts: seq<Tag>, x: nat)
    requires WellFormed(lo, ts) && CellAt(ts, x).Part?
    ensures lo + CellAt(ts, x).at <= x
    ensures CellAt(ts, x).at < ElemSize(CellAt(ts, x).ty)
    decreases |ts|
  {
    if Covers(ts[0], x) {
      var q := Locate(ts[0], x);
    } else {
      ObjectsStartAfter(End(ts[0]), ts[1..], x);
    }
  }

  lemma {:induction false} DealMerge(lo: nat, ext: Tag, rest: seq<Tag>, endpos: nat)
    requires WellFormed(lo, rest) && rest != [] && End(ext) == endpos
    requires rest[0].offset == endpos && ext.ty == rest[0].ty
    ensures var merged := ext.(count := ext.count + rest[0].count);
            End(merged) == End(rest[0]) && DealWithEnd(ext, rest, endpos) == [merged] + rest[1..]
  {
    var s := ElemSize(ext.ty);
    SpanAdd(s, ext.count, rest[0].count);
  }

  /** After `deal_with_end`: the extended run, then what the old tags say beyond `endpos`. */
  lemma {:induction false} DealWithEndCells(lo: nat, ext: Tag, rest: seq<Tag>, endpos: nat, x: nat)
    requires WellFormed(lo, rest) && ext.count > 0 && End(ext) == endpos
    ensures WellFormed(ext.offset, DealWithEnd(ext, rest, endpos))
    ensures CellAt(DealWithEnd(ext, rest, endpos), x) ==
            if x < ext.offset then Unwritten
            else if x < endpos then CellOf(ext, x)
            else if CellAt(rest, x).Part? && x < CellAt(rest, x).at + endpos then RawByte
            else CellAt(rest, x)
    decreases |rest|
  {
    var d := DealWithEnd(ext, rest, endpos);
    if rest == [] {
    } else {
      var a := rest[0];
      if a.offset >= endpos {
        if CellAt(rest, x).Part? && endpos <= x {
          Weaken(lo, endpos, rest);
          ObjectsStartAfter(endpos, rest, x);
        }
        if a.offset == endpos && ext.ty == a.ty {
          DealMerge(lo, ext, rest, endpos);
          assert d[1..] == rest[1..];
          if endpos <= x { Trimmed(d[0], ext.count, x); }
        } else {
          assert d[1..] == rest;
        }
        if x < endpos { NothingBefore(endpos, d[1..], x); }
      } else if End(a) > endpos {
        DealCutCells(lo, ext, rest, endpos, x);
      } else {
        DealWithEndCells(End(a), ext, rest[1..], endpos, x);
      }
    }
  }

  lemma {:induction false} DealCutCells(lo: nat, ext: Tag, rest: seq<Tag>, endpos: nat, x: nat)
    requires WellFormed(lo, rest) && rest != [] && ext.count > 0 && End(ext) == endpos
    requires rest[0].offset < endpos < End(rest[0])
    ensures var d := [ext] + CutFront(rest[0], endpos) + rest[1..];
            WellFormed(ext.offset, d) &&
            CellAt(d, x) ==
            if x < ext.offset then Unwritten
            else if x < endpos then CellOf(ext, x)
            else if CellAt(rest, x).Part? && x < CellAt(rest, x).at + endpos then RawByte
            else CellAt(rest, x)
  {
    var a := rest[0];
    var d := [ext] + CutFront(a, endpos) + rest[1..];
    CutFrontShape(a, endpos);
    WellFormedAppend(endpos, CutFront(a, endpos), rest[1..]);
    assert d[1..] == CutFront(a, endpos) + rest[1..];
    CutFrontCells(a, endpos, x);
    CellAppend(CutFront(a, endpos), rest[1..], x);
    if x < End(a) {
      NothingBefore(End(a), rest[1..], x);
    } else if CellAt(rest[1..], x).Part? {
      ObjectsStartAfter(End(a), rest[1..], x);
    }
  }

  // ----- update_tag_write -----

  lemma {:induction false} ObjectInRun(t: Tag, x: nat)
    requires Covers(t, x) && t.ty.Obj?
    ensures var at := CellOf(t, x).at;
            at < t.ty.size && t.offset + at <= x && x + t.ty.size <= End(t) + at
  {
    var q := Locate(t, x);
    if q + 1 < t.count { SpanMono(t.ty.size, q + 1, t.count); }
  }

  /** Where `deal_with_end` finished the job, bytes from `endpos` on obey the reference semantics. */
  lemma {:induction false} TailCells(lo: nat, rest: seq<Tag>, ty: Ty, off: nat, x: nat)
    requires WellFormed(lo, rest) && off + ElemSize(ty) <= x
    ensures var c := CellAt(rest, x);
            OverwriteCell(c, ty, off, x) ==
            if c.Part? && x < c.at + off + ElemSize(ty) then RawByte else c
  {
    if CellAt(rest, x).Part? {
      ObjectsStartAfter(lo, rest, x);
    }
  }

  /** What a list headed by `start` says about byte `x`. */
  function HeadedCell(start: Tag, rest: seq<Tag>, x: nat): Cell {
    if Covers(start, x) then CellOf(start, x) else CellAt(rest, x)
  }

  lemma {:induction false} Headed(start: Tag, rest: seq<Tag>, x: nat)
    ensures CellAt([start] + rest, x) == HeadedCell(start, rest, x)
    ensures WellFormed(start.offset, [start] + rest) <==> start.count > 0 && WellFormed(End(start), rest)
  {
    assert ([start] + rest)[1..] == rest;
  }

  lemma {:induction false} InsideBytes(start: Tag, rest: seq<Tag>, off: nat, endpos: nat, x: nat)
    requires WellFormed(End(start), rest) && start.offset <= off <= endpos <= End(start)
    ensures Covers(start, x) && start.ty.Obj? ==> CellOf(start, x).at < start.ty.size
    ensures !Covers(start, x) ==> !Cut(CellAt(rest, x), x, off, endpos)
    ensures x < End(start) ==> CellAt(rest, x) == Unwritten
  {
    if Covers(start, x) {
      if start.ty.Obj? { ObjectInRun(start, x); }
    } else if CellAt(rest, x).Part? {
      ObjectsStartAfter(End(start), rest, x);
    }
    if x < End(start) { NothingBefore(End(start), rest, x); }
  }

  lemma {:induction false} WriteAppendCells(start: Tag, rest: seq<Tag>, ty: Ty, off: nat, x: nat)
    requires ty.Obj? && start.count > 0 && WellFormed(End(start), rest)
    requires off == End(start) && ty == start.ty
    ensures var d := DealWithEnd(start.(count := start.count + 1), rest, off + ElemSize(ty));
            WellFormed(start.offset, d) &&
            CellAt(d, x) == OverwriteCell(HeadedCell(start, rest, x), ty, off, x)
  {
    var ext := start.(count := start.count + 1);
    assert End(ext) == off + ElemSize(ty);
    DealWithEndCells(off, ext, rest, End(ext), x);
    if x < off {
      NothingBefore(off, rest, x);
      if Covers(start, x) { ObjectInRun(start, x); }
    } else if x < End(ext) {
      Trimmed(ext, start.count, x);
    } else {
      TailCells(off, rest, ty, off, x);
    }
  }

  lemma {:induction false} WriteGapCells(start: Tag, rest: seq<Tag>, ty: Ty, off: nat, x: nat)
    requires ty.Obj? && start.count > 0 && WellFormed(End(start), rest)
    requires off >= End(start) && (rest != [] ==> off < rest[0].offset)
    ensures var d := [start] + DealWithEnd(Tag(off, ty, 1), rest, off + ElemSize(ty));
            WellFormed(start.offset, d) &&
            CellAt(d, x) == OverwriteCell(HeadedCell(start, rest, x), ty, off, x)
  {
    var d' := DealWithEnd(Tag(off, ty, 1), rest, off + ElemSize(ty));
    assert ([start] + d')[1..] == d';
    DealWithEndCells(End(start), Tag(off, ty, 1), rest, off + ElemSize(ty), x);
    Weaken(off, End(start), d') by { DealHead(Tag(off, ty, 1), rest, off + ElemSize(ty)); }
    if x < off {
      Weaken(End(start), off, rest);
      NothingBefore(off, rest, x);
      if Covers(start, x) && start.ty.Obj? { ObjectInRun(start, x); }
    } else if off + ElemSize(ty) <= x {
      TailCells(End(start), rest, ty, off, x);
    }
  }

  lemma {:induction false} DealHead(ext: Tag, rest: seq<Tag>, endpos: nat)
    ensures var d := DealWithEnd(ext, rest, endpos);
            d != [] && d[0].offset == ext.offset && d[0].ty == ext.ty && d[0].count >= ext.count
    decreases |rest|
  {
    if rest != [] {
      DealHead(ext.(count := ext.count + rest[0].count), rest[1..], endpos);
      DealHead(ext, rest[1..], endpos);
    }
  }

  /** An object of the run's own type, written where one already is, changes nothing. */
  lemma {:induction false} RewriteCells(start: Tag, rest: seq<Tag>, ty: Ty, off: nat, x: nat)
    requires ty.Obj? && start.count > 0 && WellFormed(End(start), rest)
    requires start.offset <= off < End(start) && Aligned(start, off) && ty == start.ty
    ensures HeadedCell(start, rest, x) == OverwriteCell(HeadedCell(start, rest, x), ty, off, x)
  {
    var s := ty.size;
    var m := Quot(off - start.offset, s);
    FloorFacts(off - start.offset, s);
    if m >= start.count {
      if m > start.count { SpanMono(s, start.count, m); }
      assert false;
    }
    SpanMono(s, m, start.count);
    InsideBytes(start, rest, off, off + s, x);
    if Covers(start, x) {
      var q := Locate(start, x);
      if q < m { SpanMono(s, q, m); } else if m < q { SpanMono(s, m, q); }
    }
  }

  /** A run between what stays before it and what stays after it. */
  lemma {:induction false} Between(lo: nat, back: seq<Tag>, mid: Tag, front: seq<Tag>, rest: seq<Tag>, x: nat)
    requires WellFormed(lo, back) && LastEnd(lo, back) <= mid.offset && mid.count > 0
    requires WellFormed(End(mid), front) && WellFormed(LastEnd(End(mid), front), rest)
    ensures WellFormed(lo, back + [mid] + front + rest)
    ensures CellAt(back + [mid] + front + rest, x) ==
            if CellAt(back, x) != Unwritten then CellAt(back, x)
            else if Covers(mid, x) then CellOf(mid, x)
            else if CellAt(front, x) != Unwritten then CellAt(front, x)
            else CellAt(rest, x)
  {
    assert back + [mid] + front + rest == back + ([mid] + (front + rest));
    Headed(mid, front + rest, x);
    WellFormedAppend(End(mid), front, rest);
    Weaken(mid.offset, LastEnd(lo, back), [mid] + (front + rest));
    WellFormedAppend(lo, back, [mid] + (front + rest));
    CellAppend(back, [mid] + (front + rest), x);
    CellAppend(front, rest, x);
  }

  /** The cells left by an interior write, given what is left on either side (`back` and `front`). */
  lemma {:induction false} InsideMeaning(start: Tag, rest: seq<Tag>, ty: Ty, off: nat, x: nat, back: Cell, front: Cell)
    requires ty.Obj? && start.count > 0 && WellFormed(End(start), rest)
    requires start.offset <= off && off + ElemSize(ty) < End(start)
    requires back == if x < start.offset || off <= x then Unwritten
                     else if CellOf(start, x).Part? && off + CellOf(start, x).at < x + ElemSize(start.ty) then RawByte
                     else CellOf(start, x)
    requires front == if x < off + ElemSize(ty) || End(start) <= x then Unwritten
                      else if CellOf(start, x).Part? && x < CellOf(start, x).at + off + ElemSize(ty) then RawByte
                      else CellOf(start, x)
    ensures OverwriteCell(HeadedCell(start, rest, x), ty, off, x) ==
            if back != Unwritten then back
            else if off <= x < off + ElemSize(ty) then CellOf(Tag(off, ty, 1), x)
            else if front != Unwritten then front
            else CellAt(rest, x)
  {
    InsideBytes(start, rest, off, off + ElemSize(ty), x);
  }

  lemma {:induction false} InsideLists(start: Tag, back: seq<Tag>, front: seq<Tag>, rest: seq<Tag>,
                                       ty: Ty, off: nat, x: nat)
    requires ty.Obj? && start.count > 0 && WellFormed(End(start), rest)
    requires start.offset <= off && off + ElemSize(ty) < End(start)
    requires WellFormed(start.offset, back) && LastEnd(start.offset, back) == off
    requires WellFormed(off + ElemSize(ty), front) && LastEnd(off + ElemSize(ty), front) == End(start)
    requires CellAt(back, x) ==
             if x < start.offset || off <= x then Unwritten
             else if CellOf(start, x).Part? && off + CellOf(start, x).at < x + ElemSize(start.ty) then RawByte
             else CellOf(start, x)
    requires CellAt(front, x) ==
             if x < off + ElemSize(ty) || End(start) <= x then Unwritten
             else if CellOf(start, x).Part? && x < CellOf(start, x).at + off + ElemSize(ty) then RawByte
             else CellOf(start, x)
    ensures WellFormed(start.offset, back + [Tag(off, ty, 1)] + front + rest)
    ensures CellAt(back + [Tag(off, ty, 1)] + front + rest, x) ==
            OverwriteCell(HeadedCell(start, rest, x), ty, off, x)
  {
    Between(start.offset, back, Tag(off, ty, 1), front, rest, x);
    InsideMeaning(start, rest, ty, off, x, CellAt(back, x), CellAt(front, x));
  }

  lemma {:induction false} WriteInsideCells(start: Tag, rest: seq<Tag>, ty: Ty, off: nat, x: nat)
    requires ty.Obj? && start.count > 0 && WellFormed(End(start), rest)
    requires start.offset <= off && off + ElemSize(ty) < End(start)
    ensures var d := CutBack(start, off) + [Tag(off, ty, 1)] + CutFront(start, off + ElemSize(ty)) + rest;
            WellFormed(start.offset, d) &&
            CellAt(d, x) == OverwriteCell(HeadedCell(start, rest, x), ty, off, x)
  {
    CutBackShape(start, off);
    CutFrontShape(start, off + ElemSize(ty));
    CutBackCells(start, off, x);
    CutFrontCells(start, off + ElemSize(ty), x);
    InsideLists(start, CutBack(start, off), CutFront(start, off + ElemSize(ty)), rest, ty, off, x);
  }

  lemma {:induction false} WriteEndCells(start: Tag, rest: seq<Tag>, ty: Ty, off: nat, x: nat)
    requires ty.Obj? && start.count > 0 && WellFormed(End(start), rest)
    requires start.offset <= off < End(start) <= off + ElemSize(ty)
    ensures var d := CutBack(start, off) + DealWithEnd(Tag(off, ty, 1), rest, off + ElemSize(ty));
            WellFormed(start.offset, d) &&
            CellAt(d, x) == OverwriteCell(HeadedCell(start, rest, x), ty, off, x)
  {
    var endpos := off + ElemSize(ty);
    var back, tail := CutBack(start, off), DealWithEnd(Tag(off, ty, 1), rest, endpos);
    CutBackShape(start, off);
    DealWithEndCells(End(start), Tag(off, ty, 1), rest, endpos, x);
    WellFormedAppend(start.offset, back, tail);
    CellAppend(back, tail, x);
    CutBackCells(start, off, x);
    InsideBytes(start, rest, off, End(start), x);
    if endpos <= x { TailCells(End(start), rest, ty, off, x); }
  }

  /** From the tag that `findBelow` returns on, a write does what the reference semantics says. */
  lemma {:induction false} WriteFromCells(start: Tag, rest: seq<Tag>, ty: Ty, off: nat, x: nat)
    requires ty.Obj? && start.offset <= off && start.count > 0 && WellFormed(End(start), rest)
    requires rest != [] ==> off < rest[0].offset
    ensures WellFormed(start.offset, WriteFrom(start, rest, ty, off))
    ensures CellAt(WriteFrom(start, rest, ty, off), x) == OverwriteCell(HeadedCell(start, rest, x), ty, off, x)
  {
    if off == End(start) && ty == start.ty {
      WriteAppendCells(start, rest, ty, off, x);
    } else if off >= End(start) {
      WriteGapCells(start, rest, ty, off, x);
    } else if Aligned(start, off) && ty == start.ty {
      RewriteCells(start, rest, ty, off, x);
      Headed(start, rest, x);
    } else if off + ElemSize(ty) < End(start) {
      WriteInsideCells(start, rest, ty, off, x);
    } else {
      WriteEndCells(start, rest, ty, off, x);
    }
  }

  /** The tag list of a block of `n` bytes. */
  predicate FitsBlock(ts: seq<Tag>, n: nat) {
    WellFormed(0, ts) && LastEnd(0, ts) <= n
  }

  /** One write: the list stays well formed and every byte changes as the reference semantics says. */
  lemma {:induction false} WriteCells(ts: seq<Tag>, ty: Ty, off: nat, x: nat)
    requires ty.Obj? && WellFormed(0, ts)
    ensures WellFormed(0, Write(ts, ty, off))
    ensures CellAt(Write(ts, ty, off), x) == OverwriteCell(CellAt(ts, x), ty, off, x)
  {
    var i := Below(ts, off);
    BelowFacts(ts, off);
    if i == 0 {
      WriteFirstCells(ts, ty, off, x);
    } else {
      assert ts == ts[..i - 1] + ([ts[i - 1]] + ts[i..]);
      WriteAfterCells(ts[..i - 1], ts[i - 1], ts[i..], ty, off, x);
    }
  }

  lemma {:induction false} WriteAfterCells(before: seq<Tag>, start: Tag, rest: seq<Tag>, ty: Ty, off: nat, x: nat)
    requires ty.Obj? && WellFormed(0, before + ([start] + rest))
    requires start.offset <= off && (rest != [] ==> off < rest[0].offset)
    ensures var d := before + WriteFrom(start, rest, ty, off);
            WellFormed(0, d) &&
            CellAt(d, x) == OverwriteCell(CellAt(before + ([start] + rest), x), ty, off, x)
  {
    var old', new' := [start] + rest, WriteFrom(start, rest, ty, off);
    WellFormedAppend(0, before, old');
    Weaken(LastEnd(0, before), start.offset, old');
    Headed(start, rest, x);
    WriteFromCells(start, rest, ty, off, x);
    StartKept(start, rest, ty, off);
    Weaken(start.offset, LastEnd(0, before), new');
    WellFormedAppend(0, before, new');
    CellAppend(before, old', x);
    CellAppend(before, new', x);
    BeforeStart(before, start, ty, off, x);
  }

  lemma {:induction false} WriteFirstCells(ts: seq<Tag>, ty: Ty, off: nat, x: nat)
    requires ty.Obj? && WellFormed(0, ts) && (ts != [] ==> off < ts[0].offset)
    ensures var d := DealWithEnd(Tag(off, ty, 1), ts, off + ElemSize(ty));
            WellFormed(0, d) && CellAt(d, x) == OverwriteCell(CellAt(ts, x), ty, off, x)
  {
    var d := DealWithEnd(Tag(off, ty, 1), ts, off + ElemSize(ty));
    DealWithEndCells(0, Tag(off, ty, 1), ts, off + ElemSize(ty), x);
    Weaken(off, 0, d) by { DealHead(Tag(off, ty, 1), ts, off + ElemSize(ty)); }
    Weaken(0, off, ts);
    if x < off {
      NothingBefore(off, ts, x);
    } else if off + ElemSize(ty) <= x {
      TailCells(0, ts, ty, off, x);
    }
  }

  lemma {:induction false} StartKept(start: Tag, rest: seq<Tag>, ty: Ty, off: nat)
    requires start.offset <= off
    ensures var d := WriteFrom(start, rest, ty, off); d != [] && d[0].offset == start.offset
  {
    var endpos := off + ElemSize(ty);
    if off == End(start) && ty == start.ty {
      DealHead(start.(count := start.count + 1), rest, endpos);
    } else if End(start) <= off || (Aligned(start, off) && ty == start.ty) {
    } else {
      DealHead(Tag(off, ty, 1), rest, endpos);
      CutBackHead(start, off);
    }
  }

  lemma {:induction false} CutBackHead(a: Tag, off: nat)
    requires a.offset <= off
    ensures if a.offset == off then CutBack(a, off) == []
            else CutBack(a, off) != [] && CutBack(a, off)[0].offset == a.offset
  {
    FloorFacts(off - a.offset, ElemSize(a.ty));
  }

  /** Tags before `start` are beyond the reach of the write. */
  lemma {:induction false} BeforeStart(before: seq<Tag>, start: Tag, ty: Ty, off: nat, x: nat)
    requires WellFormed(0, before) && LastEnd(0, before) <= start.offset <= off
    ensures CellAt(before, x) != Unwritten ==>
              x < off && OverwriteCell(CellAt(before, x), ty, off, x) == CellAt(before, x)
  {
    if LastEnd(0, before) <= x {
      NothingAfter(0, before, x);
    } else if CellAt(before, x).Part? {
      ObjectsEndBefore(0, before, x);
    }
  }

  lemma {:induction false} ObjectsEndBefore(lo: nat, ts: seq<Tag>, x: nat)
    requires WellFormed(lo, ts) && CellAt(ts, x).Part?
    ensures x + ElemSize(CellAt(ts, x).ty) <= LastEnd(lo, ts) + CellAt(ts, x).at
    decreases |ts|
  {
    if Covers(ts[0], x) {
      ObjectInRun(ts[0], x);
      NothingAfter(End(ts[0]), ts[1..], LastEnd(End(ts[0]), ts[1..]));
    } else {
      ObjectsEndBefore(End(ts[0]), ts[1..], x);
    }
  }

  // ----- Whole blocks and whole runs of writes -----

  function Cells(ts: seq<Tag>, n: nat): seq<Cell> {
    seq(n, b requires 0 <= b < n => CellAt(ts, b))
  }

  /** A write on the map from byte to cell: no tags, no list. */
  function Overwrite(cells: seq<Cell>, ty: Ty, off: nat): seq<Cell> {
    seq(|cells|, b requires 0 <= b < |cells| => OverwriteCell(cells[b], ty, off, b))
  }

  datatype Store = Store(ty: Ty, off: nat)

  predicate InBlock(w: Store, n: nat) {
    w.ty.Obj? && w.off + w.ty.size <= n
  }

  function WriteAll(ts: seq<Tag>, ws: seq<Store>): seq<Tag>
    decreases |ws|
  {
    if ws == [] then ts else WriteAll(Write(ts, ws[0].ty, ws[0].off), ws[1..])
  }

  function OverwriteAll(cells: seq<Cell>, ws: seq<Store>): seq<Cell>
    decreases |ws|
  {
    if ws == [] then cells else OverwriteAll(Overwrite(cells, ws[0].ty, ws[0].off), ws[1..])
  }

  lemma {:induction false} LastCovered(lo: nat, ts: seq<Tag>)
    requires WellFormed(lo, ts) && ts != []
    ensures LastEnd(lo, ts) > 0 && CellAt(ts, LastEnd(lo, ts) - 1) != Unwritten
    decreases |ts|
  {
    SpanMono(ElemSize(ts[0].ty), 0, ts[0].count);
    if |ts| > 1 {
      LastCovered(End(ts[0]), ts[1..]);
    }
  }

  lemma {:induction false} WriteFits(ts: seq<Tag>, w: Store, n: nat)
    requires FitsBlock(ts, n) && InBlock(w, n)
    ensures FitsBlock(Write(ts, w.ty, w.off), n)
  {
    var d := Write(ts, w.ty, w.off);
    WriteCells(ts, w.ty, w.off, 0);
    if LastEnd(0, d) > n {
      LastCovered(0, d);
      WriteCells(ts, w.ty, w.off, LastEnd(0, d) - 1);
      NothingAfter(0, ts, LastEnd(0, d) - 1);
    }
  }

  /** The tag list refines the byte map: writing commutes with reading off the cells. */
  lemma {:induction false} WriteRefinesOverwrite(ts: seq<Tag>, w: Store, n: nat)
    requires FitsBlock(ts, n) && InBlock(w, n)
    ensures FitsBlock(Write(ts, w.ty, w.off), n)
    ensures Cells(Write(ts, w.ty, w.off), n) == Overwrite(Cells(ts, n), w.ty, w.off)
  {
    WriteFits(ts, w, n);
    forall b | 0 <= b < n
      ensures Cells(Write(ts, w.ty, w.off), n)[b] == Overwrite(Cells(ts, n), w.ty, w.off)[b]
    {
      WriteCells(ts, w.ty, w.off, b);
    }
  }

  /** The same over any sequence of writes, of any types, sizes and alignments. */
  lemma {:induction false} RunRefinesOverwrite(ts: seq<Tag>, ws: seq<Store>, n: nat)
    requires FitsBlock(ts, n) && forall w :: w in ws ==> InBlock(w, n)
    ensures FitsBlock(WriteAll(ts, ws), n)
    ensures Cells(WriteAll(ts, ws), n) == OverwriteAll(Cells(ts, n), ws)
    decreases |ws|
  {
    if ws != [] {
      WriteRefinesOverwrite(ts, ws[0], n);
      RunRefinesOverwrite(Write(ts, ws[0].ty, ws[0].off), ws[1..], n);
    }
  }

  /** Whatever the writes, a byte inside an object has all the other bytes of that object around it. */
  lemma {:induction false} WholeObjects(lo: nat, ts: seq<Tag>, b: nat, at: nat)
    requires WellFormed(lo, ts) && CellAt(ts, b).Part? && at < ElemSize(CellAt(ts, b).ty)
    ensures CellAt(ts, b).at <= b
    ensures CellAt(ts, b - CellAt(ts, b).at + at) == Part(CellAt(ts, b).ty, at)
    decreases |ts|
  {
    var t := ts[0];
    if Covers(t, b) {
      ObjectInRun(t, b);
      var x := b - CellOf(t, b).at + at;
      var q := Locate(t, b);
      DivUnique(x - t.offset, t.ty.size, q, at);
    } else {
      WholeObjects(End(t), ts[1..], b, at);
      ObjectsStartAfter(End(t), ts[1..], b);
    }
  }

  /** `findBelow` names the only tag that can contain a byte. */
  lemma {:induction false} BelowIsTheOnlyCandidate(lo: nat, ts: seq<Tag>, b: nat, j: nat)
    requires WellFormed(lo, ts) && j < |ts| && Covers(ts[j], b)
    ensures j + 1 == Below(ts, b)
    decreases |ts|
  {
    if j > 0 {
      TagOffsets(End(ts[0]), ts[1..], j - 1);
      BelowIsTheOnlyCandidate(End(ts[0]), ts[1..], b, j - 1);
    } else if |ts| > 1 {
      TagOffsets(End(ts[0]), ts[1..], 0);
    }
  }

  lemma {:induction false} TagOffsets(lo: nat, ts: seq<Tag>, j: nat)
    requires WellFormed(lo, ts) && j < |ts|
    ensures lo <= ts[j].offset && ts[j].count > 0
    decreases |ts|
  {
    if j > 0 {
      TagOffsets(End(ts[0]), ts[1..], j - 1);
    }
  }
}

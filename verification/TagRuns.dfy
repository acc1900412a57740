/**
 Blocks written with objects of one type at aligned offsets (arrays, in practice).

 Such a block carries exactly the maximal runs of its written elements, whatever the order of the
 writes.  Only branches of mem.cpp that need no repair are taken here.
 */
module TagRuns {
  import opened TagSpec

  /** Runs of `ty` at multiples of its size, sorted, non-empty, and no two of them touching. */
  predicate Canonical(ty: Ty, lo: nat, ts: seq<Tag>)
    decreases |ts|
  {
    ts == [] ||
    (ts[0].ty == ty && ts[0].count > 0 && lo <= ts[0].offset && Rem(ts[0].offset, ElemSize(ty)) == 0 &&
     Canonical(ty, End(ts[0]) + 1, ts[1..]))
  }

  lemma {:induction false} CanonicalIsWellFormed(ty: Ty, lo: nat, ts: seq<Tag>)
    requires Canonical(ty, lo, ts)
    ensures WellFormed(lo, ts)
    decreases |ts|
  {
    if ts != [] {
      CanonicalIsWellFormed(ty, End(ts[0]) + 1, ts[1..]);
      Weaken(End(ts[0]) + 1, End(ts[0]), ts[1..]);
    }
  }

  function Limit(lo: nat, ts: seq<Tag>): nat {
    if ts == [] then lo else End(ts[|ts| - 1]) + 1
  }

  lemma {:induction false} CanonicalAppend(ty: Ty, lo: nat, a: seq<Tag>, b: seq<Tag>)
    ensures Canonical(ty, lo, a + b) <==> Canonical(ty, lo, a) && Canonical(ty, Limit(lo, a), b)
    decreases |a|
  {
    if a == [] {
      assert a + b == b;
    } else {
      assert (a + b)[1..] == a[1..] + b;
      CanonicalAppend(ty, End(a[0]) + 1, a[1..], b);
    }
  }

  // ----- Multiples of the element size -----

  lemma {:induction false} MultipleSum(s: pos, a: nat, k: nat)
    requires Rem(a, s) == 0
    ensures Rem(a + Span(s, k), s) == 0
  {
    ModShift(a, k, s);
  }

  lemma {:induction false} MultipleDifference(s: pos, a: nat, b: nat)
    requires Rem(a, s) == 0 && Rem(b, s) == 0 && a <= b
    ensures Rem(b - a, s) == 0 && (a < b ==> a + s <= b)
  {
    FloorFacts(a, s);
    FloorFacts(b, s);
    if Quot(b, s) < Quot(a, s) {
      SpanMono(s, Quot(b, s), Quot(a, s));
    } else {
      SpanAdd(s, Quot(a, s), Quot(b, s) - Quot(a, s));
      DivUnique(b - a, s, Quot(b, s) - Quot(a, s), 0);
      if Quot(a, s) < Quot(b, s) { SpanMono(s, Quot(a, s), Quot(b, s)); }
    }
  }

  // ----- One write -----

  lemma {:induction false} ExtendCanonical(ty: Ty, ext: Tag, rest: seq<Tag>)
    requires ty.Obj? && ext.ty == ty && ext.count > 0 && Rem(ext.offset, ElemSize(ty)) == 0
    requires Canonical(ty, ext.offset + 1, rest) && (rest != [] ==> End(ext) <= rest[0].offset)
    ensures Canonical(ty, ext.offset, DealWithEnd(ext, rest, End(ext)))
  {
    var d := DealWithEnd(ext, rest, End(ext));
    if rest != [] {
      CanonicalIsWellFormed(ty, ext.offset + 1, rest);
      if rest[0].offset == End(ext) {
        DealMerge(ext.offset + 1, ext, rest, End(ext));
        assert d[1..] == rest[1..];
      } else {
        assert d[1..] == rest;
      }
    }
  }

  lemma {:induction false} WriteFromCanonical(ty: Ty, start: Tag, rest: seq<Tag>, off: nat)
    requires ty.Obj? && start.ty == ty && start.count > 0 && Rem(start.offset, ty.size) == 0
    requires Canonical(ty, End(start) + 1, rest) && Rem(off, ty.size) == 0
    requires start.offset <= off && (rest != [] ==> off < rest[0].offset)
    ensures Canonical(ty, start.offset, WriteFrom(start, rest, ty, off))
  {
    if off == End(start) {
      AppendCanonical(ty, start, rest);
    } else if End(start) < off {
      GapCanonical(ty, start, rest, off);
    } else {
      AlignedRewrite(ty, start, rest, off);
      assert ([start] + rest)[1..] == rest;
    }
  }

  lemma {:induction false} AlignedRewrite(ty: Ty, start: Tag, rest: seq<Tag>, off: nat)
    requires ty.Obj? && start.ty == ty && Rem(start.offset, ty.size) == 0 && Rem(off, ty.size) == 0
    requires start.offset <= off < End(start)
    ensures WriteFrom(start, rest, ty, off) == [start] + rest
  {
    MultipleDifference(ty.size, start.offset, off);
  }

  lemma {:induction false} AppendCanonical(ty: Ty, start: Tag, rest: seq<Tag>)
    requires ty.Obj? && start.ty == ty && start.count > 0 && Rem(start.offset, ty.size) == 0
    requires Canonical(ty, End(start) + 1, rest)
    ensures Canonical(ty, start.offset,
                      DealWithEnd(start.(count := start.count + 1), rest, End(start) + ty.size))
  {
    MultipleSum(ty.size, start.offset, start.count);
    if rest != [] { MultipleDifference(ty.size, End(start), rest[0].offset); }
    Raise(ty, End(start) + 1, start.offset + 1, rest);
    ExtendCanonical(ty, start.(count := start.count + 1), rest);
  }

  lemma {:induction false} Raise(ty: Ty, lo: nat, lo': nat, ts: seq<Tag>)
    requires Canonical(ty, lo, ts) && (ts == [] || lo' <= ts[0].offset)
    ensures Canonical(ty, lo', ts)
  {
  }

  lemma {:induction false} GapCanonical(ty: Ty, start: Tag, rest: seq<Tag>, off: nat)
    requires ty.Obj? && start.ty == ty && start.count > 0 && Rem(start.offset, ty.size) == 0
    requires Canonical(ty, End(start) + 1, rest) && Rem(off, ty.size) == 0
    requires End(start) < off && (rest != [] ==> off < rest[0].offset)
    ensures Canonical(ty, start.offset, [start] + DealWithEnd(Tag(off, ty, 1), rest, off + ty.size))
  {
    var d := DealWithEnd(Tag(off, ty, 1), rest, off + ty.size);
    if rest != [] { MultipleDifference(ty.size, off, rest[0].offset); }
    Raise(ty, End(start) + 1, off + 1, rest);
    ExtendCanonical(ty, Tag(off, ty, 1), rest);
    DealHead(Tag(off, ty, 1), rest, off + ty.size);
    Raise(ty, off, End(start) + 1, d);
    assert ([start] + d)[1..] == d;
  }

  lemma {:induction false} WriteCanonical(ty: Ty, ts: seq<Tag>, off: nat)
    requires ty.Obj? && Canonical(ty, 0, ts) && Rem(off, ElemSize(ty)) == 0
    ensures Canonical(ty, 0, Write(ts, ty, off))
  {
    var i := Below(ts, off);
    BelowFacts(ts, off);
    if i == 0 {
      if ts != [] { MultipleDifference(ty.size, off, ts[0].offset); }
      assert Canonical(ty, off + 1, ts) by { if ts != [] {} }
      ExtendCanonical(ty, Tag(off, ty, 1), ts);
    } else {
      var before, start, rest := ts[..i - 1], ts[i - 1], ts[i..];
      assert ts == before + ([start] + rest);
      CanonicalAppend(ty, 0, before, [start] + rest);
      assert ([start] + rest)[1..] == rest;
      WriteFromCanonical(ty, start, rest, off);
      StartKept(start, rest, ty, off);
      CanonicalAppend(ty, 0, before, WriteFrom(start, rest, ty, off));
    }
  }

  // ----- Any order of writes -----

  function Stores(ty: Ty, offs: seq<nat>): seq<Store> {
    seq(|offs|, i requires 0 <= i < |offs| => Store(ty, offs[i]))
  }

  predicate AllAligned(ty: Ty, offs: seq<nat>) {
    forall o :: o in offs ==> Rem(o, ElemSize(ty)) == 0
  }

  /** What aligned writes at `offs` leave at byte `b`: the object written there, or what was there. */
  predicate WrittenAt(ty: Ty, offs: seq<nat>, b: nat) {
    (b - Rem(b, ElemSize(ty))) in offs
  }

  lemma {:induction false} SameElement(ty: Ty, o: nat, b: nat)
    requires Rem(o, ElemSize(ty)) == 0
    ensures Rem(b, ElemSize(ty)) <= b
    ensures o <= b < o + ElemSize(ty) <==> o == b - Rem(b, ElemSize(ty))
  {
    var s := ElemSize(ty);
    FloorFacts(o, s);
    FloorFacts(b, s);
    if o <= b < o + s {
      DivUnique(b, s, Quot(o, s), b - o);
    }
  }

  /** The cell of an element-aligned map: either nothing, or the byte of the element it belongs to. */
  predicate ElementCell(ty: Ty, c: Cell, b: nat) {
    c == Unwritten || c == Part(ty, Rem(b, ElemSize(ty)))
  }

  lemma {:induction false} WriteElement(ty: Ty, ts: seq<Tag>, o: nat, b: nat)
    requires ty.Obj? && WellFormed(0, ts) && Rem(o, ElemSize(ty)) == 0 && ElementCell(ty, CellAt(ts, b), b)
    ensures CellAt(Write(ts, ty, o), b) ==
            if o == b - Rem(b, ElemSize(ty)) then Part(ty, Rem(b, ElemSize(ty))) else CellAt(ts, b)
  {
    var s := ty.size;
    WriteCells(ts, ty, o, b);
    SameElement(ty, o, b);
    FloorFacts(b, s);
    FloorFacts(o, s);
    if Quot(b, s) < Quot(o, s) {
      SpanMono(s, Quot(b, s), Quot(o, s));
    } else if Quot(o, s) < Quot(b, s) {
      SpanMono(s, Quot(o, s), Quot(b, s));
    }
  }

  /** Aligned writes of one type, in any order: the list stays canonical and covers what was written. */
  lemma {:induction false} WriteAllElements(ty: Ty, ts: seq<Tag>, offs: seq<nat>, b: nat)
    requires ty.Obj? && Canonical(ty, 0, ts) && AllAligned(ty, offs) && ElementCell(ty, CellAt(ts, b), b)
    ensures var d := WriteAll(ts, Stores(ty, offs));
            Canonical(ty, 0, d) &&
            CellAt(d, b) == if WrittenAt(ty, offs, b) then Part(ty, Rem(b, ElemSize(ty))) else CellAt(ts, b)
    decreases |offs|
  {
    if offs != [] {
      CanonicalIsWellFormed(ty, 0, ts);
      WriteCanonical(ty, ts, offs[0]);
      WriteElement(ty, ts, offs[0], b);
      assert Stores(ty, offs)[1..] == Stores(ty, offs[1..]);
      WriteAllElements(ty, Write(ts, ty, offs[0]), offs[1..], b);
    }
  }

  /** A canonical list is determined by what it says of each byte. */
  lemma {:induction false} CanonicalIsUnique(ty: Ty, lo: nat, ts: seq<Tag>, us: seq<Tag>)
    requires ty.Obj? && Canonical(ty, lo, ts) && Canonical(ty, lo, us)
    requires forall b: nat :: CellAt(ts, b) == CellAt(us, b)
    ensures ts == us
    decreases |ts|
  {
    CanonicalIsWellFormed(ty, lo, ts);
    CanonicalIsWellFormed(ty, lo, us);
    if ts == [] || us == [] {
      if ts != [] { LastCovered(lo, ts); }
      if us != [] { LastCovered(lo, us); }
    } else {
      FirstRun(ty, lo, ts);
      FirstRun(ty, lo, us);
      if ts[0].offset < us[0].offset {
        NothingBefore(us[0].offset, us, ts[0].offset) by { Weaken(lo, us[0].offset, us); }
      }
      if us[0].offset < ts[0].offset {
        NothingBefore(ts[0].offset, ts, us[0].offset) by { Weaken(lo, ts[0].offset, ts); }
      }
      SameEnd(ts[0], us[0]);
      forall b: nat
        ensures CellAt(ts[1..], b) == CellAt(us[1..], b)
      {
        assert CellAt(ts, b) == CellAt(us, b);
        if b < End(ts[0]) {
          NothingBefore(End(ts[0]), ts[1..], b);
          NothingBefore(End(us[0]), us[1..], b);
        }
      }
      CanonicalIsUnique(ty, End(ts[0]) + 1, ts[1..], us[1..]);
      assert ts == [ts[0]] + ts[1..] && us == [us[0]] + us[1..];
    }
  }

  lemma {:induction false} SameEnd(t: Tag, u: Tag)
    requires t.ty == u.ty && t.offset == u.offset && End(t) == End(u)
    ensures t == u
  {
    if t.count < u.count {
      SpanMono(ElemSize(t.ty), t.count, u.count);
    } else if u.count < t.count {
      SpanMono(ElemSize(t.ty), u.count, t.count);
    }
  }

  /** The first run of a canonical list starts at its first written byte and ends at a gap. */
  lemma {:induction false} FirstRun(ty: Ty, lo: nat, ts: seq<Tag>)
    requires ty.Obj? && Canonical(ty, lo, ts) && ts != []
    ensures ts[0].offset < End(ts[0])
    ensures forall b: nat :: ts[0].offset <= b < End(ts[0]) ==> CellAt(ts, b) != Unwritten
    ensures CellAt(ts, End(ts[0])) == Unwritten
  {
    SpanMono(ElemSize(ty), 0, ts[0].count);
    CanonicalIsWellFormed(ty, End(ts[0]) + 1, ts[1..]);
    NothingBefore(End(ts[0]) + 1, ts[1..], End(ts[0]));
  }

  /** In whatever order the elements were written, and however often, the tag list is the same. */
  lemma {:induction false} OrderOfWritesIsIrrelevant(ty: Ty, offs: seq<nat>, offs': seq<nat>)
    requires ty.Obj? && AllAligned(ty, offs) && AllAligned(ty, offs')
    requires forall o :: o in offs <==> o in offs'
    ensures WriteAll([], Stores(ty, offs)) == WriteAll([], Stores(ty, offs'))
    ensures Canonical(ty, 0, WriteAll([], Stores(ty, offs)))
  {
    var ts, us := WriteAll([], Stores(ty, offs)), WriteAll([], Stores(ty, offs'));
    WriteAllElements(ty, [], offs, 0);
    WriteAllElements(ty, [], offs', 0);
    forall b: nat
      ensures CellAt(ts, b) == CellAt(us, b)
    {
      WriteAllElements(ty, [], offs, b);
      WriteAllElements(ty, [], offs', b);
    }
    CanonicalIsUnique(ty, 0, ts, us);
  }

  /** The loop of `newarr`: writing elements 0, 1, ..., n - 1 leaves one tag of count `n`. */
  lemma {:induction false} ArrayIsOneRun(ty: Ty, k: nat)
    requires ty.Obj? && k > 0
    ensures Write([Tag(0, ty, k)], ty, Span(ty.size, k)) == [Tag(0, ty, k + 1)]
    ensures Write([], ty, 0) == [Tag(0, ty, 1)]
  {
    assert Below([Tag(0, ty, k)][1..], Span(ty.size, k)) == 0;
    assert [Tag(0, ty, k)][..0] == [];
    assert [Tag(0, ty, k)][1..] == [];
  }
}

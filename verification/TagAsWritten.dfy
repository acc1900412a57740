/**
 `update_tag_write` and `deal_with_end` with the search as coded and the tags exactly as the source sets
 them (mem.cpp:91-228), and the exact condition under which one write does what `TagSpec.OverwriteCell`
 says.

 Kept as written: the search that narrows offsets to `int` (rbtree.cpp:105, 110), and every branch and
 every tag of mem.cpp. Repaired: `next` is read before the node is removed, and the tree that is searched
 is any balanced tree that indexes the list, such as the repaired insertion and removal leave behind
 (TagBlock.dfy); the source's own insertion loses nodes (RbAsWritten.dfy), and its removal deletes a node
 that stays linked.

 Where a write starts inside an object, the list that the source builds leads `deal_with_end` back into a
 deleted node: `Broken`. Where the search returns another tag than the one below the write, what follows
 is not modelled: `Astray`.
 */
module TagAsWritten {
  import opened Options
  import opened RbSpec
  import opened RbSearch
  import opened TagSpec
  import opened TagRuns
  import opened TagSearch

  datatype Outcome = Astray | Broken | Tags(ts: seq<Tag>)

  /** The remainder of a cut run has count 0 when it is all raw, and otherwise becomes raw (125-133). */
  function CodedCutFront(a: Tag, endpos: nat): seq<Tag>
    requires a.offset < endpos < End(a)
  {
    var firstvalid := FirstValid(a, endpos);
    var invalid := a.offset + Span(ElemSize(a.ty), firstvalid);
    var newcount := a.count - firstvalid;
    if invalid == endpos then [Tag(endpos, a.ty, newcount)]
    else if newcount == 0 then [Tag(endpos, Raw, 0)]
    else [Tag(endpos, Raw, invalid - endpos), Tag(invalid, Raw, newcount)]
  }

  function CodedDeal(extended: Tag, rest: seq<Tag>, endpos: nat): seq<Tag>
    decreases |rest|
  {
    if rest == [] then [extended]
    else
      var affected := rest[0];
      if affected.offset >= endpos then
        if affected.offset == endpos && extended.ty == affected.ty then
          CodedDeal(extended.(count := extended.count + affected.count), rest[1..], endpos)
        else
          [extended] + rest
      else if End(affected) > endpos then
        [extended] + CodedCutFront(affected, endpos) + rest[1..]
      else
        CodedDeal(extended, rest[1..], endpos)
  }

  /** A run that is overwritten at its start keeps one element (202); one written inside loses its end (224-227). */
  function CodedFrom(start: Tag, rest: seq<Tag>, ty: Ty, off: nat): Outcome
    requires start.offset <= off
  {
    var endpos := off + ElemSize(ty);
    var fresh' := Tag(off, ty, 1);
    if off == End(start) && ty == start.ty then
      Tags(CodedDeal(start.(count := start.count + 1), rest, endpos))
    else if off >= End(start) then
      Tags([start] + CodedDeal(fresh', rest, endpos))
    else if Aligned(start, off) && ty == start.ty then
      Tags([start] + rest)
    else if start.offset == off then
      if End(start) <= endpos then Tags(CodedDeal(fresh', rest, endpos))
      else Tags([fresh'] + [Tag(endpos, start.ty, 1)] + rest)
    else if !Aligned(start, off) then
      Broken
    else
      Tags([start.(count := Quot(off - start.offset, ElemSize(start.ty)))] + CodedDeal(fresh', rest, endpos))
  }

  /** As coded, the search on the tree finds the tag below `off`, or none when there is none. */
  ghost predicate FindsStart<N>(t: Tree<N>, ts: seq<Tag>, off: nat)
    requires |Inorder(t)| == |ts|
  {
    var n := Below(ts, off);
    BelowIn(true, t, ToInt(off), None) == if n == 0 then None else Some(Inorder(t)[n - 1])
  }

  ghost function CodedWrite<N>(t: Tree<N>, ts: seq<Tag>, ty: Ty, off: nat): Outcome
    requires |Inorder(t)| == |ts|
  {
    if !FindsStart(t, ts, off) then Astray else CodedBelow(ts, ty, off)
  }

  function CodedBelow(ts: seq<Tag>, ty: Ty, off: nat): Outcome {
    var i := Below(ts, off);
    if i == 0 then
      Tags(CodedDeal(Tag(off, ty, 1), ts, off + ElemSize(ty)))
    else
      BelowFacts(ts, off);
      match CodedFrom(ts[i - 1], ts[i..], ty, off)
      case Astray => Astray
      case Broken => Broken
      case Tags(d) => Tags(ts[..i - 1] + d)
  }

  // ----- The condition -----

  /** The run that the end of the write falls into, if any, is cut between two elements. */
  predicate CleanEnd(rest: seq<Tag>, endpos: nat)
    decreases |rest|
  {
    rest == [] || rest[0].offset >= endpos ||
    if End(rest[0]) > endpos then Aligned(rest[0], endpos) else CleanEnd(rest[1..], endpos)
  }

  predicate CleanFrom(start: Tag, rest: seq<Tag>, ty: Ty, off: nat)
    requires start.offset <= off
  {
    var endpos := off + ElemSize(ty);
    if off >= End(start) then CleanEnd(rest, endpos)
    else
      Aligned(start, off) &&
      (ty == start.ty ||
       if End(start) <= endpos then CleanEnd(rest, endpos)
       else off == start.offset && Aligned(start, endpos) && endpos + ElemSize(start.ty) == End(start))
  }

  /**
   The write starts after the run found for it, or at an element of that run; it ends between two
   elements; and a run that sticks out beyond it has exactly one more element, unless the types agree.
   */
  predicate Clean(ts: seq<Tag>, ty: Ty, off: nat) {
    var i := Below(ts, off);
    BelowFacts(ts, off);
    if i == 0 then CleanEnd(ts, off + ElemSize(ty)) else CleanFrom(ts[i - 1], ts[i..], ty, off)
  }

  /** The tags left by the source say of every byte what the reference semantics says. */
  ghost predicate Meets<N>(t: Tree<N>, ts: seq<Tag>, ty: Ty, off: nat)
    requires |Inorder(t)| == |ts|
  {
    var r := CodedWrite(t, ts, ty, off);
    r.Tags? && forall x: nat :: CellAt(r.ts, x) == OverwriteCell(CellAt(ts, x), ty, off, x)
  }

  // ----- Clean writes are right -----

  lemma {:induction false} CleanCut(a: Tag, endpos: nat)
    requires a.offset < endpos < End(a)
    ensures Aligned(a, endpos) <==> a.offset + Span(ElemSize(a.ty), FirstValid(a, endpos)) == endpos
  {
    var s, d, f := ElemSize(a.ty), endpos - a.offset, FirstValid(a, endpos);
    FloorFacts(d, s);
    if Rem(d, s) == 0 {
      if Quot(d, s) < f {
        SpanMono(s, Quot(d, s), f);
      } else if f < Quot(d, s) {
        SpanMono(s, f, Quot(d, s));
      }
    } else if Span(s, f) == d {
      ModShift(0, f, s);
    }
  }

  lemma {:induction false} DealAgrees(lo: nat, ext: Tag, rest: seq<Tag>, endpos: nat)
    requires WellFormed(lo, rest) && CleanEnd(rest, endpos)
    ensures CodedDeal(ext, rest, endpos) == DealWithEnd(ext, rest, endpos)
    decreases |rest|
  {
    hide FirstValid, Span;
    if rest != [] {
      var a := rest[0];
      if a.offset >= endpos {
        if a.offset == endpos && ext.ty == a.ty {
          DealAgrees(End(a), ext.(count := ext.count + a.count), rest[1..], endpos);
        }
      } else if End(a) > endpos {
        CleanCut(a, endpos);
      } else {
        DealAgrees(End(a), ext, rest[1..], endpos);
      }
    }
  }

  lemma {:induction false} CutBackAligned(a: Tag, off: nat)
    requires a.offset <= off && Aligned(a, off)
    ensures CutBack(a, off) ==
            if off == a.offset then [] else [a.(count := Quot(off - a.offset, ElemSize(a.ty)))]
  {
    FloorFacts(off - a.offset, ElemSize(a.ty));
  }

  lemma {:induction false} OneLeft(start: Tag, endpos: nat)
    requires start.offset < endpos < End(start) && Aligned(start, endpos)
    ensures CutFront(start, endpos) == [Tag(endpos, start.ty, start.count - FirstValid(start, endpos))]
    ensures start.count - FirstValid(start, endpos) > 0
    ensures start.count - FirstValid(start, endpos) == 1 <==> endpos + ElemSize(start.ty) == End(start)
  {
    CleanCut(start, endpos);
    var s, f := ElemSize(start.ty), FirstValid(start, endpos);
    if f + 1 < start.count {
      SpanMono(s, f + 1, start.count);
    }
  }

  lemma {:induction false} FromAgrees(start: Tag, rest: seq<Tag>, ty: Ty, off: nat)
    requires start.offset <= off && WellFormed(End(start), rest) && CleanFrom(start, rest, ty, off)
    ensures CodedFrom(start, rest, ty, off) == Tags(WriteFrom(start, rest, ty, off))
  {
    hide FirstValid, CutFront, CutBack, CodedDeal, DealWithEnd, Span, CleanEnd, WellFormed, Quot, Rem;
    var endpos := off + ElemSize(ty);
    if off >= End(start) {
      DealAgrees(End(start), start.(count := start.count + 1), rest, endpos);
      DealAgrees(End(start), Tag(off, ty, 1), rest, endpos);
    } else if ty != start.ty {
      InsideAgrees(start, rest, ty, off);
    }
  }

  lemma {:induction false} InsideAgrees(start: Tag, rest: seq<Tag>, ty: Ty, off: nat)
    requires start.offset <= off < End(start) && WellFormed(End(start), rest) && CleanFrom(start, rest, ty, off)
    requires ty != start.ty
    ensures CodedFrom(start, rest, ty, off) == Tags(WriteFrom(start, rest, ty, off))
  {
    hide FirstValid, CutFront, CutBack, CodedDeal, DealWithEnd, Span, CleanEnd, WellFormed, Quot, Rem;
    var endpos, fresh' := off + ElemSize(ty), Tag(off, ty, 1);
    CutBackAligned(start, off);
    if End(start) <= endpos {
      DealAgrees(End(start), fresh', rest, endpos);
      assert [] + DealWithEnd(fresh', rest, endpos) == DealWithEnd(fresh', rest, endpos);
    } else {
      OneLeft(start, endpos);
      assert [] + [fresh'] == [fresh'];
    }
  }

  lemma {:induction false} CleanAgrees(ts: seq<Tag>, ty: Ty, off: nat)
    requires WellFormed(0, ts) && Clean(ts, ty, off)
    ensures CodedBelow(ts, ty, off) == Tags(Write(ts, ty, off))
  {
    hide CodedFrom, WriteFrom, CleanFrom, CodedDeal, DealWithEnd;
    var i := Below(ts, off);
    BelowFacts(ts, off);
    if i == 0 {
      DealAgrees(0, Tag(off, ty, 1), ts, off + ElemSize(ty));
    } else {
      AroundStart(ts, i - 1);
      FromAgrees(ts[i - 1], ts[i..], ty, off);
    }
  }

  lemma {:induction false} AroundStart(ts: seq<Tag>, j: nat)
    requires WellFormed(0, ts) && j < |ts|
    ensures ts == ts[..j] + ([ts[j]] + ts[j + 1..])
    ensures WellFormed(0, ts[..j]) && LastEnd(0, ts[..j]) <= ts[j].offset && ts[j].count > 0
    ensures WellFormed(End(ts[j]), ts[j + 1..])
  {
    assert ts == ts[..j] + ([ts[j]] + ts[j + 1..]);
    WellFormedAppend(0, ts[..j], [ts[j]] + ts[j + 1..]);
    assert ([ts[j]] + ts[j + 1..])[1..] == ts[j + 1..];
  }

  // ----- Other writes are wrong somewhere -----

  lemma {:induction false} Prefixed(p: seq<Tag>, d: seq<Tag>, e: seq<Tag>, x: nat)
    requires CellAt(p, x) == Unwritten && CellAt(d, x) != CellAt(e, x)
    ensures CellAt(p + d, x) != CellAt(p + e, x)
  {
    CellAppend(p, d, x);
    CellAppend(p, e, x);
  }

  lemma {:induction false} Suffixed(d: seq<Tag>, e: seq<Tag>, rest: seq<Tag>, x: nat)
    requires CellAt(rest, x) == Unwritten && CellAt(d, x) != CellAt(e, x)
    ensures CellAt(d + rest, x) != CellAt(e + rest, x)
  {
    CellAppend(d, rest, x);
    CellAppend(e, rest, x);
  }

  /** A byte that the two remainders of a cut run disagree on. */
  lemma {:induction false} CutDiffers(a: Tag, endpos: nat) returns (x: nat)
    requires a.offset < endpos < End(a) && !Aligned(a, endpos)
    ensures endpos <= x < End(a) && CellAt(CodedCutFront(a, endpos), x) != CellAt(CutFront(a, endpos), x)
  {
    CleanCut(a, endpos);
    var s, f := ElemSize(a.ty), FirstValid(a, endpos);
    var invalid := a.offset + Span(s, f);
    if f == a.count {
      x := endpos;
    } else {
      x := invalid;
      SpanMono(s, f, a.count);
      var c, d := CodedCutFront(a, endpos), CutFront(a, endpos);
      assert c[1..] == [c[1]] && d[1..] == [d[1]];
      SpanMono(s, 0, a.count - f);
    }
  }

  lemma {:induction false} DealDiffers(lo: nat, ext: Tag, rest: seq<Tag>, endpos: nat) returns (x: nat)
    requires WellFormed(lo, rest) && End(ext) == endpos && !CleanEnd(rest, endpos)
    ensures endpos <= x && CellAt(CodedDeal(ext, rest, endpos), x) != CellAt(DealWithEnd(ext, rest, endpos), x)
    decreases |rest|
  {
    hide FirstValid, Span, CutFront, CodedCutFront;
    var a := rest[0];
    if End(a) > endpos {
      x := CutDiffers(a, endpos);
      NothingBefore(End(a), rest[1..], x);
      Suffixed(CodedCutFront(a, endpos), CutFront(a, endpos), rest[1..], x);
      Prefixed([ext], CodedCutFront(a, endpos) + rest[1..], CutFront(a, endpos) + rest[1..], x);
      Regroup([ext], CodedCutFront(a, endpos), rest[1..]);
      Regroup([ext], CutFront(a, endpos), rest[1..]);
    } else {
      x := DealDiffers(End(a), ext, rest[1..], endpos);
    }
  }

  lemma {:induction false} Regroup(a: seq<Tag>, b: seq<Tag>, c: seq<Tag>)
    ensures a + (b + c) == a + b + c
  {
  }

  /** A run that sticks out beyond a write of another type: what is left of it differs, unless one element is. */
  lemma {:induction false} LeftoverDiffers(start: Tag, rest: seq<Tag>, endpos: nat) returns (x: nat)
    requires start.offset < endpos < End(start) && WellFormed(End(start), rest)
    requires !(Aligned(start, endpos) && endpos + ElemSize(start.ty) == End(start))
    ensures endpos <= x
    ensures CellAt([Tag(endpos, start.ty, 1)] + rest, x) != CellAt(CutFront(start, endpos) + rest, x)
  {
    hide FirstValid, Span, CutFront;
    var left := Tag(endpos, start.ty, 1);
    CutFrontCells(start, endpos, endpos);
    if !Aligned(start, endpos) {
      x := endpos;
      CutAtStart(start, endpos);
    } else {
      OneLeft(start, endpos);
      x := endpos + ElemSize(start.ty);
      OneElement(left);
      Longer(Tag(endpos, start.ty, start.count - FirstValid(start, endpos)));
      CutFrontShape(start, endpos);
    }
    NothingBefore(End(start), rest, x);
    Suffixed([left], CutFront(start, endpos), rest, x);
  }

  lemma {:induction false} OneElement(t: Tag)
    requires t.count == 1
    ensures End(t) == t.offset + ElemSize(t.ty)
  {
  }

  lemma {:induction false} Longer(t: Tag)
    requires t.count > 1
    ensures t.offset + ElemSize(t.ty) < End(t)
  {
    SpanMono(ElemSize(t.ty), 1, t.count);
  }

  /** The first byte after a misaligned cut is raw. */
  lemma {:induction false} CutAtStart(a: Tag, endpos: nat)
    requires a.offset < endpos < End(a) && !Aligned(a, endpos)
    ensures CellAt(CutFront(a, endpos), endpos) == RawByte && CellOf(Tag(endpos, a.ty, 1), endpos) != RawByte
  {
    CutFrontCells(a, endpos, endpos);
    FloorFacts(endpos - a.offset, ElemSize(a.ty));
  }

  /** A run that sticks out beyond a write inside it is lost, instead of being cut. */
  lemma {:induction false} TailIsLost(start: Tag, rest: seq<Tag>, ty: Ty, off: nat)
    requires start.offset <= off && off + ElemSize(ty) < End(start) && WellFormed(End(start), rest)
    ensures CodedDeal(Tag(off, ty, 1), rest, off + ElemSize(ty)) == [Tag(off, ty, 1)] + rest
    ensures CellAt([Tag(off, ty, 1)] + rest, off + ElemSize(ty)) !=
            CellAt([Tag(off, ty, 1)] + CutFront(start, off + ElemSize(ty)) + rest, off + ElemSize(ty))
  {
    hide FirstValid, Span, CutFront;
    var endpos, fresh' := off + ElemSize(ty), Tag(off, ty, 1);
    CutFrontCells(start, endpos, endpos);
    NothingBefore(End(start), rest, endpos);
    CellAppend(CutFront(start, endpos), rest, endpos);
    OneElement(fresh');
    Prefixed([fresh'], rest, CutFront(start, endpos) + rest, endpos);
    Regroup([fresh'], CutFront(start, endpos), rest);
  }

  lemma {:induction false} FromDiffers(start: Tag, rest: seq<Tag>, ty: Ty, off: nat) returns (x: nat)
    requires start.offset <= off && start.count > 0 && WellFormed(End(start), rest) && !CleanFrom(start, rest, ty, off)
    requires CodedFrom(start, rest, ty, off).Tags?
    ensures off <= x
    ensures CellAt(CodedFrom(start, rest, ty, off).ts, x) != CellAt(WriteFrom(start, rest, ty, off), x)
  {
    hide FirstValid, CutFront, CodedDeal, DealWithEnd, CutBack, CleanEnd;
    var endpos, fresh' := off + ElemSize(ty), Tag(off, ty, 1);
    OneElement(fresh');
    if off == End(start) && ty == start.ty {
      OneMore(start);
      x := DealDiffers(End(start), start.(count := start.count + 1), rest, endpos);
    } else if off >= End(start) {
      x := DealDiffers(End(start), fresh', rest, endpos);
      Prefixed([start], CodedDeal(fresh', rest, endpos), DealWithEnd(fresh', rest, endpos), x);
    } else {
      AlignedAtStart(start);
      CutBackAligned(start, off);
      var back := CutBack(start, off);
      BackEnds(start, off);
      if End(start) <= endpos {
        x := DealDiffers(End(start), fresh', rest, endpos);
        NothingIn(back, start.offset, off, x);
        Prefixed(back, CodedDeal(fresh', rest, endpos), DealWithEnd(fresh', rest, endpos), x);
        assert [] + CodedDeal(fresh', rest, endpos) == CodedDeal(fresh', rest, endpos);
      } else {
        x := InsideDiffers(start, rest, ty, off);
      }
    }
  }

  lemma {:induction false} OneMore(t: Tag)
    ensures End(t.(count := t.count + 1)) == End(t) + ElemSize(t.ty)
  {
  }

  lemma {:induction false} AlignedAtStart(t: Tag)
    ensures Aligned(t, t.offset)
  {
  }

  lemma {:induction false} BackEnds(a: Tag, off: nat)
    requires a.offset <= off < End(a) && Aligned(a, off)
    ensures WellFormed(a.offset, CutBack(a, off)) && LastEnd(a.offset, CutBack(a, off)) <= off
  {
    CutBackShape(a, off);
  }

  lemma {:induction false} NothingIn(back: seq<Tag>, lo: nat, off: nat, x: nat)
    requires WellFormed(lo, back) && LastEnd(lo, back) <= off <= x
    ensures CellAt(back, x) == Unwritten
  {
    NothingAfter(lo, back, x);
  }

  lemma {:induction false} InsideDiffers(start: Tag, rest: seq<Tag>, ty: Ty, off: nat) returns (x: nat)
    requires start.offset <= off && off + ElemSize(ty) < End(start) && ty != start.ty && WellFormed(End(start), rest)
    requires Aligned(start, off) && !CleanFrom(start, rest, ty, off)
    ensures off <= x && CodedFrom(start, rest, ty, off).Tags?
    ensures CellAt(CodedFrom(start, rest, ty, off).ts, x) != CellAt(WriteFrom(start, rest, ty, off), x)
  {
    hide FirstValid, CutFront, CodedDeal, DealWithEnd, CutBack, CleanEnd;
    var endpos, fresh' := off + ElemSize(ty), Tag(off, ty, 1);
    var front := CutFront(start, endpos);
    OneElement(fresh');
    CutBackAligned(start, off);
    var back := CutBack(start, off);
    if off == start.offset {
      x := LeftoverDiffers(start, rest, endpos);
      Prefixed([fresh'], [Tag(endpos, start.ty, 1)] + rest, front + rest, x);
      Regroup([fresh'], [Tag(endpos, start.ty, 1)], rest);
      Regroup([fresh'], front, rest);
      assert [] + [fresh'] == [fresh'];
    } else {
      x := endpos;
      TailIsLost(start, rest, ty, off);
      BackEnds(start, off);
      NothingIn(back, start.offset, off, x);
      Prefixed(back, [fresh'] + rest, [fresh'] + front + rest, x);
      Regroup(back, [fresh'], front);
      Regroup(back, [fresh'] + front, rest);
    }
  }

  lemma {:induction false} UncleanDiffers(ts: seq<Tag>, ty: Ty, off: nat) returns (x: nat)
    requires WellFormed(0, ts) && !Clean(ts, ty, off) && CodedBelow(ts, ty, off).Tags?
    ensures CellAt(CodedBelow(ts, ty, off).ts, x) != CellAt(Write(ts, ty, off), x)
  {
    hide CodedFrom, WriteFrom, CleanFrom, CodedDeal, DealWithEnd, CleanEnd;
    var i := Below(ts, off);
    BelowFacts(ts, off);
    if i == 0 {
      OneElement(Tag(off, ty, 1));
      x := DealDiffers(0, Tag(off, ty, 1), ts, off + ElemSize(ty));
    } else {
      var before, start, rest := ts[..i - 1], ts[i - 1], ts[i..];
      AroundStart(ts, i - 1);
      x := FromDiffers(start, rest, ty, off);
      NothingIn(before, 0, start.offset, x);
      Prefixed(before, CodedFrom(start, rest, ty, off).ts, WriteFrom(start, rest, ty, off), x);
    }
  }

  // ----- The search -----

  /** The search is right below 2^31 on any tree whose right side fits (`RbSearch.SpineFits`). */
  lemma {:induction false} StartFound<N>(t: Tree<N>, ts: seq<Tag>, off: nat)
    requires Keys(t, ts) && Ascending(ts) && SpineFits(t) && off < INT_LIMIT
    ensures FindsStart(t, ts, off)
  {
    hide Inorder, IsRb, Below, BelowIn, SpineFits;
    IndexSorted(t, ts);
    SpineSuffices(t, off, None);
    FoundIsTag(t, ts, off, BelowIn(true, t, off, None));
  }

  /** As coded, the search is right for every offset below 2^31 if and only if the right side fits. */
  lemma {:induction false} StartFoundExactly<N>(t: Tree<N>, ts: seq<Tag>)
    requires Keys(t, ts) && Ascending(ts)
    ensures SpineFits(t) <==> forall off: nat :: off < INT_LIMIT ==> FindsStart(t, ts, off)
  {
    hide Inorder, IsRb, Below, BelowIn, SpineFits;
    if SpineFits(t) {
      forall off: nat | off < INT_LIMIT
        ensures FindsStart(t, ts, off)
      {
        StartFound(t, ts, off);
      }
    } else {
      IndexSorted(t, ts);
      SpineNeeded(t, None);
      var n := Below(ts, INT_MAX);
      if n > 0 {
        BelowSplits(ts, INT_MAX, n - 1);
      }
      assert !FindsStart(t, ts, INT_MAX);
    }
  }

  /** A block with tags at 0 and at 2^31: the search for byte 8 returns the second one. */
  lemma {:induction false} SearchGoesAstray(ty: Ty)
    requires ty.Obj?
    ensures var ts := [Tag(0, ty, 1), Tag(INT_LIMIT, ty, 1)];
            var t := Node(Elem(0, 0), false, Leaf, Node(Elem(1, INT_LIMIT), true, Leaf, Leaf));
            Keys(t, ts) && Below(ts, 8) == 1 && BelowIn(true, t, 8, None) == Some(Elem(1, INT_LIMIT)) &&
            CodedWrite(t, ts, ty, 8) == Astray
  {
    var ts := [Tag(0, ty, 1), Tag(INT_LIMIT, ty, 1)];
    var right := Node(Elem(1, INT_LIMIT), true, Leaf, Leaf);
    var t := Node(Elem(0, 0), false, Leaf, right);
    assert Inorder(right) == [Elem(1, INT_LIMIT)];
    assert Inorder(t) == [Elem(0, 0), Elem(1, INT_LIMIT)];
    assert ts[1..] == [Tag(INT_LIMIT, ty, 1)] && Below(ts[1..], 8) == 0;
    assert BelowIn(true, right, 8, Some(Elem(0, 0))) == Some(Elem(1, INT_LIMIT));
  }

  // ----- The exact condition -----

  /**
   Where the search finds the tag below the write, the source leaves tags that agree with the reference
   semantics on every byte exactly when the write is clean.
   */
  lemma {:induction false} AsWrittenExactly<N>(t: Tree<N>, ts: seq<Tag>, ty: Ty, off: nat)
    requires ty.Obj? && WellFormed(0, ts) && |Inorder(t)| == |ts| && FindsStart(t, ts, off)
    ensures Meets(t, ts, ty, off) <==> Clean(ts, ty, off)
  {
    hide CodedBelow, Write, Clean, OverwriteCell, Inorder, FindsStart;
    forall x: nat
      ensures CellAt(Write(ts, ty, off), x) == OverwriteCell(CellAt(ts, x), ty, off, x)
    {
      WriteCells(ts, ty, off, x);
    }
    if Clean(ts, ty, off) {
      CleanAgrees(ts, ty, off);
    } else if CodedBelow(ts, ty, off).Tags? {
      var x := UncleanDiffers(ts, ty, off);
    }
  }

  /** On any tree that indexes the list and fits, for every offset below 2^31. */
  lemma {:induction false} AsWrittenBelowLimit<N>(t: Tree<N>, ts: seq<Tag>, ty: Ty, off: nat)
    requires ty.Obj? && WellFormed(0, ts) && Keys(t, ts) && SpineFits(t) && off < INT_LIMIT
    ensures Meets(t, ts, ty, off) <==> Clean(ts, ty, off)
  {
    hide Inorder, IsRb, Meets, Clean, FindsStart;
    WellFormedAscends(0, ts);
    StartFound(t, ts, off);
    AsWrittenExactly(t, ts, ty, off);
  }

  /** For instance: writing one 8-byte object of another type over the middle one of three loses the last one. */
  lemma {:induction false} AsWrittenLosesTags()
    ensures var a, b := Obj(1, 8), Obj(2, 8);
            var ts, t := [Tag(0, a, 3)], Node(Elem(0, 0), false, Leaf, Leaf);
            |Inorder(t)| == |ts| && CodedWrite(t, ts, b, 8) == Tags([Tag(0, a, 1), Tag(8, b, 1)]) &&
            !Meets(t, ts, b, 8)
  {
    hide CutFront, Write, OverwriteCell;
    var a, b := Obj(1, 8), Obj(2, 8);
    var start, t := Tag(0, a, 3), Node(Elem(0, 0), false, Leaf, Leaf);
    SpanIsProduct(8, 3);
    QuotRemAreDivMod(8, 8);
    assert End(start) == 24 && Aligned(start, 8);
    assert Below([start], 8) == 1;
    assert Inorder(t) == [Elem(0, 0)];
    assert FindsStart(t, [start], 8);
    assert CodedDeal(Tag(8, b, 1), [], 16) == [Tag(8, b, 1)];
    assert CodedFrom(start, [], b, 8) == Tags([Tag(0, a, 1), Tag(8, b, 1)]);
    assert [start][..0] + [Tag(0, a, 1), Tag(8, b, 1)] == [Tag(0, a, 1), Tag(8, b, 1)];
    assert [start][1..] == [];
    AsWrittenExactly(t, [start], b, 8);
  }

  // ----- Arrays -----

  lemma {:induction false} CanonicalEnd(ty: Ty, lo: nat, rest: seq<Tag>, off: nat)
    requires ty.Obj? && Canonical(ty, lo, rest) && Rem(off, ElemSize(ty)) == 0 && (rest != [] ==> off < rest[0].offset)
    ensures CleanEnd(rest, off + ElemSize(ty))
  {
    if rest != [] {
      MultipleDifference(ty.size, off, rest[0].offset);
    }
  }

  /** Where all objects are of one type and aligned, every write is clean: the tags need no repair for arrays. */
  lemma {:induction false} AlignedWritesAreClean(ty: Ty, ts: seq<Tag>, off: nat)
    requires ty.Obj? && Canonical(ty, 0, ts) && Rem(off, ElemSize(ty)) == 0
    ensures CodedBelow(ts, ty, off) == Tags(Write(ts, ty, off))
    ensures Canonical(ty, 0, Write(ts, ty, off))
  {
    hide CodedBelow, Write, Span;
    var i := Below(ts, off);
    BelowFacts(ts, off);
    CanonicalIsWellFormed(ty, 0, ts);
    if i == 0 {
      CanonicalEnd(ty, 0, ts, off);
    } else {
      var start, rest := ts[i - 1], ts[i..];
      assert ts == ts[..i - 1] + ([start] + rest);
      CanonicalAppend(ty, 0, ts[..i - 1], [start] + rest);
      assert ([start] + rest)[1..] == rest;
      CanonicalEnd(ty, End(start) + 1, rest, off);
      MultipleDifference(ty.size, start.offset, off);
    }
    CleanAgrees(ts, ty, off);
    WriteCanonical(ty, ts, off);
  }

  /** Before each write of a run, `trees` has a tree that indexes the list; offsets are below 2^31. */
  ghost predicate Indexed<N>(ts: seq<Tag>, ty: Ty, offs: seq<nat>, trees: seq<Tree<N>>)
    requires |offs| == |trees|
    decreases |offs|
  {
    offs != [] ==>
      Keys(trees[0], ts) && offs[0] < INT_LIMIT &&
      Indexed(Write(ts, ty, offs[0]), ty, offs[1..], trees[1..])
  }

  /** The source run on writes of one type, one after the other, on those trees. */
  ghost function CodedAll<N>(ts: seq<Tag>, ty: Ty, offs: seq<nat>, trees: seq<Tree<N>>): Outcome
    requires |offs| == |trees|
    decreases |offs|
  {
    if offs == [] then Tags(ts)
    else if |Inorder(trees[0])| != |ts| then Astray
    else match CodedWrite(trees[0], ts, ty, offs[0])
      case Astray => Astray
      case Broken => Broken
      case Tags(d) => CodedAll(d, ty, offs[1..], trees[1..])
  }

  /** The right side of each tree fits an int. */
  predicate AllFit<N>(trees: seq<Tree<N>>) {
    forall i :: 0 <= i < |trees| ==> SpineFits(trees[i])
  }

  lemma {:induction false} AlignedRunsAreClean<N>(ty: Ty, ts: seq<Tag>, offs: seq<nat>, trees: seq<Tree<N>>)
    requires ty.Obj? && Canonical(ty, 0, ts) && AllAligned(ty, offs)
    requires |offs| == |trees| && Indexed(ts, ty, offs, trees) && AllFit(trees)
    ensures CodedAll(ts, ty, offs, trees) == Tags(WriteAll(ts, Stores(ty, offs)))
    decreases |offs|
  {
    hide CodedBelow, Write, FindsStart, Inorder, SpineFits, IsRb;
    if offs != [] {
      AlignedWritesAreClean(ty, ts, offs[0]);
      CanonicalIsWellFormed(ty, 0, ts);
      WellFormedAscends(0, ts);
      StartFound(trees[0], ts, offs[0]);
      AlignedRunsAreClean(ty, Write(ts, ty, offs[0]), offs[1..], trees[1..]);
      assert Stores(ty, offs)[1..] == Stores(ty, offs[1..]);
    }
  }

  /** Every byte that is tagged belongs to an element that starts below 2^31. */
  ghost predicate Low(ty: Ty, ts: seq<Tag>) {
    forall b: nat :: CellAt(ts, b) != Unwritten ==>
      ElementCell(ty, CellAt(ts, b), b) && b - Rem(b, ElemSize(ty)) < INT_LIMIT
  }

  lemma {:induction false} WriteStaysLow(ty: Ty, ts: seq<Tag>, off: nat)
    requires ty.Obj? && Canonical(ty, 0, ts) && Low(ty, ts) && Rem(off, ElemSize(ty)) == 0 && off < INT_LIMIT
    ensures Low(ty, Write(ts, ty, off))
  {
    hide Write, CellAt, Rem;
    CanonicalIsWellFormed(ty, 0, ts);
    forall b: nat | CellAt(Write(ts, ty, off), b) != Unwritten
      ensures ElementCell(ty, CellAt(Write(ts, ty, off), b), b) && b - Rem(b, ElemSize(ty)) < INT_LIMIT
    {
      WriteElement(ty, ts, off, b);
    }
  }

  /** The first byte of a run is tagged. */
  lemma {:induction false} RunStarts(ty: Ty, lo: nat, ts: seq<Tag>, i: nat)
    requires ty.Obj? && Canonical(ty, lo, ts) && i < |ts|
    ensures CellAt(ts, ts[i].offset) != Unwritten && Rem(ts[i].offset, ElemSize(ty)) == 0
    decreases i
  {
    FirstRun(ty, lo, ts);
    if i > 0 {
      RunStarts(ty, End(ts[0]) + 1, ts[1..], i - 1);
    }
  }

  lemma {:induction false} LowTreeFits<N>(ty: Ty, ts: seq<Tag>, t: Tree<N>)
    requires ty.Obj? && Canonical(ty, 0, ts) && Low(ty, ts) && Keys(t, ts)
    ensures SpineFits(t)
  {
    hide Canonical, CellAt, Rem, SpineFits, IsRb, Inorder;
    forall i | 0 <= i < |ts|
      ensures Inorder(t)[i].value < INT_LIMIT
    {
      RunStarts(ty, 0, ts, i);
    }
    SmallKeysFit(t);
  }

  lemma {:induction false} SmallKeysFit<N>(t: Tree<N>)
    requires forall n :: n in Inorder(t) ==> n.value < INT_LIMIT
    ensures SpineFits(t)
  {
    if t.Node? {
      assert t.n in Inorder(t);
      assert forall n :: n in Inorder(t.right) ==> n in Inorder(t);
      SmallKeysFit(t.right);
    }
  }

  /** So over a run of writes below 2^31 to such a block, every tree that indexes the list fits. */
  lemma {:induction false} IndexedFit<N>(ty: Ty, ts: seq<Tag>, offs: seq<nat>, trees: seq<Tree<N>>)
    requires ty.Obj? && Canonical(ty, 0, ts) && Low(ty, ts) && AllAligned(ty, offs)
    requires |offs| == |trees| && Indexed(ts, ty, offs, trees)
    ensures AllFit(trees)
    decreases |offs|
  {
    hide Canonical, Low, Write, SpineFits, Keys, Rem;
    if offs != [] {
      LowTreeFits(ty, ts, trees[0]);
      WriteStaysLow(ty, ts, offs[0]);
      WriteCanonical(ty, ts, offs[0]);
      IndexedFit(ty, Write(ts, ty, offs[0]), offs[1..], trees[1..]);
      assert forall i :: 0 < i < |trees| ==> trees[i] == trees[1..][i - 1];
    }
  }

  /**
   On trees that index the list, in whatever order the elements come below 2^31, the tags that the source
   sets are the same canonical list of maximal runs.
   */
  lemma {:induction false} AsWrittenOrderIsIrrelevant<N>(
      ty: Ty, offs: seq<nat>, trees: seq<Tree<N>>, offs': seq<nat>, trees': seq<Tree<N>>)
    requires ty.Obj? && AllAligned(ty, offs) && AllAligned(ty, offs')
    requires |offs| == |trees| && Indexed([], ty, offs, trees) && |offs'| == |trees'| && Indexed([], ty, offs', trees')
    requires forall o :: o in offs <==> o in offs'
    ensures CodedAll([], ty, offs, trees).Tags? && CodedAll([], ty, offs, trees) == CodedAll([], ty, offs', trees')
    ensures Canonical(ty, 0, CodedAll([], ty, offs, trees).ts)
  {
    hide CodedAll, Indexed;
    IndexedFit(ty, [], offs, trees);
    IndexedFit(ty, [], offs', trees');
    AlignedRunsAreClean(ty, [], offs, trees);
    AlignedRunsAreClean(ty, [], offs', trees');
    OrderOfWritesIsIrrelevant(ty, offs, offs');
  }
}

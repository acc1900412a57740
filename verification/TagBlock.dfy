/**
 The tag list of a memory block as mem.cpp keeps it: nodes linked by `next` and `prev`, updated in
 place, and indexed by the red-black tree `index`, a value here (RbTrees.dfy has the same tree on
 linked nodes); `tags` is its in-order sequence of nodes.

 `Update` is `update_tag_write` with the repaired insertion of RbTrees.dfy, a removal that meets the
 contract `RbSpec.Removed`, a `findBelow` that compares full offsets instead of narrowing them to `int`
 (rbtree.cpp:105, 110), and these repairs of mem.cpp:
  - `next` is read before its node is removed (92, 139-140);
  - a cut object with nothing whole after it becomes `alignbytes` raw bytes, not 0 (125);
  - the whole objects after a cut keep their type and are linked on both sides (128-133), and
    every cut run gets its new `prev`;
  - all that is left of the overwritten run survives a write at its start (202) or inside it (211-227);
  - the old successor is read before it is overwritten (215-216);
  - a run whose first object is cut becomes raw instead of keeping count 0 (211).
 */
module TagBlock {
  import opened Options
  import opened TagSearch
  import opened TagSpec
  import RB = RbSpec
  import RS = RbSearch

  class TagNode {
    var offset: nat
    var ty: Ty
    var typesize: pos
    var count: nat
    var prev: TagNode?
    var next: TagNode?

    /** `s` is the size of one object, or of the whole run for raw data; `next` is set later. */
    constructor (o: nat, s: pos, p: TagNode?, t: Ty)
      requires t.Obj? ==> s == t.size
      ensures Holds(Tag(o, t, if t.Raw? then s else 1)) && prev == p
    {
      offset, ty, prev := o, t, p;
      if t == Raw {
        typesize, count := 1, s;
      } else {
        typesize, count := s, 1;
      }
      next := null;
    }

    /** A run that is what is left of a longer one. */
    constructor Remainder(t: Tag, p: TagNode)
      ensures Holds(t) && prev == p
    {
      offset, ty, typesize, count := t.offset, t.ty, ElemSize(t.ty), t.count;
      prev, next := p, null;
    }

    ghost predicate Holds(t: Tag)
      reads this
    {
      offset == t.offset && ty == t.ty && typesize == ElemSize(t.ty) && count == t.count
    }
  }

  function At(ns: seq<TagNode>, i: int): TagNode? {
    if 0 <= i < |ns| then ns[i] else null
  }

  ghost predicate Match(ns: seq<TagNode>, ts: seq<Tag>)
    reads ns
  {
    |ns| == |ts| && forall i :: 0 <= i < |ns| ==> ns[i].Holds(ts[i])
  }

  ghost predicate NextFrom(ns: seq<TagNode>, k: nat)
    reads ns
  {
    forall i {:trigger ns[i].next} :: k <= i < |ns| ==> ns[i].next == At(ns, i + 1)
  }

  ghost predicate PrevFrom(ns: seq<TagNode>, k: nat)
    reads ns
  {
    forall i {:trigger ns[i].prev} :: k <= i < |ns| ==> ns[i].prev == At(ns, i - 1)
  }

  /** The nodes of `p` are linked to each other, and the last of them to `then'`. */
  ghost predicate LinkedTo(p: seq<TagNode>, then': TagNode?)
    reads p
  {
    && (forall i {:trigger p[i].next} :: 0 <= i < |p| ==> p[i].next == if i + 1 < |p| then p[i + 1] else then')
    && (forall i {:trigger p[i].prev} :: 0 <= i < |p| ==> p[i].prev == At(p, i - 1))
  }

  ghost predicate Distinct(ns: seq<TagNode>) {
    forall i, j :: 0 <= i < j < |ns| ==> ns[i] != ns[j]
  }

  /** `ns[k]`, if there is one, occurs only once. */
  ghost predicate Once(ns: seq<TagNode>, k: nat) {
    k < |ns| ==> forall i :: 0 <= i < |ns| && i != k ==> ns[i] != ns[k]
  }

  lemma {:induction false} DistinctOnce(ns: seq<TagNode>, k: nat)
    requires Distinct(ns)
    ensures Once(ns, k)
  {
  }

  // ----- Sequences with an element put in or taken out -----

  function Insert<T>(ns: seq<T>, k: nat, n: T): (r: seq<T>)
    requires k <= |ns|
    ensures |r| == |ns| + 1 && r[k] == n
    ensures forall i :: 0 <= i < k ==> r[i] == ns[i]
    ensures forall i :: k < i < |r| ==> r[i] == ns[i - 1]
  {
    ns[..k] + [n] + ns[k..]
  }

  function Remove<T>(ns: seq<T>, k: nat): (r: seq<T>)
    requires k < |ns|
    ensures |r| == |ns| - 1
    ensures forall i :: 0 <= i < k ==> r[i] == ns[i]
    ensures forall i :: k <= i < |r| ==> r[i] == ns[i + 1]
  {
    ns[..k] + ns[k + 1..]
  }

  lemma {:induction false} DistinctInsert(ns: seq<TagNode>, k: nat, n: TagNode)
    requires Distinct(ns) && k <= |ns| && n !in ns
    ensures Distinct(Insert(ns, k, n))
  {
    var r := Insert(ns, k, n);
    forall i, j | 0 <= i < j < |r|
      ensures r[i] != r[j]
    {
      assert i != k ==> r[i] == (if i < k then ns[i] else ns[i - 1]);
      assert j != k ==> r[j] == (if j < k then ns[j] else ns[j - 1]);
    }
  }

  lemma {:induction false} SortedInsert(ts: seq<Tag>, k: nat, t: Tag)
    requires Ascending(ts) && k <= |ts|
    requires (k > 0 ==> ts[k - 1].offset < t.offset) && (k < |ts| ==> t.offset < ts[k].offset)
    ensures Ascending(Insert(ts, k, t))
  {
    var r := Insert(ts, k, t);
    forall i, j | 0 <= i < j < |r|
      ensures r[i].offset < r[j].offset
    {
      if i == k {
        assert r[j] == ts[j - 1];
        assert k < j - 1 ==> ts[k].offset < ts[j - 1].offset;
      } else if j == k {
        assert r[i] == ts[i];
        assert i < k - 1 ==> ts[i].offset < ts[k - 1].offset;
      } else {
        assert r[i] == (if i < k then ts[i] else ts[i - 1]);
        assert r[j] == (if j < k then ts[j] else ts[j - 1]);
      }
    }
  }

  lemma {:induction false} SortedUpdate(ts: seq<Tag>, k: nat, t: Tag)
    requires Ascending(ts) && k < |ts|
    requires (k > 0 ==> ts[k - 1].offset < t.offset) && (k + 1 < |ts| ==> t.offset < ts[k + 1].offset)
    ensures Ascending(ts[k := t])
  {
    var r := ts[k := t];
    forall i, j | 0 <= i < j < |r|
      ensures r[i].offset < r[j].offset
    {
      if i == k {
        assert k + 1 < j ==> ts[k + 1].offset < ts[j].offset;
      } else if j == k {
        assert i < k - 1 ==> ts[i].offset < ts[k - 1].offset;
      }
    }
  }

  lemma {:induction false} RemoveKeeps(ns: seq<TagNode>, ts: seq<Tag>, k: nat)
    requires Distinct(ns) && Ascending(ts) && Match(ns, ts) && k < |ns|
    ensures Distinct(Remove(ns, k)) && Ascending(Remove(ts, k)) && Match(Remove(ns, k), Remove(ts, k))
  {
    var r, u := Remove(ns, k), Remove(ts, k);
    forall i, j | 0 <= i < j < |r|
      ensures r[i] != r[j] && u[i].offset < u[j].offset
    {
      assert r[i] == (if i < k then ns[i] else ns[i + 1]) && r[j] == (if j < k then ns[j] else ns[j + 1]);
      assert u[i] == (if i < k then ts[i] else ts[i + 1]) && u[j] == (if j < k then ts[j] else ts[j + 1]);
    }
  }

  lemma {:induction false} InsertMatches(ns: seq<TagNode>, ts: seq<Tag>, k: nat, n: TagNode, t: Tag)
    requires Match(ns, ts) && k <= |ns| && n.Holds(t)
    ensures Match(Insert(ns, k, n), Insert(ts, k, t))
  {
    var r, u := Insert(ns, k, n), Insert(ts, k, t);
    forall i | 0 <= i < |r|
      ensures r[i].Holds(u[i])
    {
      if i > k {
        assert r[i] == ns[i - 1] && u[i] == ts[i - 1];
      }
    }
  }

  /** Links beyond a place that has just been put in or taken out are those of the shifted sequence. */
  lemma {:induction false} InsertedLinks(ns: seq<TagNode>, k: nat, m: TagNode)
    requires k <= |ns| && NextFrom(ns, k) && PrevFrom(ns, k + 1)
    ensures NextFrom(Insert(ns, k, m), k + 1) && PrevFrom(Insert(ns, k, m), k + 2)
  {
    var r := Insert(ns, k, m);
    forall i | k + 1 <= i < |r|
      ensures r[i].next == At(r, i + 1) && (i > k + 1 ==> r[i].prev == At(r, i - 1))
    {
      assert r[i] == ns[i - 1];
    }
  }

  lemma {:induction false} RemovedLinks(ns: seq<TagNode>, k: nat)
    requires k + 1 < |ns| && NextFrom(ns, k + 1) && PrevFrom(ns, k + 2)
    ensures var r := Remove(ns, k + 1);
            ns[k + 1].next == At(r, k + 1) && NextFrom(r, k + 1) && PrevFrom(r, k + 2)
  {
    var r := Remove(ns, k + 1);
    forall i | k + 1 <= i < |r|
      ensures r[i].next == At(r, i + 1) && (i > k + 1 ==> r[i].prev == At(r, i - 1))
    {
      assert r[i] == ns[i + 1];
    }
  }

  /** Where the tree is without the node: any balanced tree over the rest will do. */
  method TreeRemove(t: RB.Tree<TagNode>, n: TagNode, ghost k: nat) returns (r: RB.Tree<TagNode>)
    requires k < |RB.Inorder(t)| && RB.Inorder(t)[k].node == n
    requires forall i :: 0 <= i < |RB.Inorder(t)| && i != k ==> RB.Inorder(t)[i].node != n
    ensures RB.Removed(t, k, r)
  {
    var es, i, h := RB.Inorder(t), 0, 1;
    while es[i].node != n
      invariant i <= k
      decreases k - i
    {
      i := i + 1;
    }
    var rest := es[..i] + es[i + 1..];
    if rest == [] {
      return RB.Leaf;
    }
    while |rest| > RB.Full(h)
      invariant h > 0 && RB.Full(h - 1) <= |rest| && h <= RB.Full(h - 1)
      decreases |rest| - RB.Full(h - 1)
    {
      h := h + 1;
    }
    RB.BuildInorder(rest, 0, |rest|, h);
    RB.BuildRb(rest, 0, |rest|, h);
    r := RB.Build(rest, 0, |rest|, h);
    RB.RbHeight(r, h);
  }

  class TagList {
    var firsttag: TagNode?
    var index: RB.Tree<TagNode>
    ghost var tags: seq<TagNode>
    ghost var view: seq<Tag>
    ghost var repr: set<TagNode>

    /** `tags` are the nodes of the tree in order, which is the order of the offsets; each holds its run. */
    ghost predicate Tree()
      reads this, tags
    {
      Match(tags, view) && Distinct(tags) && Ascending(view) && Indexes(index, tags, view)
    }

    /** The tree and the linked list agree, `prev` is the inverse of `next`, and the runs are in order. */
    ghost predicate Valid()
      reads this, repr
    {
      Linked() && WellFormed(0, view)
    }

    constructor ()
      ensures Valid() && view == [] && repr == {}
    {
      firsttag, index, tags, view, repr := null, RB.Leaf, [], [], {};
    }

    /** The tree's `insert`: the node takes the in-order place `k` of its key. */
    method InsertTag(n: TagNode, ghost k: nat, ghost t: Tag)
      requires Tree() && k <= |tags| && n !in tags && n.Holds(t)
      requires (k > 0 ==> view[k - 1].offset < t.offset) && (k < |tags| ==> t.offset < view[k].offset)
      modifies this`tags, this`index, this`view
      ensures Tree() && tags == Insert(old(tags), k, n) && view == Insert(old(view), k, t)
      ensures index == RB.Insert(old(index), RB.Elem(n, t.offset))
    {
      assert |tags| == |view|;
      hide Match, Distinct, Ascending, Indexes;
      InsertKeepsIndex(index, tags, view, n, t, k);
      DistinctInsert(tags, k, n);
      SortedInsert(view, k, t);
      InsertMatches(tags, view, k, n, t);
      index := RB.Insert(index, RB.Elem(n, n.offset));
      tags, view := Insert(tags, k, n), Insert(view, k, t);
    }

    /** The tree's `remove`, by contract: the node is gone and the order of the rest is kept. */
    method RemoveTag(n: TagNode, ghost k: nat)
      requires Tree() && k < |tags| && tags[k] == n
      modifies this`tags, this`index, this`view
      ensures Tree() && tags == Remove(old(tags), k) && view == Remove(old(view), k)
      ensures RB.Removed(old(index), k, index)
    {
      hide Match, Ascending, RB.Inorder, RB.IsRb;
      DistinctOnce(tags, k);
      var r := TreeRemove(index, n, k);
      RemoveKeepsIndex(index, tags, view, k, r);
      RemoveKeeps(tags, view, k);
      index, tags, view := r, Remove(tags, k), Remove(view, k);
    }

    /** The tree's `findBelow`: the node with the greatest offset that is at most `off`, without narrowing. */
    method FindBelow(off: nat) returns (n: TagNode?)
      requires Tree()
      ensures n == At(tags, Below(view, off) - 1)
    {
      hide Match, Distinct, Ascending, RB.Inorder, RB.IsRb;
      RS.FittingKeysAreAlike(false, RB.Inorder(index), off);
      SearchFindsTag(false, index, tags, view, off);
      n := null;
      var curr, best := index, None;
      while curr.Node?
        invariant RS.BelowIn(false, curr, off, best) == RS.BelowIn(false, index, off, None)
        invariant n == if best.None? then null else best.value.node
        decreases curr
      {
        if off == curr.n.value {
          return curr.n.node;
        } else if off > curr.n.value {
          n, best, curr := curr.n.node, Some(curr.n), curr.right;
        } else {
          curr := curr.left;
        }
      }
    }

    /** A tag that is in the tree gets another offset, between those of its neighbours. */
    method MoveKey(n: TagNode, t: Tag, ghost k: nat)
      requires Indexes(index, tags, view) && k < |tags| && tags[k] == n && Once(tags, k)
      modifies this`index
      ensures Indexes(index, tags, view[k := t]) && index == RB.SetKey(old(index), n, t.offset)
    {
      assert |tags| == |view|;
      hide Indexes;
      SetKeyKeepsIndex(index, tags, view, k, t);
      index := RB.SetKey(index, n, t.offset);
    }

    /** Where a run cut at `endpos` has its first whole object, and how many bytes and objects remain. */
    static method CutSizes(a: Tag, endpos: nat) returns (alignbytes: nat, newcount: nat)
      requires a.offset < endpos < End(a)
      ensures CutFront(a, endpos) ==
              if alignbytes == 0 then [Tag(endpos, a.ty, newcount)]
              else if newcount == 0 then [Tag(endpos, Raw, alignbytes)]
              else [Tag(endpos, Raw, alignbytes), Tag(endpos + alignbytes, a.ty, newcount)]
      ensures endpos + alignbytes + Span(ElemSize(a.ty), newcount) == End(a)
    {
      var typesize := ElemSize(a.ty);
      QuotRemAreDivMod(endpos - a.offset + typesize - 1, typesize);
      var firstvalid := (endpos - a.offset + typesize - 1) / typesize;
      assert firstvalid == FirstValid(a, endpos);
      SpanIsProduct(typesize, firstvalid);
      SpanAdd(typesize, firstvalid, a.count - firstvalid);
      var invalidbytes := typesize * firstvalid;
      alignbytes := a.offset + invalidbytes - endpos;
      newcount := a.count - firstvalid;
    }

    /** The run at `tags[k]` becomes `t`, and `before` its predecessor. */
    method Reshape(before: TagNode?, n: TagNode, t: Tag, ghost k: nat)
      requires Tree() && k < |tags| && At(tags, k - 1) == before && tags[k] == n
      requires (k > 0 ==> view[k - 1].offset < t.offset) && (k + 1 < |tags| ==> t.offset < view[k + 1].offset)
      requires NextFrom(tags, k) && PrevFrom(tags, k + 1)
      modifies n`offset, n`ty, n`typesize, n`count, n`prev, this`index, this`view
      ensures Tree() && view == old(view)[k := t]
      ensures NextFrom(tags, k) && PrevFrom(tags, k)
    {
      hide Ascending, Indexes;
      SortedUpdate(view, k, t);
      DistinctOnce(tags, k);
      MoveKey(n, t, k);
      SetFields(before, n, t, k);
    }

    method SetFields(before: TagNode?, n: TagNode, t: Tag, ghost k: nat)
      requires Match(tags, view) && k < |tags| && At(tags, k - 1) == before && tags[k] == n && Once(tags, k)
      requires NextFrom(tags, k) && PrevFrom(tags, k + 1)
      modifies n`offset, n`ty, n`typesize, n`count, n`prev, this`view
      ensures Match(tags, view) && view == old(view)[k := t]
      ensures NextFrom(tags, k) && PrevFrom(tags, k)
    {
      n.offset, n.ty, n.typesize, n.count, n.prev := t.offset, t.ty, ElemSize(t.ty), t.count, before;
      view := view[k := t];
    }

    /** `m`, already in the tree, is put into the list between `n` and the old successor of `n`. */
    method LinkAfter(n: TagNode, m: TagNode, ghost k: nat)
      requires Tree() && m.prev == n && n.prev == At(tags, k - 1)
      requires k + 1 < |tags| && tags[k] == n && tags[k + 1] == m
      requires n.next == At(tags, k + 2) && NextFrom(tags, k + 2) && PrevFrom(tags, k + 3)
      modifies m`next, n`next, (if k + 2 < |tags| then {tags[k + 2]} else {})`prev
      ensures NextFrom(tags, k) && PrevFrom(tags, k) && Tree()
    {
      DistinctOnce(tags, k);
      DistinctOnce(tags, k + 1);
      DistinctOnce(tags, k + 2);
      SetLinks(n, m, k);
    }

    method SetLinks(n: TagNode, m: TagNode, ghost k: nat)
      requires Match(tags, view) && m.prev == n && n.prev == At(tags, k - 1)
      requires k + 1 < |tags| && tags[k] == n && tags[k + 1] == m
      requires Once(tags, k) && Once(tags, k + 1) && Once(tags, k + 2)
      requires n.next == At(tags, k + 2) && NextFrom(tags, k + 2) && PrevFrom(tags, k + 3)
      modifies m`next, n`next, (if k + 2 < |tags| then {tags[k + 2]} else {})`prev
      ensures NextFrom(tags, k) && PrevFrom(tags, k) && Match(tags, view)
    {
      m.next := n.next;
      if m.next != null {
        m.next.prev := m;
      }
      n.next := m;
    }

    /** A new run right after `n` in the tree and in the list. */
    method InsertAfter(n: TagNode, t: Tag, ghost k: nat) returns (m: TagNode)
      requires Tree() && k < |tags| && tags[k] == n
      requires view[k].offset < t.offset && (k + 1 < |tags| ==> t.offset < view[k + 1].offset)
      requires NextFrom(tags, k) && PrevFrom(tags, k)
      modifies this`tags, this`index, this`view, n`next, (if k + 1 < |tags| then {tags[k + 1]} else {})`prev
      ensures Tree() && fresh(m) && tags == Insert(old(tags), k + 1, m) && view == Insert(old(view), k + 1, t)
      ensures NextFrom(tags, k) && PrevFrom(tags, k)
    {
      m := InsertUnlinked(n, t, k);
      LinkAfter(n, m, k);
    }

    method InsertUnlinked(n: TagNode, t: Tag, ghost k: nat) returns (m: TagNode)
      requires Tree() && k < |tags| && tags[k] == n
      requires view[k].offset < t.offset && (k + 1 < |tags| ==> t.offset < view[k + 1].offset)
      requires NextFrom(tags, k) && PrevFrom(tags, k)
      modifies this`tags, this`index, this`view
      ensures Tree() && fresh(m) && tags == Insert(old(tags), k + 1, m) && view == Insert(old(view), k + 1, t)
      ensures n.next == At(tags, k + 2) && NextFrom(tags, k + 2) && PrevFrom(tags, k + 3)
      ensures m.prev == n && n.prev == At(tags, k - 1) && tags[k] == n && tags[k + 1] == m
    {
      hide Ascending, Distinct, Indexes;
      m := new TagNode.Remainder(t, n);
      assert n.next == At(tags, k + 1) && n.prev == At(tags, k - 1);
      InsertTag(m, k + 1, t);
      InsertedLinks(old(tags), k + 1, m);
    }

    /** The repair of a run that `endpos` cuts: raw bytes for the cut object, then the whole objects. */
    method CutAffected(extended: TagNode, affected: TagNode, endpos: nat, ghost k: nat) returns (m: TagNode?)
      requires Tree() && NextFrom(tags, k + 1) && PrevFrom(tags, k + 2)
      requires k + 1 < |tags| && tags[k] == extended && tags[k + 1] == affected
      requires view[k].offset < endpos && view[k + 1].offset < endpos < End(view[k + 1])
      requires k + 2 < |tags| ==> End(view[k + 1]) <= view[k + 2].offset
      modifies this`tags, this`index, this`view, tags[k + 1], (if k + 2 < |tags| then {tags[k + 2]} else {})`prev
      ensures Tree() && NextFrom(tags, k + 1) && PrevFrom(tags, k + 1)
      ensures if m == null then tags == old(tags) else fresh(m) && tags == Insert(old(tags), k + 2, m)
      ensures view == old(view[..k + 1] + CutFront(view[k + 1], endpos) + view[k + 2..])
    {
      var alignbytes, newcount := CutSizes(Tag(affected.offset, affected.ty, affected.count), endpos);
      if alignbytes == 0 || newcount == 0 {
        m := null;
        var left := if alignbytes == 0 then Tag(endpos, affected.ty, newcount) else Tag(endpos, Raw, alignbytes);
        Reshape(extended, affected, left, k + 1);
      } else {
        m := SplitAffected(extended, affected, endpos, alignbytes, newcount, k);
      }
    }

    /** The cut run becomes raw, and a new node takes its whole objects. */
    method SplitAffected(extended: TagNode, affected: TagNode, endpos: nat, alignbytes: nat, newcount: nat,
                         ghost k: nat)
      returns (m: TagNode)
      requires Tree() && NextFrom(tags, k + 1) && PrevFrom(tags, k + 2)
      requires k + 1 < |tags| && tags[k] == extended && tags[k + 1] == affected
      requires view[k].offset < endpos && 0 < alignbytes
      requires k + 2 < |tags| ==> endpos + alignbytes < view[k + 2].offset
      modifies this`tags, this`index, this`view, tags[k + 1], (if k + 2 < |tags| then {tags[k + 2]} else {})`prev
      ensures Tree() && NextFrom(tags, k + 1) && PrevFrom(tags, k + 1)
      ensures fresh(m) && tags == Insert(old(tags), k + 2, m)
      ensures view == old(view[..k + 1]) +
                      [Tag(endpos, Raw, alignbytes), Tag(endpos + alignbytes, old(view)[k + 1].ty, newcount)] +
                      old(view[k + 2..])
    {
      var ty := affected.ty;
      Reshape(extended, affected, Tag(endpos, Raw, alignbytes), k + 1);
      m := InsertAfter(affected, Tag(endpos + alignbytes, ty, newcount), k + 1);
      UpdateInsert(old(view), k + 1, Tag(endpos, Raw, alignbytes), Tag(endpos + alignbytes, ty, newcount));
    }

    method Merge(extended: TagNode, affected: TagNode, ghost k: nat)
      requires Tree() && k + 1 < |tags| && tags[k] == extended && tags[k + 1] == affected
      modifies extended`count, this`view
      ensures Tree()
      ensures view == old(view)[k := old(view)[k].(count := old(view)[k].count + old(view)[k + 1].count)]
    {
      SameOffsetKeepsIndex(index, tags, view, k, view[k].(count := view[k].count + view[k + 1].count));
      extended.count := extended.count + affected.count;
      view := view[k := view[k].(count := view[k].count + view[k + 1].count)];
    }

    /** The affected run leaves the tree; `extended` gets its successor later. */
    method Drop(affected: TagNode, ghost k: nat) returns (next: TagNode?)
      requires Tree() && k + 1 < |tags| && tags[k + 1] == affected
      requires NextFrom(tags, k + 1) && PrevFrom(tags, k + 2)
      modifies this`tags, this`index, this`view
      ensures Tree() && tags == Remove(old(tags), k + 1) && view == Remove(old(view), k + 1)
      ensures next == At(tags, k + 1) && NextFrom(tags, k + 1) && PrevFrom(tags, k + 2)
      ensures tags[..k + 1] == old(tags[..k + 1]) && tags[k + 1..] == old(tags[k + 2..])
      ensures view[..k + 1] == old(view[..k + 1]) && view[k + 1..] == old(view[k + 2..])
    {
      next := affected.next;
      RemovedLinks(tags, k);
      RemoveTag(affected, k + 1);
    }

    /** The affected run is cut by `endpos`: it is repaired and the loop of `deal_with_end` is left. */
    method SettleCut(extended: TagNode, affected: TagNode, endpos: nat, ghost k: nat)
      requires Tree() && NextFrom(tags, k + 1) && PrevFrom(tags, k + 2)
      requires k + 1 < |tags| && tags[k] == extended && tags[k + 1] == affected
      requires WellFormed(0, view[k + 1..]) && view[k].offset < endpos
      requires view[k + 1].offset < endpos < End(view[k + 1])
      modifies this`tags, this`index, this`view, tags[k + 1], (if k + 2 < |tags| then {tags[k + 2]} else {})`prev
      ensures Tree() && NextFrom(tags, k + 1) && PrevFrom(tags, k + 1)
      ensures k + 1 < |tags| && tags[..k + 1] == old(tags[..k + 1]) && tags[k + 1] == affected
      ensures fresh(From(tags, k + 1) - old(From(tags, k + 1)))
      ensures view == old(view[..k] + DealWithEnd(view[k], view[k + 1..], endpos))
    {
      Suffix(view, k);
      DealCuts(view[k], view[k + 1..], endpos);
      AssembledCut(view, k, CutFront(view[k + 1], endpos));
      var m := CutAffected(extended, affected, endpos, k);
    }

    /** The affected run stays as it is: it gets its new predecessor. */
    method Settle(extended: TagNode, affected: TagNode, endpos: nat, ghost k: nat)
      requires Tree() && NextFrom(tags, k + 1) && PrevFrom(tags, k + 2)
      requires k + 1 < |tags| && tags[k] == extended && tags[k + 1] == affected
      requires view[k + 1].offset >= endpos && !(view[k + 1].offset == endpos && view[k].ty == view[k + 1].ty)
      modifies affected`prev
      ensures Tree() && NextFrom(tags, k + 1) && PrevFrom(tags, k + 1)
      ensures view == view[..k] + DealWithEnd(view[k], view[k + 1..], endpos)
    {
      DealStops(view[k], view[k + 1..], endpos);
      Assembled(view, k);
      SetPrev(extended, affected, k);
    }

    method SetPrev(extended: TagNode, affected: TagNode, ghost k: nat)
      requires Tree() && NextFrom(tags, k + 1) && PrevFrom(tags, k + 2)
      requires k + 1 < |tags| && tags[k] == extended && tags[k + 1] == affected
      modifies affected`prev
      ensures Tree() && NextFrom(tags, k + 1) && PrevFrom(tags, k + 1)
    {
      DistinctOnce(tags, k + 1);
      affected.prev := extended;
    }

    /** The affected run is overwritten: it goes, and its successor is next. */
    method Absorb(affected: TagNode, endpos: nat, ghost k: nat) returns (next: TagNode?)
      requires Tree() && NextFrom(tags, k + 1) && PrevFrom(tags, k + 2)
      requires k + 1 < |tags| && tags[k + 1] == affected && WellFormed(0, view[k + 1..])
      requires view[k + 1].offset < endpos && End(view[k + 1]) <= endpos
      modifies this`tags, this`index, this`view
      ensures Tree() && NextFrom(tags, k + 1) && PrevFrom(tags, k + 2)
      ensures k < |tags| < |old(tags)| && tags[..k + 1] == old(tags[..k + 1]) && next == At(tags, k + 1)
      ensures From(tags, k + 1) <= old(From(tags, k + 1))
      ensures view[..k] == old(view[..k]) && view[k] == old(view[k]) && WellFormed(0, view[k + 1..])
      ensures DealWithEnd(view[k], view[k + 1..], endpos) == DealWithEnd(old(view[k]), old(view[k + 1..]), endpos)
    {
      Suffix(view, k);
      DealSwallows(view[k], view[k + 1..], endpos);
      next := Drop(affected, k);
    }

    /** The affected run is of the extended type and starts where it ends: its objects join in. */
    method AbsorbEqual(extended: TagNode, affected: TagNode, endpos: nat, ghost k: nat) returns (next: TagNode?)
      requires Tree() && NextFrom(tags, k + 1) && PrevFrom(tags, k + 2)
      requires k + 1 < |tags| && tags[k] == extended && tags[k + 1] == affected && WellFormed(0, view[k + 1..])
      requires view[k + 1].offset == endpos && view[k].ty == view[k + 1].ty
      modifies this`tags, this`index, this`view, extended`count
      ensures Tree() && NextFrom(tags, k + 1) && PrevFrom(tags, k + 2)
      ensures k < |tags| < |old(tags)| && tags[..k + 1] == old(tags[..k + 1]) && next == At(tags, k + 1)
      ensures From(tags, k + 1) <= old(From(tags, k + 1))
      ensures view[..k] == old(view[..k]) && view[k].offset == old(view[k].offset) && WellFormed(0, view[k + 1..])
      ensures DealWithEnd(view[k], view[k + 1..], endpos) == DealWithEnd(old(view[k]), old(view[k + 1..]), endpos)
    {
      hide Ascending, Distinct, Indexes, DealWithEnd;
      Suffix(view, k);
      DealMerges(view[k], view[k + 1..], endpos);
      Merge(extended, affected, k);
      next := Drop(affected, k);
    }

    /** The loop of `deal_with_end`, up to the run that stays. */
    method DealLoop(extended: TagNode, first: TagNode?, endpos: nat, ghost k: nat, ghost own: set<TagNode>)
      returns (affected: TagNode?)
      requires Tree() && NextFrom(tags, k + 1) && PrevFrom(tags, k + 2)
      requires k < |tags| && tags[k] == extended && first == At(tags, k + 1) && From(tags, k + 1) <= own
      requires WellFormed(0, view[k + 1..]) && view[k].offset < endpos
      modifies this`tags, this`index, this`view, extended`count, own
      ensures Tree() && NextFrom(tags, k + 1) && PrevFrom(tags, k + 1)
      ensures k < |tags| && tags[..k + 1] == old(tags[..k + 1]) && affected == At(tags, k + 1)
      ensures view == old(view[..k] + DealWithEnd(view[k], view[k + 1..], endpos))
      ensures fresh(From(tags, k + 1) - own)
    {
      hide Ascending, Distinct, Indexes;
      affected := first;
      ghost var ns, vs := tags, view;
      ghost var goal := DealWithEnd(vs[k], vs[k + 1..], endpos);
      while affected != null
        invariant Tree() && NextFrom(tags, k + 1) && PrevFrom(tags, k + 2)
        invariant k < |tags| && tags[..k + 1] == ns[..k + 1] && affected == At(tags, k + 1)
        invariant From(tags, k + 1) <= own
        invariant view[..k] == vs[..k] && view[k].offset < endpos
        invariant WellFormed(0, view[k + 1..])
        invariant DealWithEnd(view[k], view[k + 1..], endpos) == goal
        decreases |tags|
      {
        FromHas(tags, k + 1, k + 1);
        FromHas(tags, k + 1, k + 2);
        SpanIsProduct(affected.typesize, affected.count);
        if affected.offset >= endpos {
          if affected.offset == endpos && extended.ty == affected.ty {
            affected := AbsorbEqual(extended, affected, endpos, k);
          } else {
            Settle(extended, affected, endpos, k);
            return;
          }
        } else if affected.offset + affected.typesize * affected.count > endpos {
          SettleCut(extended, affected, endpos, k);
          return;
        } else {
          affected := Absorb(affected, endpos, k);
        }
      }
      Assembled(view, k);
    }

    /** `deal_with_end`: from `extended` on, the list is what remains once `endpos` has cut it. */
    method DealWithEndInPlace(extended: TagNode, first: TagNode?, endpos: nat, ghost k: nat)
      requires Tree() && NextFrom(tags, k + 1) && PrevFrom(tags, k + 2)
      requires k < |tags| && tags[k] == extended && first == At(tags, k + 1)
      requires WellFormed(0, view[k + 1..]) && view[k].offset < endpos
      modifies this`tags, this`index, this`view, extended`count, extended`next, From(tags, k + 1)
      ensures Tree() && NextFrom(tags, k) && PrevFrom(tags, k + 1)
      ensures k < |tags| && tags[..k + 1] == old(tags[..k + 1]) && extended.prev == old(extended.prev)
      ensures view == old(view[..k] + DealWithEnd(view[k], view[k + 1..], endpos))
      ensures fresh(From(tags, k + 1) - old(From(tags, k + 1)))
    {
      hide Match, Ascending, Distinct, Indexes, DealWithEnd;
      NotLater(tags, k);
      var affected := DealLoop(extended, first, endpos, k, From(tags, k + 1));
      Finish(extended, affected, k);
    }

    method Finish(extended: TagNode, affected: TagNode?, ghost k: nat)
      requires Tree() && NextFrom(tags, k + 1) && PrevFrom(tags, k + 1)
      requires k < |tags| && tags[k] == extended && affected == At(tags, k + 1)
      modifies extended`next
      ensures Tree() && NextFrom(tags, k) && PrevFrom(tags, k + 1)
    {
      DistinctOnce(tags, k);
      extended.next := affected;
    }

    // ----- Operations that keep the whole list linked -----

    /** The tree and the list agree, and `prev` is the inverse of `next`. */
    ghost predicate Linked()
      reads this, repr
    {
      && (forall n :: n in tags ==> n in repr)
      && Tree() && firsttag == At(tags, 0) && NextFrom(tags, 0) && PrevFrom(tags, 0)
    }

    method ReshapeLinked(n: TagNode, t: Tag, ghost k: nat)
      requires Linked() && k < |tags| && tags[k] == n
      requires (k > 0 ==> view[k - 1].offset < t.offset) && (k + 1 < |tags| ==> t.offset < view[k + 1].offset)
      modifies this, repr
      ensures Linked() && view == old(view)[k := t] && tags == old(tags) && repr == old(repr)
    {
      ghost var p := tags[..k];
      SplitLinks(tags, k);
      Reshape(n.prev, n, t, k);
      assert LinkedTo(p, n);
      JoinLinks(tags, k);
    }

    method InsertLinked(n: TagNode, t: Tag, ghost k: nat) returns (m: TagNode)
      requires Linked() && k < |tags| && tags[k] == n
      requires view[k].offset < t.offset && (k + 1 < |tags| ==> t.offset < view[k + 1].offset)
      modifies this, repr
      ensures Linked() && tags == Insert(old(tags), k + 1, m) && view == Insert(old(view), k + 1, t)
      ensures fresh(m) && repr == old(repr) + {m}
    {
      hide Match, Ascending;
      ghost var p := tags[..k];
      SplitLinks(tags, k);
      m := InsertAfter(n, t, k);
      repr := repr + {m};
      assert tags[..k] == p && tags[k] == n;
      assert LinkedTo(p, n);
      JoinLinks(tags, k);
    }

    method DealWithEndLinked(extended: TagNode, endpos: nat, ghost k: nat, ghost e: Tag, ghost rest: seq<Tag>)
      requires Linked() && k < |tags| && tags[k] == extended && view[k] == e && view[k + 1..] == rest
      requires WellFormed(0, rest) && e.offset < endpos
      modifies this, repr
      ensures Linked() && view == old(view[..k]) + DealWithEnd(e, rest, endpos)
      ensures fresh(repr - old(repr))
    {
      ghost var p, before := tags[..k], extended.prev;
      SplitLinks(tags, k);
      SuffixOf(tags, k + 1, repr);
      DealWithEndInPlace(extended, extended.next, endpos, k);
      KeptAt(old(tags), tags, k);
      Rejoin(extended, p, k);
    }

    method Rejoin(n: TagNode, ghost p: seq<TagNode>, ghost k: nat)
      requires Tree() && k < |tags| && tags[k] == n && tags[..k] == p && LinkedTo(p, n)
      requires firsttag == tags[0] && NextFrom(tags, k) && PrevFrom(tags, k + 1) && n.prev == At(tags, k - 1)
      requires (forall m :: m in p ==> m in repr) && n in repr
      modifies this`repr
      ensures Linked() && repr == old(repr) + From(tags, k + 1)
    {
      JoinLinks(tags, k);
      repr := repr + From(tags, k + 1);
      forall i | 0 <= i < |tags|
        ensures tags[i] in repr
      {
        if i < k { assert tags[i] == p[i]; } else if i > k { FromHas(tags, k + 1, i); }
      }
    }

    /** How many objects of a run end before `off`, and how many bytes of the next one do. */
    static method BackSizes(a: Tag, off: nat) returns (lastvalid: nat, alignbytes: nat)
      requires a.offset < off < End(a)
      ensures alignbytes <= off - a.offset
      ensures CutBack(a, off) ==
              if lastvalid == 0 then [Tag(off - alignbytes, Raw, alignbytes)]
              else if alignbytes == 0 then [a.(count := lastvalid)]
              else [a.(count := lastvalid), Tag(off - alignbytes, Raw, alignbytes)]
      ensures if lastvalid == 0 then a.offset == off - alignbytes else a.offset < off - alignbytes
    {
      var startTypesize := ElemSize(a.ty);
      FloorFacts(off - a.offset, startTypesize);
      QuotRemAreDivMod(off - a.offset, startTypesize);
      lastvalid := (off - a.offset) / startTypesize;
      SpanIsProduct(startTypesize, lastvalid);
      var validbytes := startTypesize * lastvalid;
      alignbytes := off - (a.offset + validbytes);
    }

    /** What `off` leaves of the run at `k`: its whole objects, then raw bytes for a cut one. */
    method TrimBack(start: TagNode, off: nat, ghost k: nat) returns (last: TagNode, ghost j: nat)
      requires Linked() && k < |tags| && tags[k] == start
      requires view[k].offset < off < End(view[k])
      requires k + 1 < |tags| ==> End(view[k]) <= view[k + 1].offset
      modifies this, repr
      ensures Linked() && j < |tags| && tags[j] == last && view[j].offset < off
      ensures view[..j + 1] == old(view[..k] + CutBack(view[k], off)) && view[j + 1..] == old(view[k + 1..])
      ensures fresh(repr - old(repr))
    {
      var lastvalid, alignbytes := BackSizes(Tag(start.offset, start.ty, start.count), off);
      last, j := TrimTo(start, off, lastvalid, alignbytes, k, CutBack(view[k], off));
    }

    method TrimTo(start: TagNode, off: nat, lastvalid: nat, alignbytes: nat, ghost k: nat, ghost back: seq<Tag>)
      returns (last: TagNode, ghost j: nat)
      requires Linked() && k < |tags| && tags[k] == start
      requires alignbytes <= off && (if lastvalid == 0 then view[k].offset == off - alignbytes < off
                                     else view[k].offset < off - alignbytes)
      requires k + 1 < |tags| ==> off < view[k + 1].offset
      requires back == if lastvalid == 0 then [Tag(off - alignbytes, Raw, alignbytes)]
                       else if alignbytes == 0 then [view[k].(count := lastvalid)]
                       else [view[k].(count := lastvalid), Tag(off - alignbytes, Raw, alignbytes)]
      modifies this, repr
      ensures Linked() && j < |tags| && tags[j] == last && view[j].offset < off
      ensures view[..j + 1] == old(view[..k]) + back && view[j + 1..] == old(view[k + 1..])
      ensures fresh(repr - old(repr))
    {
      var whole, raw := Tag(start.offset, start.ty, lastvalid), Tag(off - alignbytes, Raw, alignbytes);
      if lastvalid == 0 || alignbytes == 0 {
        last, j := start, k;
        TrimOne(start, if lastvalid == 0 then raw else whole, k);
      } else {
        j := k + 1;
        last := TrimRaw(start, whole, raw, k);
      }
      Slices(old(view[..k]), back, old(view[k + 1..]));
    }

    method TrimOne(start: TagNode, t: Tag, ghost k: nat)
      requires Linked() && k < |tags| && tags[k] == start && t.offset == view[k].offset
      modifies this, repr
      ensures Linked() && view == old(view[..k]) + [t] + old(view[k + 1..])
      ensures tags == old(tags) && repr == old(repr)
    {
      hide Distinct, NextFrom, PrevFrom, Indexes;
      assert k > 0 ==> view[k - 1].offset < view[k].offset;
      assert k + 1 < |tags| ==> view[k].offset < view[k + 1].offset;
      ReshapeLinked(start, t, k);
    }

    method TrimRaw(start: TagNode, whole: Tag, raw: Tag, ghost k: nat) returns (last: TagNode)
      requires Linked() && k < |tags| && tags[k] == start && whole.offset == view[k].offset < raw.offset
      requires k + 1 < |tags| ==> raw.offset < view[k + 1].offset
      modifies this, repr
      ensures Linked() && view == old(view[..k]) + [whole, raw] + old(view[k + 1..])
      ensures k + 1 < |tags| && tags[k + 1] == last
      ensures fresh(repr - old(repr))
    {
      hide Distinct, NextFrom, PrevFrom, Indexes;
      assert k > 0 ==> view[k - 1].offset < view[k].offset;
      ReshapeLinked(start, whole, k);
      last := InsertLinked(start, raw, k);
      UpdateInsert(old(view), k, whole, raw);
    }

    /** What is left of the run `a` after `endpos` follows the run at `k`. */
    method InsertRemainder(n: TagNode, a: Tag, endpos: nat, ghost k: nat)
      requires Linked() && k < |tags| && tags[k] == n
      requires a.offset < endpos < End(a) && view[k].offset < endpos
      requires k + 1 < |tags| ==> End(a) <= view[k + 1].offset
      modifies this, repr
      ensures Linked() && view == old(view[..k + 1] + CutFront(a, endpos) + view[k + 1..])
      ensures fresh(repr - old(repr))
    {
      hide Distinct, NextFrom, PrevFrom, Indexes;
      var alignbytes, newcount := CutSizes(a, endpos);
      if alignbytes == 0 || newcount == 0 {
        var left := if alignbytes == 0 then Tag(endpos, a.ty, newcount) else Tag(endpos, Raw, alignbytes);
        var m := InsertLinked(n, left, k);
      } else {
        InsertTwo(n, Tag(endpos, Raw, alignbytes), Tag(endpos + alignbytes, a.ty, newcount), k);
      }
    }

    method InsertTwo(n: TagNode, t: Tag, u: Tag, ghost k: nat)
      requires Linked() && k < |tags| && tags[k] == n
      requires view[k].offset < t.offset < u.offset && (k + 1 < |tags| ==> u.offset < view[k + 1].offset)
      modifies this, repr
      ensures Linked() && view == old(view[..k + 1]) + [t, u] + old(view[k + 1..])
      ensures fresh(repr - old(repr))
    {
      hide Ascending, Distinct, NextFrom, PrevFrom, Indexes;
      var m := InsertLinked(n, t, k);
      var m' := InsertLinked(m, u, k + 1);
      InsertInsert(old(view), k + 1, t, u);
    }

    // ----- update_tag_write -----

    /** The object lies before every run: it gets the first tag. */
    method WriteFirst(t: Tag, endpos: nat, ghost rest: seq<Tag>)
      requires Linked() && WellFormed(0, rest) && rest == view && (view != [] ==> t.offset < view[0].offset)
      requires t.ty.Obj? && t.count == 1 && t.offset < endpos
      modifies this, repr
      ensures Linked() && view == DealWithEnd(t, rest, endpos)
      ensures fresh(repr - old(repr))
    {
      var newtag := new TagNode(t.offset, ElemSize(t.ty), null, t.ty);
      var affected := firsttag;
      InsertFirst(newtag, t);
      DealFirst(newtag, affected, t, endpos, rest);
    }

    method DealFirst(newtag: TagNode, affected: TagNode?, ghost t: Tag, endpos: nat, ghost rest: seq<Tag>)
      requires Tree() && |tags| > 0 && tags[0] == newtag && affected == At(tags, 1) && newtag.prev == null
      requires view == [t] + rest && t.offset < endpos && WellFormed(0, rest)
      requires NextFrom(tags, 1) && PrevFrom(tags, 2) && From(tags, 1) <= repr
      modifies this, newtag, repr
      ensures Linked() && view == DealWithEnd(t, rest, endpos)
      ensures fresh(repr - old(repr) - {newtag})
    {
      assert view[0] == t && view[1..] == rest;
      DealWithEndInPlace(newtag, affected, endpos, 0);
      KeepFirst(newtag);
    }

    method KeepFirst(n: TagNode)
      requires Tree() && |tags| > 0 && tags[0] == n && n.prev == null && NextFrom(tags, 0) && PrevFrom(tags, 1)
      modifies this`firsttag, this`repr
      ensures Linked() && repr == old(repr) + {n} + From(tags, 1)
    {
      firsttag := n;
      repr := repr + {n} + From(tags, 1);
      forall i | 0 <= i < |tags|
        ensures tags[i] in repr
      {
        if i > 0 { FromHas(tags, 1, i); }
      }
    }

    method InsertFirst(n: TagNode, t: Tag)
      requires Linked() && n !in tags && n.Holds(t) && n.prev == null && (view != [] ==> t.offset < view[0].offset)
      modifies this`tags, this`index, this`view
      ensures Tree() && |tags| > 0 && tags[0] == n && view == [t] + old(view) && firsttag == At(tags, 1)
      ensures NextFrom(tags, 1) && PrevFrom(tags, 2) && n.prev == null
      ensures From(tags, 1) <= repr
    {
      InsertTag(n, 0, t);
      InsertedLinks(old(tags), 0, n);
      assert forall i :: 1 <= i < |tags| ==> tags[i] == old(tags)[i - 1];
    }

    method PutNext(start: TagNode, t: Tag, ghost k: nat) returns (newtag: TagNode)
      requires Linked() && k < |tags| && tags[k] == start
      requires view[k].offset < t.offset && (k + 1 < |tags| ==> t.offset < view[k + 1].offset)
      modifies this, repr
      ensures Linked() && k + 1 < |tags| && tags[k + 1] == newtag && view[k + 1] == t
      ensures view[..k + 1] == old(view[..k + 1]) && view[..k + 2] == old(view[..k + 1]) + [t]
      ensures view[k + 2..] == old(view[k + 1..]) && |view| == old(|view|) + 1
      ensures fresh(repr - old(repr))
    {
      hide Distinct, NextFrom, PrevFrom, Indexes;
      newtag := InsertLinked(start, t, k);
      InsertSlices(old(view), k + 1, t);
    }

    /** The object starts a run right after `start`, over whatever follows. */
    method WriteNext(start: TagNode, t: Tag, endpos: nat, ghost k: nat, ghost rest: seq<Tag>)
      requires Linked() && k < |tags| && tags[k] == start && WellFormed(0, rest) && rest == view[k + 1..]
      requires view[k].offset < t.offset < endpos && (k + 1 < |tags| ==> t.offset < view[k + 1].offset)
      modifies this, repr
      ensures Linked() && view == old(view[..k + 1]) + DealWithEnd(t, rest, endpos)
      ensures fresh(repr - old(repr))
    {
      hide Distinct, NextFrom, PrevFrom, Indexes, DealWithEnd;
      var newtag := PutNext(start, t, k);
      DealWithEndLinked(newtag, endpos, k + 1, t, rest);
    }

    /** The run at `k` becomes `t`, and grows over whatever follows. */
    method WriteOver(start: TagNode, t: Tag, endpos: nat, ghost k: nat)
      requires Linked() && k < |tags| && tags[k] == start && WellFormed(0, view[k + 1..])
      requires t.offset == view[k].offset < endpos
      modifies this, repr
      ensures Linked() && view == old(view[..k]) + DealWithEnd(t, old(view[k + 1..]), endpos)
      ensures [] + DealWithEnd(t, old(view[k + 1..]), endpos) == DealWithEnd(t, old(view[k + 1..]), endpos)
      ensures fresh(repr - old(repr))
    {
      hide Ascending, Distinct, NextFrom, PrevFrom, Indexes, DealWithEnd;
      TrimOne(start, t, k);
      assert view[..k] == old(view[..k]) && view[k + 1..] == old(view[k + 1..]) && view[k] == t;
      DealWithEndLinked(start, endpos, k, t, view[k + 1..]);
    }

    /** The run at `k` becomes `t`, and what `endpos` leaves of the run `a` follows. */
    method WriteHead(start: TagNode, t: Tag, a: Tag, endpos: nat, ghost k: nat)
      requires Linked() && k < |tags| && tags[k] == start
      requires t.offset == view[k].offset < endpos && a.offset < endpos < End(a)
      requires k + 1 < |tags| ==> End(a) <= view[k + 1].offset
      modifies this, repr
      ensures Linked() && view == old(view[..k]) + ([] + [t] + CutFront(a, endpos) + old(view[k + 1..]))
      ensures fresh(repr - old(repr))
    {
      hide Ascending, Distinct, NextFrom, PrevFrom, Indexes, CutFront;
      ghost var p, front, rest := view[..k], CutFront(a, endpos), view[k + 1..];
      TrimOne(start, t, k);
      assert view[..k + 1] == p + [t] && view[k + 1..] == rest;
      InsertRemainder(start, a, endpos, k);
      Reassociate(p, [], t, front, rest);
      assert p + [] == p;
    }

    /** The object lies inside a longer run that starts before it. */
    method WriteInside(start: TagNode, a: Tag, t: Tag, endpos: nat, ghost k: nat, ghost rest: seq<Tag>)
      requires Linked() && k < |tags| && tags[k] == start && view[k] == a && view[k + 1..] == rest
      requires a.offset < t.offset < endpos < End(a)
      requires k + 1 < |tags| ==> End(a) <= view[k + 1].offset
      modifies this, repr
      ensures Linked() && view == old(view[..k]) + (CutBack(a, t.offset) + [t] + CutFront(a, endpos) + rest)
      ensures fresh(repr - old(repr))
    {
      hide Distinct, NextFrom, PrevFrom, Indexes, CutFront, CutBack;
      ghost var p, back, front := view[..k], CutBack(a, t.offset), CutFront(a, endpos);
      var last, j := TrimBack(start, t.offset, k);
      InsertInside(last, a, t, endpos, j);
      Reassociate(p, back, t, front, rest);
    }

    method InsertInside(last: TagNode, a: Tag, t: Tag, endpos: nat, ghost j: nat)
      requires Linked() && j < |tags| && tags[j] == last && view[j].offset < t.offset < endpos
      requires a.offset < endpos < End(a)
      requires j + 1 < |tags| ==> End(a) <= view[j + 1].offset
      modifies this, repr
      ensures Linked() && view == old(view[..j + 1]) + [t] + CutFront(a, endpos) + old(view[j + 1..])
      ensures fresh(repr - old(repr))
    {
      hide Distinct, NextFrom, PrevFrom, Indexes, CutFront;
      var newtag := PutNext(last, t, j);
      InsertRemainder(newtag, a, endpos, j + 1);
    }

    /** The object cuts the end of a run that starts before it. */
    method WriteTail(start: TagNode, a: Tag, t: Tag, endpos: nat, ghost k: nat, ghost rest: seq<Tag>)
      requires Linked() && k < |tags| && tags[k] == start && view[k] == a && view[k + 1..] == rest
      requires a.offset < t.offset < End(a) <= endpos && WellFormed(0, rest)
      requires k + 1 < |tags| ==> End(a) <= view[k + 1].offset
      modifies this, repr
      ensures Linked() && view == old(view[..k]) + (CutBack(a, t.offset) + DealWithEnd(t, rest, endpos))
      ensures fresh(repr - old(repr))
    {
      hide Distinct, NextFrom, PrevFrom, Indexes, CutBack, DealWithEnd;
      ghost var p, back, deal := view[..k], CutBack(a, t.offset), DealWithEnd(t, rest, endpos);
      var last, j := TrimBack(start, t.offset, k);
      WriteNext(last, t, endpos, j, rest);
      Associate(p, back, deal);
    }

    /** The object cuts off part or all of the run at `k`. */
    method CutStart(start: TagNode, a: Tag, t: Tag, endpos: nat, ghost k: nat, ghost rest: seq<Tag>)
      requires Linked() && k < |tags| && tags[k] == start && view[k] == a && view[k + 1..] == rest
      requires a.offset <= t.offset < End(a) && t.offset < endpos && WellFormed(0, rest)
      requires k + 1 < |tags| ==> End(a) <= view[k + 1].offset
      modifies this, repr
      ensures Linked() && fresh(repr - old(repr))
      ensures endpos < End(a) ==>
                view == old(view[..k]) + (CutBack(a, t.offset) + [t] + CutFront(a, endpos) + rest)
      ensures End(a) <= endpos ==> view == old(view[..k]) + (CutBack(a, t.offset) + DealWithEnd(t, rest, endpos))
    {
      hide Distinct, NextFrom, PrevFrom, Indexes;
      SpanIsProduct(start.typesize, start.count);
      var startEndpos := start.offset + start.typesize * start.count;
      if start.offset == t.offset {
        CutBackHead(a, t.offset);
        if startEndpos <= endpos {
          WriteOver(start, t, endpos, k);
        } else {
          WriteHead(start, t, a, endpos, k);
        }
      } else if startEndpos <= endpos {
        WriteTail(start, a, t, endpos, k, rest);
      } else {
        WriteInside(start, a, t, endpos, k, rest);
      }
    }

    /** `update_tag_write`, from the tag `start` that `findBelow` returned. */
    method WriteFromStart(start: TagNode, ty: Ty, off: nat, ghost k: nat, ghost a: Tag, ghost rest: seq<Tag>)
      requires Linked() && ty.Obj? && k < |tags| && tags[k] == start
      requires view[k] == a && view[k + 1..] == rest && WellFormed(0, rest) && a.count > 0
      requires a.offset <= off && (k + 1 < |tags| ==> off < view[k + 1].offset && End(a) <= view[k + 1].offset)
      modifies this, repr
      ensures Linked() && view == old(view[..k]) + WriteFrom(a, rest, ty, off)
      ensures fresh(repr - old(repr))
    {
      hide Distinct, NextFrom, PrevFrom, Indexes;
      SpanIsProduct(start.typesize, start.count);
      if off >= start.offset + start.typesize * start.count {
        WriteBeyond(start, ty, off, k, a, rest);
      } else {
        WriteOverlapping(start, ty, off, k, a, rest);
      }
    }

    method WriteBeyond(start: TagNode, ty: Ty, off: nat, ghost k: nat, ghost a: Tag, ghost rest: seq<Tag>)
      requires Linked() && ty.Obj? && k < |tags| && tags[k] == start
      requires view[k] == a && view[k + 1..] == rest && WellFormed(0, rest) && a.count > 0
      requires End(a) <= off && (k + 1 < |tags| ==> off < view[k + 1].offset)
      modifies this, repr
      ensures Linked() && view == old(view[..k]) + WriteFrom(a, rest, ty, off)
      ensures fresh(repr - old(repr))
    {
      hide Ascending, Distinct, NextFrom, PrevFrom, Indexes, DealWithEnd;
      var startEndpos := start.offset + start.typesize * start.count;
      SpanIsProduct(start.typesize, start.count);
      if off == startEndpos && ty == start.ty {
        WriteFromAppends(a, rest, ty, off);
        WriteOver(start, Tag(start.offset, start.ty, start.count + 1), startEndpos + start.typesize, k);
      } else {
        WriteFromFollows(a, rest, ty, off);
        PrefixAndOne(view, k);
        Associate(view[..k], [a], DealWithEnd(Tag(off, ty, 1), rest, off + ElemSize(ty)));
        WriteNext(start, Tag(off, ty, 1), off + ElemSize(ty), k, rest);
      }
    }

    method WriteOverlapping(start: TagNode, ty: Ty, off: nat, ghost k: nat, ghost a: Tag, ghost rest: seq<Tag>)
      requires Linked() && ty.Obj? && k < |tags| && tags[k] == start
      requires view[k] == a && view[k + 1..] == rest && WellFormed(0, rest) && a.count > 0
      requires a.offset <= off < End(a) && (k + 1 < |tags| ==> End(a) <= view[k + 1].offset)
      modifies this, repr
      ensures Linked() && view == old(view[..k]) + WriteFrom(a, rest, ty, off)
      ensures fresh(repr - old(repr))
    {
      hide Ascending, Distinct, NextFrom, PrevFrom, Indexes, CutBack, CutFront, DealWithEnd;
      QuotRemAreDivMod(off - start.offset, start.typesize);
      var alignbytes := (off - start.offset) % start.typesize;
      if alignbytes == 0 && ty == start.ty {
        PrefixAndOne(view, k);
      } else {
        WriteFromCuts(a, rest, ty, off);
        CutStart(start, Tag(start.offset, start.ty, start.count), Tag(off, ty, 1), off + ElemSize(ty), k, rest);
      }
    }

    /** `update_tag_write`: from a tree that indexes the list, to one that indexes the list after the write. */
    method Update(ty: Ty, off: nat)
      requires Valid() && ty.Obj?
      modifies this, repr
      ensures Valid() && view == Write(old(view), ty, off) && Indexes(index, tags, view)
      ensures fresh(repr - old(repr))
    {
      WriteCells(view, ty, off, 0);
      UpdateTags(ty, off);
    }

    /** Any run of writes. */
    method UpdateAll(ws: seq<Store>)
      requires Valid() && forall w :: w in ws ==> w.ty.Obj?
      modifies this, repr
      ensures Valid() && view == WriteAll(old(view), ws) && Indexes(index, tags, view)
      ensures fresh(repr - old(repr))
    {
      hide Indexes, Match, Ascending, Distinct, NextFrom, PrevFrom, WellFormed, Write;
      ghost var goal := WriteAll(view, ws);
      var i := 0;
      while i < |ws|
        invariant i <= |ws| && Valid() && WriteAll(view, ws[i..]) == goal
        invariant fresh(repr - old(repr))
      {
        assert ws[i..][0] == ws[i] && ws[i..][1..] == ws[i + 1..];
        Update(ws[i].ty, ws[i].off);
        i := i + 1;
      }
    }

    method UpdateTags(ty: Ty, off: nat)
      requires Linked() && WellFormed(0, view) && ty.Obj?
      modifies this, repr
      ensures Linked() && view == Write(old(view), ty, off)
      ensures fresh(repr - old(repr))
    {
      hide Distinct, NextFrom, PrevFrom, Indexes;
      ghost var i := Below(view, off);
      BelowFacts(view, off);
      var start := FindBelow(off);
      if start == null {
        WriteFirst(Tag(off, ty, 1), off + ElemSize(ty), view);
      } else {
        AroundTag(view, i - 1);
        WriteFromStart(start, ty, off, i - 1, view[i - 1], view[i..]);
      }
    }
  }

  lemma {:induction false} Slices<T>(p: seq<T>, m: seq<T>, q: seq<T>)
    ensures (p + m + q)[..|p| + |m|] == p + m && (p + m + q)[|p| + |m|..] == q
  {
  }

  lemma {:induction false} InsertSlices<T>(vs: seq<T>, k: nat, t: T)
    requires k <= |vs|
    ensures var r := Insert(vs, k, t); r[..k] == vs[..k] && r[..k + 1] == vs[..k] + [t] && r[k + 1..] == vs[k..]
  {
  }

  lemma {:induction false} InsertInsert<T>(vs: seq<T>, k: nat, a: T, b: T)
    requires k <= |vs|
    ensures Insert(Insert(vs, k, a), k + 1, b) == vs[..k] + [a, b] + vs[k..]
  {
  }

  lemma {:induction false} KeptAt(ns: seq<TagNode>, ns': seq<TagNode>, k: nat)
    requires k < |ns| && k < |ns'| && ns[..k + 1] == ns'[..k + 1]
    ensures ns'[k] == ns[k] && At(ns', k - 1) == At(ns, k - 1) && ns[..k] == ns'[..k] && ns[0] == ns'[0]
  {
    assert ns[k] == ns[..k + 1][k] && ns'[k] == ns'[..k + 1][k];
    assert ns[0] == ns[..k + 1][0] && ns'[0] == ns'[..k + 1][0];
    assert ns[..k] == ns[..k + 1][..k] && ns'[..k] == ns'[..k + 1][..k];
    assert k > 0 ==> ns[k - 1] == ns[..k + 1][k - 1] && ns'[k - 1] == ns'[..k + 1][k - 1];
  }

  lemma {:induction false} SuffixOf(ns: seq<TagNode>, k: nat, r: set<TagNode>)
    requires forall n :: n in ns ==> n in r
    ensures From(ns, k) <= r
  {
  }

  lemma {:induction false} SplitLinks(ns: seq<TagNode>, k: nat)
    requires NextFrom(ns, 0) && PrevFrom(ns, 0) && k < |ns| && Distinct(ns)
    ensures LinkedTo(ns[..k], ns[k]) && NextFrom(ns, k) && PrevFrom(ns, k)
    ensures forall n :: n in ns[..k] ==> n !in From(ns, k)
  {
  }

  lemma {:induction false} JoinLinks(ns: seq<TagNode>, k: nat)
    requires k < |ns| && LinkedTo(ns[..k], ns[k]) && NextFrom(ns, k) && PrevFrom(ns, k)
    ensures NextFrom(ns, 0) && PrevFrom(ns, 0)
  {
    forall i | 0 <= i < k
      ensures ns[i].next == At(ns, i + 1) && ns[i].prev == At(ns, i - 1)
    {
      assert ns[i] == ns[..k][i];
      assert ns[..k][i].next == ns[i].next;
    }
  }

  lemma {:induction false} NotLater(ns: seq<TagNode>, k: nat)
    requires Distinct(ns) && k < |ns|
    ensures ns[k] !in From(ns, k + 1)
  {
  }

  lemma {:induction false} Assembled(vs: seq<Tag>, k: nat)
    requires k < |vs|
    ensures vs == vs[..k] + ([vs[k]] + vs[k + 1..])
  {
  }

  lemma {:induction false} AssembledCut(vs: seq<Tag>, k: nat, cut: seq<Tag>)
    requires k + 1 < |vs|
    ensures vs[..k + 1] + cut + vs[k + 2..] == vs[..k] + ([vs[k]] + cut + vs[k + 1..][1..])
  {
  }

  /** The nodes from place `k` on. */
  ghost function From(ns: seq<TagNode>, k: nat): set<TagNode> {
    set i | k <= i < |ns| :: ns[i]
  }

  lemma FromHas(ns: seq<TagNode>, k: nat, i: nat)
    requires k <= i
    ensures i < |ns| ==> ns[i] in From(ns, k)
  {
  }

  lemma {:induction false} Suffix(vs: seq<Tag>, k: nat)
    requires k + 1 < |vs| && WellFormed(0, vs[k + 1..])
    ensures vs[k + 1..][0] == vs[k + 1] && vs[k + 1..][1..] == vs[k + 2..]
    ensures WellFormed(0, vs[k + 2..])
    ensures k + 2 < |vs| ==> End(vs[k + 1]) <= vs[k + 2].offset
  {
    Weaken(End(vs[k + 1]), 0, vs[k + 2..]);
  }

  lemma {:induction false} Associate(p: seq<Tag>, a: seq<Tag>, b: seq<Tag>)
    ensures p + a + b == p + (a + b)
  {
  }

  lemma {:induction false} Reassociate(p: seq<Tag>, a: seq<Tag>, t: Tag, b: seq<Tag>, c: seq<Tag>)
    ensures p + a + [t] + b + c == p + (a + [t] + b + c)
  {
  }

  lemma {:induction false} PrefixAndOne(vs: seq<Tag>, k: nat)
    requires k < |vs|
    ensures vs[..k + 1] == vs[..k] + [vs[k]]
    ensures vs == vs[..k] + ([vs[k]] + vs[k + 1..])
  {
  }

  lemma {:induction false} AroundTag(vs: seq<Tag>, k: nat)
    requires k < |vs| && WellFormed(0, vs)
    ensures vs[k].count > 0 && WellFormed(0, vs[k + 1..])
    ensures k + 1 < |vs| ==> End(vs[k]) <= vs[k + 1].offset
  {
    assert vs == vs[..k] + vs[k..];
    WellFormedAppend(0, vs[..k], vs[k..]);
    assert vs[k..][1..] == vs[k + 1..];
    Weaken(End(vs[k]), 0, vs[k + 1..]);
  }

  // ----- The branches of WriteFrom -----

  lemma {:induction false} WriteFromAppends(a: Tag, rest: seq<Tag>, ty: Ty, off: nat)
    requires a.offset <= off && off == End(a) && ty == a.ty
    ensures WriteFrom(a, rest, ty, off) ==
            DealWithEnd(Tag(a.offset, a.ty, a.count + 1), rest, End(a) + ElemSize(a.ty))
  {
  }

  lemma {:induction false} WriteFromFollows(a: Tag, rest: seq<Tag>, ty: Ty, off: nat)
    requires a.offset <= off && End(a) <= off && !(off == End(a) && ty == a.ty)
    ensures WriteFrom(a, rest, ty, off) == [a] + DealWithEnd(Tag(off, ty, 1), rest, off + ElemSize(ty))
  {
  }

  lemma {:induction false} WriteFromCuts(a: Tag, rest: seq<Tag>, ty: Ty, off: nat)
    requires a.offset <= off < End(a) && !(Aligned(a, off) && ty == a.ty)
    ensures var t, endpos := Tag(off, ty, 1), off + ElemSize(ty);
            WriteFrom(a, rest, ty, off) ==
            if endpos < End(a) then CutBack(a, off) + [t] + CutFront(a, endpos) + rest
            else CutBack(a, off) + DealWithEnd(t, rest, endpos)
  {
  }

  // ----- The branches of DealWithEnd -----

  lemma {:induction false} DealStops(e: Tag, rest: seq<Tag>, endpos: nat)
    requires rest != [] && rest[0].offset >= endpos && !(rest[0].offset == endpos && e.ty == rest[0].ty)
    ensures DealWithEnd(e, rest, endpos) == [e] + rest
  {
  }

  lemma {:induction false} DealMerges(e: Tag, rest: seq<Tag>, endpos: nat)
    requires rest != [] && rest[0].offset == endpos && e.ty == rest[0].ty
    ensures DealWithEnd(e, rest, endpos) ==
            DealWithEnd(e.(count := e.count + rest[0].count), rest[1..], endpos)
  {
  }

  lemma {:induction false} DealCuts(e: Tag, rest: seq<Tag>, endpos: nat)
    requires rest != [] && rest[0].offset < endpos < End(rest[0])
    ensures DealWithEnd(e, rest, endpos) == [e] + CutFront(rest[0], endpos) + rest[1..]
  {
  }

  lemma {:induction false} DealSwallows(e: Tag, rest: seq<Tag>, endpos: nat)
    requires rest != [] && rest[0].offset < endpos && End(rest[0]) <= endpos
    ensures DealWithEnd(e, rest, endpos) == DealWithEnd(e, rest[1..], endpos)
  {
  }

  lemma {:induction false} UpdateInsert<T>(vs: seq<T>, k: nat, a: T, b: T)
    requires k < |vs|
    ensures Insert(vs[k := a], k + 1, b) == vs[..k] + [a, b] + vs[k + 1..]
  {
  }
}
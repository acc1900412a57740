/**
 The red-black tree that indexes the tags of a block (mem.h, rbtree.cpp): its in-order nodes are the
 tags in the order of their offsets, and their keys are those offsets. The search finds the tag that a
 write starts from; inserting, removing and re-keying a tag keep the index.
 */
module TagSearch {
  import opened Options
  import opened RbSpec
  import opened RbSearch
  import T = TagSpec

  predicate Ascending(ts: seq<T.Tag>) {
    forall i, j :: 0 <= i < j < |ts| ==> ts[i].offset < ts[j].offset
  }

  function Elems<N>(ns: seq<N>, ts: seq<T.Tag>): seq<Elem<N>>
    requires |ns| == |ts|
  {
    seq(|ns|, i requires 0 <= i < |ns| => Elem(ns[i], ts[i].offset))
  }

  /** `t` is balanced, and its nodes in order are `ns`, keyed by the offsets of `ts`. */
  ghost predicate Indexes<N>(t: Tree<N>, ns: seq<N>, ts: seq<T.Tag>) {
    IsRb(t) && |ns| == |ts| && Inorder(t) == Elems(ns, ts)
  }

  /** The same without regard to the nodes. */
  ghost predicate Keys<N>(t: Tree<N>, ts: seq<T.Tag>) {
    IsRb(t) && |Inorder(t)| == |ts| && forall i :: 0 <= i < |ts| ==> Inorder(t)[i].value == ts[i].offset
  }

  lemma {:induction false} WellFormedAscends(lo: nat, ts: seq<T.Tag>)
    requires T.WellFormed(lo, ts)
    ensures Ascending(ts)
    decreases |ts|
  {
    if ts != [] {
      WellFormedAscends(T.End(ts[0]), ts[1..]);
      forall j | 0 < j < |ts|
        ensures ts[0].offset < ts[j].offset
      {
        T.TagOffsets(T.End(ts[0]), ts[1..], j - 1);
        T.SpanMono(T.ElemSize(ts[0].ty), 0, ts[0].count);
      }
      assert forall i, j :: 0 < i < j < |ts| ==> ts[i] == ts[1..][i - 1] && ts[j] == ts[1..][j - 1];
    }
  }

  lemma {:induction false} IndexSorted<N>(t: Tree<N>, ts: seq<T.Tag>)
    requires Keys(t, ts) && Ascending(ts)
    ensures Sorted(Inorder(t))
  {
    hide IsRb, Inorder;
    forall i, j | 0 <= i < j < |ts|
      ensures Inorder(t)[i].value <= Inorder(t)[j].value
    {
    }
  }

  // ----- Search -----

  /** The tags that start at or before `off` are the first `Below(ts, off)`. */
  lemma {:induction false} BelowSplits(ts: seq<T.Tag>, off: nat, i: nat)
    requires Ascending(ts) && i < |ts|
    ensures ts[i].offset <= off <==> i < T.Below(ts, off)
  {
    T.BelowFacts(ts, off);
  }

  /** The node with the greatest offset at or below `off` is that of the tag that a write starts from. */
  lemma {:induction false} FoundIsTag<N>(t: Tree<N>, ts: seq<T.Tag>, off: nat, r: Option<Elem<N>>)
    requires Keys(t, ts) && Ascending(ts) && FoundBelow(Inorder(t), off, None, r)
    ensures r == var n := T.Below(ts, off); if n == 0 then None else Some(Inorder(t)[n - 1])
  {
    hide Inorder, IsRb, T.Below;
    var es, n := Inorder(t), T.Below(ts, off);
    forall i | 0 <= i < |ts|
      ensures es[i].value <= off <==> i < n
    {
      BelowSplits(ts, off, i);
    }
    if n > 0 {
      assert es[n - 1] in es && es[n - 1].value <= off;
      var i :| 0 <= i < |es| && es[i] == r.value;
      assert i == n - 1;
    }
  }

  /**
   The search returns the node of the tag that a write starts from, and null when there is none, wherever
   what it sees of the keys compares with `off` as the keys do.
   */
  lemma {:induction false} SearchFindsTag<N>(narrow: bool, t: Tree<N>, ns: seq<N>, ts: seq<T.Tag>, off: nat)
    requires Indexes(t, ns, ts) && Ascending(ts) && Alike(narrow, Inorder(t), off)
    ensures BelowIn(narrow, t, off, None) ==
            var n := T.Below(ts, off); if n == 0 then None else Some(Elem(ns[n - 1], ts[n - 1].offset))
  {
    hide Inorder, IsRb, T.Below, BelowIn, Alike;
    IndexSorted(t, ts);
    BelowFinds(narrow, t, off, None);
    FoundIsTag(t, ts, off, BelowIn(narrow, t, off, None));
  }

  /** That tag is the only one that can contain the byte. */
  lemma {:induction false} OnlyCandidate<N>(t: Tree<N>, ns: seq<N>, ts: seq<T.Tag>, off: nat, j: nat)
    requires Indexes(t, ns, ts) && T.WellFormed(0, ts) && j < |ts| && T.Covers(ts[j], off)
    ensures BelowIn(false, t, off, None) == Some(Elem(ns[j], ts[j].offset))
  {
    hide Inorder, IsRb, T.WellFormed, T.Covers;
    WellFormedAscends(0, ts);
    FittingKeysAreAlike(false, Inorder(t), off);
    SearchFindsTag(false, t, ns, ts, off);
    T.BelowIsTheOnlyCandidate(0, ts, off, j);
  }

  // ----- Updates -----

  /** There is one place for a new key in the order. */
  lemma {:induction false} OnePlace<N>(es: seq<Elem<N>>, key: nat, m: nat, k: nat)
    requires m <= |es| && k <= |es| && AllBelow(es[..m], key) && NoneBelow(es[m..], key)
    requires (k > 0 ==> es[k - 1].value < key) && (k < |es| ==> key < es[k].value)
    ensures m == k
  {
    forall i | 0 <= i < |es|
      ensures es[i].value < key <==> i < m
    {
      assert i < m ==> es[i] in es[..m];
      assert m <= i ==> es[i] in es[m..];
    }
  }

  /** Inserting a node at a new offset puts it at its place in the order. */
  lemma {:induction false} InsertKeepsIndex<N>(t: Tree<N>, ns: seq<N>, ts: seq<T.Tag>, n: N, tag: T.Tag, k: nat)
    requires Indexes(t, ns, ts) && Ascending(ts) && k <= |ts|
    requires (k > 0 ==> ts[k - 1].offset < tag.offset) && (k < |ts| ==> tag.offset < ts[k].offset)
    ensures Indexes(Insert(t, Elem(n, tag.offset)), ns[..k] + [n] + ns[k..], ts[..k] + [tag] + ts[k..])
  {
    hide Inorder, Insert, IsRb, AllBelow, NoneBelow, Sorted;
    var e, es := Elem(n, tag.offset), Inorder(t);
    IndexSorted(t, ts);
    InsertCorrect(t, e);
    var m :| 0 <= m <= |es| && InsertedAt(es, m, e, Inorder(Insert(t, e)));
    OnePlace(es, e.value, m, k);
    ElemsInsert(ns, ts, n, tag, k);
  }

  lemma {:induction false} ElemsInsert<N>(ns: seq<N>, ts: seq<T.Tag>, n: N, tag: T.Tag, k: nat)
    requires |ns| == |ts| && k <= |ts|
    ensures var es := Elems(ns, ts);
            es[..k] + [Elem(n, tag.offset)] + es[k..] == Elems(ns[..k] + [n] + ns[k..], ts[..k] + [tag] + ts[k..])
  {
  }

  /** Removing a node, by contract. */
  lemma {:induction false} RemoveKeepsIndex<N>(t: Tree<N>, ns: seq<N>, ts: seq<T.Tag>, k: nat, r: Tree<N>)
    requires Indexes(t, ns, ts) && k < |ts| && Removed(t, k, r)
    ensures Indexes(r, ns[..k] + ns[k + 1..], ts[..k] + ts[k + 1..])
  {
    hide Inorder, IsRb;
    var es := Inorder(t);
    assert es[..k] + es[k + 1..] == Elems(ns[..k] + ns[k + 1..], ts[..k] + ts[k + 1..]);
  }

  /** Changing the offset of a tag that is in the tree, between those of its neighbours. */
  lemma {:induction false} SetKeyKeepsIndex<N>(t: Tree<N>, ns: seq<N>, ts: seq<T.Tag>, k: nat, tag: T.Tag)
    requires Indexes(t, ns, ts) && k < |ts|
    requires forall i :: 0 <= i < |ns| && i != k ==> ns[i] != ns[k]
    ensures Indexes(SetKey(t, ns[k], tag.offset), ns, ts[k := tag])
  {
    hide Inorder, IsRb, SetKey;
    SetKeyCorrect(t, k, tag.offset);
    assert Inorder(t)[k := Elem(ns[k], tag.offset)] == Elems(ns, ts[k := tag]);
  }

  /** A tag that changes in other respects. */
  lemma {:induction false} SameOffsetKeepsIndex<N>(t: Tree<N>, ns: seq<N>, ts: seq<T.Tag>, k: nat, tag: T.Tag)
    requires Indexes(t, ns, ts) && k < |ts| && tag.offset == ts[k].offset
    ensures Indexes(t, ns, ts[k := tag])
  {
    hide Inorder, IsRb;
    assert Elems(ns, ts[k := tag]) == Elems(ns, ts);
  }
}

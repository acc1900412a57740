/**
 Red-black insertion (rbtree.cpp), on values.

 A tree of nodes, and the path from the root to a place in it (the stack of ancestors that the
 `parent` pointers give).  `Fix` is the recolour loop and the rotation of `insert`; it climbs two
 levels a round.  RbTrees.dfy does the same on the linked nodes.
 */
module RbSpec {

  /** What a node of the tree holds: the node itself and its sort key. */
  datatype Elem<N> = Elem(node: N, value: nat)

  datatype Tree<N> = Leaf | Node(n: Elem<N>, red: bool, left: Tree<N>, right: Tree<N>)

  /** The ancestors of a place, innermost first; `dir` says on which side of `n` the place lies. */
  datatype Path<N> = Top | Up(n: Elem<N>, red: bool, dir: bool, other: Tree<N>, up: Path<N>)

  function Mk<N>(n: Elem<N>, red: bool, dir: bool, sub: Tree<N>, other: Tree<N>): Tree<N> {
    if dir then Node(n, red, other, sub) else Node(n, red, sub, other)
  }

  function Kid<N>(t: Tree<N>, dir: bool): Tree<N>
    requires t.Node?
  {
    if dir then t.right else t.left
  }

  function Plug<N>(p: Path<N>, t: Tree<N>): Tree<N>
    decreases p
  {
    match p
    case Top => t
    case Up(n, red, dir, other, up) => Plug(up, Mk(n, red, dir, t, other))
  }

  predicate IsRed<N>(t: Tree<N>) {
    t.Node? && t.red
  }

  function Black<N>(t: Tree<N>): Tree<N> {
    if t.Leaf? then t else t.(red := false)
  }

  // ----- Order -----

  function Inorder<N>(t: Tree<N>): seq<Elem<N>> {
    match t
    case Leaf => []
    case Node(n, _, l, r) => Inorder(l) + [n] + Inorder(r)
  }

  /** The nodes that precede, and that follow, a place. */
  function Before<N>(p: Path<N>): seq<Elem<N>> {
    match p
    case Top => []
    case Up(n, _, dir, other, up) => if dir then Before(up) + Inorder(other) + [n] else Before(up)
  }

  function After<N>(p: Path<N>): seq<Elem<N>> {
    match p
    case Top => []
    case Up(n, _, dir, other, up) => if dir then After(up) else [n] + Inorder(other) + After(up)
  }

  predicate Sorted<N>(ns: seq<Elem<N>>) {
    forall i, j :: 0 <= i < j < |ns| ==> ns[i].value <= ns[j].value
  }

  /** Hanging `sub` below `n` keeps the order of all nodes, whatever the colours. */
  lemma {:induction false} MkInorder<N>(n: Elem<N>, red: bool, red': bool, dir: bool, sub: Tree<N>,
                                        other: Tree<N>, up: Path<N>)
    ensures Before(up) + Inorder(Mk(n, red, dir, sub, other)) + After(up) ==
            Before(Up(n, red', dir, other, up)) + Inorder(sub) + After(Up(n, red', dir, other, up))
  {
    if dir {
      Regroup(Before(up), Inorder(other), n, Inorder(sub), After(up));
    } else {
      Regroup(Before(up), Inorder(sub), n, Inorder(other), After(up));
    }
  }

  lemma {:induction false} Regroup<N>(a: seq<Elem<N>>, b: seq<Elem<N>>, n: Elem<N>, c: seq<Elem<N>>, d: seq<Elem<N>>)
    ensures a + (b + [n] + c) + d == (a + b + [n]) + c + d
    ensures a + (b + [n] + c) + d == a + b + ([n] + c + d)
  {
  }

  lemma {:induction false} PlugInorder<N>(p: Path<N>, t: Tree<N>)
    ensures Inorder(Plug(p, t)) == Before(p) + Inorder(t) + After(p)
    decreases p
  {
    match p
    case Top =>
    case Up(n, red, dir, other, up) =>
      PlugInorder(up, Mk(n, red, dir, t, other));
      MkInorder(n, red, red, dir, t, other, up);
  }

  // ----- Insertion -----

  /** The descent of `insert`: equal keys go left. */
  function Descend<N>(t: Tree<N>, key: nat, p: Path<N>): Path<N>
    decreases t
  {
    match t
    case Leaf => p
    case Node(n, red, l, r) =>
      if n.value < key then Descend(r, key, Up(n, red, true, l, p))
      else Descend(l, key, Up(n, red, false, r, p))
  }

  /** The single or double rotation below grandparent `g`, for a red `t` under red `p`. */
  function Rotate<N>(g: Elem<N>, gdir: bool, uncle: Tree<N>, p: Elem<N>, pdir: bool, sib: Tree<N>, t: Tree<N>): Tree<N>
    requires t.Node?
  {
    if pdir == gdir then
      Mk(p, false, pdir, t, Mk(g, true, gdir, sib, uncle))
    else
      Mk(t.n, false, gdir, Mk(p, true, pdir, Kid(t, !pdir), sib), Mk(g, true, gdir, Kid(t, pdir), uncle))
  }

  /** The recolour loop and the final rotation, for a red node `t` put at the place `path`. */
  function Fix<N>(path: Path<N>, t: Tree<N>): Tree<N>
    requires t.Node?
    decreases path
  {
    match path
    case Top => Black(t)
    case Up(p, pred, pdir, sib, Top) => Plug(path, t)
    case Up(p, pred, pdir, sib, Up(g, gred, gdir, uncle, up)) =>
      if !pred then
        Plug(path, t)
      else if IsRed(uncle) then
        Fix(up, Mk(g, true, gdir, Mk(p, false, pdir, t, sib), Black(uncle)))
      else
        Plug(up, Rotate(g, gdir, uncle, p, pdir, sib, t))
  }

  function Insert<N>(t: Tree<N>, n: Elem<N>): Tree<N> {
    Fix(Descend(t, n.value, Top), Node(n, true, Leaf, Leaf))
  }

  lemma {:induction false} RotateInorder<N>(g: Elem<N>, gdir: bool, uncle: Tree<N>, p: Elem<N>, pdir: bool,
                                            sib: Tree<N>, t: Tree<N>)
    requires t.Node?
    ensures Inorder(Rotate(g, gdir, uncle, p, pdir, sib, t)) ==
            Inorder(Mk(g, true, gdir, Mk(p, true, pdir, t, sib), uncle))
  {
    MkInorderOf(p, true, pdir, t, sib);
    MkInorderOf(g, true, gdir, Mk(p, true, pdir, t, sib), uncle);
    if pdir == gdir {
      MkInorderOf(g, true, gdir, sib, uncle);
      MkInorderOf(p, false, pdir, t, Mk(g, true, gdir, sib, uncle));
      if pdir {
        Shift(Inorder(uncle), g, Inorder(sib), p, Inorder(t));
      } else {
        Shift(Inorder(t), p, Inorder(sib), g, Inorder(uncle));
      }
    } else {
      var a, b := Inorder(t.left), Inorder(t.right);
      MkInorderOf(p, true, pdir, Kid(t, !pdir), sib);
      MkInorderOf(g, true, gdir, Kid(t, pdir), uncle);
      MkInorderOf(t.n, false, gdir, Mk(p, true, pdir, Kid(t, !pdir), sib), Mk(g, true, gdir, Kid(t, pdir), uncle));
      if gdir {
        ShiftTwice(Inorder(uncle), g, a, t.n, b, p, Inorder(sib));
      } else {
        ShiftTwice(Inorder(sib), p, a, t.n, b, g, Inorder(uncle));
      }
    }
  }

  lemma {:induction false} Shift<N>(a: seq<Elem<N>>, m: Elem<N>, b: seq<Elem<N>>, n: Elem<N>, c: seq<Elem<N>>)
    ensures (a + [m] + b) + [n] + c == a + [m] + (b + [n] + c)
  {
  }

  lemma {:induction false} ShiftTwice<N>(
      a: seq<Elem<N>>, k: Elem<N>, b: seq<Elem<N>>, m: Elem<N>, c: seq<Elem<N>>, n: Elem<N>, d: seq<Elem<N>>)
    ensures (a + [k] + b) + [m] + (c + [n] + d) == a + [k] + ((b + [m] + c) + [n] + d)
    ensures (a + [k] + b) + [m] + (c + [n] + d) == (a + [k] + (b + [m] + c)) + [n] + d
  {
  }

  lemma {:induction false} MkInorderOf<N>(n: Elem<N>, red: bool, dir: bool, sub: Tree<N>, other: Tree<N>)
    ensures Inorder(Mk(n, red, dir, sub, other)) ==
            if dir then Inorder(other) + [n] + Inorder(sub) else Inorder(sub) + [n] + Inorder(other)
  {
  }

  lemma {:induction false} FixInorder<N>(path: Path<N>, t: Tree<N>)
    requires t.Node?
    ensures Inorder(Fix(path, t)) == Before(path) + Inorder(t) + After(path)
    decreases path
  {
    PlugInorder(path, t);
    match path
    case Top =>
    case Up(p, pred, pdir, sib, Top) =>
    case Up(p, pred, pdir, sib, Up(g, gred, gdir, uncle, up)) =>
      var path' := Up(g, gred, gdir, uncle, up);
      if pred && IsRed(uncle) {
        var t' := Mk(p, false, pdir, t, sib);
        FixInorder(up, Mk(g, true, gdir, t', Black(uncle)));
        MkInorder(g, true, gred, gdir, t', Black(uncle), up);
        MkInorder(p, false, pred, pdir, t, sib, path');
      } else if pred {
        PlugInorder(up, Rotate(g, gdir, uncle, p, pdir, sib, t));
        RotateInorder(g, gdir, uncle, p, pdir, sib, t);
        MkInorder(g, true, gred, gdir, Mk(p, true, pdir, t, sib), uncle, up);
        MkInorder(p, true, pred, pdir, t, sib, path');
      }
  }

  // ----- Balance -----

  /** No red node has a red child, and every path to a leaf passes `h` black nodes. */
  predicate Rb<N>(t: Tree<N>, h: nat) {
    match t
    case Leaf => h == 0
    case Node(_, red, l, r) =>
      if red then !IsRed(l) && !IsRed(r) && Rb(l, h) && Rb(r, h)
      else h > 0 && Rb(l, h - 1) && Rb(r, h - 1)
  }

  function BlackHeight<N>(t: Tree<N>): nat {
    match t
    case Leaf => 0
    case Node(_, red, l, _) => BlackHeight(l) + if red then 0 else 1
  }

  lemma {:induction false} RbHeight<N>(t: Tree<N>, h: nat)
    requires Rb(t, h)
    ensures h == BlackHeight(t)
  {
    if t.Node? {
      RbHeight(t.left, if t.red then h else h - 1);
    }
  }

  predicate IsRb<N>(t: Tree<N>) {
    !IsRed(t) && Rb(t, BlackHeight(t))
  }

  /** The path leads to a place for a subtree of black height `h`. */
  predicate RbPath<N>(p: Path<N>, h: nat)
    decreases p
  {
    match p
    case Top => true
    case Up(_, red, _, other, up) =>
      if red then !IsRed(other) && Rb(other, h) && up.Up? && !up.red && RbPath(up, h)
      else Rb(other, h) && RbPath(up, h + 1)
  }

  lemma {:induction false} PlugRb<N>(p: Path<N>, t: Tree<N>, h: nat)
    requires RbPath(p, h) && Rb(t, h) && (IsRed(t) ==> p.Up? && !p.red)
    ensures IsRb(Plug(p, t))
    decreases p
  {
    match p
    case Top => RbHeight(t, h);
    case Up(n, red, dir, other, up) =>
      PlugRb(up, Mk(n, red, dir, t, other), if red then h else h + 1);
  }

  lemma {:induction false} DescendRb<N>(t: Tree<N>, key: nat, p: Path<N>, h: nat)
    requires RbPath(p, h) && Rb(t, h) && (IsRed(t) ==> p.Up? && !p.red)
    ensures RbPath(Descend(t, key, p), 0)
    decreases t
  {
    match t
    case Leaf =>
    case Node(n, red, l, r) =>
      var h' := if red then h else h - 1;
      if n.value < key {
        DescendRb(r, key, Up(n, red, true, l, p), h');
      } else {
        DescendRb(l, key, Up(n, red, false, r, p), h');
      }
  }

  lemma {:induction false} FixRb<N>(path: Path<N>, t: Tree<N>, h: nat)
    requires RbPath(path, h) && Rb(t, h) && IsRed(t)
    ensures IsRb(Fix(path, t))
    decreases path
  {
    match path
    case Top => RbHeight(Black(t), h + 1);
    case Up(p, pred, pdir, sib, Top) => PlugRb(path, t, h);
    case Up(p, pred, pdir, sib, Up(g, gred, gdir, uncle, up)) =>
      if !pred {
        PlugRb(path, t, h);
      } else if IsRed(uncle) {
        FixRb(up, Mk(g, true, gdir, Mk(p, false, pdir, t, sib), Black(uncle)), h + 1);
      } else {
        PlugRb(up, Rotate(g, gdir, uncle, p, pdir, sib, t), h + 1);
      }
  }

  // ----- The main result on values -----

  ghost predicate AllBelow<N>(ns: seq<Elem<N>>, key: nat) {
    forall n :: n in ns ==> n.value < key
  }

  ghost predicate NoneBelow<N>(ns: seq<Elem<N>>, key: nat) {
    forall n :: n in ns ==> key <= n.value
  }

  lemma {:induction false} DescendOrder<N>(t: Tree<N>, key: nat, p: Path<N>)
    requires Sorted(Inorder(t)) && AllBelow(Before(p), key) && NoneBelow(After(p), key)
    ensures var d := Descend(t, key, p);
            Before(d) + After(d) == Before(p) + Inorder(t) + After(p) &&
            AllBelow(Before(d), key) && NoneBelow(After(d), key)
    decreases t
  {
    match t
    case Leaf =>
      assert Before(p) + Inorder(t) + After(p) == Before(p) + After(p);
    case Node(n, red, l, r) =>
      SortedParts(Inorder(l), n, Inorder(r));
      if n.value < key {
        MkInorder(n, red, red, true, r, l, p);
        DescendOrder(r, key, Up(n, red, true, l, p));
      } else {
        MkInorder(n, red, red, false, l, r, p);
        DescendOrder(l, key, Up(n, red, false, r, p));
      }
  }

  lemma {:induction false} SortedParts<N>(a: seq<Elem<N>>, n: Elem<N>, b: seq<Elem<N>>)
    requires Sorted(a + [n] + b)
    ensures Sorted(a) && Sorted(b)
    ensures (forall m :: m in a ==> m.value <= n.value) && (forall m :: m in b ==> n.value <= m.value)
  {
    var s := a + [n] + b;
    assert forall i :: 0 <= i < |a| ==> s[i] == a[i];
    assert s[|a|] == n;
    forall i | 0 <= i < |b|
      ensures s[|a| + 1 + i] == b[i]
    {
    }
    forall i, j | 0 <= i < j < |b|
      ensures b[i].value <= b[j].value
    {
      assert s[|a| + 1 + i] == b[i] && s[|a| + 1 + j] == b[j];
    }
    forall m | m in b
      ensures n.value <= m.value
    {
      var i :| 0 <= i < |b| && b[i] == m;
      assert s[|a| + 1 + i] == m;
    }
  }

  /**
   Insertion keeps the tree red-black, and the new node takes its place in the old order: after
   every smaller key, before every other, with nothing else moved, lost or duplicated.
   */
  lemma {:induction false} InsertCorrect<N>(t: Tree<N>, n: Elem<N>)
    requires IsRb(t) && Sorted(Inorder(t))
    ensures IsRb(Insert(t, n)) && Sorted(Inorder(Insert(t, n)))
    ensures exists k :: 0 <= k <= |Inorder(t)| && InsertedAt(Inorder(t), k, n, Inorder(Insert(t, n)))
  {
    var d := Descend(t, n.value, Top);
    var new' := Node(n, true, Leaf, Leaf);
    DescendRb(t, n.value, Top, BlackHeight(t));
    FixRb(d, new', 0);
    DescendOrder(t, n.value, Top);
    FixInorder(d, new');
    assert Before(Top) + Inorder(t) + After(Top) == Inorder(t);
    InPlace(Before(d), n, After(d));
    assert Inorder(new') == [n];
    SortedWith(Inorder(t), |Before(d)|, n);
  }

  /** `r` is `s` with `n` at place `k`: after all smaller keys, before the others. */
  ghost predicate InsertedAt<N>(s: seq<Elem<N>>, k: nat, n: Elem<N>, r: seq<Elem<N>>)
    requires k <= |s|
  {
    r == s[..k] + [n] + s[k..] && AllBelow(s[..k], n.value) && NoneBelow(s[k..], n.value)
  }

  lemma {:induction false} InPlace<N>(a: seq<Elem<N>>, n: Elem<N>, b: seq<Elem<N>>)
    requires AllBelow(a, n.value) && NoneBelow(b, n.value)
    ensures InsertedAt(a + b, |a|, n, a + [n] + b)
  {
    assert (a + b)[..|a|] == a && (a + b)[|a|..] == b;
  }

  lemma {:induction false} SortedWith<N>(s: seq<Elem<N>>, k: nat, n: Elem<N>)
    requires Sorted(s) && k <= |s|
    requires AllBelow(s[..k], n.value) && NoneBelow(s[k..], n.value)
    ensures Sorted(s[..k] + [n] + s[k..])
  {
    var r := s[..k] + [n] + s[k..];
    assert forall i :: 0 <= i < k ==> s[i] in s[..k];
    assert forall i :: k <= i < |s| ==> s[i] in s[k..];
    forall i, j | 0 <= i < j < |r|
      ensures r[i].value <= r[j].value
    {
      assert i != k ==> r[i] == s[if i < k then i else i - 1];
      assert j != k ==> r[j] == s[if j < k then j else j - 1];
    }
  }

  // ----- A key that changes in place -----

  /** The node `n` keeps its place and gets the key `v`. */
  function SetKey<N(==)>(t: Tree<N>, n: N, v: nat): Tree<N> {
    match t
    case Leaf => t
    case Node(m, red, l, r) => Node(Rekeyed(m, n, v), red, SetKey(l, n, v), SetKey(r, n, v))
  }

  function Rekeyed<N(==)>(m: Elem<N>, n: N, v: nat): Elem<N> {
    if m.node == n then Elem(n, v) else m
  }

  lemma {:induction false} SetKeyRb<N>(t: Tree<N>, n: N, v: nat)
    ensures BlackHeight(SetKey(t, n, v)) == BlackHeight(t)
    ensures IsRed(SetKey(t, n, v)) == IsRed(t)
    ensures forall h :: Rb(SetKey(t, n, v), h) <==> Rb(t, h)
  {
    if t.Node? {
      SetKeyRb(t.left, n, v);
      SetKeyRb(t.right, n, v);
    }
  }

  lemma {:induction false} SetKeyInorder<N>(t: Tree<N>, n: N, v: nat)
    ensures |Inorder(SetKey(t, n, v))| == |Inorder(t)|
    ensures forall i :: 0 <= i < |Inorder(t)| ==> Inorder(SetKey(t, n, v))[i] == Rekeyed(Inorder(t)[i], n, v)
  {
    if t.Node? {
      SetKeyInorder(t.left, n, v);
      SetKeyInorder(t.right, n, v);
    }
  }

  /** A key that stays strictly between its neighbours keeps the tree balanced and the order as it was. */
  lemma {:induction false} SetKeyCorrect<N>(t: Tree<N>, k: nat, v: nat)
    requires IsRb(t) && k < |Inorder(t)|
    requires forall i :: 0 <= i < |Inorder(t)| && i != k ==> Inorder(t)[i].node != Inorder(t)[k].node
    ensures var n := Inorder(t)[k].node;
            IsRb(SetKey(t, n, v)) && Inorder(SetKey(t, n, v)) == Inorder(t)[k := Elem(n, v)]
  {
    SetKeyRb(t, Inorder(t)[k].node, v);
    SetKeyInorder(t, Inorder(t)[k].node, v);
  }

  // ----- Removal, by contract -----

  /** `r` is a tree from which the `k`-th node of `t` is gone: the rest is in order, and balance is kept. */
  ghost predicate Removed<N>(t: Tree<N>, k: nat, r: Tree<N>)
    requires k < |Inorder(t)|
  {
    Inorder(r) == Inorder(t)[..k] + Inorder(t)[k + 1..] && IsRb(r)
  }

  /** A balanced tree over the nodes from `lo` to `hi`, with `h` black levels. */
  function Build<N>(s: seq<Elem<N>>, lo: nat, hi: nat, h: nat): Tree<N>
    requires lo <= hi <= |s|
    decreases hi - lo
  {
    if lo == hi then Leaf
    else
      var m, h' := (lo + hi - 1) / 2, if h == 0 then 0 else h - 1;
      Node(s[m], h == 0, Build(s, lo, m, h'), Build(s, m + 1, hi, h'))
  }

  lemma {:induction false} BuildInorder<N>(s: seq<Elem<N>>, lo: nat, hi: nat, h: nat)
    requires lo <= hi <= |s|
    ensures Inorder(Build(s, lo, hi, h)) == s[lo..hi]
    decreases hi - lo
  {
    if lo < hi {
      var m, h' := (lo + hi - 1) / 2, if h == 0 then 0 else h - 1;
      BuildInorder(s, lo, m, h');
      BuildInorder(s, m + 1, hi, h');
      Join(s, lo, m, hi);
    }
  }

  lemma {:induction false} Join<N>(s: seq<Elem<N>>, lo: nat, m: nat, hi: nat)
    requires lo <= m < hi <= |s|
    ensures s[lo..m] + [s[m]] + s[m + 1..hi] == s[lo..hi]
  {
  }

  /** 2 to the power `h + 1`, less one: the most nodes that `h` black levels and one red level hold. */
  function Full(h: nat): nat {
    if h == 0 then 1 else 2 * Full(h - 1) + 1
  }

  lemma {:induction false} BuildRb<N>(s: seq<Elem<N>>, lo: nat, hi: nat, h: nat)
    requires lo <= hi <= |s| && (if h == 0 then 0 else Full(h - 1)) <= hi - lo <= Full(h)
    ensures Rb(Build(s, lo, hi, h), h) && (h > 0 ==> !IsRed(Build(s, lo, hi, h)))
    decreases h
  {
    if lo < hi {
      var m := (lo + hi - 1) / 2;
      if h == 0 {
        assert Build(s, lo, hi, h) == Node(s[lo], true, Leaf, Leaf);
      } else {
        BuildRb(s, lo, m, h - 1);
        BuildRb(s, m + 1, hi, h - 1);
      }
    }
  }

  lemma {:induction false} Levels(n: nat) returns (h: nat)
    requires n > 0
    ensures h > 0 && Full(h - 1) <= n <= Full(h)
  {
    h := 1;
    while n > Full(h)
      invariant h > 0 && Full(h - 1) <= n && h <= Full(h - 1)
      decreases n - Full(h - 1)
    {
      h := h + 1;
    }
  }

  /** The contract of removal can be met, whatever the tree. */
  lemma {:induction false} RemovalExists<N>(t: Tree<N>, k: nat)
    requires k < |Inorder(t)|
    ensures exists r :: Removed(t, k, r)
  {
    var s := Inorder(t)[..k] + Inorder(t)[k + 1..];
    if s == [] {
      assert Removed(t, k, Leaf);
    } else {
      var h := Levels(|s|);
      BuildInorder(s, 0, |s|, h);
      BuildRb(s, 0, |s|, h);
      RbHeight(Build(s, 0, |s|, h), h);
      assert Removed(t, k, Build(s, 0, |s|, h));
    }
  }
}

/**
 `rbtree::insert` as the source has it (rbtree.cpp:26-102), where no node ever gets a parent: the recolour
 loop stops after one round, and a rotation makes the rotated subtree the whole tree.

 `colour` is the colour that the new node happens to have when control goes straight to the rotation; a
 single one leaves it unset.
 */
module RbAsWritten {
  import opened Options
  import opened RbSpec

  /** None where a null pointer is dereferenced: below a red root. */
  function CodedInsert<N>(t: Tree<N>, n: Elem<N>, colour: bool): Option<Tree<N>> {
    match Descend(t, n.value, Top)
    case Top => Some(Node(n, false, Leaf, Leaf))
    case Up(p, pred, pdir, sib, above) =>
      if !pred then Some(Plug(Descend(t, n.value, Top), Node(n, true, Leaf, Leaf)))
      else match above
        case Top => None
        case Up(g, gred, gdir, uncle, up) =>
          if IsRed(uncle) then
            Some(Plug(up, Mk(g, gred, gdir, Mk(p, false, pdir, Node(n, true, Leaf, Leaf), sib), Black(uncle))))
          else
            Some(Rotate(g, gdir, uncle, p, pdir, sib, Node(n, colour, Leaf, Leaf)))
  }

  /** The new node's parent is black, or there is no rotation, or the rotation is at the root. */
  predicate KeepsAll<N>(path: Path<N>) {
    path.Up? && path.red ==> path.up.Up? && (IsRed(path.up.other) || path.up.up.Top?)
  }

  lemma {:induction false} PlaceOf<N>(path: Path<N>, n: Elem<N>, red: bool)
    ensures Inorder(Node(n, red, Leaf, Leaf)) == [n]
    ensures Inorder(Fix(path, Node(n, true, Leaf, Leaf))) == Before(path) + [n] + After(path)
  {
    assert Inorder(Node(n, true, Leaf, Leaf)) == [n];
    FixInorder(path, Node(n, true, Leaf, Leaf));
  }

  /** As written, insertion leaves the nodes in the order of the repaired insertion, none lost, exactly then. */
  lemma {:induction false} InsertExactly<N>(t: Tree<N>, n: Elem<N>, colour: bool)
    ensures var r := CodedInsert(t, n, colour);
            (r.Some? && Inorder(r.value) == Inorder(Insert(t, n))) <==> KeepsAll(Descend(t, n.value, Top))
  {
    var path := Descend(t, n.value, Top);
    PlaceOf(path, n, colour);
    if path.Top? {
      assert Before(path) + [n] + After(path) == [n];
      assert Inorder(Node(n, false, Leaf, Leaf)) == [n];
    } else if !path.red {
      PlugInorder(path, Node(n, true, Leaf, Leaf));
    } else if path.up.Up? {
      PlacesBelow(path, n, colour);
    }
  }

  /** Below a red parent: recoloured in place, or rotated without what is above. */
  lemma {:induction false} PlacesBelow<N>(path: Path<N>, n: Elem<N>, colour: bool)
    requires path.Up? && path.red && path.up.Up?
    ensures var g, up := path.up, path.up.up;
            var low := Mk(path.n, false, path.dir, Node(n, true, Leaf, Leaf), path.other);
            Inorder(Plug(up, Mk(g.n, g.red, g.dir, low, Black(g.other)))) == Before(path) + [n] + After(path)
    ensures var g, up := path.up, path.up.up;
            var turned := Rotate(g.n, g.dir, g.other, path.n, path.dir, path.other, Node(n, colour, Leaf, Leaf));
            Before(path) + [n] + After(path) == Before(up) + Inorder(turned) + After(up)
    ensures path.up.up.Top? <==> |Before(path.up.up)| + |After(path.up.up)| == 0
  {
    var g, up, leaf, leaf' := path.up, path.up.up, Node(n, true, Leaf, Leaf), Node(n, colour, Leaf, Leaf);
    var low, low' := Mk(path.n, false, path.dir, leaf, path.other), Mk(path.n, true, path.dir, leaf', path.other);
    assert Inorder(leaf) == [n] && Inorder(leaf') == [n];
    BlackInorder(g.other);
    PlugInorder(up, Mk(g.n, g.red, g.dir, low, Black(g.other)));
    MkInorder(g.n, g.red, g.red, g.dir, low, Black(g.other), up);
    MkInorder(path.n, false, path.red, path.dir, leaf, path.other, g);
    SameSides(g, Black(g.other));
    RotateInorder(g.n, g.dir, g.other, path.n, path.dir, path.other, leaf');
    MkInorder(g.n, true, g.red, g.dir, low', g.other, up);
    MkInorder(path.n, true, path.red, path.dir, leaf', path.other, g);
  }

  lemma {:induction false} BlackInorder<N>(t: Tree<N>)
    ensures Inorder(Black(t)) == Inorder(t)
  {
  }

  lemma {:induction false} SameSides<N>(p: Path<N>, other: Tree<N>)
    requires p.Up? && Inorder(other) == Inorder(p.other)
    ensures Before(p.(other := other)) == Before(p) && After(p.(other := other)) == After(p)
  {
  }

  // ----- Balance -----

  /**
   The new node's parent is black, or the grandparent is the root, and either the uncle is red, or the
   rotation is a double one, or the new node happens to be red.
   */
  predicate KeepsBalance<N>(path: Path<N>, colour: bool) {
    path.Up? && path.red ==>
      path.up.Up? && path.up.up.Top? && (IsRed(path.up.other) || path.dir != path.up.dir || colour)
  }

  /** What is hung into a balanced tree is balanced, and as high as its sibling. */
  lemma {:induction false} PlugParts<N>(p: Path<N>, t: Tree<N>, h: nat)
    requires Rb(Plug(p, t), h)
    ensures Rb(t, BlackHeight(t)) && (p.Up? ==> Rb(p.other, BlackHeight(t)))
    decreases p
  {
    match p
    case Top => RbHeight(t, h);
    case Up(n, red, dir, other, up) =>
      var sub := Mk(n, red, dir, t, other);
      PlugParts(up, sub, h);
      RbHeight(t, BlackHeight(sub) - if red then 0 else 1);
  }

  /** Where a subtree of height `h` belongs, a higher one below another node breaks the balance. */
  lemma {:induction false} TooHigh<N>(p: Path<N>, t: Tree<N>, h: nat)
    requires p.Up? && RbPath(p, h) && Rb(t, h + 1)
    ensures !IsRb(Plug(p, t))
  {
    if IsRb(Plug(p, t)) {
      PlugParts(p, t, BlackHeight(Plug(p, t)));
      RbHeight(t, h + 1);
      RbHeight(p.other, h);
      RbHeight(p.other, h + 1);
    }
  }

  /** The rotation at the root is balanced exactly when it is a double one, or the new node is red. */
  lemma {:induction false} TurnedRoot<N>(path: Path<N>, n: Elem<N>, colour: bool)
    requires path.Up? && path.red && path.up.Up? && RbPath(path, 0) && !IsRed(path.up.other)
    ensures var g := path.up;
            IsRb(Rotate(g.n, g.dir, g.other, path.n, path.dir, path.other, Node(n, colour, Leaf, Leaf))) <==>
            path.dir != g.dir || colour
  {
    var g, leaf := path.up, Node(n, colour, Leaf, Leaf);
    var low := Mk(g.n, true, g.dir, path.other, g.other);
    if path.dir == g.dir {
      assert Rb(low, 0);
      RbHeight(low, 0);
      assert Rb(leaf, 0) <==> colour;
      assert Rb(leaf, 1) <==> !colour;
      var t := Mk(path.n, false, path.dir, leaf, low);
      if IsRb(t) {
        RbHeight(low, BlackHeight(t) - 1);
      } else if colour {
        RbHeight(t, 1);
      }
    } else {
      var p', g' := Mk(path.n, true, path.dir, Leaf, path.other), Mk(g.n, true, g.dir, Leaf, g.other);
      assert Rb(p', 0) && Rb(g', 0);
      var t := Mk(n, false, g.dir, p', g');
      RbHeight(t, 1);
    }
  }

  /** As written, insertion into a balanced tree does all that it should exactly then. */
  lemma {:induction false} BalancedExactly<N>(t: Tree<N>, n: Elem<N>, colour: bool)
    requires IsRb(t)
    ensures var r := CodedInsert(t, n, colour);
            (r.Some? && IsRb(r.value) && Inorder(r.value) == Inorder(Insert(t, n))) <==>
            KeepsBalance(Descend(t, n.value, Top), colour)
  {
    hide Inorder, Insert, IsRb, Rotate, Before, After;
    var path, leaf := Descend(t, n.value, Top), Node(n, true, Leaf, Leaf);
    InsertExactly(t, n, colour);
    RootIsBlack(t);
    DescendRb(t, n.value, Top, BlackHeight(t));
    if path.Top? {
      SmallTree(n);
    } else if !path.red {
      PlugRb(path, leaf, 0);
    } else {
      BelowRed(path, n, colour);
    }
  }

  lemma {:induction false} RootIsBlack<N>(t: Tree<N>)
    requires IsRb(t)
    ensures !IsRed(t) && Rb(t, BlackHeight(t))
  {
  }

  lemma {:induction false} SmallTree<N>(n: Elem<N>)
    ensures IsRb(Node(n, false, Leaf, Leaf))
  {
  }

  lemma {:induction false} BelowRed<N>(path: Path<N>, n: Elem<N>, colour: bool)
    requires path.Up? && path.red && RbPath(path, 0)
    ensures var g := path.up;
            var low := Mk(path.n, false, path.dir, Node(n, true, Leaf, Leaf), path.other);
            IsRed(g.other) ==> IsRb(Plug(g.up, Mk(g.n, g.red, g.dir, low, Black(g.other)))) == g.up.Top?
    ensures var g := path.up;
            var turned := Rotate(g.n, g.dir, g.other, path.n, path.dir, path.other, Node(n, colour, Leaf, Leaf));
            !IsRed(g.other) ==> IsRb(turned) == (path.dir != g.dir || colour)
  {
    hide IsRb;
    var g, leaf := path.up, Node(n, true, Leaf, Leaf);
    if IsRed(g.other) {
      var low := Mk(path.n, false, path.dir, leaf, path.other);
      assert Rb(low, 1) && Rb(Black(g.other), 1);
      var sub := Mk(g.n, g.red, g.dir, low, Black(g.other));
      if g.up.Top? {
        PlugRb(g.up, sub, 2);
      } else {
        TooHigh(g.up, sub, 1);
      }
    } else {
      TurnedRoot(path, n, colour);
    }
  }

  // ----- What goes wrong -----

  function At(k: nat): Elem<nat> {
    Elem(k, 16 * k)
  }

  /** The insertions of a run, as written; the colour left unset happens to be red. */
  function CodedRun(ks: seq<nat>): Option<Tree<nat>> {
    if ks == [] then Some(Leaf)
    else match CodedRun(ks[..|ks| - 1])
      case None => None
      case Some(t) => CodedInsert(t, At(ks[|ks| - 1]), true)
  }

  lemma {:induction false} NextOf(ks: seq<nat>, k: nat, t: Tree<nat>)
    requires CodedRun(ks) == Some(t)
    ensures CodedRun(ks + [k]) == CodedInsert(t, At(k), true)
  {
    assert (ks + [k])[..|ks|] == ks;
  }

  function Two(): Tree<nat> {
    Node(At(0), false, Leaf, Node(At(1), true, Leaf, Leaf))
  }

  function Four(): Tree<nat> {
    Node(At(1), false, Node(At(0), false, Leaf, Leaf), Node(At(3), false, Leaf, Node(At(4), true, Leaf, Leaf)))
  }

  lemma {:induction false} TwoKeys()
    ensures CodedRun([0, 1]) == Some(Two()) && Descend(Two(), 48, Top) ==
            Up(At(1), true, true, Leaf, Up(At(0), false, true, Leaf, Top))
  {
    NextOf([], 0, Leaf);
    assert [] + [0] == [0] && [0] + [1] == [0, 1];
    NextOf([0], 1, Node(At(0), false, Leaf, Leaf));
    assert Descend(Node(At(0), false, Leaf, Leaf), 16, Top) == Up(At(0), false, true, Leaf, Top);
    assert Descend(Two().right, 48, Up(At(0), false, true, Leaf, Top)) ==
           Up(At(1), true, true, Leaf, Up(At(0), false, true, Leaf, Top));
  }

  lemma {:induction false} FourKeys()
    ensures CodedRun([0, 1, 3, 4]) == Some(Four())
  {
    TwoKeys();
    assert [0, 1] + [3] == [0, 1, 3] && [0, 1, 3] + [4] == [0, 1, 3, 4];
    NextOf([0, 1], 3, Two());
    var three := Node(At(1), false, Node(At(0), true, Leaf, Leaf), Node(At(3), true, Leaf, Leaf));
    assert CodedInsert(Two(), At(3), true) == Some(three);
    NextOf([0, 1, 3], 4, three);
    var root := Up(At(1), false, true, Node(At(0), true, Leaf, Leaf), Top);
    assert Descend(three, 64, Top) == Up(At(3), true, true, Leaf, root);
  }

  /** Five keys of which the second rotation drops two. */
  lemma {:induction false} LosesNodes()
    ensures var r := CodedRun([0, 1, 3, 4, 5]); r.Some? && Inorder(r.value) == [At(3), At(4), At(5)]
  {
    FourKeys();
    NextOf([0, 1, 3, 4], 5, Four());
    assert [0, 1, 3, 4] + [5] == [0, 1, 3, 4, 5];
    var at1 := Up(At(1), false, true, Node(At(0), false, Leaf, Leaf), Top);
    var at3 := Up(At(3), false, true, Leaf, at1);
    assert Descend(Four().right, 80, at1) == Up(At(4), true, true, Leaf, at3);
    assert Descend(Four(), 80, Top) == Up(At(4), true, true, Leaf, at3);
    var r := Node(At(4), false, Node(At(3), true, Leaf, Leaf), Node(At(5), true, Leaf, Leaf));
    assert CodedInsert(Four(), At(5), true) == Some(r);
    assert Inorder(r.left) == [At(3)] && Inorder(r.right) == [At(5)];
  }

  function Five(): Tree<nat> {
    var right := Node(At(3), false, Node(At(2), true, Leaf, Leaf), Node(At(4), true, Leaf, Leaf));
    Node(At(1), false, Node(At(0), false, Leaf, Leaf), right)
  }

  lemma {:induction false} FiveKeys()
    ensures CodedRun([0, 1, 3, 4, 2]) == Some(Five())
  {
    hide CodedRun;
    FourKeys();
    assert [0, 1, 3, 4] + [2] == [0, 1, 3, 4, 2];
    NextOf([0, 1, 3, 4], 2, Four());
    var at1 := Up(At(1), false, true, Node(At(0), false, Leaf, Leaf), Top);
    assert Descend(Four().right, 32, at1) == Up(At(3), false, false, Node(At(4), true, Leaf, Leaf), at1);
    assert Descend(Four(), 32, Top) == Up(At(3), false, false, Node(At(4), true, Leaf, Leaf), at1);
  }

  lemma {:induction false} FiveBalanced()
    ensures IsRb(Five())
  {
    assert Rb(Five().right, 1) && Rb(Five().left, 1);
    RbHeight(Five(), 2);
  }

  lemma {:induction false} FiveDescend()
    ensures var at1 := Up(At(1), false, true, Node(At(0), false, Leaf, Leaf), Top);
            var at3 := Up(At(3), false, true, Node(At(2), true, Leaf, Leaf), at1);
            Descend(Five(), 80, Top) == Up(At(4), true, true, Leaf, at3)
  {
    var at1 := Up(At(1), false, true, Node(At(0), false, Leaf, Leaf), Top);
    var at3 := Up(At(3), false, true, Node(At(2), true, Leaf, Leaf), at1);
    assert Descend(Five().right.right, 80, at3) == Up(At(4), true, true, Leaf, at3);
    assert Descend(Five().right, 80, at1) == Descend(Five().right.right, 80, at3);
  }

  /** Six keys, none lost, of which the last is recoloured below the root: the balance is gone. */
  lemma {:induction false} LosesBalance()
    ensures var t, r := CodedRun([0, 1, 3, 4, 2]), CodedRun([0, 1, 3, 4, 2, 5]);
            t.Some? && IsRb(t.value) && r.Some? && !IsRb(r.value) &&
            Inorder(r.value) == [At(0), At(1), At(2), At(3), At(4), At(5)]
  {
    hide CodedRun, Descend, IsRb, Insert;
    FiveKeys();
    FiveBalanced();
    FiveDescend();
    assert [0, 1, 3, 4, 2] + [5] == [0, 1, 3, 4, 2, 5];
    NextOf([0, 1, 3, 4, 2], 5, Five());
    BalancedExactly(Five(), At(5), true);
    InsertExactly(Five(), At(5), true);
    var four := Node(At(4), false, Leaf, Node(At(5), true, Leaf, Leaf));
    var low := Node(At(3), false, Node(At(2), false, Leaf, Leaf), four);
    assert CodedInsert(Five(), At(5), true) == Some(Node(At(1), false, Node(At(0), false, Leaf, Leaf), low));
    assert Inorder(low.left) == [At(2)] && Inorder(low.right) == [At(4), At(5)];
  }

  /** Whether three ascending keys end up balanced depends on the colour that is left unset. */
  lemma {:induction false} BalanceByChance(colour: bool)
    ensures CodedRun([0, 1]) == Some(Two()) && IsRb(Two())
    ensures var r := CodedInsert(Two(), At(3), colour);
            r.Some? && Inorder(r.value) == [At(0), At(1), At(3)] && (IsRb(r.value) <==> colour)
  {
    TwoKeys();
    assert Rb(Two(), 1) && BlackHeight(Two()) == 1;
    BalancedExactly(Two(), At(3), colour);
    InsertExactly(Two(), At(3), colour);
    var r := CodedInsert(Two(), At(3), colour).value;
    assert r == Node(At(1), false, Node(At(0), true, Leaf, Leaf), Node(At(3), colour, Leaf, Leaf));
    assert Inorder(r.left) == [At(0)] && Inorder(r.right) == [At(3)];
  }
}

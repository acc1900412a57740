/**
 `findBelow` and `findAbove` (rbtree.cpp), on values.

 As written, the searched value and every key pass through an `int`, so a key of 2^31 or more is
 compared as another number (`ToInt`). The searches are given for both: with that narrowing, as the
 source has it, and without, as repaired.
 */
module RbSearch {
  import opened Options
  import opened RbSpec
  import opened Words

  const INT_LIMIT: nat := 0x8000_0000
  const INT_MAX: nat := 0x7FFF_FFFF

  predicate IsInt(v: int) {
    -0x8000_0000 <= v < 0x8000_0000
  }

  /** The conversion of a `size_t` key to a 32-bit `int`. */
  function ToInt(k: nat): int {
    var low := k % 0x1_0000_0000;
    if low < INT_LIMIT then low else low - 0x1_0000_0000
  }

  function Key(narrow: bool, k: nat): int {
    if narrow then ToInt(k) else k
  }

  /** The loop of `findBelow` from a subtree on, with `best` the best node so far. */
  function BelowIn<N>(narrow: bool, t: Tree<N>, v: int, best: Option<Elem<N>>): Option<Elem<N>> {
    match t
    case Leaf => best
    case Node(n, _, l, r) =>
      if v == Key(narrow, n.value) then Some(n)
      else if v > Key(narrow, n.value) then BelowIn(narrow, r, v, Some(n))
      else BelowIn(narrow, l, v, best)
  }

  /** The loop of `findAbove`. */
  function AboveIn<N>(narrow: bool, t: Tree<N>, v: int, best: Option<Elem<N>>): Option<Elem<N>> {
    match t
    case Leaf => best
    case Node(n, _, l, r) =>
      if v == Key(narrow, n.value) then Some(n)
      else if v < Key(narrow, n.value) then AboveIn(narrow, l, v, Some(n))
      else AboveIn(narrow, r, v, best)
  }

  /** `v` compares with every key as it does with what the search sees of the key. */
  ghost predicate Alike<N>(narrow: bool, ns: seq<Elem<N>>, v: int) {
    forall n :: n in ns ==> (v < Key(narrow, n.value) <==> v < n.value) && (v > Key(narrow, n.value) <==> v > n.value)
  }

  ghost predicate KeysFit<N>(ns: seq<Elem<N>>) {
    forall n :: n in ns ==> n.value < INT_LIMIT
  }

  lemma {:induction false} FittingKeysAreAlike<N>(narrow: bool, ns: seq<Elem<N>>, v: int)
    requires !narrow || KeysFit(ns)
    ensures Alike(narrow, ns, v)
  {
  }

  /** `r` holds the greatest key of `ns` that is at most `v`. */
  ghost predicate IsGreatestBelow<N>(ns: seq<Elem<N>>, v: int, r: Elem<N>) {
    r in ns && r.value <= v && forall n :: n in ns && n.value <= v ==> n.value <= r.value
  }

  ghost predicate IsLeastAbove<N>(ns: seq<Elem<N>>, v: int, r: Elem<N>) {
    r in ns && v <= r.value && forall n :: n in ns && v <= n.value ==> r.value <= n.value
  }

  /** `r` is the greatest key at most `v`, or `best` exactly when there is none. */
  ghost predicate FoundBelow<N>(ns: seq<Elem<N>>, v: int, best: Option<Elem<N>>, r: Option<Elem<N>>) {
    if exists n :: n in ns && n.value <= v then r.Some? && IsGreatestBelow(ns, v, r.value) else r == best
  }

  ghost predicate FoundAbove<N>(ns: seq<Elem<N>>, v: int, best: Option<Elem<N>>, r: Option<Elem<N>>) {
    if exists n :: n in ns && v <= n.value then r.Some? && IsLeastAbove(ns, v, r.value) else r == best
  }

  lemma {:induction false} InNode<N>(t: Tree<N>)
    requires t.Node?
    ensures forall m :: m in Inorder(t) ==> m in Inorder(t.left) || m == t.n || m in Inorder(t.right)
    ensures forall m :: m in Inorder(t.left) ==> m in Inorder(t)
    ensures forall m :: m in Inorder(t.right) ==> m in Inorder(t)
    ensures t.n in Inorder(t)
  {
    var s := Inorder(t.left) + [t.n];
    assert Inorder(t) == s + Inorder(t.right);
    assert s[|s| - 1] == t.n && t.n in s;
    assert forall m :: m in s <==> m in Inorder(t.left) || m == t.n;
  }

  /** The two sides of the root of a sorted tree. */
  lemma {:induction false} Sides<N>(t: Tree<N>)
    requires t.Node? && Sorted(Inorder(t))
    ensures Sorted(Inorder(t.left)) && Sorted(Inorder(t.right))
    ensures forall m :: m in Inorder(t.left) ==> m.value <= t.n.value && m in Inorder(t)
    ensures forall m :: m in Inorder(t.right) ==> t.n.value <= m.value && m in Inorder(t)
    ensures t.n in Inorder(t)
    ensures forall m :: m in Inorder(t) ==> m in Inorder(t.left) || m == t.n || m in Inorder(t.right)
  {
    SortedParts(Inorder(t.left), t.n, Inorder(t.right));
    InNode(t);
  }

  /** The search finds the greatest key at most `v`, or leaves `best` exactly when there is none. */
  lemma {:induction false} BelowFinds<N>(narrow: bool, t: Tree<N>, v: int, best: Option<Elem<N>>)
    requires Sorted(Inorder(t)) && Alike(narrow, Inorder(t), v)
    ensures FoundBelow(Inorder(t), v, best, BelowIn(narrow, t, v, best))
    decreases t
  {
    hide Inorder, Sorted, ToInt;
    if t.Leaf? {
      NoNodes(t);
    } else {
      Sides(t);
      if v > t.n.value {
        BelowFinds(narrow, t.right, v, Some(t.n));
      } else if v < t.n.value {
        BelowFinds(narrow, t.left, v, best);
      }
    }
  }

  lemma {:induction false} AboveFinds<N>(narrow: bool, t: Tree<N>, v: int, best: Option<Elem<N>>)
    requires Sorted(Inorder(t)) && Alike(narrow, Inorder(t), v)
    ensures FoundAbove(Inorder(t), v, best, AboveIn(narrow, t, v, best))
    decreases t
  {
    hide Inorder, Sorted, ToInt;
    if t.Leaf? {
      NoNodes(t);
    } else {
      Sides(t);
      if v < t.n.value {
        AboveFinds(narrow, t.left, v, Some(t.n));
      } else if v > t.n.value {
        AboveFinds(narrow, t.right, v, best);
      }
    }
  }

  lemma {:induction false} NoNodes<N>(t: Tree<N>)
    requires t.Leaf?
    ensures Inorder(t) == []
  {
  }

  // ----- Exactly when the search as written is right -----

  /** Down the right side, keys fit an `int` as far as a search for an `int` can get. */
  predicate SpineFits<N>(t: Tree<N>) {
    t.Leaf? || (t.n.value < INT_LIMIT && (t.n.value == INT_MAX || SpineFits(t.right)))
  }

  lemma {:induction false} SpineSuffices<N>(t: Tree<N>, v: int, best: Option<Elem<N>>)
    requires Sorted(Inorder(t)) && SpineFits(t) && v <= INT_MAX
    ensures FoundBelow(Inorder(t), v, best, BelowIn(true, t, v, best))
    decreases t
  {
    hide Inorder, Sorted;
    if t.Leaf? {
      NoNodes(t);
    } else {
      Sides(t);
      assert ToInt(t.n.value) == t.n.value;
      if v > t.n.value {
        SpineSuffices(t.right, v, Some(t.n));
      } else if v < t.n.value {
        FittingKeysAreAlike(true, Inorder(t.left), v);
        BelowFinds(true, t.left, v, best);
      }
    }
  }

  lemma {:induction false} BelowIsThere<N>(t: Tree<N>, v: int, best: Option<Elem<N>>)
    ensures BelowIn(true, t, v, best) == best ||
            (BelowIn(true, t, v, best).Some? && BelowIn(true, t, v, best).value in Inorder(t))
  {
    if t.Node? {
      InNode(t);
      BelowIsThere(t.left, v, best);
      BelowIsThere(t.right, v, Some(t.n));
    }
  }

  /** Otherwise `findBelow(2^31 - 1)` returns a node whose key is greater. */
  lemma {:induction false} SpineNeeded<N>(t: Tree<N>, best: Option<Elem<N>>)
    requires Sorted(Inorder(t)) && !SpineFits(t)
    ensures var r := BelowIn(true, t, INT_MAX, best); r.Some? && r.value.value > INT_MAX
    decreases t
  {
    hide Inorder, Sorted;
    Sides(t);
    if t.n.value < INT_LIMIT {
      SpineNeeded(t.right, Some(t.n));
    } else {
      BelowIsThere(t.right, INT_MAX, Some(t.n));
    }
  }

  /** As written, `findBelow` is right for every `int` if and only if the right side of the tree fits. */
  lemma {:induction false} BelowExactly<N>(t: Tree<N>)
    requires Sorted(Inorder(t))
    ensures SpineFits(t) <==>
            forall v :: IsInt(v) ==> FoundBelow(Inorder(t), v, None, BelowIn(true, t, v, None))
  {
    hide Inorder, Sorted, SpineFits;
    if SpineFits(t) {
      forall v | IsInt(v)
        ensures FoundBelow(Inorder(t), v, None, BelowIn(true, t, v, None))
      {
        SpineSuffices(t, v, None);
      }
    } else {
      SpineNeeded(t, None);
      assert !FoundBelow(Inorder(t), INT_MAX, None, BelowIn(true, t, INT_MAX, None));
    }
  }

  /**
   Down the right side, keys fit an `int` as far as a search can get; or the first one that does not is
   seen as 2^31 - 1, and no other key in between is at least that.
   */
  ghost predicate AboveFits<N>(t: Tree<N>) {
    t.Node? ==>
      if t.n.value < INT_LIMIT then t.n.value == INT_MAX || AboveFits(t.right)
      else ToInt(t.n.value) == INT_MAX &&
           forall m :: m in Inorder(t.left) ==> m.value < INT_MAX || m.value == t.n.value
  }

  lemma {:induction false} AboveSuffices<N>(t: Tree<N>, v: int, best: Option<Elem<N>>)
    requires Sorted(Inorder(t)) && AboveFits(t) && v <= INT_MAX
    ensures FoundAbove(Inorder(t), v, best, AboveIn(true, t, v, best))
    decreases t
  {
    hide Inorder, Sorted;
    if t.Leaf? {
      NoNodes(t);
    } else {
      Sides(t);
      if v > Key(true, t.n.value) {
        assert t.n.value < INT_LIMIT;
        AboveSuffices(t.right, v, best);
      } else if v < Key(true, t.n.value) {
        assert Alike(true, Inorder(t.left), v);
        AboveFinds(true, t.left, v, Some(t.n));
      }
    }
  }

  /** A search for 2^31 - 1 stops only at a key that is seen as just that. */
  lemma {:induction false} AboveAtMax<N>(t: Tree<N>)
    ensures var r := AboveIn(true, t, INT_MAX, None);
            r.Some? ==> r.value in Inorder(t) && ToInt(r.value.value) == INT_MAX
  {
    if t.Node? {
      InNode(t);
      AboveAtMax(t.right);
    }
  }

  lemma {:induction false} AboveNeeded<N>(t: Tree<N>)
    requires Sorted(Inorder(t)) && !AboveFits(t)
    ensures !FoundAbove(Inorder(t), INT_MAX, None, AboveIn(true, t, INT_MAX, None))
    decreases t
  {
    hide Inorder, Sorted;
    Sides(t);
    if t.n.value < INT_LIMIT {
      AboveNeeded(t.right);
    } else {
      assert t.n in Inorder(t) && INT_MAX <= t.n.value;
      AboveAtMax(t.right);
    }
  }

  /** As written, `findAbove` is right for every `int` if and only if that holds. */
  lemma {:induction false} AboveExactly<N>(t: Tree<N>)
    requires Sorted(Inorder(t))
    ensures AboveFits(t) <==>
            forall v :: IsInt(v) ==> FoundAbove(Inorder(t), v, None, AboveIn(true, t, v, None))
  {
    hide Inorder, Sorted, AboveFits;
    if AboveFits(t) {
      forall v | IsInt(v)
        ensures FoundAbove(Inorder(t), v, None, AboveIn(true, t, v, None))
      {
        AboveSuffices(t, v, None);
      }
    } else {
      AboveNeeded(t);
      assert !FoundAbove(Inorder(t), INT_MAX, None, AboveIn(true, t, INT_MAX, None));
    }
  }

  // ----- The number of iterations -----

  function Height<N>(t: Tree<N>): nat {
    match t
    case Leaf => 0
    case Node(_, _, l, r) => 1 + if Height(l) < Height(r) then Height(r) else Height(l)
  }

  lemma {:induction false} Double(a: nat, b: nat)
    ensures 2 * (a * b) == (2 * a) * b
  {
  }

  lemma {:induction false} Pow2Add(a: nat, b: nat)
    ensures Pow2(a + b) == Pow2(a) * Pow2(b)
  {
    if a > 0 {
      Pow2Add(a - 1, b);
      Double(Pow2(a - 1), Pow2(b));
    }
  }

  lemma {:induction false} Pow2Mono(a: nat, b: nat)
    requires a <= b
    ensures Pow2(a) <= Pow2(b)
  {
    if a < b {
      Pow2Mono(a, b - 1);
    }
  }

  lemma {:induction false} RbBounds<N>(t: Tree<N>, h: nat)
    requires Rb(t, h)
    ensures Height(t) <= 2 * h + (if IsRed(t) then 1 else 0) && Pow2(h) <= |Inorder(t)| + 1
  {
    if t.Node? {
      var h' := if t.red then h else h - 1;
      RbBounds(t.left, h');
      RbBounds(t.right, h');
    }
  }

  /** A red-black tree of n nodes is at most 2 * log2(n + 1) high. */
  lemma {:induction false} HeightBound<N>(t: Tree<N>)
    requires IsRb(t)
    ensures Pow2(Height(t)) <= (|Inorder(t)| + 1) * (|Inorder(t)| + 1)
  {
    var h, n := BlackHeight(t), |Inorder(t)| + 1;
    RbBounds(t, h);
    Pow2Mono(Height(t), h + h);
    Pow2Add(h, h);
    SquareMono(Pow2(h), n);
  }

  lemma {:induction false} SquareMono(a: nat, b: nat)
    requires a <= b
    ensures a * a <= b * b
  {
    assert b * b == a * a + (b - a) * (b + a);
  }
}

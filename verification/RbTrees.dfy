/**
 The red-black tree of rbtree.cpp on linked nodes, updated in place.

 `Insert` is the `insert` of rbtree.cpp with these repairs:
  - `parent` is set on the new node and kept up to date by the rotations (10, 47-48, 83-100);
  - the new node is red also when control goes straight to the rotation (47-77);
  - a grandparent that moves up under a red parent is red (63-75).
 `SetKey` is what `deal_with_end` does to a tag that is in the tree (mem.cpp:119).
 */
module RbTrees {
  import opened Options
  import opened RbSpec
  import opened RbSearch

  class RbNode {
    var value: nat
    var red: bool
    var left: RbNode?
    var right: RbNode?
    var parent: RbNode?

    constructor (v: nat)
      ensures value == v && left == null && right == null && parent == null && !red
    {
      value, red, left, right, parent := v, false, null, null, null;
    }

    /** `child[dir ? 1 : 0]` */
    function Child(dir: bool): RbNode?
      reads this
    {
      if dir then right else left
    }
  }

  type NodeTree = Tree<RbNode>

  type NodePath = Path<RbNode>

  type NodeElem = Elem<RbNode>

  // ----- A tree and a path as they lie in memory -----

  ghost function Nodes(t: NodeTree): set<RbNode> {
    match t
    case Leaf => {}
    case Node(n, _, l, r) => {n.node} + Nodes(l) + Nodes(r)
  }

  ghost function PathNodes(p: NodePath): set<RbNode> {
    match p
    case Top => {}
    case Up(n, _, _, other, up) => {n.node} + Nodes(other) + PathNodes(up)
  }

  /** `root` is the top of the linked nodes of `t`, below `par`: child and parent links are inverse. */
  ghost predicate Rep(t: NodeTree, root: RbNode?, par: RbNode?)
    reads Nodes(t)
    decreases t
  {
    match t
    case Leaf => root == null
    case Node(n, red, l, r) =>
      && root == n.node && root.value == n.value && root.red == red && root.parent == par
      && root !in Nodes(l) && root !in Nodes(r) && Nodes(l) !! Nodes(r)
      && Rep(l, root.left, root) && Rep(r, root.right, root)
  }

  function Par(p: NodePath): RbNode? {
    if p.Top? then null else p.n.node
  }

  /** The linked nodes of `p` lead from `head` down to `hole`. */
  ghost predicate RepPath(p: NodePath, hole: RbNode?, head: RbNode?)
    reads PathNodes(p)
    decreases p
  {
    match p
    case Top => hole == head
    case Up(n, red, dir, other, up) =>
      && n.node.value == n.value && n.node.Child(dir) == hole && n.node.red == red && n.node.parent == Par(up)
      && n.node !in Nodes(other) && n.node !in PathNodes(up) && Nodes(other) !! PathNodes(up)
      && Rep(other, n.node.Child(!dir), n.node) && RepPath(up, n.node, head)
  }

  /** The linked nodes from `head` are `t`, topped by `curr`, at the place `p`. */
  ghost predicate At(p: NodePath, t: NodeTree, curr: RbNode?, head: RbNode?)
    reads PathNodes(p), Nodes(t)
  {
    Rep(t, curr, Par(p)) && RepPath(p, curr, head) && Nodes(t) !! PathNodes(p)
  }

  lemma {:induction false} MkRep(n: NodeElem, red: bool, dir: bool, sub: NodeTree, other: NodeTree, par: RbNode?)
    requires n.node.value == n.value && n.node.red == red && n.node.parent == par
    requires Rep(sub, n.node.Child(dir), n.node) && Rep(other, n.node.Child(!dir), n.node)
    requires n.node !in Nodes(sub) && n.node !in Nodes(other) && Nodes(sub) !! Nodes(other)
    ensures Rep(Mk(n, red, dir, sub, other), n.node, par)
    ensures Nodes(Mk(n, red, dir, sub, other)) == {n.node} + Nodes(sub) + Nodes(other)
  {
  }

  lemma {:induction false} KidRep(t: NodeTree, root: RbNode?, par: RbNode?, dir: bool)
    requires Rep(t, root, par) && t.Node?
    ensures root == t.n.node && root.value == t.n.value && root.red == t.red && root.parent == par
    ensures Rep(Kid(t, dir), root.Child(dir), root) && Rep(Kid(t, !dir), root.Child(!dir), root)
    ensures root !in Nodes(Kid(t, dir)) && root !in Nodes(Kid(t, !dir)) && Nodes(Kid(t, dir)) !! Nodes(Kid(t, !dir))
    ensures Nodes(t) == {root} + Nodes(Kid(t, dir)) + Nodes(Kid(t, !dir))
  {
  }

  lemma {:induction false} UpRep(p: NodePath, hole: RbNode?, head: RbNode?)
    requires RepPath(p, hole, head) && p.Up?
    ensures var n := p.n.node;
            n.value == p.n.value && n.Child(p.dir) == hole && n.red == p.red && n.parent == Par(p.up) &&
            n !in Nodes(p.other) && n !in PathNodes(p.up) && Nodes(p.other) !! PathNodes(p.up) &&
            Rep(p.other, n.Child(!p.dir), n) && RepPath(p.up, n, head) &&
            PathNodes(p) == {n} + Nodes(p.other) + PathNodes(p.up)
  {
  }

  lemma {:induction false} Down(p: NodePath, t: NodeTree, curr: RbNode, head: RbNode?, dir: bool)
    requires At(p, t, curr, head) && t.Node?
    ensures At(Up(t.n, t.red, dir, Kid(t, !dir), p), Kid(t, dir), curr.Child(dir), head)
  {
    KidRep(t, curr, Par(p), dir);
  }

  lemma {:induction false} Climb(p: NodePath, t: NodeTree, curr: RbNode?, head: RbNode?)
    requires At(p, t, curr, head) && p.Up?
    ensures At(p.up, Mk(p.n, p.red, p.dir, t, p.other), p.n.node, head)
    ensures PathNodes(p) + Nodes(t) == PathNodes(p.up) + Nodes(Mk(p.n, p.red, p.dir, t, p.other))
  {
    UpRep(p, curr, head);
    MkRep(p.n, p.red, p.dir, t, p.other, Par(p.up));
  }

  lemma {:induction false} ClimbAll(p: NodePath, t: NodeTree, curr: RbNode?, head: RbNode?)
    requires At(p, t, curr, head)
    ensures Rep(Plug(p, t), head, null) && Nodes(Plug(p, t)) == PathNodes(p) + Nodes(t)
    decreases p
  {
    if p.Up? {
      Climb(p, t, curr, head);
      ClimbAll(p.up, Mk(p.n, p.red, p.dir, t, p.other), p.n.node, head);
    }
  }

  lemma {:induction false} Root(t: NodeTree, root: RbNode?, par: RbNode?)
    requires Rep(t, root, par)
    ensures root != null ==> root in Nodes(t)
  {
  }

  // ----- Single steps of insert -----

  /** `child[dir]` of `n` becomes `c`, and `n` the parent of `c`, the top of `sub`. */
  method Hang(n: RbNode, dir: bool, c: RbNode?, ghost sub: NodeTree, ghost par: RbNode?)
    requires Rep(sub, c, par) && n !in Nodes(sub)
    modifies n`left, n`right, (if c == null then {} else {c})`parent
    ensures n.Child(dir) == c && n.Child(!dir) == old(n.Child(!dir)) && Rep(sub, c, n)
  {
    if dir {
      n.right := c;
    } else {
      n.left := c;
    }
    if c != null {
      KidRep(sub, c, par, true);
      c.parent := n;
      MkRep(sub.n, c.red, true, sub.right, sub.left, n);
    }
  }

  /** The top of a subtree changes colour, in its place. */
  method SetRedAt(n: RbNode, red: bool, ghost p: NodePath, ghost t: NodeTree, ghost head: RbNode?)
    requires At(p, t, n, head) && t.Node?
    modifies n`red
    ensures At(p, t.(red := red), n, head)
  {
    KidRep(t, n, Par(p), true);
    assert n !in PathNodes(p);
    n.red := red;
    MkRep(t.n, red, true, t.right, t.left, Par(p));
  }

  /** The sibling of the current place turns black. */
  method BlackenUncle(u: RbNode, ghost p: NodePath, ghost t: NodeTree, ghost curr: RbNode, ghost head: RbNode?)
    requires At(p, t, curr, head) && p.Up? && p.other.Node? && p.other.n.node == u
    modifies u`red
    ensures At(p.(other := Black(p.other)), t, curr, head)
  {
    UpRep(p, curr, head);
    KidRep(p.other, u, p.n.node, true);
    assert u !in Nodes(t) && u !in PathNodes(p.up);
    u.red := false;
    MkRep(p.other.n, false, true, p.other.right, p.other.left, p.n.node);
  }

  /** The place two levels up: a red parent below a black grandparent. */
  predicate RedParent(path: NodePath) {
    path.Up? && path.red && path.up.Up? && !path.up.red
  }

  /** The grandparent's subtree once parent and uncle have turned black. */
  function Recoloured(path: NodePath, t: NodeTree, red: bool): NodeTree
    requires RedParent(path)
  {
    Mk(path.up.n, red, path.up.dir, Mk(path.n, false, path.dir, t, path.other), Black(path.up.other))
  }

  /** Under a red parent and beside a red uncle, both turn black. */
  method Recolour(p: RbNode, u: RbNode, ghost path: NodePath, ghost t: NodeTree, ghost curr: RbNode,
                  ghost head: RbNode?)
    requires At(path, t, curr, head) && RedParent(path) && p == path.n.node
    requires path.up.other.Node? && u == path.up.other.n.node
    modifies p`red, u`red
    ensures At(path.up.up, Recoloured(path, t, false), path.up.n.node, head)
  {
    ghost var above, dark := path.up, Mk(path.n, false, path.dir, t, path.other);
    Climb(path, t, curr, head);
    SetRedAt(p, false, above, Mk(path.n, true, path.dir, t, path.other), head);
    BlackenUncle(u, above, dark, p, head);
    Climb(above.(other := Black(above.other)), dark, p, head);
  }

  /** `n` gets the subtree `sub` on the side `dir`, keeps `other` on the other side, and turns red or black. */
  method Adopt(n: RbNode, red: bool, dir: bool, c: RbNode?, par: RbNode?, ghost e: NodeElem,
               ghost sub: NodeTree, ghost other: NodeTree, ghost from: RbNode?, ghost own: set<RbNode>)
    requires Rep(sub, c, from) && Rep(other, n.Child(!dir), n) && e == Elem(n, n.value)
    requires n !in Nodes(sub) && n !in Nodes(other) && Nodes(sub) !! Nodes(other) && Nodes(other) <= own
    modifies n`left, n`right, n`red, n`parent, (if c == null then {} else {c})`parent
    ensures Rep(Mk(e, red, dir, sub, other), n, par)
  {
    if c != null { KidRep(sub, c, from, true); }
    Hang(n, dir, c, sub, from);
    n.red := red;
    n.parent := par;
    MkRep(e, red, dir, sub, other, par);
  }

  /** Red `p` under `g` on the same side as red `t` under `p`: `p` takes the place of `g`. */
  method RotateOuter(p: RbNode, g: RbNode, dir: bool, ggp: RbNode?, ghost pe: NodeElem, ghost ge: NodeElem,
                     ghost sib: NodeTree, ghost uncle: NodeTree, ghost t: NodeTree, ghost curr: RbNode,
                     ghost own: set<RbNode>)
    requires Rep(t, curr, p) && Rep(sib, p.Child(!dir), p) && Rep(uncle, g.Child(!dir), g)
    requires p.Child(dir) == curr && p != g && pe == Elem(p, p.value) && ge == Elem(g, g.value)
    requires Nodes(t) !! Nodes(sib) !! Nodes(uncle) && Nodes(t) + Nodes(sib) + Nodes(uncle) <= own
    requires p !in Nodes(t) + Nodes(sib) + Nodes(uncle) && g !in Nodes(t) + Nodes(sib) + Nodes(uncle)
    modifies p`left, p`right, p`red, p`parent, g`left, g`right, g`red, g`parent
    modifies (if p.Child(!dir) == null then {} else {p.Child(!dir)})`parent
    ensures Rep(Mk(pe, false, dir, t, Mk(ge, true, dir, sib, uncle)), p, ggp)
  {
    ghost var g' := Mk(ge, true, dir, sib, uncle);
    Root(sib, p.Child(!dir), p);
    Adopt(g, true, dir, p.Child(!dir), p, ge, sib, uncle, p, own);
    assert Nodes(g') == {g} + Nodes(sib) + Nodes(uncle);
    Adopt(p, false, !dir, g, ggp, pe, g', t, p, own);
    assert Mk(pe, false, !dir, g', t) == Mk(pe, false, dir, t, g');
  }

  /** Red `p` under `g` on the other side than red `c` under `p`: `c` takes the place of `g`. */
  method RotateInner(c: RbNode, p: RbNode, g: RbNode, gdir: bool, ggp: RbNode?,
                     ghost ce: NodeElem, ghost pe: NodeElem, ghost ge: NodeElem,
                     ghost sib: NodeTree, ghost uncle: NodeTree, ghost a: NodeTree, ghost b: NodeTree,
                     ghost own: set<RbNode>)
    requires Rep(a, c.Child(gdir), c) && Rep(b, c.Child(!gdir), c)
    requires Rep(sib, p.Child(gdir), p) && Rep(uncle, g.Child(!gdir), g) && c != p && p != g && c != g
    requires ce == Elem(c, c.value) && pe == Elem(p, p.value) && ge == Elem(g, g.value)
    requires Nodes(a) !! Nodes(b) !! Nodes(sib) !! Nodes(uncle)
    requires Nodes(a) + Nodes(b) + Nodes(sib) + Nodes(uncle) <= own
    requires c !in Nodes(a) + Nodes(b) + Nodes(sib) + Nodes(uncle)
    requires p !in Nodes(a) + Nodes(b) + Nodes(sib) + Nodes(uncle)
    requires g !in Nodes(a) + Nodes(b) + Nodes(sib) + Nodes(uncle)
    modifies p`left, p`right, p`red, p`parent, g`left, g`right, g`red, g`parent
    modifies c`left, c`right, c`red, c`parent
    modifies (if c.left == null then {} else {c.left})`parent, (if c.right == null then {} else {c.right})`parent
    ensures Rep(Mk(ce, false, gdir, Mk(pe, true, !gdir, a, sib), Mk(ge, true, gdir, b, uncle)), c, ggp)
  {
    hide Rep, Nodes, Mk;
    Part(c, p, g, gdir, c.Child(gdir), c.Child(!gdir), pe, ge, sib, uncle, a, b, own);
    Crown(c, gdir, p, g, ggp, ce, Mk(pe, true, !gdir, a, sib), Mk(ge, true, gdir, b, uncle));
  }

  lemma {:induction false} MkNodes(n: NodeElem, dir: bool, sub: NodeTree, other: NodeTree)
    ensures Nodes(Mk(n, true, dir, sub, other)) == {n.node} + Nodes(sub) + Nodes(other)
  {
  }

  /** The two subtrees of `c` go to `p` and to `g`. */
  method Part(c: RbNode, p: RbNode, g: RbNode, gdir: bool, x: RbNode?, y: RbNode?,
              ghost pe: NodeElem, ghost ge: NodeElem,
              ghost sib: NodeTree, ghost uncle: NodeTree, ghost a: NodeTree, ghost b: NodeTree,
              ghost own: set<RbNode>)
    requires Rep(a, x, c) && Rep(b, y, c) && Rep(sib, p.Child(gdir), p) && Rep(uncle, g.Child(!gdir), g) && p != g
    requires pe == Elem(p, p.value) && ge == Elem(g, g.value)
    requires Nodes(a) !! Nodes(b) !! Nodes(sib) !! Nodes(uncle)
    requires Nodes(a) + Nodes(b) + Nodes(sib) + Nodes(uncle) <= own
    requires p !in Nodes(a) + Nodes(b) + Nodes(sib) + Nodes(uncle)
    requires g !in Nodes(a) + Nodes(b) + Nodes(sib) + Nodes(uncle)
    modifies p`left, p`right, p`red, p`parent, g`left, g`right, g`red, g`parent
    modifies (if x == null then {} else {x})`parent, (if y == null then {} else {y})`parent
    ensures Rep(Mk(pe, true, !gdir, a, sib), p, c) && Rep(Mk(ge, true, gdir, b, uncle), g, c)
    ensures Nodes(Mk(pe, true, !gdir, a, sib)) == {p} + Nodes(a) + Nodes(sib)
    ensures Nodes(Mk(ge, true, gdir, b, uncle)) == {g} + Nodes(b) + Nodes(uncle)
  {
    hide Rep, Nodes, Mk;
    Root(a, x, c);
    Root(b, y, c);
    MkNodes(pe, !gdir, a, sib);
    MkNodes(ge, gdir, b, uncle);
    Adopt(p, true, !gdir, x, c, pe, a, sib, c, own);
    Adopt(g, true, gdir, y, c, ge, b, uncle, c, own + {p});
  }

  /** `c` becomes the black top of two subtrees that already name it as their parent. */
  method Crown(c: RbNode, dir: bool, x: RbNode, y: RbNode, ggp: RbNode?, ghost e: NodeElem, ghost a: NodeTree,
               ghost b: NodeTree)
    requires Rep(a, x, c) && Rep(b, y, c) && c !in Nodes(a) && c !in Nodes(b) && Nodes(a) !! Nodes(b)
    requires e == Elem(c, c.value)
    modifies c`left, c`right, c`red, c`parent
    ensures Rep(Mk(e, false, dir, a, b), c, ggp)
  {
    if dir {
      c.right, c.left := x, y;
    } else {
      c.left, c.right := x, y;
    }
    c.red, c.parent := false, ggp;
    MkRep(e, false, dir, a, b, ggp);
  }

  // ----- The rotation -----

  /** The subtree that takes the place of the grandparent. */
  function Turned(path: NodePath, t: NodeTree): NodeTree
    requires RedParent(path) && t.Node?
  {
    Rotate(path.up.n, path.up.dir, path.up.other, path.n, path.dir, path.other, t)
  }

  method Turn(c: RbNode, p: RbNode, g: RbNode, right: bool, parentright: bool, ggp: RbNode?,
              ghost path: NodePath, ghost t: NodeTree, ghost own: set<RbNode>)
    returns (top: RbNode)
    requires Pieces(path, t, c) && t.Node? && p == path.n.node && g == path.up.n.node
    requires right == path.dir && parentright == path.up.dir
    requires Nodes(t) + Nodes(path.other) + Nodes(path.up.other) <= own
    modifies p, g, Nodes(t), Nodes(path.other)
    ensures Rep(Turned(path, t), top, ggp)
  {
    if right != parentright {
      TurnInner(c, p, g, parentright, ggp, path.n, path.up.n, path.other, path.up.other, t, own);
      top := c;
    } else {
      Root(path.other, p.Child(!right), p);
      RotateOuter(p, g, right, ggp, path.n, path.up.n, path.other, path.up.other, t, c, own);
      top := p;
    }
  }

  method TurnInner(c: RbNode, p: RbNode, g: RbNode, gdir: bool, ggp: RbNode?, ghost pe: NodeElem, ghost ge: NodeElem,
                   ghost sib: NodeTree, ghost uncle: NodeTree, ghost t: NodeTree, ghost own: set<RbNode>)
    requires Rep(t, c, p) && t.Node? && Rep(sib, p.Child(gdir), p) && Rep(uncle, g.Child(!gdir), g) && p != g
    requires pe == Elem(p, p.value) && ge == Elem(g, g.value)
    requires Nodes(t) !! Nodes(sib) !! Nodes(uncle) && Nodes(t) + Nodes(sib) + Nodes(uncle) <= own
    requires p !in Nodes(t) + Nodes(sib) + Nodes(uncle) && g !in Nodes(t) + Nodes(sib) + Nodes(uncle)
    modifies p, g, Nodes(t)
    ensures c == t.n.node
    ensures Rep(Mk(t.n, false, gdir, Mk(pe, true, !gdir, Kid(t, gdir), sib), Mk(ge, true, gdir, Kid(t, !gdir), uncle)),
                c, ggp)
  {
    KidRep(t, c, p, gdir);
    ghost var a, b := Kid(t, gdir), Kid(t, !gdir);
    Root(a, c.Child(gdir), c);
    Root(b, c.Child(!gdir), c);
    Disjoint3(c, Nodes(a), Nodes(b), Nodes(t), Nodes(sib), Nodes(uncle));
    RotateInner(c, p, g, gdir, ggp, t.n, pe, ge, sib, uncle, a, b, own);
  }

  lemma Disjoint3(c: RbNode, a: set<RbNode>, b: set<RbNode>, t: set<RbNode>, s: set<RbNode>, u: set<RbNode>)
    requires t == {c} + a + b && c !in a && c !in b && a !! b && t !! s !! u
    ensures a !! b !! s !! u && c !in a + b + s + u
  {
  }

  lemma {:induction false} TurnedNodes(path: NodePath, t: NodeTree)
    requires RedParent(path) && t.Node?
    ensures Nodes(Turned(path, t)) ==
            {path.up.n.node, path.n.node} + Nodes(path.up.other) + Nodes(path.other) + Nodes(t)
  {
    var g, p, gdir, pdir, uncle, sib := path.up.n, path.n, path.up.dir, path.dir, path.up.other, path.other;
    if pdir == gdir {
      assert Nodes(Mk(g, true, gdir, sib, uncle)) == {g.node} + Nodes(sib) + Nodes(uncle);
    } else {
      assert Nodes(Mk(p, true, pdir, Kid(t, !pdir), sib)) == {p.node} + Nodes(Kid(t, !pdir)) + Nodes(sib);
      assert Nodes(Mk(g, true, gdir, Kid(t, pdir), uncle)) == {g.node} + Nodes(Kid(t, pdir)) + Nodes(uncle);
    }
  }

  lemma {:induction false} Members(path: NodePath)
    requires RedParent(path)
    ensures PathNodes(path) ==
            {path.n.node, path.up.n.node} + Nodes(path.other) + Nodes(path.up.other) + PathNodes(path.up.up)
    ensures path.up.other.Node? ==> path.up.other.n.node in PathNodes(path)
    ensures path.up.up.Up? ==> path.up.up.n.node in PathNodes(path.up.up)
  {
    assert PathNodes(path.up) == {path.up.n.node} + Nodes(path.up.other) + PathNodes(path.up.up);
  }

  /** The pieces around a place below a red parent, each in memory and apart from the others. */
  ghost predicate Pieces(path: NodePath, t: NodeTree, c: RbNode?)
    reads PathNodes(path), Nodes(t)
  {
    RedParent(path) &&
    var p, g := path.n.node, path.up.n.node;
    Members(path);
    && path.n == Elem(p, p.value) && path.up.n == Elem(g, g.value)
    && Rep(t, c, p) && Rep(path.other, p.Child(!path.dir), p) && Rep(path.up.other, g.Child(!path.up.dir), g)
    && p.Child(path.dir) == c && g.Child(path.up.dir) == p && p.parent == g && p != g
    && Nodes(t) !! Nodes(path.other) !! Nodes(path.up.other)
    && p !in Nodes(t) + Nodes(path.other) + Nodes(path.up.other)
    && g !in Nodes(t) + Nodes(path.other) + Nodes(path.up.other)
  }

  /** The rest of the tree, above the grandparent. */
  ghost predicate Apart(path: NodePath, t: NodeTree, head: RbNode?)
    reads PathNodes(path), Nodes(t)
  {
    RedParent(path) &&
    var p, g, up := path.n.node, path.up.n.node, path.up.up;
    Members(path);
    && RepPath(up, g, head) && g.parent == Par(up) && p !in PathNodes(up) && g !in PathNodes(up)
    && Nodes(t) !! PathNodes(up) && Nodes(path.other) !! PathNodes(up) && Nodes(path.up.other) !! PathNodes(up)
  }

  lemma {:induction false} Flat(path: NodePath, t: NodeTree, c: RbNode?, head: RbNode?)
    requires At(path, t, c, head) && RedParent(path)
    ensures Pieces(path, t, c) && Apart(path, t, head)
    ensures PathNodes(path) ==
            {path.n.node, path.up.n.node} + Nodes(path.other) + Nodes(path.up.other) + PathNodes(path.up.up)
  {
    UpRep(path, c, head);
    UpRep(path.up, path.n.node, head);
  }

  /** `c` is the child of `n` on one side only. */
  lemma {:induction false} Side(n: RbNode, c: RbNode, dir: bool, other: NodeTree)
    requires n.Child(dir) == c && Rep(other, n.Child(!dir), n) && c !in Nodes(other)
    ensures (n.right == c) == dir
  {
    Root(other, n.Child(!dir), n);
  }

  lemma {:induction false} UncleRed(t: NodeTree, u: RbNode?, g: RbNode)
    requires Rep(t, u, g)
    ensures IsRed(t) <==> u != null && u.red
    ensures u != null ==> t.Node? && t.n.node == u
  {
  }

  // ----- The tree -----

  class RbTree {
    var head: RbNode?
    ghost var tree: NodeTree
    ghost var repr: set<RbNode>

    ghost predicate Linked()
      reads this, repr
    {
      Nodes(tree) <= repr && Rep(tree, head, null)
    }

    ghost predicate Valid()
      reads this, repr
    {
      Linked() && IsRb(tree) && Sorted(Inorder(tree))
    }

    constructor ()
      ensures Valid() && tree == Leaf && repr == {}
    {
      head, tree, repr := null, Leaf, {};
    }

    /** The descent of `insert`: where a node with key `v` belongs. */
    method FindSlot(v: nat) returns (parent: RbNode, right: bool, ghost path: NodePath)
      requires Linked() && head != null
      ensures path == Descend(tree, v, Top) && path.Up? && parent == path.n.node && right == path.dir
      ensures At(path, Leaf, null, head) && PathNodes(path) == Nodes(tree)
    {
      var curr := head;
      parent, right := curr, false;
      ghost var sub := tree;
      path := Top;
      while curr != null
        invariant At(path, sub, curr, head) && PathNodes(path) + Nodes(sub) == Nodes(tree)
        invariant Descend(sub, v, path) == Descend(tree, v, Top)
        invariant if path.Top? then curr != null else parent == path.n.node && right == path.dir
        decreases sub
      {
        parent := curr;
        right := curr.value < v;
        curr := curr.Child(right);
        Down(path, sub, parent, head, right);
        path, sub := Up(sub.n, sub.red, right, Kid(sub, !right), path), Kid(sub, right);
      }
    }

    /** The new red node is linked below `parent`. */
    method Attach(node: RbNode, parent: RbNode, right: bool, ghost e: NodeElem, ghost path: NodePath)
      requires At(path, Leaf, null, head) && path.Up? && parent == path.n.node && right == path.dir
      requires node !in PathNodes(path) && Rep(Node(e, true, Leaf, Leaf), node, parent)
      modifies parent`left, parent`right
      ensures At(path, Node(e, true, Leaf, Leaf), node, head)
    {
      UpRep(path, null, head);
      if right {
        parent.right := node;
      } else {
        parent.left := node;
      }
    }

    /** The place of `g` is taken by `c`. */
    method Replace(g: RbNode, c: RbNode, ggp: RbNode?, ghost up: NodePath)
      requires RepPath(up, g, head) && g !in PathNodes(up) && ggp == Par(up)
      modifies this`head, (if ggp == null then {} else {ggp})`left, (if ggp == null then {} else {ggp})`right
      ensures RepPath(up, c, head)
    {
      if ggp == null {
        head := c;
      } else {
        UpRep(up, g, head);
        Root(up.other, ggp.Child(!up.dir), ggp);
        var grandparentright := ggp.right == g;
        if grandparentright {
          ggp.right := c;
        } else {
          ggp.left := c;
        }
      }
    }

    /** The rotation of `insert`: red `c` under red `p` under black `g`, with a black uncle. */
    method RotateAt(c: RbNode, p: RbNode, g: RbNode, right: bool, parentright: bool, ghost path: NodePath,
                    ghost t: NodeTree)
      returns (top: RbNode)
      requires At(path, t, c, head) && RedParent(path) && t.Node? && PathNodes(path) + Nodes(t) <= repr
      requires p == path.n.node && g == path.up.n.node && right == path.dir && parentright == path.up.dir
      modifies this`head, repr
      ensures At(path.up.up, Turned(path, t), top, head) && repr == old(repr)
    {
      hide Rep, RepPath, Nodes, PathNodes, Rotate;
      var ggp := g.parent;
      ghost var up := path.up.up;
      Flat(path, t, c, head);
      Members(path);
      top := Turn(c, p, g, right, parentright, ggp, path, t, repr);
      TurnedNodes(path, t);
      assert RepPath(up, g, head);
      Swap(g, top, ggp, up, Turned(path, t));
    }

    /** The rotated subtree is linked in at the place of `g`. */
    method Swap(g: RbNode, top: RbNode, ggp: RbNode?, ghost up: NodePath, ghost t: NodeTree)
      requires RepPath(up, g, head) && g !in PathNodes(up) && ggp == Par(up)
      requires Rep(t, top, ggp) && Nodes(t) !! PathNodes(up) && Nodes(t) <= repr
      modifies this`head, (if ggp == null then {} else {ggp})`left, (if ggp == null then {} else {ggp})`right
      ensures At(up, t, top, head)
    {
      assert ggp != null ==> ggp in PathNodes(up);
      Replace(g, top, ggp, up);
    }

    /** The relatives of a red node under a red parent. */
    method Relatives(curr: RbNode, parent: RbNode, ghost path: NodePath, ghost t: NodeTree)
      returns (grandparent: RbNode, right: bool, parentright: bool, uncle: RbNode?)
      requires At(path, t, curr, head) && RedParent(path) && parent == path.n.node
      ensures grandparent == path.up.n.node && right == path.dir && parentright == path.up.dir
      ensures (uncle != null && uncle.red) <==> IsRed(path.up.other)
      ensures uncle != null ==> path.up.other.Node? && uncle == path.up.other.n.node
    {
      hide RepPath, PathNodes;
      Flat(path, t, curr, head);
      Root(t, curr, parent);
      Side(parent, curr, path.dir, path.other);
      Side(path.up.n.node, parent, path.up.dir, path.up.other);
      grandparent := parent.parent;
      right := parent.right == curr;
      parentright := grandparent.right == parent;
      uncle := grandparent.Child(!parentright);
      UncleRed(path.up.other, uncle, grandparent);
    }

    /** The rotation, after which nothing is left to do. */
    method FinishRotating(c: RbNode, p: RbNode, g: RbNode, right: bool, parentright: bool, ghost path: NodePath,
                          ghost t: NodeTree)
      requires At(path, t, c, head) && RedParent(path) && t.Node? && PathNodes(path) + Nodes(t) <= repr
      requires p == path.n.node && g == path.up.n.node && right == path.dir && parentright == path.up.dir
      modifies this`head, this`tree, repr
      ensures Linked() && repr == old(repr) && tree == Plug(path.up.up, Turned(path, t))
    {
      hide Rep, RepPath, Rotate;
      TurnedNodes(path, t);
      Flat(path, t, c, head);
      var top := RotateAt(c, p, g, right, parentright, path, t);
      FinishAt(path.up.up, Turned(path, t), top);
    }

    /** Parent and uncle turn black; the grandparent turns red unless it is the root. */
    method MoveRedUp(p: RbNode, u: RbNode, g: RbNode, ghost path: NodePath, ghost t: NodeTree, ghost curr: RbNode)
      requires At(path, t, curr, head) && RedParent(path) && p == path.n.node && g == path.up.n.node
      requires path.up.other.Node? && u == path.up.other.n.node
      modifies p`red, u`red, g`red
      ensures At(path.up.up, Recoloured(path, t, !path.up.up.Top?), g, head)
      ensures g.parent == Par(path.up.up)
    {
      Recolour(p, u, path, t, curr, head);
      ghost var t' := Recoloured(path, t, false);
      KidRep(t', g, Par(path.up.up), true);
      if g.parent != null {
        SetRedAt(g, true, path.up.up, t', head);
      }
    }

    method FinishAt(ghost path: NodePath, ghost t: NodeTree, ghost curr: RbNode)
      requires At(path, t, curr, head) && PathNodes(path) + Nodes(t) <= repr
      modifies this`tree
      ensures Linked() && tree == Plug(path, t)
    {
      ClimbAll(path, t, curr, head);
      tree := Plug(path, t);
    }

    /** A red node `curr` hangs at `path` and everything else is balanced; `goal` is what must come out. */
    ghost predicate Fixing(curr: RbNode, parent: RbNode?, path: NodePath, t: NodeTree, h: nat, goal: NodeTree)
      reads this, repr
    {
      && PathNodes(path) <= repr && Nodes(t) <= repr && At(path, t, curr, head)
      && IsRed(t) && path.Up? && parent == path.n.node && parent.red == path.red
      && RbPath(path, h) && Rb(t, h) && Fix(path, t) == goal
    }

    /** One round of the loop: the rotation or the root ends it, or the red moves up two levels. */
    method Round(curr: RbNode, parent: RbNode, ghost path: NodePath, ghost t: NodeTree, ghost h: nat,
                 ghost goal: NodeTree)
      returns (next: RbNode, done: bool, ghost t': NodeTree)
      requires Fixing(curr, parent, path, t, h, goal) && path.red
      modifies this`head, this`tree, repr
      ensures repr == old(repr) && path.up.Up?
      ensures if done then Linked() && tree == goal else Fixing(next, next.parent, path.up.up, t', h + 1, goal)
    {
      hide Rep, RepPath, Nodes, PathNodes, Rotate, Rb;
      var grandparent, right, parentright, uncle := Relatives(curr, parent, path, t);
      next, done, t' := grandparent, true, t;
      FixRotates(path, t);
      if uncle == null || !uncle.red {
        FinishRotating(curr, parent, grandparent, right, parentright, path, t);
      } else {
        t' := Recoloured(path, t, true);
        done := RedUp(curr, parent, uncle, grandparent, path, t, h, goal);
      }
    }

    /** A round with a red uncle. */
    method RedUp(curr: RbNode, parent: RbNode, uncle: RbNode, grandparent: RbNode, ghost path: NodePath,
                 ghost t: NodeTree, ghost h: nat, ghost goal: NodeTree)
      returns (done: bool)
      requires Fixing(curr, parent, path, t, h, goal) && path.red && RedParent(path) && grandparent == path.up.n.node
      requires IsRed(path.up.other) && uncle == path.up.other.n.node
      modifies this`tree, repr
      ensures repr == old(repr)
      ensures if done then Linked() && tree == goal
              else Fixing(grandparent, grandparent.parent, path.up.up, Recoloured(path, t, true), h + 1, goal)
    {
      hide Rep, RepPath, Nodes, PathNodes, Rotate, Rb;
      FixClimbs(path, t, h);
      ClimbNodes(path, t);
      Members(path);
      MoveRedUp(parent, uncle, grandparent, path, t, curr);
      done := grandparent.parent == null;
      if done {
        TopBlack(path, t);
        FinishAt(path.up.up, Recoloured(path, t, false), grandparent);
      } else {
        Colour(path.up.up, grandparent, head, Recoloured(path, t, true));
      }
    }

    /** The recolour loop of `insert`. */
    method FixUp(node: RbNode, ghost path0: NodePath, ghost t0: NodeTree)
      requires IsRed(t0) && Fixing(node, node.parent, path0, t0, BlackHeight(t0), Fix(path0, t0))
      modifies this`head, this`tree, repr
      ensures Linked() && repr == old(repr) && tree == Fix(path0, t0)
    {
      hide Rep, RepPath, Nodes, PathNodes, Rb, RbPath;
      var curr, parent := node, node.parent;
      ghost var path, t, h := path0, t0, BlackHeight(t0);
      while parent.red
        invariant repr == old(repr) && Fixing(curr, parent, path, t, h, Fix(path0, t0))
        decreases path
      {
        ghost var t';
        var next, done;
        next, done, t' := Round(curr, parent, path, t, h, Fix(path0, t0));
        if done {
          return;
        }
        curr, parent := next, next.parent;
        path, t, h := path.up.up, t', h + 1;
      }
      FixStops(path, t);
      FinishAt(path, t, curr);
    }

    /** `insert` */
    method Insert(v: nat) returns (retval: RbNode)
      requires Valid()
      modifies this, repr
      ensures Valid() && fresh(retval) && retval.value == v && repr == old(repr) + {retval}
      ensures tree == RbSpec.Insert(old(tree), Elem(retval, v))
    {
      retval := new RbNode(v);
      if head == null {
        retval.red := false;
        head := retval;
        tree := Node(Elem(retval, v), false, Leaf, Leaf);
        repr := repr + {retval};
      } else {
        InsertBelow(retval);
      }
      InsertCorrect(old(tree), Elem(retval, v));
    }

    method InsertBelow(node: RbNode)
      requires Linked() && IsRb(tree) && head != null && node !in repr
      requires node.left == null && node.right == null
      modifies this, repr, node
      ensures Linked() && repr == old(repr) + {node} && node.value == old(node.value)
      ensures tree == RbSpec.Insert(old(tree), Elem(node, node.value))
    {
      var parent, right, path := FindSlot(node.value);
      node.red, node.parent := true, parent;
      ghost var e := Elem(node, node.value);
      ghost var t := Node(e, true, Leaf, Leaf);
      Attach(node, parent, right, e, path);
      repr := repr + {node};
      DescendRb(tree, node.value, Top, BlackHeight(tree));
      assert BlackHeight(t) == 0;
      Colour(path, node, head, t);
      assert PathNodes(path) <= repr;
      assert Nodes(t) <= repr;
      assert At(path, t, node, head);
      assert RbPath(path, 0) && Rb(t, 0);
      assert node.parent == path.n.node && node.parent.red == path.red;
      FixUp(node, path, t);
      FixHas(path, t, node);
      RepHas(tree, head, null, e);
    }

    /** A node's key changes in place; it must stay strictly between the keys of its neighbours. */
    method SetKey(n: RbNode, v: nat, ghost k: nat)
      requires Valid() && k < |Inorder(tree)| && Inorder(tree)[k] == Elem(n, n.value)
      requires k > 0 ==> Inorder(tree)[k - 1].value < v
      requires k + 1 < |Inorder(tree)| ==> v < Inorder(tree)[k + 1].value
      modifies this`tree, n`value
      ensures Valid() && Inorder(tree) == old(Inorder(tree))[k := Elem(n, v)] && tree == RbSpec.SetKey(old(tree), n, v)
    {
      hide Rep, Shape, Inorder, RbSpec.SetKey, IsRb, RbSpec.Sorted;
      ghost var t', ns := RbSpec.SetKey(tree, n, v), Inorder(tree);
      Distinct(tree, head, null);
      SetKeyCorrect(tree, k, v);
      Resorted(ns, k, Elem(n, v));
      RepIsShape(tree, head, null);
      n.value := v;
      SetKeyShape(tree, head, null, n, v);
      RepIsShape(t', head, null);
      tree := t';
    }

    /** `findBelow`, with the number of iterations */
    method FindBelow(v: int) returns (best: RbNode?, ghost steps: nat)
      requires Linked()
      ensures best == NodeOf(BelowIn(true, tree, v, None)) && steps <= Height(tree)
    {
      var curr := head;
      best, steps := null, 0;
      ghost var t, par, found := tree, null as RbNode?, None;
      while curr != null
        invariant Rep(t, curr, par) && BelowIn(true, t, v, found) == BelowIn(true, tree, v, None)
        invariant steps + Height(t) <= Height(tree) && best == NodeOf(found)
        decreases t
      {
        KidRep(t, curr, par, true);
        par, steps := curr, steps + 1;
        var comp := ToInt(curr.value);
        if v == comp {
          best := curr;
          return;
        } else if v > comp {
          best := curr;
          found := Some(t.n);
          curr := curr.Child(true);
          t := t.right;
        } else {
          curr := curr.Child(false);
          t := t.left;
        }
      }
    }

    /** `findAbove`, with the number of iterations */
    method FindAbove(v: int) returns (best: RbNode?, ghost steps: nat)
      requires Linked()
      ensures best == NodeOf(AboveIn(true, tree, v, None)) && steps <= Height(tree)
    {
      var curr := head;
      best, steps := null, 0;
      ghost var t, par, found := tree, null as RbNode?, None;
      while curr != null
        invariant Rep(t, curr, par) && AboveIn(true, t, v, found) == AboveIn(true, tree, v, None)
        invariant steps + Height(t) <= Height(tree) && best == NodeOf(found)
        decreases t
      {
        KidRep(t, curr, par, true);
        par, steps := curr, steps + 1;
        var comp := ToInt(curr.value);
        if v == comp {
          best := curr;
          return;
        } else if v < comp {
          best := curr;
          found := Some(t.n);
          curr := curr.Child(false);
          t := t.left;
        } else {
          curr := curr.Child(true);
          t := t.right;
        }
      }
    }
  }

  function NodeOf(e: Option<NodeElem>): RbNode? {
    if e.None? then null else e.value.node
  }

  lemma {:induction false} Colour(p: NodePath, curr: RbNode?, head: RbNode?, t: NodeTree)
    requires At(p, t, curr, head) && p.Up? && t.Node?
    ensures curr == t.n.node && curr.parent == p.n.node && p.n.node.red == p.red
  {
  }

  // ----- One round of the recolour loop, on values -----

  lemma {:induction false} FixClimbs(path: NodePath, t: NodeTree, h: nat)
    requires RedParent(path) && IsRed(path.up.other) && RbPath(path, h) && Rb(t, h) && IsRed(t)
    ensures var t' := Recoloured(path, t, true);
            Fix(path, t) == Fix(path.up.up, t') && Rb(t', h + 1) && RbPath(path.up.up, h + 1)
  {
  }

  /** Under a red parent there is a black grandparent; beside a black uncle the rotation ends the loop. */
  lemma {:induction false} FixRotates(path: NodePath, t: NodeTree)
    requires path.Up? && path.red && t.Node? && exists h :: RbPath(path, h)
    ensures RedParent(path)
    ensures !IsRed(path.up.other) ==> Fix(path, t) == Plug(path.up.up, Turned(path, t))
  {
  }

  lemma {:induction false} FixStops(path: NodePath, t: NodeTree)
    requires path.Up? && !path.red && t.Node?
    ensures Fix(path, t) == Plug(path, t)
  {
  }

  lemma {:induction false} TopBlack(path: NodePath, t: NodeTree)
    requires RedParent(path) && path.up.up.Top?
    ensures Fix(path.up.up, Recoloured(path, t, true)) == Plug(path.up.up, Recoloured(path, t, false))
  {
  }

  lemma {:induction false} ClimbNodes(path: NodePath, t: NodeTree)
    requires RedParent(path)
    ensures forall red :: Nodes(Recoloured(path, t, red)) + PathNodes(path.up.up) == PathNodes(path) + Nodes(t)
  {
    assert Nodes(Mk(path.n, false, path.dir, t, path.other)) == {path.n.node} + Nodes(t) + Nodes(path.other);
    assert Nodes(Black(path.up.other)) == Nodes(path.up.other);
  }

  // ----- Keys -----

  lemma {:induction false} InorderNodes(t: NodeTree, e: NodeElem)
    ensures e in Inorder(t) ==> e.node in Nodes(t)
  {
    if t.Node? {
      InNode(t);
      InorderNodes(t.left, e);
      InorderNodes(t.right, e);
    }
  }

  /** Every node of a tree in memory has the key that the tree says. */
  lemma {:induction false} RepHas(t: NodeTree, root: RbNode?, par: RbNode?, e: NodeElem)
    requires Rep(t, root, par) && e in Inorder(t)
    ensures e.node.value == e.value
    decreases t
  {
    InNode(t);
    if e in Inorder(t.left) {
      RepHas(t.left, root.left, root, e);
    } else if e in Inorder(t.right) {
      RepHas(t.right, root.right, root, e);
    }
  }

  lemma {:induction false} FixHas(path: NodePath, t: NodeTree, node: RbNode)
    requires t.Node? && t.n.node == node
    ensures t.n in Inorder(Fix(path, t))
  {
    FixInorder(path, t);
    InNode(t);
  }

  /** Each linked node occurs once in the order. */
  lemma {:induction false} Distinct(t: NodeTree, root: RbNode?, par: RbNode?)
    requires Rep(t, root, par)
    ensures forall i, j :: 0 <= i < j < |Inorder(t)| ==> Inorder(t)[i].node != Inorder(t)[j].node
    decreases t
  {
    if t.Node? {
      var a, b, s := Inorder(t.left), Inorder(t.right), Inorder(t);
      Distinct(t.left, root.left, root);
      Distinct(t.right, root.right, root);
      forall i | 0 <= i < |s|
        ensures s[i].node in if i < |a| then Nodes(t.left) else if i == |a| then {root} else Nodes(t.right)
        ensures i < |a| ==> s[i] == a[i]
        ensures i > |a| ==> s[i] == b[i - |a| - 1]
      {
        if i < |a| {
          InorderNodes(t.left, a[i]);
        } else if i > |a| {
          InorderNodes(t.right, b[i - |a| - 1]);
        }
      }
    }
  }

  lemma {:induction false} Resorted(s: seq<NodeElem>, k: nat, e: NodeElem)
    requires Sorted(s) && k < |s| && (k > 0 ==> s[k - 1].value < e.value) && (k + 1 < |s| ==> e.value < s[k + 1].value)
    ensures Sorted(s[k := e])
  {
    var r := s[k := e];
    forall i, j | 0 <= i < j < |r|
      ensures r[i].value <= r[j].value
    {
      assert j == k && i < k - 1 ==> s[i].value <= s[k - 1].value;
      assert i == k && k + 1 < j ==> s[k + 1].value <= s[j].value;
    }
  }

  /** `Rep` without the keys. */
  ghost predicate Shape(t: NodeTree, root: RbNode?, par: RbNode?)
    reads Nodes(t)`left, Nodes(t)`right, Nodes(t)`red, Nodes(t)`parent
    decreases t
  {
    match t
    case Leaf => root == null
    case Node(n, red, l, r) =>
      && root == n.node && root.red == red && root.parent == par
      && root !in Nodes(l) && root !in Nodes(r) && Nodes(l) !! Nodes(r)
      && Shape(l, root.left, root) && Shape(r, root.right, root)
  }

  ghost predicate Keyed(es: seq<NodeElem>)
    reads set e | e in es :: e.node
  {
    forall e :: e in es ==> e.node.value == e.value
  }

  lemma {:induction false} RepIsShape(t: NodeTree, root: RbNode?, par: RbNode?)
    ensures Rep(t, root, par) <==> Shape(t, root, par) && Keyed(Inorder(t))
    decreases t
  {
    if t.Node? {
      InNode(t);
      if root == t.n.node {
        RepIsShape(t.left, root.left, root);
        RepIsShape(t.right, root.right, root);
      }
    }
  }

  lemma {:induction false} SetKeyShape(t: NodeTree, root: RbNode?, par: RbNode?, n: RbNode, v: nat)
    requires Shape(t, root, par)
    ensures Nodes(RbSpec.SetKey(t, n, v)) == Nodes(t) && Shape(RbSpec.SetKey(t, n, v), root, par)
    decreases t
  {
    if t.Node? {
      SetKeyShape(t.left, root.left, root, n, v);
      SetKeyShape(t.right, root.right, root, n, v);
    }
  }
}

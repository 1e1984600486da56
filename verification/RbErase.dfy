/** `__rb_erase_color` and `rb_erase`. */
module RbErase {
  import opened RbShape
  import opened RbBalance
  import opened RbInsert

  /** Balanced but for a red root over red children. */
  predicate Almost(t: Tree, h: int)
  {
    if t.Node? && t.color == Red then Balanced(t.left, h) && Balanced(t.right, h) else Balanced(t, h)
  }

  function Blackened(t: Tree): Tree
  {
    if t.Leaf? then t else t.(color := Black)
  }

  /** Where `__rb_erase_color` stands: the subtree is one black node short of
      what its surroundings want. */
  ghost predicate LightAt(p: Path, t: Tree, h: int, node: RbNode?, parent: RbNode?, root: RbRoot, f: Frame)
    reads root, f.nodes
  {
    && At(p, t, root, f) && node == Ptr(t) && parent == ParentPtr(p)
    && Almost(t, h) && BalancedPath(p, h + 1)
  }

  // ------------------------------------------------- order, piece by piece

  lemma SameOrder(p: Path, t: Tree, u: Tree)
    requires InOrder(t) == InOrder(u)
    ensures InOrder(Plug(p, t)) == InOrder(Plug(p, u))
  {
    InOrderPlug(p, t);
    InOrderPlug(p, u);
  }

  lemma NodeOrder(c: Color, l: Tree, n: RbNode, r: Tree)
    ensures InOrder(Node(c, l, n, r)) == InOrder(l) + [n] + InOrder(r)
  {
  }

  /** A rotation and any recolouring leave the order. */
  lemma LowOrder(c: Color, a: Tree, n: RbNode, e: Color, b: Tree, m: RbNode, d: Tree)
    ensures InOrder(LowLeft(c, a, n, e, b, m, d)) == InOrder(a) + [n] + InOrder(b) + [m] + InOrder(d)
    ensures InOrder(LowRight(c, a, n, e, b, m, d)) == InOrder(a) + [n] + InOrder(b) + [m] + InOrder(d)
  {
    var l, r := Node(c, a, n, b), Node(e, b, m, d);
    NodeOrder(c, a, n, b);
    NodeOrder(e, b, m, d);
    NodeOrder(e, l, m, d);
    NodeOrder(c, a, n, r);
    hide InOrder;
    assert InOrder(a) + [n] + (InOrder(b) + [m] + InOrder(d)) == InOrder(a) + [n] + InOrder(b) + [m] + InOrder(d);
  }

  lemma RecoloredOrder(t: Tree, c: Color)
    requires t.Node?
    ensures InOrder(t.(color := c)) == InOrder(t)
  {
  }

  lemma PlugTwice(p: Path, t: Tree)
    requires !p.Top? && !p.up.Top?
    ensures Plug(p, t) == Plug(p.up.up, Wrap(p.up, Wrap(p, t)))
  {
    assert Plug(p, t) == Plug(p.up, Wrap(p, t));
  }

  // -------------------------------------------- the deficit on the left

  /** `other->rb_color = BLACK; parent->rb_color = RED; rotate_left(parent)`. */
  method RotateRedSiblingLeft(parent: RbNode, other0: RbNode, root: RbRoot, ghost p: Path, ghost t: Tree,
                              ghost s: Tree, ghost f: Frame)
    returns (other: RbNode?)
    requires At(p, Node(Black, t, parent, s), root, f) && s.Node? && s.n == other0 && s.color == Red
    modifies root, f.nodes
    ensures At(InLeft(InLeft(p, Black, other0, s.right), Red, parent, s.left), t, root, f) && other == Ptr(s.left)
  {
    ghost var g := Node(Black, t, parent, s);
    Fields(p, g, root, f);
    ChildFields(p, g, root, f);
    hide At;
    g := SetChildColor(other0, Black, root, p, g, f);
    SetColor(parent, Red, root, p, g, f);
    RotateLeft(parent, root, p, Red, t, Black, s.left, other0, s.right, f);
    ghost var q := InLeft(p, Black, other0, s.right);
    ZipLeft(p, Node(Black, Node(Red, t, parent, s.left), other0, s.right), root, f);
    ZipLeft(q, Node(Red, t, parent, s.left), root, f);
    Fields(InLeft(q, Red, parent, s.left), t, root, f);
    other := parent.right;
  }

  lemma RedSiblingGone(p: Path, t: Tree, parent: RbNode, s: Tree, h: int)
    requires BalancedPath(p, h + 2) && h >= 0 && s.Node? && s.color == Red && Balanced(s, h + 1)
    ensures var q := InLeft(InLeft(p, Black, s.n, s.right), Red, parent, s.left);
            BalancedPath(q, h + 1) && Depth(q) == Depth(p) + 2
    ensures s.left.Node? && s.left.color == Black
  {
    assert BalancedPath(InLeft(p, Black, s.n, s.right), h + 1);
  }

  lemma RedSiblingOrder(p: Path, t: Tree, parent: RbNode, s: Tree)
    requires s.Node?
    ensures var q := InLeft(InLeft(p, Black, s.n, s.right), Red, parent, s.left);
            InOrder(Plug(q, t)) == InOrder(Plug(p, Node(Black, t, parent, s)))
  {
    PlugTwice(InLeft(InLeft(p, Black, s.n, s.right), Red, parent, s.left), t);
    LowOrder(Black, t, parent, s.color, s.left, s.n, s.right);
    LowOrder(Red, t, parent, Black, s.left, s.n, s.right);
    hide InOrder, Plug;
    SameOrder(p, LowLeft(Red, t, parent, Black, s.left, s.n, s.right), Node(Black, t, parent, s));
  }

  /** `o_left->rb_color = BLACK; other->rb_color = RED; rotate_right(other)`. */
  method TurnOuterLeft(other: RbNode, root: RbRoot, ghost q: Path, ghost s: Tree, ghost f: Frame)
    requires At(q, s, root, f) && s.Node? && s.n == other && s.left.Node?
    modifies root, f.nodes
    ensures At(q, Node(Black, s.left.left, s.left.n, Node(Red, s.left.right, other, s.right)), root, f)
  {
    Fields(q, s, root, f);
    ChildFields(q, s, root, f);
    hide At;
    var o_left := other.left;
    ghost var u := s;
    if o_left != null {
      u := SetChildColor(o_left, Black, root, q, s, f);
    }
    SetColor(other, Red, root, q, u, f);
    RotateRight(other, root, q, Black, s.left.left, s.left.n, Red, s.left.right, s.right, f);
  }

  /** The sibling's outer child is made red, if it is not. */
  function OuterRed(s: Tree): Tree
    requires s.Node? && (IsBlack(s.right) ==> s.left.Node?)
  {
    if IsBlack(s.right) then Node(Black, s.left.left, s.left.n, Node(Red, s.left.right, s.n, s.right)) else s
  }

  lemma OuterRedBalanced(s: Tree, h: int)
    requires s.Node? && s.color == Black && Balanced(s, h + 1) && !(IsBlack(s.left) && IsBlack(s.right))
    ensures var o := OuterRed(s);
            && o.Node? && o.color == Black && InOrder(o) == InOrder(s)
            && Balanced(o.left, h) && o.right.Node? && o.right.color == Red && Balanced(o.right.(color := Black), h + 1)
  {
  }

  method OuterRedLeft(parent: RbNode, other0: RbNode, root: RbRoot, ghost p: Path, ghost t: Tree, ghost f: Frame)
    returns (other: RbNode)
    requires At(p, t, root, f) && p.InLeft? && p.n == parent && p.sibling.Node? && p.sibling.n == other0
    requires !(IsBlack(p.sibling.left) && IsBlack(p.sibling.right))
    modifies root, f.nodes
    ensures At(InLeft(p.up, p.color, parent, OuterRed(p.sibling)), t, root, f) && other == OuterRed(p.sibling).n
  {
    ghost var s := p.sibling;
    ghost var q, o := InRight(p.up, p.color, parent, t), OuterRed(s);
    ZipUp(p, t, root, f);
    ZipRight(p.up, Wrap(p, t), root, f);
    Fields(q, s, root, f);
    ChildFields(q, s, root, f);
    hide At;
    other := other0;
    if other.right == null || other.right.color == Black {
      TurnOuterLeft(other, root, q, s, f);
      Fields(q, o, root, f);
      other := parent.right;
    }
    ZipUp(q, o, root, f);
    ZipLeft(p.up, Wrap(q, o), root, f);
  }

  /** The last rotation: parent goes down black on the light side. */
  method SettleLeft(parent: RbNode, other: RbNode, root: RbRoot, ghost p: Path, ghost t: Tree, ghost f: Frame)
    returns (ghost g: Tree)
    requires At(p, t, root, f) && p.InLeft? && p.n == parent
    requires p.sibling.Node? && p.sibling.n == other && p.sibling.right.Node?
    modifies root, f.nodes
    ensures g == Node(p.color, Node(Black, t, parent, p.sibling.left), other, p.sibling.right.(color := Black))
    ensures At(p.up, g, root, f)
  {
    ghost var up, s := p.up, p.sibling;
    ghost var w := Wrap(p, t);
    ZipUp(p, t, root, f);
    Fields(up, w, root, f);
    ChildFields(up, w, root, f);
    ZipRight(up, w, root, f);
    ChildFields(InRight(up, p.color, parent, t), s, root, f);
    hide At;
    w := SetChildColor(other, parent.color, root, up, w, f);
    SetColor(parent, Black, root, up, w, f);
    w := w.(color := Black);
    ghost var q := InRight(up, Black, parent, t);
    ZipRight(up, w, root, f);
    Fields(q, w.right, root, f);
    if other.right != null {
      w := Wrap(q, w.right);
      ghost var s' := SetChildColor(other.right, Black, root, q, w.right, f);
      ZipUp(q, s', root, f);
    }
    RotateLeft(parent, root, up, Black, t, p.color, s.left, other, s.right.(color := Black), f);
    g := Node(p.color, Node(Black, t, parent, s.left), other, s.right.(color := Black));
  }

  lemma SettledBalanced(p: Path, t: Tree, o: Tree, h: int)
    requires p.InLeft? && BalancedPath(p, h + 1) && Balanced(t, h)
    requires o.Node? && Balanced(o.left, h) && o.right.Node? && Balanced(o.right.(color := Black), h + 1)
    requires p.color == Red ==> !p.up.Top? && p.up.color == Black
    ensures RedBlack(Plug(p.up, Node(p.color, Node(Black, t, p.n, o.left), o.n, o.right.(color := Black))))
  {
    var g := Node(p.color, Node(Black, t, p.n, o.left), o.n, o.right.(color := Black));
    RedBlackPlug(p.up, g, if p.color == Black then h + 2 else h + 1);
  }

  lemma SettledOrder(p: Path, t: Tree, o: Tree)
    requires p.InLeft? && o.Node? && InOrder(o) == InOrder(p.sibling) && o.right.Node?
    ensures InOrder(Plug(p.up, Node(p.color, Node(Black, t, p.n, o.left), o.n, o.right.(color := Black))))
      == InOrder(Plug(p, t))
  {
    var g := Node(p.color, Node(Black, t, p.n, o.left), o.n, o.right.(color := Black));
    assert Plug(p, t) == Plug(p.up, Wrap(p, t));
    RecoloredOrder(o.right, Black);
    LowOrder(Black, t, p.n, p.color, o.left, o.n, o.right.(color := Black));
    LowOrder(p.color, t, p.n, o.color, o.left, o.n, o.right);
    NodeOrder(p.color, t, p.n, o);
    NodeOrder(p.color, t, p.n, p.sibling);
    assert LowRight(p.color, t, p.n, o.color, o.left, o.n, o.right) == Node(p.color, t, p.n, o);
    assert LowLeft(Black, t, p.n, p.color, o.left, o.n, o.right.(color := Black)) == g;
    hide InOrder, Plug;
    SameOrder(p.up, g, Wrap(p, t));
  }

  /** `other->rb_color = RED`: the deficit moves up. */
  method PassUpLeft(parent: RbNode, other: RbNode, root: RbRoot, ghost p: Path, ghost t: Tree, ghost f: Frame)
    requires At(p, t, root, f) && p.InLeft? && p.n == parent && p.sibling.Node? && p.sibling.n == other
    modifies f.nodes
    ensures At(p.up, Node(p.color, t, parent, p.sibling.(color := Red)), root, f)
  {
    ghost var w := Wrap(p, t);
    ZipUp(p, t, root, f);
    ChildFields(p.up, w, root, f);
    hide At;
    w := SetChildColor(other, Red, root, p.up, w, f);
  }

  lemma PassedUpOrder(p: Path, t: Tree)
    requires p.InLeft? && p.sibling.Node?
    ensures InOrder(Plug(p.up, Node(p.color, t, p.n, p.sibling.(color := Red)))) == InOrder(Plug(p, t))
  {
    assert Plug(p, t) == Plug(p.up, Wrap(p, t));
    RecoloredOrder(p.sibling, Red);
    NodeOrder(p.color, t, p.n, p.sibling);
    NodeOrder(p.color, t, p.n, p.sibling.(color := Red));
    hide InOrder, Plug;
    SameOrder(p.up, Node(p.color, t, p.n, p.sibling.(color := Red)), Wrap(p, t));
  }

  lemma PassedUp(p: Path, t: Tree, h: int)
    requires p.InLeft? && BalancedPath(p, h + 1) && Balanced(t, h) && IsBlack(t)
    requires p.sibling.Node? && p.sibling.color == Black && IsBlack(p.sibling.left) && IsBlack(p.sibling.right)
    ensures var g, h' := Node(p.color, t, p.n, p.sibling.(color := Red)), if p.color == Black then h + 1 else h;
            Almost(g, h') && BalancedPath(p.up, h' + 1)
  {
    BalancedHeight(t, h);
    assert Balanced(p.sibling.(color := Red), h);
  }

  lemma SiblingExists(p: Path, t: Tree, h: int, node: RbNode?, parent: RbNode?, root: RbRoot, f: Frame)
    requires LightAt(p, t, h, node, parent, root, f) && !p.Top?
    ensures h >= 0 && p.sibling.Node? && p.n == parent && p.n in f.nodes && p.sibling.n in f.nodes
    ensures p.sibling.n.color == p.sibling.color && (p.sibling.color == Red ==> p.color == Black)
    ensures p.InLeft? ==> p.n.left == node && p.n.right == p.sibling.n
    ensures p.InRight? ==> p.n.right == node && p.n.left == p.sibling.n && p.n.left != node
  {
    AlmostHeight(t, h);
    Fields(p, t, root, f);
  }

  lemma AlmostHeight(t: Tree, h: int)
    requires Almost(t, h)
    ensures h >= 0
  {
    if t.Node? && t.color == Red { BalancedHeight(t.left, h); } else { BalancedHeight(t, h); }
  }

  /** How far the loop is from its end. */
  function Measure(p: Path, t: Tree): nat
  {
    if IsBlack(t) then Depth(p) + 1 else 0
  }

  lemma LightParts(p: Path, t: Tree, h: int)
    requires Almost(t, h) && IsBlack(t) && BalancedPath(p, h + 1) && !p.Top?
    ensures Balanced(t, h) && Balanced(p.sibling, h + 1) && Depth(p.up) < Depth(p)
    ensures p.color == Red ==> !p.up.Top? && p.up.color == Black
  {
  }

  method EraseStepLeft(node0: RbNode?, parent0: RbNode, root: RbRoot, ghost p0: Path, ghost t0: Tree, ghost h0: int,
                       ghost f: Frame)
    returns (done: bool, node: RbNode?, parent: RbNode?, ghost p: Path, ghost t: Tree, ghost h: int)
    requires LightAt(p0, t0, h0, node0, parent0, root, f) && p0.InLeft? && IsBlack(t0)
    modifies root, f.nodes
    ensures done ==> p == Top && At(Top, t, root, f) && RedBlack(t) && node == root.node
    ensures !done ==> LightAt(p, t, h, node, parent, root, f) && Measure(p, t) < Measure(p0, t0)
    ensures InOrder(Plug(p, t)) == InOrder(Plug(p0, t0))
  {
    SiblingExists(p0, t0, h0, node0, parent0, root, f);
    node, parent, p, t, h := node0, parent0, p0, t0, h0;
    var other := parent.right;
    if other.color == Red {
      ghost var s := p.sibling;
      ZipUp(p, t, root, f);
      RedSiblingGone(p.up, t, parent, s, h);
      RedSiblingOrder(p.up, t, parent, s);
      other := RotateRedSiblingLeft(parent, other, root, p.up, t, s, f);
      p := InLeft(InLeft(p.up, Black, s.n, s.right), Red, parent, s.left);
    }
    done, node, parent, p, t, h := BlackSiblingLeft(node, parent, other, root, p, t, h, f);
  }

  /** The rest of the turn, with a black sibling. */
  method BlackSiblingLeft(node0: RbNode?, parent0: RbNode, other0: RbNode, root: RbRoot, ghost p0: Path,
                          ghost t0: Tree, ghost h0: int, ghost f: Frame)
    returns (done: bool, node: RbNode?, parent: RbNode?, ghost p: Path, ghost t: Tree, ghost h: int)
    requires LightAt(p0, t0, h0, node0, parent0, root, f) && p0.InLeft? && IsBlack(t0)
    requires p0.sibling.Node? && p0.sibling.n == other0 && p0.sibling.color == Black
    modifies root, f.nodes
    ensures done ==> p == Top && At(Top, t, root, f) && RedBlack(t) && node == root.node
    ensures !done ==>
      LightAt(p, t, h, node, parent, root, f) && (IsBlack(t) ==> Depth(p) < Depth(p0) && p0.color == Black)
    ensures InOrder(Plug(p, t)) == InOrder(Plug(p0, t0))
  {
    hide At, Balanced, BalancedPath, Almost, InOrder, Depth, RedBlack;
    var other := other0;
    ghost var s := p0.sibling;
    Fields(p0, t0, root, f);
    ZipUp(p0, t0, root, f);
    Fields(p0.up, Wrap(p0, t0), root, f);
    ZipRight(p0.up, Wrap(p0, t0), root, f);
    ChildFields(InRight(p0.up, p0.color, p0.n, t0), s, root, f);
    Fields(InRight(p0.up, p0.color, p0.n, t0), s, root, f);
    LightParts(p0, t0, h0);
    if (other.left == null || other.left.color == Black) && (other.right == null || other.right.color == Black) {
      PassedUp(p0, t0, h0);
      PassedUpOrder(p0, t0);
      PassUpLeft(parent0, other, root, p0, t0, f);
      p, t, h := p0.up, Node(p0.color, t0, parent0, s.(color := Red)), if p0.color == Black then h0 + 1 else h0;
      node := parent0;
      Fields(p, t, root, f);
      parent := node.parent;
      done := false;
    } else {
      OuterRedBalanced(s, h0);
      other := OuterRedLeft(parent0, other, root, p0, t0, f);
      ghost var o := OuterRed(s);
      ghost var q := InLeft(p0.up, p0.color, parent0, o);
      SettledBalanced(p0, t0, o, h0);
      SettledOrder(p0, t0, o);
      t := SettleLeft(parent0, other, root, q, t0, f);
      ZipTop(p0.up, t, root, f);
      p, t, h := Top, Plug(p0.up, t), 0;
      Fields(Top, t, root, f);
      node, parent := root.node, parent0;
      done := true;
    }
  }

  // ------------------------------------------- the deficit on the right

  method RotateRedSiblingRight(parent: RbNode, other0: RbNode, root: RbRoot, ghost p: Path, ghost t: Tree,
                               ghost s: Tree, ghost f: Frame)
    returns (other: RbNode?)
    requires At(p, Node(Black, s, parent, t), root, f) && s.Node? && s.n == other0 && s.color == Red
    modifies root, f.nodes
    ensures At(InRight(InRight(p, Black, other0, s.left), Red, parent, s.right), t, root, f) && other == Ptr(s.right)
  {
    ghost var g := Node(Black, s, parent, t);
    Fields(p, g, root, f);
    ChildFields(p, g, root, f);
    hide At;
    g := SetChildColor(other0, Black, root, p, g, f);
    SetColor(parent, Red, root, p, g, f);
    RotateRight(parent, root, p, Black, s.left, other0, Red, s.right, t, f);
    ghost var q := InRight(p, Black, other0, s.left);
    ZipRight(p, Node(Black, s.left, other0, Node(Red, s.right, parent, t)), root, f);
    ZipRight(q, Node(Red, s.right, parent, t), root, f);
    Fields(InRight(q, Red, parent, s.right), t, root, f);
    other := parent.left;
  }

  lemma RedSiblingGoneMirror(p: Path, t: Tree, parent: RbNode, s: Tree, h: int)
    requires BalancedPath(p, h + 2) && h >= 0 && s.Node? && s.color == Red && Balanced(s, h + 1)
    ensures var q := InRight(InRight(p, Black, s.n, s.left), Red, parent, s.right);
            BalancedPath(q, h + 1) && Depth(q) == Depth(p) + 2
    ensures s.right.Node? && s.right.color == Black
  {
    assert BalancedPath(InRight(p, Black, s.n, s.left), h + 1);
  }

  lemma RedSiblingOrderMirror(p: Path, t: Tree, parent: RbNode, s: Tree)
    requires s.Node?
    ensures var q := InRight(InRight(p, Black, s.n, s.left), Red, parent, s.right);
            InOrder(Plug(q, t)) == InOrder(Plug(p, Node(Black, s, parent, t)))
  {
    PlugTwice(InRight(InRight(p, Black, s.n, s.left), Red, parent, s.right), t);
    LowOrder(s.color, s.left, s.n, Black, s.right, parent, t);
    LowOrder(Black, s.left, s.n, Red, s.right, parent, t);
    hide InOrder, Plug;
    SameOrder(p, LowRight(Black, s.left, s.n, Red, s.right, parent, t), Node(Black, s, parent, t));
  }

  /** `o_right->rb_color = BLACK; other->rb_color = RED; rotate_left(other)`. */
  method TurnOuterRight(other: RbNode, root: RbRoot, ghost q: Path, ghost s: Tree, ghost f: Frame)
    requires At(q, s, root, f) && s.Node? && s.n == other && s.right.Node?
    modifies root, f.nodes
    ensures At(q, Node(Black, Node(Red, s.left, other, s.right.left), s.right.n, s.right.right), root, f)
  {
    Fields(q, s, root, f);
    ChildFields(q, s, root, f);
    hide At;
    var o_right := other.right;
    ghost var u := s;
    if o_right != null {
      u := SetChildColor(o_right, Black, root, q, s, f);
    }
    SetColor(other, Red, root, q, u, f);
    RotateLeft(other, root, q, Red, s.left, Black, s.right.left, s.right.n, s.right.right, f);
  }

  function OuterRedMirror(s: Tree): Tree
    requires s.Node? && (IsBlack(s.left) ==> s.right.Node?)
  {
    if IsBlack(s.left) then Node(Black, Node(Red, s.left, s.n, s.right.left), s.right.n, s.right.right) else s
  }

  lemma OuterRedMirrorBalanced(s: Tree, h: int)
    requires s.Node? && s.color == Black && Balanced(s, h + 1) && !(IsBlack(s.left) && IsBlack(s.right))
    ensures var o := OuterRedMirror(s);
            && o.Node? && o.color == Black && InOrder(o) == InOrder(s)
            && Balanced(o.right, h) && o.left.Node? && o.left.color == Red && Balanced(o.left.(color := Black), h + 1)
  {
  }

  method OuterRedRight(parent: RbNode, other0: RbNode, root: RbRoot, ghost p: Path, ghost t: Tree, ghost f: Frame)
    returns (other: RbNode)
    requires At(p, t, root, f) && p.InRight? && p.n == parent && p.sibling.Node? && p.sibling.n == other0
    requires !(IsBlack(p.sibling.left) && IsBlack(p.sibling.right))
    modifies root, f.nodes
    ensures At(InRight(p.up, p.color, parent, OuterRedMirror(p.sibling)), t, root, f)
      && other == OuterRedMirror(p.sibling).n
  {
    ghost var s := p.sibling;
    ghost var q, o := InLeft(p.up, p.color, parent, t), OuterRedMirror(s);
    ZipUp(p, t, root, f);
    ZipLeft(p.up, Wrap(p, t), root, f);
    Fields(q, s, root, f);
    ChildFields(q, s, root, f);
    hide At;
    other := other0;
    if other.left == null || other.left.color == Black {
      TurnOuterRight(other, root, q, s, f);
      Fields(q, o, root, f);
      other := parent.left;
    }
    ZipUp(q, o, root, f);
    ZipRight(p.up, Wrap(q, o), root, f);
  }

  method SettleRight(parent: RbNode, other: RbNode, root: RbRoot, ghost p: Path, ghost t: Tree, ghost f: Frame)
    returns (ghost g: Tree)
    requires At(p, t, root, f) && p.InRight? && p.n == parent
    requires p.sibling.Node? && p.sibling.n == other && p.sibling.left.Node?
    modifies root, f.nodes
    ensures g == Node(p.color, p.sibling.left.(color := Black), other, Node(Black, p.sibling.right, parent, t))
    ensures At(p.up, g, root, f)
  {
    ghost var up, s := p.up, p.sibling;
    ghost var w := Wrap(p, t);
    ZipUp(p, t, root, f);
    Fields(up, w, root, f);
    ChildFields(up, w, root, f);
    ZipLeft(up, w, root, f);
    ChildFields(InLeft(up, p.color, parent, t), s, root, f);
    hide At;
    w := SetChildColor(other, parent.color, root, up, w, f);
    SetColor(parent, Black, root, up, w, f);
    w := w.(color := Black);
    ghost var q := InLeft(up, Black, parent, t);
    ZipLeft(up, w, root, f);
    Fields(q, w.left, root, f);
    if other.left != null {
      w := Wrap(q, w.left);
      ghost var s' := SetChildColor(other.left, Black, root, q, w.left, f);
      ZipUp(q, s', root, f);
    }
    RotateRight(parent, root, up, p.color, s.left.(color := Black), other, Black, s.right, t, f);
    g := Node(p.color, s.left.(color := Black), other, Node(Black, s.right, parent, t));
  }

  lemma SettledMirrorBalanced(p: Path, t: Tree, o: Tree, h: int)
    requires p.InRight? && BalancedPath(p, h + 1) && Balanced(t, h)
    requires o.Node? && Balanced(o.right, h) && o.left.Node? && Balanced(o.left.(color := Black), h + 1)
    requires p.color == Red ==> !p.up.Top? && p.up.color == Black
    ensures RedBlack(Plug(p.up, Node(p.color, o.left.(color := Black), o.n, Node(Black, o.right, p.n, t))))
  {
    var g := Node(p.color, o.left.(color := Black), o.n, Node(Black, o.right, p.n, t));
    RedBlackPlug(p.up, g, if p.color == Black then h + 2 else h + 1);
  }

  lemma SettledMirrorOrder(p: Path, t: Tree, o: Tree)
    requires p.InRight? && o.Node? && InOrder(o) == InOrder(p.sibling) && o.left.Node?
    ensures InOrder(Plug(p.up, Node(p.color, o.left.(color := Black), o.n, Node(Black, o.right, p.n, t))))
      == InOrder(Plug(p, t))
  {
    var g := Node(p.color, o.left.(color := Black), o.n, Node(Black, o.right, p.n, t));
    assert Plug(p, t) == Plug(p.up, Wrap(p, t));
    RecoloredOrder(o.left, Black);
    LowOrder(p.color, o.left.(color := Black), o.n, Black, o.right, p.n, t);
    LowOrder(o.color, o.left, o.n, p.color, o.right, p.n, t);
    NodeOrder(p.color, o, p.n, t);
    NodeOrder(p.color, p.sibling, p.n, t);
    assert LowLeft(o.color, o.left, o.n, p.color, o.right, p.n, t) == Node(p.color, o, p.n, t);
    assert LowRight(p.color, o.left.(color := Black), o.n, Black, o.right, p.n, t) == g;
    hide InOrder, Plug;
    SameOrder(p.up, g, Wrap(p, t));
  }

  method PassUpRight(parent: RbNode, other: RbNode, root: RbRoot, ghost p: Path, ghost t: Tree, ghost f: Frame)
    requires At(p, t, root, f) && p.InRight? && p.n == parent && p.sibling.Node? && p.sibling.n == other
    modifies f.nodes
    ensures At(p.up, Node(p.color, p.sibling.(color := Red), parent, t), root, f)
  {
    ghost var w := Wrap(p, t);
    ZipUp(p, t, root, f);
    ChildFields(p.up, w, root, f);
    hide At;
    w := SetChildColor(other, Red, root, p.up, w, f);
  }

  lemma PassedUpMirrorOrder(p: Path, t: Tree)
    requires p.InRight? && p.sibling.Node?
    ensures InOrder(Plug(p.up, Node(p.color, p.sibling.(color := Red), p.n, t))) == InOrder(Plug(p, t))
  {
    assert Plug(p, t) == Plug(p.up, Wrap(p, t));
    RecoloredOrder(p.sibling, Red);
    NodeOrder(p.color, p.sibling, p.n, t);
    NodeOrder(p.color, p.sibling.(color := Red), p.n, t);
    hide InOrder, Plug;
    SameOrder(p.up, Node(p.color, p.sibling.(color := Red), p.n, t), Wrap(p, t));
  }

  lemma PassedUpMirror(p: Path, t: Tree, h: int)
    requires p.InRight? && BalancedPath(p, h + 1) && Balanced(t, h) && IsBlack(t)
    requires p.sibling.Node? && p.sibling.color == Black && IsBlack(p.sibling.left) && IsBlack(p.sibling.right)
    ensures var g, h' := Node(p.color, p.sibling.(color := Red), p.n, t), if p.color == Black then h + 1 else h;
            Almost(g, h') && BalancedPath(p.up, h' + 1)
  {
    BalancedHeight(t, h);
    assert Balanced(p.sibling.(color := Red), h);
  }

  method EraseStepRight(node0: RbNode?, parent0: RbNode, root: RbRoot, ghost p0: Path, ghost t0: Tree, ghost h0: int,
                        ghost f: Frame)
    returns (done: bool, node: RbNode?, parent: RbNode?, ghost p: Path, ghost t: Tree, ghost h: int)
    requires LightAt(p0, t0, h0, node0, parent0, root, f) && p0.InRight? && IsBlack(t0)
    modifies root, f.nodes
    ensures done ==> p == Top && At(Top, t, root, f) && RedBlack(t) && node == root.node
    ensures !done ==> LightAt(p, t, h, node, parent, root, f) && Measure(p, t) < Measure(p0, t0)
    ensures InOrder(Plug(p, t)) == InOrder(Plug(p0, t0))
  {
    SiblingExists(p0, t0, h0, node0, parent0, root, f);
    node, parent, p, t, h := node0, parent0, p0, t0, h0;
    var other := parent.left;
    if other.color == Red {
      ghost var s := p.sibling;
      ZipUp(p, t, root, f);
      RedSiblingGoneMirror(p.up, t, parent, s, h);
      RedSiblingOrderMirror(p.up, t, parent, s);
      other := RotateRedSiblingRight(parent, other, root, p.up, t, s, f);
      p := InRight(InRight(p.up, Black, s.n, s.left), Red, parent, s.right);
    }
    done, node, parent, p, t, h := BlackSiblingRight(node, parent, other, root, p, t, h, f);
  }

  method BlackSiblingRight(node0: RbNode?, parent0: RbNode, other0: RbNode, root: RbRoot, ghost p0: Path,
                           ghost t0: Tree, ghost h0: int, ghost f: Frame)
    returns (done: bool, node: RbNode?, parent: RbNode?, ghost p: Path, ghost t: Tree, ghost h: int)
    requires LightAt(p0, t0, h0, node0, parent0, root, f) && p0.InRight? && IsBlack(t0)
    requires p0.sibling.Node? && p0.sibling.n == other0 && p0.sibling.color == Black
    modifies root, f.nodes
    ensures done ==> p == Top && At(Top, t, root, f) && RedBlack(t) && node == root.node
    ensures !done ==>
      LightAt(p, t, h, node, parent, root, f) && (IsBlack(t) ==> Depth(p) < Depth(p0) && p0.color == Black)
    ensures InOrder(Plug(p, t)) == InOrder(Plug(p0, t0))
  {
    hide At, Balanced, BalancedPath, Almost, InOrder, Depth, RedBlack;
    var other := other0;
    ghost var s := p0.sibling;
    Fields(p0, t0, root, f);
    ZipUp(p0, t0, root, f);
    Fields(p0.up, Wrap(p0, t0), root, f);
    ZipLeft(p0.up, Wrap(p0, t0), root, f);
    ChildFields(InLeft(p0.up, p0.color, p0.n, t0), s, root, f);
    Fields(InLeft(p0.up, p0.color, p0.n, t0), s, root, f);
    LightParts(p0, t0, h0);
    if (other.left == null || other.left.color == Black) && (other.right == null || other.right.color == Black) {
      PassedUpMirror(p0, t0, h0);
      PassedUpMirrorOrder(p0, t0);
      PassUpRight(parent0, other, root, p0, t0, f);
      p, t, h := p0.up, Node(p0.color, s.(color := Red), parent0, t0), if p0.color == Black then h0 + 1 else h0;
      node := parent0;
      Fields(p, t, root, f);
      parent := node.parent;
      done := false;
    } else {
      OuterRedMirrorBalanced(s, h0);
      other := OuterRedRight(parent0, other, root, p0, t0, f);
      ghost var o := OuterRedMirror(s);
      ghost var q := InRight(p0.up, p0.color, parent0, o);
      SettledMirrorBalanced(p0, t0, o, h0);
      SettledMirrorOrder(p0, t0, o);
      t := SettleRight(parent0, other, root, q, t0, f);
      ZipTop(p0.up, t, root, f);
      p, t, h := Top, Plug(p0.up, t), 0;
      Fields(Top, t, root, f);
      node, parent := root.node, parent0;
      done := true;
    }
  }

  // ---------------------------------------------------- __rb_erase_color

  /** The hole of a proper path does not hold the root. */
  lemma {:induction false} TopOutside(p: Path, hole: RbNode?, top: RbNode?, s: Store, f: Frame)
    requires !p.Top? && PathIn(p, hole, top, s) && RankedPath(p, f.rank, f.lo, f.hi)
    ensures top != null && top in f.rank && !(HoleLo(p, f.rank, f.lo) <= f.rank[top] < HoleHi(p, f.rank, f.hi))
    decreases p
  {
    if !p.up.Top? {
      TopOutside(p.up, p.n, top, s, f);
    }
  }

  lemma AtRootIff(p: Path, t: Tree, root: RbRoot, f: Frame)
    requires At(p, t, root, f)
    ensures p.Top? <==> root.node == Ptr(t)
  {
    if !p.Top? {
      TopOutside(p, Ptr(t), root.node, Snap(f.nodes), f);
    }
  }

  /** A deficit of one black node is repaired: the sibling read in each turn
      exists, the loop ends, and the tree is red-black with its order kept. */
  method EraseColor(node0: RbNode?, parent0: RbNode?, root: RbRoot, ghost p0: Path, ghost t0: Tree, ghost h0: int,
                    ghost f: Frame)
    returns (ghost whole: Tree)
    requires LightAt(p0, t0, h0, node0, parent0, root, f)
    modifies root, f.nodes
    ensures At(Top, whole, root, f) && RedBlack(whole) && InOrder(whole) == InOrder(Plug(p0, t0))
  {
    var node, parent := node0, parent0;
    ghost var p, t, h := p0, t0, h0;
    ghost var order := InOrder(Plug(p0, t0));
    var done := false;
    LightFields(p, t, h, node, parent, root, f);
    hide LightAt, At, Almost, Balanced, BalancedPath, InOrder, Plug, RedBlack, Measure;
    while (node == null || node.color == Black) && node != root.node
      invariant LightAt(p, t, h, node, parent, root, f) && InOrder(Plug(p, t)) == order
      invariant p.Top? <==> root.node == node
      invariant IsBlack(t) <==> (node == null || node.color == Black)
      decreases Measure(p, t)
    {
      SiblingExists(p, t, h, node, parent, root, f);
      if parent.left == node {
        assert p.InLeft? by { SideTested(p, t, h, node, parent, root, f); }
        done, node, parent, p, t, h := EraseStepLeft(node, parent, root, p, t, h, f);
      } else {
        done, node, parent, p, t, h := EraseStepRight(node, parent, root, p, t, h, f);
      }
      if done { break; }
      LightFields(p, t, h, node, parent, root, f);
    }
    whole := BlackenTop(node, parent, root, p, t, h, done, f);
  }

  /** What the loop's test reads. */
  lemma LightFields(p: Path, t: Tree, h: int, node: RbNode?, parent: RbNode?, root: RbRoot, f: Frame)
    requires LightAt(p, t, h, node, parent, root, f)
    ensures p.Top? <==> root.node == node
    ensures IsBlack(t) <==> (node == null || node.color == Black)
  {
    AtRootIff(p, t, root, f);
    Fields(p, t, root, f);
  }

  lemma SideTested(p: Path, t: Tree, h: int, node: RbNode?, parent: RbNode?, root: RbRoot, f: Frame)
    requires LightAt(p, t, h, node, parent, root, f) && !p.Top? && parent.left == node
    ensures p.InLeft?
  {
    SiblingExists(p, t, h, node, parent, root, f);
  }

  /** `if(node) node->rb_color = RB_BLACK`. */
  method BlackenTop(node: RbNode?, ghost parent: RbNode?, root: RbRoot, ghost p: Path, ghost t: Tree, ghost h: int,
                    ghost done: bool, ghost f: Frame)
    returns (ghost whole: Tree)
    requires done ==> p == Top && At(Top, t, root, f) && RedBlack(t) && node == root.node
    requires !done ==> LightAt(p, t, h, node, parent, root, f) && (p.Top? || !IsBlack(t))
    modifies f.nodes
    ensures At(Top, whole, root, f) && RedBlack(whole) && InOrder(whole) == InOrder(Plug(p, t))
  {
    Fields(p, t, root, f);
    if node != null {
      SetColor(node, Black, root, p, t, f);
    }
    whole := Plug(p, Blackened(t));
    ZipTop(p, Blackened(t), root, f);
    BlackenedWhole(p, t, h, done);
  }

  lemma BlackenedWhole(p: Path, t: Tree, h: int, done: bool)
    requires done ==> p == Top && RedBlack(t)
    requires !done ==> Almost(t, h) && BalancedPath(p, h + 1) && (p.Top? || !IsBlack(t))
    ensures RedBlack(Plug(p, Blackened(t))) && InOrder(Plug(p, Blackened(t))) == InOrder(Plug(p, t))
  {
    var u := Blackened(t);
    InOrderPlug(p, t);
    InOrderPlug(p, u);
    if done {
      assert u == t;
    } else if IsBlack(t) {
      RedBlackPlug(Top, u, h);
    } else {
      AlmostHeight(t, h);
      RedBlackPlug(p, u, h + 1);
    }
  }
}

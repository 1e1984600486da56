/** `rb_link_node` and `rb_insert_color`. */
module RbInsert {
  import opened RbShape
  import opened RbBalance

  function Depth(p: Path): nat
  {
    if p.Top? then 0 else 1 + Depth(p.up)
  }

  /** Where `rb_insert_color` stands: a red node whose subtree is balanced and
      that may only clash with the node above it. */
  ghost predicate RedAt(p: Path, t: Tree, h: int, node: RbNode, root: RbRoot, f: Frame)
    reads root, f.nodes
  {
    At(p, t, root, f) && t.Node? && t.n == node && t.color == Red && Balanced(t, h) && BalancedPath(p, h)
  }

  /** Colours alone change: a red uncle passes the clash two levels up. */
  method Recolor(parent: RbNode, gparent: RbNode, uncle: RbNode, root: RbRoot, ghost p: Path, ghost t: Tree,
                 ghost h: int, ghost f: Frame)
    returns (ghost t': Tree)
    requires At(p, t, root, f) && BalancedPath(p, h + 1) && t.Node? && t.n == gparent
    requires t.left.Node? && t.right.Node? && t.left.color == Red && t.right.color == Red
    requires (t.left.n == parent && t.right.n == uncle) || (t.left.n == uncle && t.right.n == parent)
    requires Balanced(t.left.(color := Black), h + 1) && Balanced(t.right.(color := Black), h + 1)
    modifies root, f.nodes
    ensures RedAt(p, t', h + 1, gparent, root, f) && InOrder(t') == InOrder(t)
  {
    Fields(p, t, root, f);
    ChildFields(p, t, root, f);
    ghost var u := SetChildColor(uncle, Black, root, p, t, f);
    ghost var v := SetChildColor(parent, Black, root, p, u, f);
    assert v == Node(t.color, t.left.(color := Black), gparent, t.right.(color := Black));
    SetColor(gparent, Red, root, p, v, f);
    t' := v.(color := Red);
    assert InOrder(t'.left) == InOrder(t.left) && InOrder(t'.right) == InOrder(t.right);
  }

  /** The clash one level down: node red under its red parent, parent red under
      the black gparent, the uncle black. One or two rotations settle it. */
  ghost predicate Clash(par: Tree, uncle: Tree, parent: RbNode, node: RbNode, h: int)
  {
    && par.Node? && par.color == Red && par.n == parent
    && Balanced(par.left, h) && Balanced(par.right, h) && Balanced(uncle, h) && IsBlack(uncle)
    && ((Ptr(par.left) == node && par.left.color == Red && IsBlack(par.right))
        || (Ptr(par.right) == node && par.right.color == Red && IsBlack(par.left)))
  }

  /** After the inner rotation, if any: the red child is on the outside. */
  ghost predicate Outer(a: Tree, b: Tree, uncle: Tree, node: RbNode, h: int)
  {
    && a.Node? && a.n == node && a.color == Red && IsBlack(b) && IsBlack(uncle)
    && Balanced(a, h) && Balanced(b, h) && Balanced(uncle, h)
  }

  method TwistLeft(node0: RbNode, parent0: RbNode, root: RbRoot, ghost q: Path, ghost par: Tree, ghost uncle: Tree,
                   ghost h: int, ghost f: Frame)
    returns (node: RbNode, parent: RbNode, ghost a: Tree, ghost b: Tree)
    requires At(q, par, root, f) && Clash(par, uncle, parent0, node0, h)
    modifies root, f.nodes
    ensures At(q, Node(Red, a, parent, b), root, f) && Outer(a, b, uncle, node, h)
    ensures InOrder(a) + [parent] + InOrder(b) == InOrder(par)
  {
    Fields(q, par, root, f);
    ChildFields(q, par, root, f);
    node, parent, a, b := node0, parent0, par.left, par.right;
    hide At;
    if parent.right == node {
      RotateLeft(parent, root, q, Red, par.left, Red, par.right.left, node, par.right.right, f);
      a, b := Node(Red, par.left, parent, par.right.left), par.right.right;
      parent, node := node, parent;
    }
  }

  method RotateIntoLeft(node0: RbNode, parent0: RbNode, gparent: RbNode, root: RbRoot,
                        ghost p: Path, ghost par: Tree, ghost uncle: Tree, ghost h: int, ghost f: Frame)
    returns (node: RbNode, ghost q: Path, ghost t: Tree)
    requires At(p, Node(Black, par, gparent, uncle), root, f) && BalancedPath(p, h + 1)
      && Clash(par, uncle, parent0, node0, h)
    modifies root, f.nodes
    ensures q.InLeft? && q.up == p && q.color == Black && RedAt(q, t, h, node, root, f)
    ensures InOrder(Wrap(q, t)) == InOrder(Node(Black, par, gparent, uncle))
  {
    hide At, Balanced, BalancedPath, Clash;
    ghost var above := InLeft(p, Black, gparent, uncle);
    ZipLeft(p, Node(Black, par, gparent, uncle), root, f);
    var parent;
    ghost var b;
    node, parent, t, b := TwistLeft(node0, parent0, root, above, par, uncle, h, f);
    ZipUp(above, Node(Red, t, parent, b), root, f);
    LiftLeft(parent, gparent, root, p, t, b, uncle, f);
    q := InLeft(p, Black, parent, Node(Red, b, gparent, uncle));
    ZipLeft(p, Wrap(q, t), root, f);
    LiftedPath(q, p, t, parent, b, gparent, uncle, node, h);
  }

  lemma LiftedPath(q: Path, p: Path, a: Tree, parent: RbNode, b: Tree, gparent: RbNode, uncle: Tree, node: RbNode,
                   h: int)
    requires Outer(a, b, uncle, node, h) && BalancedPath(p, h + 1)
      && q == InLeft(p, Black, parent, Node(Red, b, gparent, uncle))
    ensures BalancedPath(q, h) && Balanced(a, h)
    ensures InOrder(Wrap(q, a)) == InOrder(a) + [parent] + InOrder(b) + [gparent] + InOrder(uncle)
  {
  }

  /** `parent->rb_color = BLACK; gparent->rb_color = RED; rotate_right(gparent)`. */
  method LiftLeft(parent: RbNode, gparent: RbNode, root: RbRoot, ghost p: Path, ghost a: Tree, ghost b: Tree,
                  ghost uncle: Tree, ghost f: Frame)
    requires At(p, Node(Black, Node(Red, a, parent, b), gparent, uncle), root, f)
    modifies root, f.nodes
    ensures At(p, Node(Black, a, parent, Node(Red, b, gparent, uncle)), root, f)
  {
    ghost var g := Node(Black, Node(Red, a, parent, b), gparent, uncle);
    Fields(p, g, root, f);
    ChildFields(p, g, root, f);
    hide At;
    g := SetChildColor(parent, Black, root, p, g, f);
    SetColor(gparent, Red, root, p, g, f);
    RotateRight(gparent, root, p, Black, a, parent, Red, b, uncle, f);
  }

  // ------------------------------------------------- the mirror image

  method TwistRight(node0: RbNode, parent0: RbNode, root: RbRoot, ghost q: Path, ghost par: Tree, ghost uncle: Tree,
                    ghost h: int, ghost f: Frame)
    returns (node: RbNode, parent: RbNode, ghost a: Tree, ghost b: Tree)
    requires At(q, par, root, f) && Clash(par, uncle, parent0, node0, h)
    modifies root, f.nodes
    ensures At(q, Node(Red, b, parent, a), root, f) && Outer(a, b, uncle, node, h)
    ensures InOrder(b) + [parent] + InOrder(a) == InOrder(par)
  {
    Fields(q, par, root, f);
    ChildFields(q, par, root, f);
    node, parent, a, b := node0, parent0, par.right, par.left;
    hide At;
    if parent.left == node {
      RotateRight(parent, root, q, Red, par.left.left, node, Red, par.left.right, par.right, f);
      a, b := Node(Red, par.left.right, parent, par.right), par.left.left;
      parent, node := node, parent;
    }
  }

  method LiftRight(parent: RbNode, gparent: RbNode, root: RbRoot, ghost p: Path, ghost a: Tree, ghost b: Tree,
                   ghost uncle: Tree, ghost f: Frame)
    requires At(p, Node(Black, uncle, gparent, Node(Red, b, parent, a)), root, f)
    modifies root, f.nodes
    ensures At(p, Node(Black, Node(Red, uncle, gparent, b), parent, a), root, f)
  {
    ghost var g := Node(Black, uncle, gparent, Node(Red, b, parent, a));
    Fields(p, g, root, f);
    ChildFields(p, g, root, f);
    hide At;
    g := SetChildColor(parent, Black, root, p, g, f);
    SetColor(gparent, Red, root, p, g, f);
    RotateLeft(gparent, root, p, Red, uncle, Black, b, parent, a, f);
  }

  method RotateIntoRight(node0: RbNode, parent0: RbNode, gparent: RbNode, root: RbRoot,
                         ghost p: Path, ghost par: Tree, ghost uncle: Tree, ghost h: int, ghost f: Frame)
    returns (node: RbNode, ghost q: Path, ghost t: Tree)
    requires At(p, Node(Black, uncle, gparent, par), root, f) && BalancedPath(p, h + 1)
      && Clash(par, uncle, parent0, node0, h)
    modifies root, f.nodes
    ensures q.InRight? && q.up == p && q.color == Black && RedAt(q, t, h, node, root, f)
    ensures InOrder(Wrap(q, t)) == InOrder(Node(Black, uncle, gparent, par))
  {
    hide At, Balanced, BalancedPath, Clash;
    ghost var above := InRight(p, Black, gparent, uncle);
    ZipRight(p, Node(Black, uncle, gparent, par), root, f);
    var parent;
    ghost var b;
    node, parent, t, b := TwistRight(node0, parent0, root, above, par, uncle, h, f);
    ZipUp(above, Node(Red, b, parent, t), root, f);
    LiftRight(parent, gparent, root, p, t, b, uncle, f);
    q := InRight(p, Black, parent, Node(Red, uncle, gparent, b));
    ZipRight(p, Wrap(q, t), root, f);
    LiftedMirror(q, p, t, parent, b, gparent, uncle, node, h);
  }

  lemma LiftedMirror(q: Path, p: Path, a: Tree, parent: RbNode, b: Tree, gparent: RbNode, uncle: Tree, node: RbNode,
                     h: int)
    requires Outer(a, b, uncle, node, h) && BalancedPath(p, h + 1)
      && q == InRight(p, Black, parent, Node(Red, uncle, gparent, b))
    ensures BalancedPath(q, h) && Balanced(a, h)
    ensures InOrder(Wrap(q, a)) == InOrder(uncle) + [gparent] + InOrder(b) + [parent] + InOrder(a)
  {
  }

  // ---------------------------------------------------- rb_insert_color

  /** What stands above a clash: a red parent under a black grandparent. */
  lemma ClashAbove(p: Path, t: Tree, h: int, node: RbNode, root: RbRoot, f: Frame)
    requires RedAt(p, t, h, node, root, f) && RedHolder(p)
    ensures !p.up.Top? && p.up.color == Black && BalancedPath(p.up.up, h + 1)
    ensures var par := Wrap(p, t);
            && Clash(par, p.up.sibling, p.n, node, h) == IsBlack(p.up.sibling)
            && At(p.up.up, Wrap(p.up, par), root, f)
            && Balanced(par.(color := Black), h + 1) && Balanced(p.up.sibling, h)
  {
    ZipUp(p, t, root, f);
    ZipUp(p.up, Wrap(p, t), root, f);
    assert BalancedPath(p.up, h) && BalancedStep(p.up, p.color, p.sibling);
  }

  lemma AboveFields(p: Path, t: Tree, h: int, node: RbNode, root: RbRoot, f: Frame)
    requires RedAt(p, t, h, node, root, f)
    ensures node.parent == ParentPtr(p) && node in f.nodes
    ensures !p.Top? ==> p.n.color == p.color && p.n.parent == ParentPtr(p.up) && p.n in f.nodes
    ensures RedHolder(p) && p.up.InLeft? ==> p.up.n.left == p.n && p.up.n.right == Ptr(p.up.sibling)
    ensures RedHolder(p) && p.up.InRight? ==>
      p.up.n.right == p.n && p.up.n.left == Ptr(p.up.sibling) && p.up.n.left != p.n
    ensures RedHolder(p) && p.up.sibling.Node? ==> p.up.sibling.n.color == p.up.sibling.color
  {
    Fields(p, t, root, f);
    if RedHolder(p) {
      ZipUp(p, t, root, f);
      Fields(p.up, Wrap(p, t), root, f);
    }
  }

  /** One turn of the loop under a red parent: the grandparent exists, and the
      clash moves two levels up or is settled. */
  method InsertStep(node0: RbNode, parent: RbNode, root: RbRoot, ghost p: Path, ghost t: Tree, ghost h: int,
                    ghost f: Frame)
    returns (node: RbNode, ghost p': Path, ghost t': Tree, ghost h': int)
    requires RedAt(p, t, h, node0, root, f) && RedHolder(p) && parent == p.n
    modifies root, f.nodes
    ensures RedAt(p', t', h', node, root, f) && Depth(p') < Depth(p)
    ensures InOrder(Plug(p', t')) == InOrder(Plug(p, t))
  {
    hide At, Balanced, BalancedPath, InOrder, Clash;
    AboveFields(p, t, h, node0, root, f);
    ClashAbove(p, t, h, node0, root, f);
    var gparent := parent.parent;
    ghost var up, par, sib := p.up.up, Wrap(p, t), p.up.sibling;
    ghost var g := Wrap(p.up, par);
    InOrderPlug(up, g);
    if parent == gparent.left {
      var uncle := gparent.right;
      if uncle != null && uncle.color == Red {
        t' := Recolor(parent, gparent, uncle, root, up, g, h, f) by { BlackenUncle(sib, h); }
        node, p', h' := gparent, up, h + 1;
        InOrderPlug(up, t');
      } else {
        node, p', t' := RotateIntoLeft(node0, parent, gparent, root, up, par, sib, h, f);
        h' := h;
        InOrderPlug(up, Wrap(p', t'));
      }
    } else {
      var uncle := gparent.left;
      if uncle != null && uncle.color == Red {
        t' := Recolor(parent, gparent, uncle, root, up, g, h, f) by { BlackenUncle(sib, h); }
        node, p', h' := gparent, up, h + 1;
        InOrderPlug(up, t');
      } else {
        node, p', t' := RotateIntoRight(node0, parent, gparent, root, up, par, sib, h, f);
        h' := h;
        InOrderPlug(up, Wrap(p', t'));
      }
    }
  }

  lemma BlackenUncle(u: Tree, h: int)
    requires Balanced(u, h) && u.Node? && u.color == Red
    ensures Balanced(u.(color := Black), h + 1)
  {
  }

  /** From a red leaf just linked into a red-black tree: the invariants come back
      and the in-order sequence stays. */
  method InsertColor(node0: RbNode, root: RbRoot, ghost p0: Path, ghost f: Frame) returns (ghost whole: Tree)
    requires At(p0, Node(Red, Leaf, node0, Leaf), root, f) && BalancedPath(p0, 0)
    modifies root, f.nodes
    ensures At(Top, whole, root, f) && RedBlack(whole)
    ensures InOrder(whole) == InOrder(Plug(p0, Node(Red, Leaf, node0, Leaf)))
  {
    var node := node0;
    ghost var p, t, h := p0, Node(Red, Leaf, node0, Leaf), 0;
    ghost var order := InOrder(Plug(p, t));
    AboveFields(p, t, h, node, root, f);
    while node.parent != null && node.parent.color == Red
      invariant RedAt(p, t, h, node, root, f) && InOrder(Plug(p, t)) == order
      invariant node.parent == ParentPtr(p) && (!p.Top? ==> p.n.color == p.color)
      decreases Depth(p)
    {
      node, p, t, h := InsertStep(node, node.parent, root, p, t, h, f);
      AboveFields(p, t, h, node, root, f);
    }
    whole := BlackenRoot(root, p, t, h, f);
  }

  /** `root->rb_node->rb_color = RB_BLACK`. */
  method BlackenRoot(root: RbRoot, ghost p: Path, ghost t: Tree, ghost h: int, ghost f: Frame)
    returns (ghost whole: Tree)
    requires At(p, t, root, f) && t.Node? && Balanced(t, h) && BalancedPath(p, h) && (RedHolder(p) ==> IsBlack(t))
    modifies f.nodes
    ensures At(Top, whole, root, f) && RedBlack(whole) && InOrder(whole) == InOrder(Plug(p, t))
  {
    ghost var u := Plug(p, t);
    ZipTop(p, t, root, f);
    BalancedPlug(p, t, h);
    PlugNode(p, t);
    Fields(Top, u, root, f);
    SetColor(root.node, Black, root, Top, u, f);
    whole := u.(color := Black);
    BalancedHeight(u, h + BlacksAbove(p));
    if u.color == Black { assert whole == u; }
  }

  lemma {:induction false} PlugNode(p: Path, t: Tree)
    requires t.Node?
    ensures Plug(p, t).Node?
    decreases p
  {
    if !p.Top? { PlugNode(p.up, Wrap(p, t)); }
  }
}

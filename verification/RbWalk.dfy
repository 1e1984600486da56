/** `rb_first`, `rb_last`, `rb_next` and `rb_prev`: walking a tree in order. */
module RbWalk {
  import opened RbShape
  import opened RbInsert

  /** The path to, and the subtree at, the first node of a subtree in order. */
  function LeftSpine(p: Path, t: Tree): Path
    requires t.Node?
    decreases t
  {
    if t.left.Leaf? then p else LeftSpine(InLeft(p, t.color, t.n, t.right), t.left)
  }

  function MinTree(t: Tree): (m: Tree)
    requires t.Node?
    ensures m.Node? && m.left.Leaf?
  {
    if t.left.Leaf? then t else MinTree(t.left)
  }

  function RightSpine(p: Path, t: Tree): Path
    requires t.Node?
    decreases t
  {
    if t.right.Leaf? then p else RightSpine(InRight(p, t.color, t.n, t.left), t.right)
  }

  function MaxTree(t: Tree): (m: Tree)
    requires t.Node?
    ensures m.Node? && m.right.Leaf?
  {
    if t.right.Leaf? then t else MaxTree(t.right)
  }

  lemma {:induction false} LeftSpineOrder(p: Path, t: Tree)
    requires t.Node?
    ensures Before(LeftSpine(p, t)) == Before(p) && Plug(LeftSpine(p, t), MinTree(t)) == Plug(p, t)
    decreases t
  {
    if t.left.Node? {
      LeftSpineOrder(InLeft(p, t.color, t.n, t.right), t.left);
    }
  }

  lemma {:induction false} RightSpineOrder(p: Path, t: Tree)
    requires t.Node?
    ensures After(RightSpine(p, t)) == After(p) && Plug(RightSpine(p, t), MaxTree(t)) == Plug(p, t)
    decreases t
  {
    if t.right.Node? {
      RightSpineOrder(InRight(p, t.color, t.n, t.left), t.right);
    }
  }

  /** The rank in order of the node at a position. */
  function Index(p: Path, t: Tree): nat
    requires t.Node?
  {
    |Before(p)| + |InOrder(t.left)|
  }

  lemma IndexSplits(p: Path, t: Tree)
    requires t.Node?
    ensures var order, i := InOrder(Plug(p, t)), Index(p, t);
            && i < |order| && order[i] == t.n
            && order[..i] == Before(p) + InOrder(t.left) && order[i + 1..] == InOrder(t.right) + After(p)
  {
    hide InOrder, Before, After, Plug;
    InOrderPlug(p, t);
    InOrderNode(t);
    SplitAt(Before(p), InOrder(t.left), t.n, InOrder(t.right), After(p));
  }

  lemma InOrderNode(t: Tree)
    requires t.Node?
    ensures InOrder(t) == InOrder(t.left) + [t.n] + InOrder(t.right)
  {
  }

  lemma SplitAt(a: seq<RbNode>, b: seq<RbNode>, n: RbNode, c: seq<RbNode>, d: seq<RbNode>)
    ensures var s, i := a + (b + [n] + c) + d, |a| + |b|;
            i < |s| && s[i] == n && s[..i] == a + b && s[i + 1..] == c + d
  {
  }

  /** `node` is the i-th of the tree in order and stands at t below p. */
  ghost predicate Stands(node: RbNode, i: nat, p: Path, t: Tree, whole: Tree, root: RbRoot, f: Frame)
    reads root, f.nodes
  {
    At(p, t, root, f) && t.Node? && t.n == node && Plug(p, t) == whole && Index(p, t) == i
  }

  lemma StandsAt(node: RbNode, i: nat, p: Path, t: Tree, whole: Tree, root: RbRoot, f: Frame)
    requires Stands(node, i, p, t, whole, root, f)
    ensures i < |InOrder(whole)| && InOrder(whole)[i] == node
  {
    IndexSplits(p, t);
  }

  // ------------------------------------------------- down a spine

  method GoLeft(n0: RbNode, ghost root: RbRoot, ghost p: Path, ghost t: Tree, ghost f: Frame)
    returns (n: RbNode, ghost q: Path, ghost u: Tree)
    requires At(p, t, root, f) && t.Node? && t.n == n0
    ensures q == LeftSpine(p, t) && u == MinTree(t) && At(q, u, root, f) && n == u.n
  {
    n, q, u := n0, p, t;
    Fields(q, u, root, f);
    while n.left != null
      invariant At(q, u, root, f) && u.Node? && u.n == n && n.left == Ptr(u.left)
      invariant LeftSpine(q, u) == LeftSpine(p, t) && MinTree(u) == MinTree(t)
      decreases u
    {
      n := n.left;
      ZipLeft(q, u, root, f);
      q, u := InLeft(q, u.color, u.n, u.right), u.left;
      Fields(q, u, root, f);
    }
  }

  method GoRight(n0: RbNode, ghost root: RbRoot, ghost p: Path, ghost t: Tree, ghost f: Frame)
    returns (n: RbNode, ghost q: Path, ghost u: Tree)
    requires At(p, t, root, f) && t.Node? && t.n == n0
    ensures q == RightSpine(p, t) && u == MaxTree(t) && At(q, u, root, f) && n == u.n
  {
    n, q, u := n0, p, t;
    Fields(q, u, root, f);
    while n.right != null
      invariant At(q, u, root, f) && u.Node? && u.n == n && n.right == Ptr(u.right)
      invariant RightSpine(q, u) == RightSpine(p, t) && MaxTree(u) == MaxTree(t)
      decreases u
    {
      n := n.right;
      ZipRight(q, u, root, f);
      q, u := InRight(q, u.color, u.n, u.left), u.right;
      Fields(q, u, root, f);
    }
  }

  /** `rb_first`. */
  method First(root: RbRoot, ghost whole: Tree, ghost f: Frame) returns (n: RbNode?, ghost q: Path, ghost u: Tree)
    requires At(Top, whole, root, f)
    ensures n == null <==> InOrder(whole) == []
    ensures n != null ==> n == InOrder(whole)[0] && Stands(n, 0, q, u, whole, root, f)
  {
    Fields(Top, whole, root, f);
    n, q, u := root.node, Top, whole;
    if n == null {
      return;
    }
    n, q, u := GoLeft(n, root, Top, whole, f);
    LeftSpineOrder(Top, whole);
    StandsAt(n, 0, q, u, whole, root, f);
  }

  /** `rb_last`. */
  method Last(root: RbRoot, ghost whole: Tree, ghost f: Frame) returns (n: RbNode?, ghost q: Path, ghost u: Tree)
    requires At(Top, whole, root, f)
    ensures n == null <==> InOrder(whole) == []
    ensures n != null ==>
      Stands(n, |InOrder(whole)| - 1, q, u, whole, root, f) && n == InOrder(whole)[|InOrder(whole)| - 1]
  {
    Fields(Top, whole, root, f);
    n, q, u := root.node, Top, whole;
    if n == null {
      return;
    }
    n, q, u := GoRight(n, root, Top, whole, f);
    RightSpineOrder(Top, whole);
    IndexSplits(q, u);
    assert InOrder(whole)[Index(q, u) + 1..] == [];
    assert Index(q, u) == |InOrder(whole)| - 1;
    StandsAt(n, Index(q, u), q, u, whole, root, f);
  }

  // ------------------------------------------------------- neighbours

  lemma NextBelow(p: Path, t: Tree)
    requires t.Node? && t.right.Node?
    ensures var q, u := LeftSpine(InRight(p, t.color, t.n, t.left), t.right), MinTree(t.right);
            Plug(q, u) == Plug(p, t) && Index(q, u) == Index(p, t) + 1
  {
    LeftSpineOrder(InRight(p, t.color, t.n, t.left), t.right);
  }

  lemma NextAbove(q: Path, u: Tree, p: Path, t: Tree)
    requires t.Node? && t.right.Leaf? && !q.InRight?
    requires Plug(q, u) == Plug(p, t) && |Before(q) + InOrder(u)| == Index(p, t) + 1
    ensures q.InLeft? ==> Plug(q.up, Wrap(q, u)) == Plug(p, t) && Index(q.up, Wrap(q, u)) == Index(p, t) + 1
    ensures q.Top? ==> |InOrder(Plug(p, t))| == Index(p, t) + 1
  {
    if q.Top? { InOrderPlug(q, u); }
  }

  lemma LastBelow(p: Path, t: Tree)
    requires t.Node? && t.right.Leaf?
    ensures |Before(p) + InOrder(t)| == Index(p, t) + 1
  {
  }

  lemma WrapFromRight(q: Path, u: Tree)
    requires q.InRight?
    ensures Before(q.up) + InOrder(Wrap(q, u)) == Before(q) + InOrder(u)
  {
  }

  /** Up while the node is a right child. */
  method ClimbLeft(node0: RbNode, ghost root: RbRoot, ghost p: Path, ghost t: Tree, ghost f: Frame)
    returns (node: RbNode, ghost q: Path, ghost u: Tree)
    requires At(p, t, root, f) && t.Node? && t.n == node0
    ensures At(q, u, root, f) && u.Node? && u.n == node && Plug(q, u) == Plug(p, t) && !q.InRight?
    ensures Before(q) + InOrder(u) == Before(p) + InOrder(t)
  {
    hide At, InOrder, Before;
    node, q, u := node0, p, t;
    Fields(q, u, root, f);
    while node.parent != null && node == node.parent.right
      invariant At(q, u, root, f) && u.Node? && u.n == node && node.parent == ParentPtr(q)
      invariant !q.Top? ==> (q.InRight? <==> node == q.n.right)
      invariant Plug(q, u) == Plug(p, t) && Before(q) + InOrder(u) == Before(p) + InOrder(t)
      decreases Depth(q)
    {
      node := node.parent;
      ZipUp(q, u, root, f);
      WrapFromRight(q, u);
      q, u := q.up, Wrap(q, u);
      Fields(q, u, root, f);
    }
  }

  /** `rb_next`: the in-order successor, or none. */
  method Next(node0: RbNode, ghost root: RbRoot, ghost i: nat, ghost p: Path, ghost t: Tree, ghost whole: Tree,
              ghost f: Frame)
    returns (n: RbNode?, ghost q: Path, ghost u: Tree)
    requires Stands(node0, i, p, t, whole, root, f)
    ensures n == null <==> i + 1 == |InOrder(whole)|
    ensures n != null ==>
      Stands(n, i + 1, q, u, whole, root, f) && i + 1 < |InOrder(whole)| && n == InOrder(whole)[i + 1]
  {
    hide At, Plug, InOrder, Before, Index;
    var node := node0;
    Fields(p, t, root, f);
    if node.right != null {
      ZipRight(p, t, root, f);
      NextBelow(p, t);
      n, q, u := GoLeft(node.right, root, InRight(p, t.color, t.n, t.left), t.right, f);
      StandsAt(n, i + 1, q, u, whole, root, f);
      return;
    }
    LastBelow(p, t);
    node, q, u := ClimbLeft(node, root, p, t, f);
    n := node.parent;
    Fields(q, u, root, f);
    NextAbove(q, u, p, t);
    if n != null {
      ZipUp(q, u, root, f);
      q, u := q.up, Wrap(q, u);
      StandsAt(n, i + 1, q, u, whole, root, f);
    }
  }

  lemma PrevBelow(p: Path, t: Tree)
    requires t.Node? && t.left.Node?
    ensures var q, u := RightSpine(InLeft(p, t.color, t.n, t.right), t.left), MaxTree(t.left);
            Plug(q, u) == Plug(p, t) && Index(q, u) + 1 == Index(p, t)
  {
    var below := InLeft(p, t.color, t.n, t.right);
    var q, u := RightSpine(below, t.left), MaxTree(t.left);
    RightSpineOrder(below, t.left);
    IndexSplits(q, u);
    IndexSplits(p, t);
    assert InOrder(Plug(p, t))[Index(q, u) + 1..] == After(below);
  }

  lemma PrevAbove(q: Path, u: Tree, p: Path, t: Tree)
    requires t.Node? && t.left.Leaf? && !q.InLeft?
    requires Plug(q, u) == Plug(p, t) && |Before(q)| == Index(p, t)
    ensures q.InRight? ==> Plug(q.up, Wrap(q, u)) == Plug(p, t) && Index(q.up, Wrap(q, u)) + 1 == Index(p, t)
    ensures q.Top? ==> Index(p, t) == 0
  {
  }

  lemma FirstBelow(p: Path, t: Tree)
    requires t.Node? && t.left.Leaf?
    ensures |Before(p)| == Index(p, t)
  {
  }

  /** Up while the node is a left child. */
  method ClimbRight(node0: RbNode, ghost root: RbRoot, ghost p: Path, ghost t: Tree, ghost f: Frame)
    returns (node: RbNode, ghost q: Path, ghost u: Tree)
    requires At(p, t, root, f) && t.Node? && t.n == node0
    ensures At(q, u, root, f) && u.Node? && u.n == node && Plug(q, u) == Plug(p, t) && !q.InLeft?
    ensures Before(q) == Before(p)
  {
    hide At, InOrder;
    node, q, u := node0, p, t;
    Fields(q, u, root, f);
    while node.parent != null && node == node.parent.left
      invariant At(q, u, root, f) && u.Node? && u.n == node && node.parent == ParentPtr(q)
      invariant !q.Top? ==> (q.InLeft? <==> node == q.n.left)
      invariant Plug(q, u) == Plug(p, t) && Before(q) == Before(p)
      decreases Depth(q)
    {
      node := node.parent;
      ZipUp(q, u, root, f);
      q, u := q.up, Wrap(q, u);
      Fields(q, u, root, f);
    }
  }

  /** `rb_prev`: the in-order predecessor, or none. */
  method Prev(node0: RbNode, ghost root: RbRoot, ghost i: nat, ghost p: Path, ghost t: Tree, ghost whole: Tree,
              ghost f: Frame)
    returns (n: RbNode?, ghost q: Path, ghost u: Tree)
    requires Stands(node0, i, p, t, whole, root, f)
    ensures n == null <==> i == 0
    ensures n != null ==>
      Stands(n, i - 1, q, u, whole, root, f) && i - 1 < |InOrder(whole)| && n == InOrder(whole)[i - 1]
  {
    hide At, Plug, InOrder, Before, Index;
    var node := node0;
    Fields(p, t, root, f);
    if node.left != null {
      ZipLeft(p, t, root, f);
      PrevBelow(p, t);
      n, q, u := GoRight(node.left, root, InLeft(p, t.color, t.n, t.right), t.left, f);
      StandsAt(n, i - 1, q, u, whole, root, f);
      return;
    }
    FirstBelow(p, t);
    node, q, u := ClimbRight(node, root, p, t, f);
    n := node.parent;
    Fields(q, u, root, f);
    PrevAbove(q, u, p, t);
    if n != null {
      ZipUp(q, u, root, f);
      q, u := q.up, Wrap(q, u);
      StandsAt(n, i - 1, q, u, whole, root, f);
    }
  }
}

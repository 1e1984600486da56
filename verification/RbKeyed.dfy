/** A tree ordered by the ids of its nodes: searching it and linking into it, the
    way the comments of rbtree.h tell callers to. */
module RbKeyed {
  import opened Ids
  import opened RbShape
  import opened RbBalance
  import opened RbInsert

  /** Ranks are ids: a tree that lies in this frame is a search tree. */
  function KeyFrame(nodes: set<RbNode>): Frame
  {
    Frame(nodes, map n | n in nodes :: Key(n.id), 0, IdSpace())
  }

  function NodesOf(t: Tree): set<RbNode>
  {
    set n | n in InOrder(t)
  }

  predicate Ascending(order: seq<RbNode>)
  {
    forall i, j :: 0 <= i < j < |order| ==> Key(order[i].id) < Key(order[j].id)
  }

  // ------------------------------------------------- ranks and order

  lemma {:induction false} RankedOrder(t: Tree, rank: Rank, lo: int, hi: int)
    requires Ranked(t, rank, lo, hi)
    ensures forall n :: n in InOrder(t) ==> n in rank && lo <= rank[n] < hi
    ensures forall i, j :: 0 <= i < j < |InOrder(t)| ==> rank[InOrder(t)[i]] < rank[InOrder(t)[j]]
  {
    if t.Node? {
      RankedOrder(t.left, rank, lo, rank[t.n]);
      RankedOrder(t.right, rank, rank[t.n] + 1, hi);
      var l, r := InOrder(t.left), InOrder(t.right);
      Appended(l, t.n, r, rank);
    }
  }

  lemma Appended(l: seq<RbNode>, n: RbNode, r: seq<RbNode>, rank: Rank)
    requires n in rank && (forall x :: x in l ==> x in rank && rank[x] < rank[n])
      && (forall x :: x in r ==> x in rank && rank[n] < rank[x])
    requires forall i, j :: 0 <= i < j < |l| ==> rank[l[i]] < rank[l[j]]
    requires forall i, j :: 0 <= i < j < |r| ==> rank[r[i]] < rank[r[j]]
    ensures var s := l + [n] + r;
            (forall x :: x in s ==> x in rank) && forall i, j :: 0 <= i < j < |s| ==> rank[s[i]] < rank[s[j]]
  {
    var s := l + [n] + r;
    forall i, j | 0 <= i < j < |s| ensures rank[s[i]] < rank[s[j]] {
      assert i < |l| ==> s[i] in l;
      assert j > |l| ==> s[j] in r;
    }
  }

  lemma {:induction false} BeforeBelow(p: Path, f: Frame)
    requires RankedPath(p, f.rank, f.lo, f.hi)
    ensures forall n :: n in Before(p) ==> n in f.rank && f.rank[n] < HoleLo(p, f.rank, f.lo)
    ensures forall n :: n in After(p) ==> n in f.rank && f.rank[n] >= HoleHi(p, f.rank, f.hi)
    decreases p
  {
    if !p.Top? {
      BeforeBelow(p.up, f);
      if p.InLeft? {
        RankedOrder(p.sibling, f.rank, f.rank[p.n] + 1, HoleHi(p.up, f.rank, f.hi));
      } else {
        RankedOrder(p.sibling, f.rank, HoleLo(p.up, f.rank, f.lo), f.rank[p.n]);
      }
    }
  }

  // ------------------------------------------------ positions and frames

  lemma {:induction false} ZipTo(p: Path, t: Tree, root: RbRoot, f: Frame)
    requires At(Top, Plug(p, t), root, f)
    ensures At(p, t, root, f)
    decreases p
  {
    if !p.Top? {
      ZipTo(p.up, Wrap(p, t), root, f);
      if p.InLeft? {
        ZipLeft(p.up, Wrap(p, t), root, f);
      } else {
        ZipRight(p.up, Wrap(p, t), root, f);
      }
    }
  }

  /** Every node of a tree has a position. */
  lemma {:induction false} Locate(base: Path, t: Tree, n: RbNode) returns (p: Path, u: Tree)
    requires n in InOrder(t)
    ensures u.Node? && u.n == n && Plug(p, u) == Plug(base, t)
    decreases t
  {
    if t.n == n {
      return base, t;
    } else if n in InOrder(t.left) {
      p, u := Locate(InLeft(base, t.color, t.n, t.right), t.left, n);
    } else {
      p, u := Locate(InRight(base, t.color, t.n, t.left), t.right, n);
    }
  }

  predicate AgreeOn(t: Tree, m: Store, m': Store, rank: Rank, rank': Rank)
  {
    && (forall n :: n in InOrder(t) ==> n in m && n in m' && m'[n] == m[n])
    && (forall n :: n in InOrder(t) ==> n in rank && n in rank' && rank'[n] == rank[n])
  }

  lemma {:induction false} AgreeTree(t: Tree, parent: RbNode?, m: Store, m': Store, rank: Rank, rank': Rank, lo: int,
                                     hi: int)
    requires TreeIn(t, parent, m) && Ranked(t, rank, lo, hi) && AgreeOn(t, m, m', rank, rank')
    ensures TreeIn(t, parent, m') && Ranked(t, rank', lo, hi)
  {
    if t.Node? {
      assert t.n in InOrder(t);
      AgreeTree(t.left, t.n, m, m', rank, rank', lo, rank[t.n]);
      AgreeTree(t.right, t.n, m, m', rank, rank', rank[t.n] + 1, hi);
    }
  }

  lemma {:induction false} TreeNodes(t: Tree, parent: RbNode?, m: Store)
    requires TreeIn(t, parent, m)
    ensures forall n :: n in InOrder(t) ==> n in m
  {
    if t.Node? {
      TreeNodes(t.left, t.n, m);
      TreeNodes(t.right, t.n, m);
    }
  }

  /** A frame may gain and lose nodes outside the tree. */
  lemma Reframe(t: Tree, root: RbRoot, nodes: set<RbNode>, nodes': set<RbNode>)
    requires At(Top, t, root, KeyFrame(nodes)) && NodesOf(t) <= nodes'
    ensures At(Top, t, root, KeyFrame(nodes'))
  {
    var f, f' := KeyFrame(nodes), KeyFrame(nodes');
    TreeNodes(t, null, Snap(nodes));
    RankedOrder(t, f.rank, f.lo, f.hi);
    assert forall n :: n in InOrder(t) ==> n in NodesOf(t);
    AgreeTree(t, null, Snap(nodes), Snap(nodes'), f.rank, f'.rank, f.lo, f.hi);
  }

  // -------------------------------------------------- links

  /** `struct rb_node **`: the address of a root or child pointer. */
  datatype Link = AtRoot | LeftOf(n: RbNode) | RightOf(n: RbNode)

  function LinkOf(p: Path): Link
  {
    match p
    case Top => AtRoot
    case InLeft(_, _, n, _) => LeftOf(n)
    case InRight(_, _, n, _) => RightOf(n)
  }

  function Holders(link: Link): set<RbNode>
  {
    if link.AtRoot? then {} else {link.n}
  }

  /** `*link`. */
  function Deref(link: Link, root: RbRoot): RbNode?
    reads root, Holders(link)
  {
    match link
    case AtRoot => root.node
    case LeftOf(n) => n.left
    case RightOf(n) => n.right
  }

  /** `rb_link_node`: the field updates. */
  method LinkFields(node: RbNode, parent: RbNode?, link: Link, root: RbRoot)
    requires node !in Holders(link)
    modifies root, node, Holders(link)
    ensures CellOf(node) == Cell(Red, parent, null, null)
    ensures root.node == if link.AtRoot? then node else old(root.node)
    ensures link.LeftOf? ==> CellOf(link.n) == old(CellOf(link.n)).(left := node)
    ensures link.RightOf? ==> CellOf(link.n) == old(CellOf(link.n)).(right := node)
  {
    node.parent := parent;
    node.color := Red;
    node.left, node.right := null, null;
    match link {
      case AtRoot => root.node := node;
      case LeftOf(n) => n.left := node;
      case RightOf(n) => n.right := node;
    }
  }

  function RedLeaf(node: RbNode): Tree
  {
    Node(Red, Leaf, node, Leaf)
  }

  /** `rb_link_node`: a red leaf fills the hole the link stands for. */
  method LinkNode(node: RbNode, parent: RbNode?, link: Link, root: RbRoot, ghost p: Path, ghost f: Frame)
    requires At(p, Leaf, root, f) && link == LinkOf(p) && parent == ParentPtr(p)
    requires node in f.nodes && Placed(p, RedLeaf(node), f)
    modifies root, f.nodes
    ensures At(p, RedLeaf(node), root, f)
  {
    ghost var s, top := Snap(f.nodes), root.node;
    Fields(p, Leaf, root, f);
    HoleDistinct(p, node, f);
    assert PathIn(p, null, top, s);
    hide At, PathIn;
    LinkFields(node, parent, link, root);
    ghost var s' := Snap(f.nodes);
    LinkedPath(p, node, top, root.node, s, s', f);
    LinkedAt(p, node, root, f);
  }

  lemma LinkedPath(p: Path, node: RbNode, top: RbNode?, top': RbNode?, s: Store, s': Store, f: Frame)
    requires PathIn(p, null, top, s) && Placed(p, RedLeaf(node), f)
    requires SameBut(s, s', {node, ParentPtr(p)}) && Refilled(p, top, node, top', s, s')
    ensures PathIn(p, node, top', s')
  {
    RefillPath(p, null, top, node, top', s, s', {node, ParentPtr(p)}, f.rank, f.lo, f.hi);
  }

  lemma LinkedAt(p: Path, node: RbNode, root: RbRoot, f: Frame)
    requires Placed(p, RedLeaf(node), f) && PathIn(p, node, root.node, Snap(f.nodes))
    requires node in f.nodes && CellOf(node) == Cell(Red, ParentPtr(p), null, null)
    ensures At(p, RedLeaf(node), root, f)
  {
  }

  // ------------------------------------------------- searching

  /** Where the insertion search stands: the id belongs into the subtree t. */
  ghost predicate Reached(p: Path, t: Tree, whole: Tree, link: Link, parent: RbNode?, id: Id, root: RbRoot, f: Frame)
    reads root, f.nodes, Holders(link)
  {
    && At(p, t, root, f) && f == KeyFrame(f.nodes) && Plug(p, t) == whole
    && link == LinkOf(p) && parent == ParentPtr(p) && Deref(link, root) == Ptr(t)
    && HoleLo(p, f.rank, 0) <= Key(id) < HoleHi(p, f.rank, IdSpace())
  }

  lemma StartReached(whole: Tree, id: Id, root: RbRoot, f: Frame)
    requires At(Top, whole, root, f) && f == KeyFrame(f.nodes)
    ensures Reached(Top, whole, whole, AtRoot, null, id, root, f)
  {
    IdBound(id);
    Fields(Top, whole, root, f);
  }

  /** One turn of the search, by the comparison with the subtree's node. */
  lemma StepReached(p: Path, t: Tree, whole: Tree, link: Link, parent: RbNode?, id: Id, root: RbRoot, f: Frame)
    requires Reached(p, t, whole, link, parent, id, root, f) && t.Node?
    ensures Key(id) < Key(t.n.id) ==>
              Reached(InLeft(p, t.color, t.n, t.right), t.left, whole, LeftOf(t.n), t.n, id, root, f)
    ensures Key(id) > Key(t.n.id) ==>
              Reached(InRight(p, t.color, t.n, t.left), t.right, whole, RightOf(t.n), t.n, id, root, f)
    ensures t.n in InOrder(whole)
  {
    hide At;
    Fields(p, t, root, f);
    ZipLeft(p, t, root, f);
    ZipRight(p, t, root, f);
    InOrderPlug(p, t);
  }

  /** The insertion search of rbtree.h and `f4op_add`: down to a node with this
      id, or to the one empty link where it belongs. */
  method Descend(id: Id, root: RbRoot, ghost whole: Tree, ghost f: Frame)
    returns (found: RbNode?, parent: RbNode?, link: Link, ghost p: Path)
    requires At(Top, whole, root, f) && f == KeyFrame(f.nodes)
    ensures found != null ==> found in InOrder(whole) && found.id == id
    ensures found == null ==>
              At(p, Leaf, root, f) && Plug(p, Leaf) == whole && link == LinkOf(p) && parent == ParentPtr(p)
    ensures found == null ==> HoleLo(p, f.rank, 0) <= Key(id) < HoleHi(p, f.rank, IdSpace())
  {
    hide At, InOrder, Plug;
    ghost var t := whole;
    parent, link, p := null, AtRoot, Top;
    StartReached(whole, id, root, f);
    while Deref(link, root) != null
      invariant Reached(p, t, whole, link, parent, id, root, f)
      decreases t
    {
      StepReached(p, t, whole, link, parent, id, root, f);
      hide Reached;
      parent := Deref(link, root);
      var comp := MemCmp(id, parent.id);
      if comp < 0 {
        link, p, t := LeftOf(parent), InLeft(p, t.color, t.n, t.right), t.left;
      } else if comp > 0 {
        link, p, t := RightOf(parent), InRight(p, t.color, t.n, t.left), t.right;
      } else {
        return parent, parent, link, p;
      }
    }
    found := null;
  }

  /** The plain search of rbtree.h and `f4op_find`. */
  method Search(id: Id, root: RbRoot, ghost whole: Tree, ghost f: Frame) returns (found: RbNode?)
    requires At(Top, whole, root, f) && f == KeyFrame(f.nodes)
    ensures found != null ==> found in InOrder(whole) && found.id == id
    ensures found == null ==> forall n :: n in InOrder(whole) ==> n.id != id
  {
    ghost var p, t := Top, whole;
    var n := root.node;
    IdBound(id);
    Fields(p, t, root, f);
    while n != null
      invariant At(p, t, root, f) && Plug(p, t) == whole && n == Ptr(t)
      invariant HoleLo(p, f.rank, 0) <= Key(id) < HoleHi(p, f.rank, IdSpace())
      decreases t
    {
      Fields(p, t, root, f);
      var comp := MemCmp(id, n.id);
      if comp < 0 {
        n := n.left;
        ZipLeft(p, t, root, f);
        p, t := InLeft(p, t.color, t.n, t.right), t.left;
      } else if comp > 0 {
        n := n.right;
        ZipRight(p, t, root, f);
        p, t := InRight(p, t.color, t.n, t.left), t.right;
      } else {
        InOrderPlug(p, t);
        return n;
      }
    }
    found := null;
    IdAbsent(id, p, f);
  }

  lemma IdAbsent(id: Id, p: Path, f: Frame)
    requires Placed(p, Leaf, f) && f == KeyFrame(f.nodes)
    requires HoleLo(p, f.rank, 0) <= Key(id) < HoleHi(p, f.rank, IdSpace())
    ensures forall n :: n in InOrder(Plug(p, Leaf)) ==> n.id != id
  {
    InOrderPlug(p, Leaf);
    BeforeBelow(p, f);
  }

  // -------------------------------------- the insert protocol of rbtree.h

  lemma OneNodeRanked(node: RbNode, rank: Rank, lo: int, hi: int)
    requires node in rank && lo <= rank[node] < hi
    ensures Ranked(RedLeaf(node), rank, lo, hi)
  {
    var t := RedLeaf(node);
    assert Ranked(t.left, rank, lo, rank[node]) && Ranked(t.right, rank, rank[node] + 1, hi);
  }

  lemma LeafFits(node: RbNode, p: Path, root: RbRoot, f: Frame)
    requires At(p, Leaf, root, f) && f == KeyFrame(f.nodes) && node in f.nodes
    requires HoleLo(p, f.rank, 0) <= Key(node.id) < HoleHi(p, f.rank, IdSpace())
    ensures Placed(p, RedLeaf(node), f)
    ensures forall n :: n in InOrder(Plug(p, Leaf)) ==> n.id != node.id
  {
    IdAbsent(node.id, p, f);
    assert node in f.rank && f.rank[node] == Key(node.id);
    OneNodeRanked(node, f.rank, HoleLo(p, f.rank, f.lo), HoleHi(p, f.rank, f.hi));
  }

  lemma LinkedOrder(p: Path, node: RbNode)
    ensures var was := InOrder(Plug(p, Leaf));
            |Before(p)| <= |was| && InOrder(Plug(p, RedLeaf(node))) == was[..|Before(p)|] + [node] + was[|Before(p)|..]
  {
    InOrderPlug(p, Leaf);
    InOrderPlug(p, RedLeaf(node));
    assert InOrder(RedLeaf(node)) == [node];
    hide InOrder, Before, After, Plug;
    assert InOrder(Plug(p, Leaf))[|Before(p)|..] == After(p);
  }

  /** Search, link as a red leaf, rebalance: a red-black search tree gains this
      node at its place, or the node already holding the id is returned. */
  method Insert(node: RbNode, root: RbRoot, ghost whole: Tree, ghost f: Frame)
    returns (found: RbNode?, ghost whole': Tree)
    requires At(Top, whole, root, f) && f == KeyFrame(f.nodes) && RedBlack(whole) && node in f.nodes
    modifies root, f.nodes
    ensures At(Top, whole', root, f) && RedBlack(whole')
    ensures found != null ==> found in InOrder(whole) && found.id == node.id && whole' == whole
    ensures found == null ==> forall n :: n in InOrder(whole) ==> n.id != node.id
    ensures found == null ==>
      exists i :: 0 <= i <= |InOrder(whole)| && InOrder(whole') == InOrder(whole)[..i] + [node] + InOrder(whole)[i..]
  {
    var parent, link;
    ghost var p;
    found, parent, link, p := Descend(node.id, root, whole, f);
    whole' := whole;
    if found == null {
      LeafFits(node, p, root, f);
      ghost var h := RedBlackUnplug(p, Leaf);
      LinkedOrder(p, node);
      hide At, Placed, Balanced, BalancedPath, RedBlack, InOrder;
      LinkNode(node, parent, link, root, p, f);
      whole' := InsertColor(node, root, p, f);
    }
  }
}

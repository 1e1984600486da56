/** Taking a node out of its place: `rb_erase` and `rb_replace_node`. */
module RbRemove {
  import opened RbShape
  import opened RbBalance
  import opened RbErase
  import opened RbWalk

  // ------------------------------------------------ one level down

  lemma KidsRanked(t: Tree, rank: Rank, lo: int, hi: int)
    requires t.Node? && Ranked(t, rank, lo, hi)
    ensures t.n in rank && lo <= rank[t.n] < hi
    ensures Ranked(t.left, rank, lo, rank[t.n]) && Ranked(t.right, rank, rank[t.n] + 1, hi)
    ensures t.left.Node? ==> t.left.n in rank && lo <= rank[t.left.n] < rank[t.n]
    ensures t.right.Node? ==> t.right.n in rank && rank[t.n] < rank[t.right.n] < hi
  {
  }

  lemma KidsIn(t: Tree, parent: RbNode?, s: Store)
    requires t.Node? && TreeIn(t, parent, s)
    ensures t.n in s && s[t.n] == Cell(t.color, parent, Ptr(t.left), Ptr(t.right))
    ensures TreeIn(t.left, t.n, s) && TreeIn(t.right, t.n, s)
    ensures t.left.Node? ==> t.left.n in s && s[t.left.n].parent == t.n
    ensures t.right.Node? ==> t.right.n in s && s[t.right.n].parent == t.n
  {
  }

  // ------------------------------------------------ closing the gap

  lemma SplicedLinks(p: Path, t: Tree, c: Tree, top: RbNode?, top': RbNode?, s: Store, s': Store, f: Frame)
    requires t.Node? && Placed(p, t, f) && TreeIn(t, ParentPtr(p), s) && PathIn(p, t.n, top, s)
    requires c in {t.left, t.right} && SameBut(s, s', {Ptr(c), ParentPtr(p)})
    requires c.Node? ==> c.n in s && c.n in s' && s'[c.n] == s[c.n].(parent := ParentPtr(p))
    requires Refilled(p, top, Ptr(c), top', s, s')
    ensures Placed(p, c, f) && TreeIn(c, ParentPtr(p), s') && PathIn(p, Ptr(c), top', s')
  {
    var lo, hi := HoleLo(p, f.rank, f.lo), HoleHi(p, f.rank, f.hi);
    ChildRanked(t, f.rank, lo, hi);
    ParentOutside(p, f);
    assert TreeIn(c, t.n, s);
    assert c.Node? ==> c.n in f.rank && lo <= f.rank[c.n] < hi;
    hide Ranked, RankedPath, TreeIn, PathIn;
    MoveTree(c, t.n, ParentPtr(p), s, s', {Ptr(c), ParentPtr(p)}, f.rank, lo, hi);
    RefillPath(p, t.n, top, Ptr(c), top', s, s', {Ptr(c), ParentPtr(p)}, f.rank, f.lo, f.hi);
  }

  lemma ChildRanked(t: Tree, rank: Rank, lo: int, hi: int)
    requires t.Node? && Ranked(t, rank, lo, hi)
    ensures Ranked(t.left, rank, lo, hi) && Ranked(t.right, rank, lo, hi)
  {
    WidenRanked(t.left, rank, lo, rank[t.n], lo, hi);
    WidenRanked(t.right, rank, rank[t.n] + 1, hi, lo, hi);
  }

  lemma {:induction false} WidenRanked(t: Tree, rank: Rank, lo: int, hi: int, lo': int, hi': int)
    requires Ranked(t, rank, lo, hi) && lo' <= lo && hi <= hi'
    ensures Ranked(t, rank, lo', hi')
  {
    if t.Node? {
      WidenRanked(t.left, rank, lo, rank[t.n], lo', rank[t.n]);
      WidenRanked(t.right, rank, rank[t.n] + 1, hi, rank[t.n] + 1, hi');
    }
  }

  /** The field updates: `node` is bypassed. */
  method SpliceUpdates(node: RbNode, child: RbNode?, root: RbRoot) returns (parent: RbNode?, color: Color)
    requires node != child && node.parent != node && (child != null ==> child != node.parent)
    modifies root, Nodes({child, node.parent})
    ensures parent == old(node.parent) && color == old(node.color) && node.parent == parent
    ensures child != null ==> CellOf(child) == old(CellOf(child)).(parent := parent)
    ensures parent != null ==> CellOf(parent) == HungLeftFirst(old(CellOf(node.parent)), node, child)
    ensures root.node == if parent == null then child else old(root.node)
  {
    parent := node.parent;
    color := node.color;
    Adopt(child, parent);
    Relink(node, child, parent, root);
  }

  /** A node with at most one child gives its place to that child. */
  method SpliceOut(node: RbNode, child: RbNode?, root: RbRoot, ghost p: Path, ghost t: Tree, ghost c: Tree,
                   ghost f: Frame)
    returns (parent: RbNode?, color: Color)
    requires At(p, t, root, f) && t.Node? && t.n == node && c in {t.left, t.right} && child == Ptr(c)
    modifies root, f.nodes
    ensures At(p, c, root, f) && parent == ParentPtr(p) && color == t.color && node.parent == parent
  {
    ghost var s, top := Snap(f.nodes), root.node;
    SpliceFields(p, t, root, f);
    hide At, Placed, TreeIn, PathIn;
    parent, color := SpliceUpdates(node, child, root);
    ghost var s' := Snap(f.nodes);
    SplicedLinks(p, t, c, top, root.node, s, s', f);
    PutBack(p, c, root, f);
  }

  /** The parts of `At`. */
  lemma PutBack(p: Path, t: Tree, root: RbRoot, f: Frame)
    ensures At(p, t, root, f) <==>
      Placed(p, t, f) && TreeIn(t, ParentPtr(p), Snap(f.nodes)) && PathIn(p, Ptr(t), root.node, Snap(f.nodes))
  {
  }

  /** What the code around a node reads, and which of it may coincide. */
  lemma SpliceFields(p: Path, t: Tree, root: RbRoot, f: Frame)
    requires At(p, t, root, f) && t.Node?
    ensures Placed(p, t, f) && TreeIn(t, ParentPtr(p), Snap(f.nodes)) && PathIn(p, t.n, root.node, Snap(f.nodes))
    ensures t.n in f.nodes && CellOf(t.n) == Cell(t.color, ParentPtr(p), Ptr(t.left), Ptr(t.right))
    ensures !p.Top? ==> p.n in f.nodes && p.n !in {t.n, Ptr(t.left), Ptr(t.right)} && t.n != Ptr(p.sibling)
    ensures p.InLeft? ==> p.n.left == t.n
    ensures p.InRight? ==> p.n.right == t.n && p.n.left != t.n
    ensures t.left.Node? ==> t.left.n in f.nodes && t.left.n != t.n && t.left.n != Ptr(t.right)
    ensures t.right.Node? ==> t.right.n in f.nodes && t.right.n != t.n
  {
    Fields(p, t, root, f);
    ChildFields(p, t, root, f);
    ChildNotHolder(p, t, f);
  }

  lemma ChildNotHolder(p: Path, t: Tree, f: Frame)
    requires t.Node? && Placed(p, t, f)
    ensures !p.Top? ==> p.n != Ptr(t.left) && p.n != Ptr(t.right)
  {
    ParentOutside(p, f);
    KidsRanked(t, f.rank, HoleLo(p, f.rank, f.lo), HoleHi(p, f.rank, f.hi));
  }

  // ----------------------------------------- one node in place of another

  /** The cells around an exchange of t's root for `heir`. */
  ghost predicate Exchanged(p: Path, t: Tree, heir: RbNode, s: Store, s': Store)
    requires t.Node?
  {
    && SameBut(s, s', {heir, ParentPtr(p), Ptr(t.left), Ptr(t.right)})
    && t.n in s && heir in s' && s'[heir] == s[t.n]
    && (t.left.Node? ==> t.left.n in s && t.left.n in s' && s'[t.left.n] == s[t.left.n].(parent := heir))
    && (t.right.Node? ==> t.right.n in s && t.right.n in s' && s'[t.right.n] == s[t.right.n].(parent := heir))
  }

  lemma ReplacedKids(p: Path, t: Tree, heir: RbNode, s: Store, s': Store, f: Frame)
    requires t.Node? && Placed(p, t, f) && Placed(p, t.(n := heir), f)
    requires TreeIn(t, ParentPtr(p), s) && Exchanged(p, t, heir, s, s')
    ensures TreeIn(t.(n := heir), ParentPtr(p), s')
  {
    var lo, hi := HoleLo(p, f.rank, f.lo), HoleHi(p, f.rank, f.hi);
    var w: set<RbNode?> := {heir, ParentPtr(p), Ptr(t.left), Ptr(t.right)};
    ParentOutside(p, f);
    KidsRanked(t, f.rank, lo, hi);
    KidsRanked(t.(n := heir), f.rank, lo, hi);
    KidsIn(t, ParentPtr(p), s);
    assert TreeIn(t.left, heir, s') && TreeIn(t.right, heir, s') by {
      hide TreeIn, Ranked, RankedPath, HoleLo, HoleHi;
      MoveTree(t.left, t.n, heir, s, s', w, f.rank, lo, f.rank[heir]);
      MoveTree(t.right, t.n, heir, s, s', w, f.rank, f.rank[heir] + 1, hi);
    }
    hide Ranked, RankedPath, HoleLo, HoleHi;
  }

  lemma ReplacedPath(p: Path, t: Tree, heir: RbNode, top: RbNode?, top': RbNode?, s: Store, s': Store, f: Frame)
    requires t.Node? && Placed(p, t, f) && Placed(p, t.(n := heir), f)
    requires PathIn(p, t.n, top, s) && Exchanged(p, t, heir, s, s') && Refilled(p, top, heir, top', s, s')
    ensures PathIn(p, heir, top', s')
  {
    KidsRanked(t, f.rank, HoleLo(p, f.rank, f.lo), HoleHi(p, f.rank, f.hi));
    KidsRanked(t.(n := heir), f.rank, HoleLo(p, f.rank, f.lo), HoleHi(p, f.rank, f.hi));
    hide PathIn, Ranked, RankedPath, HoleLo, HoleHi;
    RefillPath(p, t.n, top, heir, top', s, s', {heir, ParentPtr(p), Ptr(t.left), Ptr(t.right)}, f.rank, f.lo, f.hi);
  }

  /** `heir` is distinct from everything around the place it will take. */
  predicate Fits(heir: RbNode, p: Path, t: Tree, f: Frame)
  {
    t.Node? && heir in f.nodes && heir != t.n && Placed(p, t.(n := heir), f)
  }

  lemma HeirApart(heir: RbNode, p: Path, t: Tree, f: Frame)
    requires Fits(heir, p, t, f) && Placed(p, t, f)
    ensures heir !in {ParentPtr(p), Ptr(t.left), Ptr(t.right)}
  {
    ParentOutside(p, f);
    KidsRanked(t, f.rank, HoleLo(p, f.rank, f.lo), HoleHi(p, f.rank, f.hi));
    KidsRanked(t.(n := heir), f.rank, HoleLo(p, f.rank, f.lo), HoleHi(p, f.rank, f.hi));
  }

  /** `rb_replace_node`: the field updates. */
  method ReplaceFields(victim: RbNode, rbnew: RbNode, root: RbRoot)
    requires rbnew !in {victim, victim.parent, victim.left, victim.right}
      && victim !in {victim.parent, victim.left, victim.right}
    requires victim.left != null ==> victim.left !in {victim.right, victim.parent}
    requires victim.right != null ==> victim.right != victim.parent
    modifies root, Nodes({rbnew, victim.parent, victim.left, victim.right})
    ensures CellOf(rbnew) == old(CellOf(victim))
    ensures victim.left != null ==> CellOf(victim.left) == old(CellOf(victim.left)).(parent := rbnew)
    ensures victim.right != null ==> CellOf(victim.right) == old(CellOf(victim.right)).(parent := rbnew)
    ensures victim.parent != null ==> CellOf(victim.parent) == HungLeftFirst(old(CellOf(victim.parent)), victim, rbnew)
    ensures root.node == if victim.parent == null then rbnew else old(root.node)
  {
    var parent := victim.parent;
    Relink(victim, rbnew, parent, root);
    Adopt(victim.left, rbnew);
    Adopt(victim.right, rbnew);
    rbnew.parent, rbnew.right, rbnew.left, rbnew.color := victim.parent, victim.right, victim.left, victim.color;
  }

  /** `rb_replace_node`: the tree it makes. */
  method ReplaceNode(victim: RbNode, rbnew: RbNode, root: RbRoot, ghost p: Path, ghost t: Tree, ghost f: Frame)
    requires At(p, t, root, f) && t.Node? && t.n == victim && Fits(rbnew, p, t, f)
    modifies root, f.nodes
    ensures At(p, t.(n := rbnew), root, f)
  {
    hide At, Placed, TreeIn, PathIn;
    ghost var s, top := Snap(f.nodes), root.node;
    SpliceFields(p, t, root, f);
    HeirApart(rbnew, p, t, f);
    ReplaceFields(victim, rbnew, root);
    ReplacedKids(p, t, rbnew, s, Snap(f.nodes), f);
    ReplacedPath(p, t, rbnew, top, root.node, s, Snap(f.nodes), f);
    PutBack(p, t.(n := rbnew), root, f);
  }

  /** The same exchange as `rb_erase` performs it, the copy first. */
  method TakePlaceFields(old_: RbNode, node: RbNode, root: RbRoot)
    requires node !in {old_, old_.parent, old_.left, old_.right} && old_ !in {old_.parent, old_.left, old_.right}
    requires old_.left != null && old_.left !in {old_.right, old_.parent}
    requires old_.right != null ==> old_.right != old_.parent
    modifies root, Nodes({node, old_.parent, old_.left, old_.right})
    ensures CellOf(node) == old(CellOf(old_))
    ensures old_.left != null && CellOf(old_.left) == old(CellOf(old_.left)).(parent := node)
    ensures old_.right != null ==> CellOf(old_.right) == old(CellOf(old_.right)).(parent := node)
    ensures old_.parent != null ==> CellOf(old_.parent) == HungLeftFirst(old(CellOf(old_.parent)), old_, node)
    ensures root.node == if old_.parent == null then node else old(root.node)
  {
    node.parent := old_.parent;
    node.color := old_.color;
    node.right := old_.right;
    node.left := old_.left;
    Relink(old_, node, old_.parent, root);
    old_.left.parent := node;
    Adopt(old_.right, node);
  }

  method TakePlace(old_: RbNode, node: RbNode, root: RbRoot, ghost p: Path, ghost t: Tree, ghost f: Frame)
    requires At(p, t, root, f) && t.Node? && t.n == old_ && t.left.Node? && Fits(node, p, t, f)
    modifies root, f.nodes
    ensures At(p, t.(n := node), root, f)
  {
    ghost var s, top := Snap(f.nodes), root.node;
    SpliceFields(p, t, root, f);
    HeirApart(node, p, t, f);
    hide At, Placed, TreeIn, PathIn;
    TakePlaceFields(old_, node, root);
    ReplacedKids(p, t, node, s, Snap(f.nodes), f);
    ReplacedPath(p, t, node, top, root.node, s, Snap(f.nodes), f);
    PutBack(p, t.(n := node), root, f);
  }

  // ------------------------------------------------------ the successor

  /** t with the subtree at its first node exchanged for x. */
  function WithMin(t: Tree, x: Tree): Tree
    requires t.Node?
  {
    if t.left.Leaf? then x else t.(left := WithMin(t.left, x))
  }

  /** t without its first node. */
  function DropMin(t: Tree): Tree
    requires t.Node?
  {
    WithMin(t, MinTree(t).right)
  }

  lemma {:induction false} DropMinOrder(t: Tree)
    requires t.Node?
    ensures InOrder(t) == [MinTree(t).n] + InOrder(DropMin(t))
  {
    if t.left.Node? {
      DropMinOrder(t.left);
      assert InOrder(DropMin(t)) == InOrder(DropMin(t.left)) + [t.n] + InOrder(t.right);
    }
  }

  lemma {:induction false} DropMinRanked(t: Tree, rank: Rank, lo: int, hi: int)
    requires t.Node? && Ranked(t, rank, lo, hi)
    ensures var m := MinTree(t).n; m in rank && lo <= rank[m] < hi && Ranked(DropMin(t), rank, rank[m] + 1, hi)
  {
    if t.left.Node? {
      DropMinRanked(t.left, rank, lo, rank[t.n]);
    }
  }

  lemma {:induction false} PlugSpine(b: Path, t: Tree, x: Tree)
    requires t.Node?
    ensures Plug(LeftSpine(b, t), x) == Plug(b, WithMin(t, x))
    decreases t
  {
    if t.left.Node? {
      PlugSpine(InLeft(b, t.color, t.n, t.right), t.left, x);
    }
  }

  lemma {:induction false} SpineUp(b: Path, t: Tree, x: Tree, root: RbRoot, f: Frame)
    requires t.Node? && At(LeftSpine(b, t), x, root, f)
    ensures At(b, WithMin(t, x), root, f)
    decreases t
  {
    if t.left.Node? {
      SpineUp(InLeft(b, t.color, t.n, t.right), t.left, x, root, f);
      ZipUp(InLeft(b, t.color, t.n, t.right), WithMin(t.left, x), root, f);
    }
  }

  lemma {:induction false} SpineDown(b: Path, t: Tree, x: Tree, root: RbRoot, f: Frame)
    requires t.Node? && At(b, WithMin(t, x), root, f)
    ensures At(LeftSpine(b, t), x, root, f)
    decreases t
  {
    if t.left.Node? {
      ZipLeft(b, WithMin(t, x), root, f);
      SpineDown(InLeft(b, t.color, t.n, t.right), t.left, x, root, f);
    }
  }

  /** Whose child the first node is: the holder's when the subtree has no left. */
  lemma {:induction false} SpineHolder(b: Path, b': Path, t: Tree, rank: Rank, lo: int, hi: int)
    requires t.Node? && Ranked(t, rank, lo, hi)
    ensures t.left.Leaf? ==> LeftSpine(b, t) == b && LeftSpine(b', t) == b'
    ensures t.left.Node? ==> ParentPtr(LeftSpine(b, t)) == ParentPtr(LeftSpine(b', t)) != null
    ensures t.left.Node? ==> var n := ParentPtr(LeftSpine(b, t)); n in rank && lo <= rank[n]
    decreases t
  {
    if t.left.Node? {
      SpineHolder(InLeft(b, t.color, t.n, t.right), InLeft(b', t.color, t.n, t.right), t.left, rank, lo, rank[t.n]);
    }
  }

  /** Balance looks at colours only: it is the same below two nodes of one colour. */
  lemma {:induction false} SpineBalance(b: Path, b': Path, t: Tree, h: int)
    requires t.Node? && BalancedPath(LeftSpine(b, t), h)
    requires forall k :: BalancedPath(b, k) ==> BalancedPath(b', k)
    requires !b.Top? && !b'.Top? && b.color == b'.color
    ensures BalancedPath(LeftSpine(b', t), h)
    decreases t
  {
    if t.left.Node? {
      var c, c' := InLeft(b, t.color, t.n, t.right), InLeft(b', t.color, t.n, t.right);
      forall k ensures BalancedPath(c, k) ==> BalancedPath(c', k) {
      }
      SpineBalance(c, c', t.left, h);
    }
  }

  lemma HeirFits(p: Path, t: Tree, f: Frame)
    requires t.Node? && t.left.Node? && t.right.Node? && Placed(p, t, f) && MinTree(t.right).n in f.nodes
    ensures var m := MinTree(t.right).n;
            Fits(m, p, t.(right := DropMin(t.right)), f) && m != t.n
  {
    var lo, hi := HoleLo(p, f.rank, f.lo), HoleHi(p, f.rank, f.hi);
    var m := MinTree(t.right).n;
    DropMinRanked(t.right, f.rank, f.rank[t.n] + 1, hi);
    WidenRanked(t.left, f.rank, lo, f.rank[t.n], lo, f.rank[m]);
  }

  lemma HolderTest(p: Path, t: Tree, heir: RbNode, f: Frame)
    requires t.Node? && t.right.Node? && Placed(p, t, f)
    ensures var b, b' := InRight(p, t.color, t.n, t.left), InRight(p, t.color, heir, t.left);
            var n := ParentPtr(LeftSpine(b, t.right));
            ParentPtr(LeftSpine(b', t.right)) == if n == t.n then heir else n
  {
    SpineHolder(InRight(p, t.color, t.n, t.left), InRight(p, t.color, heir, t.left), t.right,
                f.rank, f.rank[t.n] + 1, HoleHi(p, f.rank, f.hi));
  }

  /** Two children: the in-order successor is spliced out and takes the place of
      the erased node, with its colour. */
  method SpliceSuccessor(old_: RbNode, root: RbRoot, ghost p: Path, ghost t: Tree, ghost f: Frame)
    returns (child: RbNode?, parent: RbNode?, color: Color, ghost q: Path, ghost u: Tree)
    requires At(p, t, root, f) && t.Node? && t.n == old_ && t.left.Node? && t.right.Node?
    modifies root, f.nodes
    ensures At(q, u, root, f) && child == Ptr(u) && parent == ParentPtr(q)
    ensures var m := MinTree(t.right);
            color == m.color && u == m.right && q == LeftSpine(InRight(p, t.color, m.n, t.left), t.right)
  {
    ghost var base := InRight(p, t.color, old_, t.left);
    Fields(p, t, root, f);
    ZipRight(p, t, root, f);
    assert Placed(p, t, f);
    var node;
    ghost var q0, m;
    node, q0, m := GoLeft(old_.right, root, base, t.right, f);
    u := m.right;
    Fields(q0, m, root, f);
    HeirFits(p, t, f);
    HolderTest(p, t, node, f);
    hide At, Placed, LeftSpine, MinTree, DropMin, WithMin;
    child := node.right;
    parent, color := SpliceOut(node, child, root, q0, m, u, f);
    SuccessorOut(p, t, u, root, f);
    if node.parent == old_ {
      parent := node;
    }
    TakePlace(old_, node, root, p, t.(right := DropMin(t.right)), f);
    SuccessorIn(p, t, node, u, root, f);
    q := LeftSpine(InRight(p, t.color, node, t.left), t.right);
  }

  lemma SuccessorOut(p: Path, t: Tree, u: Tree, root: RbRoot, f: Frame)
    requires t.Node? && t.right.Node? && u == MinTree(t.right).right
    requires At(LeftSpine(InRight(p, t.color, t.n, t.left), t.right), u, root, f)
    ensures At(p, t.(right := DropMin(t.right)), root, f)
  {
    var base := InRight(p, t.color, t.n, t.left);
    SpineUp(base, t.right, u, root, f);
    ZipUp(base, DropMin(t.right), root, f);
  }

  lemma SuccessorIn(p: Path, t: Tree, node: RbNode, u: Tree, root: RbRoot, f: Frame)
    requires t.Node? && t.right.Node? && u == MinTree(t.right).right
    requires At(p, t.(n := node, right := DropMin(t.right)), root, f)
    ensures At(LeftSpine(InRight(p, t.color, node, t.left), t.right), u, root, f)
  {
    ZipRight(p, t.(n := node, right := DropMin(t.right)), root, f);
    SpineDown(InRight(p, t.color, node, t.left), t.right, u, root, f);
  }

  // ------------------------------------------------------------ rb_erase

  /** Where a node is missing once t's root has been unlinked, what hangs
      there, and the colour that was lost. */
  function HolePath(p: Path, t: Tree): Path
    requires t.Node?
  {
    if t.left.Leaf? || t.right.Leaf? then p else LeftSpine(InRight(p, t.color, MinTree(t.right).n, t.left), t.right)
  }

  function HoleTree(t: Tree): Tree
    requires t.Node?
  {
    if t.left.Leaf? then t.right else if t.right.Leaf? then t.left else MinTree(t.right).right
  }

  function LostColor(t: Tree): Color
    requires t.Node?
  {
    if t.left.Leaf? || t.right.Leaf? then t.color else MinTree(t.right).color
  }

  lemma ErasedOrder(p: Path, t: Tree)
    requires t.Node?
    ensures var order, i := InOrder(Plug(p, t)), Index(p, t);
            i < |order| && InOrder(Plug(HolePath(p, t), HoleTree(t))) == order[..i] + order[i + 1..]
  {
    IndexSplits(p, t);
    HoleOrder(p, t);
    JoinParts(Before(p), InOrder(t.left), InOrder(t.right), After(p));
  }

  lemma HoleOrder(p: Path, t: Tree)
    requires t.Node?
    ensures InOrder(Plug(HolePath(p, t), HoleTree(t))) == Before(p) + (InOrder(t.left) + InOrder(t.right)) + After(p)
  {
    if t.left.Leaf? || t.right.Leaf? {
      InOrderPlug(p, HoleTree(t));
      assert InOrder(HoleTree(t)) == InOrder(t.left) + InOrder(t.right);
    } else {
      var m := MinTree(t.right).n;
      var g := Node(t.color, t.left, m, DropMin(t.right));
      assert Plug(HolePath(p, t), HoleTree(t)) == Plug(p, g) by {
        PlugSpine(InRight(p, t.color, m, t.left), t.right, HoleTree(t));
      }
      DropMinOrder(t.right);
      NodeOrder(t.color, t.left, m, DropMin(t.right));
      hide InOrder, Plug, HolePath, HoleTree, MinTree, DropMin, Before, After;
      InOrderPlug(p, g);
      assert InOrder(g) == InOrder(t.left) + InOrder(t.right);
    }
  }

  lemma JoinParts(a: seq<RbNode>, b: seq<RbNode>, c: seq<RbNode>, d: seq<RbNode>)
    ensures a + (b + c) + d == (a + b) + (c + d)
  {
  }

  /** In a red-black tree a lost red node unbalances nothing, a lost black one
      leaves a deficit of one. */
  lemma ErasedBalance(p: Path, t: Tree) returns (h: int)
    requires t.Node? && RedBlack(Plug(p, t))
    ensures LostColor(t) == Red ==> RedBlack(Plug(HolePath(p, t), HoleTree(t)))
    ensures LostColor(t) == Black ==> Almost(HoleTree(t), h) && BalancedPath(HolePath(p, t), h + 1)
  {
    var q, u := HolePath(p, t), HoleTree(t);
    if t.left.Node? && t.right.Node? {
      var b, b' := InRight(p, t.color, t.n, t.left), InRight(p, t.color, MinTree(t.right).n, t.left);
      var m := MinTree(t.right);
      LeftSpineOrder(b, t.right);
      h := RedBlackUnplug(LeftSpine(b, t.right), m);
      SpineBalance(b, b', t.right, h);
      SpineBelow(b', t.right);
      if m.color == Red {
        RedBlackPlug(q, u, h);
      } else {
        h := h - 1;
      }
    } else {
      h := RedBlackUnplug(p, t);
      if t.color == Red {
        RedBlackPlug(p, u, h);
      } else {
        h := h - 1;
      }
    }
  }

  lemma {:induction false} SpineBelow(b: Path, t: Tree)
    requires t.Node? && !b.Top?
    ensures !LeftSpine(b, t).Top?
    decreases t
  {
    if t.left.Node? { SpineBelow(InLeft(b, t.color, t.n, t.right), t.left); }
  }

  /** Trees no call of `rb_insert_color` ever touched. */
  predicate AllRed(t: Tree)
  {
    t.Node? ==> t.color == Red && AllRed(t.left) && AllRed(t.right)
  }

  predicate AllRedPath(p: Path)
  {
    match p
    case Top => true
    case InLeft(up, c, _, s) => c == Red && AllRed(s) && AllRedPath(up)
    case InRight(up, c, _, s) => c == Red && AllRed(s) && AllRedPath(up)
  }

  lemma {:induction false} AllRedPlug(p: Path, t: Tree)
    ensures AllRed(Plug(p, t)) <==> AllRedPath(p) && AllRed(t)
    decreases p
  {
    if !p.Top? { AllRedPlug(p.up, Wrap(p, t)); }
  }

  lemma {:induction false} AllRedSpine(t: Tree)
    requires t.Node? && AllRed(t)
    ensures MinTree(t).color == Red && AllRed(DropMin(t))
  {
    if t.left.Node? { AllRedSpine(t.left); }
  }

  lemma ErasedAllRed(p: Path, t: Tree)
    requires t.Node? && AllRed(Plug(p, t))
    ensures LostColor(t) == Red && AllRed(Plug(HolePath(p, t), HoleTree(t)))
  {
    AllRedPlug(p, t);
    if t.left.Node? && t.right.Node? {
      AllRedSpine(t.right);
      PlugSpine(InRight(p, t.color, MinTree(t.right).n, t.left), t.right, HoleTree(t));
      AllRedPlug(p, Node(t.color, t.left, MinTree(t.right).n, DropMin(t.right)));
    } else {
      AllRedPlug(p, HoleTree(t));
    }
  }

  /** `rb_erase` up to its label: the node is unlinked, nothing is recoloured. */
  method Unlink(node: RbNode, root: RbRoot, ghost p: Path, ghost t: Tree, ghost f: Frame)
    returns (child: RbNode?, parent: RbNode?, color: Color)
    requires At(p, t, root, f) && t.Node? && t.n == node
    modifies root, f.nodes
    ensures At(HolePath(p, t), HoleTree(t), root, f) && color == LostColor(t)
    ensures child == Ptr(HoleTree(t)) && parent == ParentPtr(HolePath(p, t))
  {
    Fields(p, t, root, f);
    if node.left == null {
      child := node.right;
      parent, color := SpliceOut(node, child, root, p, t, t.right, f);
    } else if node.right == null {
      child := node.left;
      parent, color := SpliceOut(node, child, root, p, t, t.left, f);
    } else {
      ghost var q, u;
      child, parent, color, q, u := SpliceSuccessor(node, root, p, t, f);
    }
  }

  /** `rb_erase`: exactly this node leaves the sequence. A red-black tree stays
      one, and so does a tree of red nodes alone. */
  method Erase(node: RbNode, root: RbRoot, ghost p: Path, ghost t: Tree, ghost f: Frame) returns (ghost whole: Tree)
    requires At(p, t, root, f) && t.Node? && t.n == node
    requires RedBlack(Plug(p, t)) || AllRed(Plug(p, t))
    modifies root, f.nodes
    ensures At(Top, whole, root, f)
    ensures var order, i := InOrder(Plug(p, t)), Index(p, t);
            i < |order| && order[i] == node && InOrder(whole) == order[..i] + order[i + 1..]
    ensures RedBlack(Plug(p, t)) ==> RedBlack(whole)
    ensures AllRed(Plug(p, t)) ==> AllRed(whole)
  {
    IndexSplits(p, t);
    ErasedOrder(p, t);
    var child, parent, color := Unlink(node, root, p, t, f);
    ghost var q, u, h := HolePath(p, t), HoleTree(t), 0;
    if RedBlack(Plug(p, t)) {
      h := ErasedBalance(p, t);
    }
    if AllRed(Plug(p, t)) {
      ErasedAllRed(p, t);
    }
    hide At, Almost, Balanced, BalancedPath, RedBlack, AllRed, HolePath, HoleTree, InOrder, Index, LostColor;
    if color == Black {
      whole := EraseColor(child, parent, root, q, u, h, f);
    } else {
      ZipTop(q, u, root, f);
      whole := Plug(q, u);
    }
  }
}

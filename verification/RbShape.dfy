/** The shape of a tree of rbtree.c as a value: trees, the paths that lead to a
    position in one, and how both lie in the heap. */
module RbShape {
  import opened Ids

  datatype Color = Red | Black

  /** `struct rb_node`, with the key of the structure it is embedded in. */
  class RbNode {
    var parent: RbNode?
    var right: RbNode?
    var left: RbNode?
    var color: Color
    const id: Id

    constructor (id: Id)
      ensures this.id == id
    {
      this.id := id;
      parent, right, left, color := null, null, null, Red;
    }
  }

  /** `struct rb_root`. */
  class RbRoot {
    var node: RbNode?

    constructor ()
      ensures node == null
    {
      node := null;
    }
  }

  datatype Tree = Leaf | Node(color: Color, left: Tree, n: RbNode, right: Tree)

  /** The way from a position up to the root. */
  datatype Path =
    | Top
    | InLeft(up: Path, color: Color, n: RbNode, sibling: Tree)
    | InRight(up: Path, color: Color, n: RbNode, sibling: Tree)

  function Ptr(t: Tree): RbNode?
  {
    if t.Leaf? then null else t.n
  }

  function ParentPtr(p: Path): RbNode?
  {
    if p.Top? then null else p.n
  }

  /** One step up. */
  function Wrap(p: Path, t: Tree): Tree
    requires !p.Top?
  {
    if p.InLeft? then Node(p.color, t, p.n, p.sibling) else Node(p.color, p.sibling, p.n, t)
  }

  function Plug(p: Path, t: Tree): Tree
  {
    if p.Top? then t else Plug(p.up, Wrap(p, t))
  }

  // -------------------------------------------------------- in order

  function InOrder(t: Tree): seq<RbNode>
  {
    if t.Leaf? then [] else InOrder(t.left) + [t.n] + InOrder(t.right)
  }

  /** The nodes before and after the position a path leads to. */
  function Before(p: Path): seq<RbNode>
  {
    match p
    case Top => []
    case InLeft(up, _, _, _) => Before(up)
    case InRight(up, _, n, l) => Before(up) + InOrder(l) + [n]
  }

  function After(p: Path): seq<RbNode>
  {
    match p
    case Top => []
    case InLeft(up, _, n, r) => [n] + InOrder(r) + After(up)
    case InRight(up, _, _, _) => After(up)
  }

  lemma {:induction false} InOrderPlug(p: Path, t: Tree)
    ensures InOrder(Plug(p, t)) == Before(p) + InOrder(t) + After(p)
    decreases p
  {
    if !p.Top? {
      InOrderPlug(p.up, Wrap(p, t));
    }
  }

  // ---------------------------------------------------------- ranks

  /** A numbering that increases in order keeps the parts of a tree apart: what
      lies in an interval of ranks is untouched by writes outside it. */
  type Rank = map<RbNode, int>

  predicate Ranked(t: Tree, rank: Rank, lo: int, hi: int)
  {
    t.Node? ==>
      && t.n in rank && lo <= rank[t.n] < hi
      && Ranked(t.left, rank, lo, rank[t.n]) && Ranked(t.right, rank, rank[t.n] + 1, hi)
  }

  /** The interval of ranks a path leaves to its hole, within [lo, hi). */
  function HoleLo(p: Path, rank: Rank, lo: int): int
  {
    match p
    case Top => lo
    case InLeft(up, _, _, _) => HoleLo(up, rank, lo)
    case InRight(_, _, n, _) => if n in rank then rank[n] + 1 else lo
  }

  function HoleHi(p: Path, rank: Rank, hi: int): int
  {
    match p
    case Top => hi
    case InLeft(_, _, n, _) => if n in rank then rank[n] else hi
    case InRight(up, _, _, _) => HoleHi(up, rank, hi)
  }

  predicate RankedPath(p: Path, rank: Rank, lo: int, hi: int)
  {
    match p
    case Top => true
    case InLeft(up, _, n, r) =>
      && n in rank && HoleLo(up, rank, lo) <= rank[n] < HoleHi(up, rank, hi)
      && Ranked(r, rank, rank[n] + 1, HoleHi(up, rank, hi)) && RankedPath(up, rank, lo, hi)
    case InRight(up, _, n, l) =>
      && n in rank && HoleLo(up, rank, lo) <= rank[n] < HoleHi(up, rank, hi)
      && Ranked(l, rank, HoleLo(up, rank, lo), rank[n]) && RankedPath(up, rank, lo, hi)
  }

  // ------------------------------------------------ links, as a value

  /** The fields of one node. */
  datatype Cell = Cell(color: Color, parent: RbNode?, left: RbNode?, right: RbNode?)

  type Store = map<RbNode, Cell>

  predicate TreeIn(t: Tree, parent: RbNode?, m: Store)
  {
    t.Node? ==>
      && t.n in m && m[t.n] == Cell(t.color, parent, Ptr(t.left), Ptr(t.right))
      && TreeIn(t.left, t.n, m) && TreeIn(t.right, t.n, m)
  }

  predicate PathIn(p: Path, hole: RbNode?, top: RbNode?, m: Store)
  {
    match p
    case Top => top == hole
    case InLeft(up, c, n, r) =>
      && n in m && m[n] == Cell(c, ParentPtr(up), hole, Ptr(r))
      && TreeIn(r, n, m) && PathIn(up, n, top, m)
    case InRight(up, c, n, l) =>
      && n in m && m[n] == Cell(c, ParentPtr(up), Ptr(l), hole)
      && TreeIn(l, n, m) && PathIn(up, n, top, m)
  }

  /** The writes were confined to the nodes in `written`. */
  predicate SameBut(m: Store, m': Store, written: set<RbNode?>)
  {
    forall n :: n in m && n !in written ==> n in m' && m'[n] == m[n]
  }

  /** None of them has a rank in [lo, hi). */
  predicate Outside(written: set<RbNode?>, rank: Rank, lo: int, hi: int)
  {
    forall n: RbNode :: n in written && n in rank ==> !(lo <= rank[n] < hi)
  }

  /** All of them have. */
  predicate Inside(written: set<RbNode?>, rank: Rank, lo: int, hi: int)
  {
    forall n: RbNode :: n in written && n in rank ==> lo <= rank[n] < hi
  }

  /** A subtree no write touched. */
  lemma {:induction false} KeepTree(t: Tree, parent: RbNode?, m: Store, m': Store, written: set<RbNode?>, rank: Rank,
                                    lo: int, hi: int)
    requires TreeIn(t, parent, m) && Ranked(t, rank, lo, hi)
    requires SameBut(m, m', written) && Outside(written, rank, lo, hi)
    ensures TreeIn(t, parent, m')
  {
    if t.Node? {
      KeepTree(t.left, t.n, m, m', written, rank, lo, rank[t.n]);
      KeepTree(t.right, t.n, m, m', written, rank, rank[t.n] + 1, hi);
    }
  }

  /** A subtree hung under another parent. */
  lemma MoveTree(t: Tree, was: RbNode?, parent: RbNode?, m: Store, m': Store, written: set<RbNode?>, rank: Rank,
                 lo: int, hi: int)
    requires TreeIn(t, was, m) && Ranked(t, rank, lo, hi)
    requires SameBut(m, m', written) && Outside(written - {Ptr(t)}, rank, lo, hi)
    requires t.Node? ==> t.n in m' && m'[t.n] == m[t.n].(parent := parent)
    ensures TreeIn(t, parent, m')
  {
    if t.Node? {
      KeepTree(t.left, t.n, m, m', written, rank, lo, rank[t.n]);
      KeepTree(t.right, t.n, m, m', written, rank, rank[t.n] + 1, hi);
    }
  }

  lemma {:induction false} KeepPath(p: Path, hole: RbNode?, top: RbNode?, m: Store, m': Store, written: set<RbNode?>,
                                    rank: Rank, lo: int, hi: int)
    requires PathIn(p, hole, top, m) && RankedPath(p, rank, lo, hi)
    requires SameBut(m, m', written) && Inside(written, rank, HoleLo(p, rank, lo), HoleHi(p, rank, hi))
    ensures PathIn(p, hole, top, m')
    decreases p
  {
    if !p.Top? {
      KeepSibling(p, m, m', written, rank, lo, hi);
      KeepPath(p.up, p.n, top, m, m', written, rank, lo, hi);
    }
  }

  lemma KeepSibling(p: Path, m: Store, m': Store, written: set<RbNode?>, rank: Rank, lo: int, hi: int)
    requires !p.Top? && TreeIn(p.sibling, p.n, m) && RankedPath(p, rank, lo, hi)
    requires SameBut(m, m', written) && Inside(written - {p.n}, rank, HoleLo(p, rank, lo), HoleHi(p, rank, hi))
    ensures TreeIn(p.sibling, p.n, m')
  {
    var l, h := HoleLo(p.up, rank, lo), HoleHi(p.up, rank, hi);
    if p.InLeft? {
      KeepTree(p.sibling, p.n, m, m', written, rank, rank[p.n] + 1, h);
    } else {
      KeepTree(p.sibling, p.n, m, m', written, rank, l, rank[p.n]);
    }
  }

  /** The links of p's last step with `heir` in its hole. */
  predicate Refilled(p: Path, top: RbNode?, heir: RbNode?, top': RbNode?, m: Store, m': Store)
  {
    && top' == (if p.Top? then heir else top)
    && (!p.Top? ==> p.n in m && p.n in m')
    && (p.InLeft? ==> m'[p.n] == m[p.n].(left := heir))
    && (p.InRight? ==> m'[p.n] == m[p.n].(right := heir))
  }

  lemma RefillPath(p: Path, hole: RbNode?, top: RbNode?, heir: RbNode?, top': RbNode?, m: Store, m': Store,
                   written: set<RbNode?>, rank: Rank, lo: int, hi: int)
    requires PathIn(p, hole, top, m) && RankedPath(p, rank, lo, hi)
    requires SameBut(m, m', written) && Inside(written - {ParentPtr(p)}, rank, HoleLo(p, rank, lo), HoleHi(p, rank, hi))
    requires Refilled(p, top, heir, top', m, m')
    ensures PathIn(p, heir, top', m')
  {
    if !p.Top? {
      KeepSibling(p, m, m', written, rank, lo, hi);
      KeepPath(p.up, p.n, top, m, m', written, rank, lo, hi);
    }
  }

  // -------------------------------------------------------- in the heap

  ghost function CellOf(n: RbNode): Cell
    reads n
  {
    Cell(n.color, n.parent, n.left, n.right)
  }

  ghost function Snap(s: set<RbNode>): Store
    reads s
  {
    map n | n in s :: CellOf(n)
  }

  /** Ghost frame of an operation: the nodes it may touch and their ranks. */
  datatype Frame = Frame(nodes: set<RbNode>, rank: Rank, lo: int, hi: int)

  predicate Placed(p: Path, t: Tree, f: Frame)
  {
    RankedPath(p, f.rank, f.lo, f.hi) && Ranked(t, f.rank, HoleLo(p, f.rank, f.lo), HoleHi(p, f.rank, f.hi))
  }

  /** The heap under `root` is t at the end of path p. */
  ghost predicate At(p: Path, t: Tree, root: RbRoot, f: Frame)
    reads root, f.nodes
  {
    && Placed(p, t, f)
    && TreeIn(t, ParentPtr(p), Snap(f.nodes)) && PathIn(p, Ptr(t), root.node, Snap(f.nodes))
  }

  lemma ZipUp(p: Path, t: Tree, root: RbRoot, f: Frame)
    requires At(p, t, root, f) && !p.Top?
    ensures At(p.up, Wrap(p, t), root, f)
  {
  }

  lemma ZipLeft(p: Path, t: Tree, root: RbRoot, f: Frame)
    requires At(p, t, root, f) && t.Node?
    ensures At(InLeft(p, t.color, t.n, t.right), t.left, root, f)
  {
  }

  lemma ZipRight(p: Path, t: Tree, root: RbRoot, f: Frame)
    requires At(p, t, root, f) && t.Node?
    ensures At(InRight(p, t.color, t.n, t.left), t.right, root, f)
  {
  }

  lemma {:induction false} ZipTop(p: Path, t: Tree, root: RbRoot, f: Frame)
    requires At(p, t, root, f)
    ensures At(Top, Plug(p, t), root, f)
    decreases p
  {
    if !p.Top? {
      ZipUp(p, t, root, f);
      ZipTop(p.up, Wrap(p, t), root, f);
    }
  }

  // ---------------------------------------------------- local updates

  /** Recolouring a node leaves every other link. */
  lemma RecoloredLinks(p: Path, t: Tree, c: Color, top: RbNode?, s: Store, s': Store, f: Frame)
    requires t.Node? && Placed(p, t, f) && TreeIn(t, ParentPtr(p), s) && PathIn(p, t.n, top, s)
    requires SameBut(s, s', {t.n}) && t.n in s' && s'[t.n] == s[t.n].(color := c)
    ensures TreeIn(t.(color := c), ParentPtr(p), s') && PathIn(p, t.n, top, s')
  {
    var w: set<RbNode?> := {t.n};
    KeepPath(p, t.n, top, s, s', w, f.rank, f.lo, f.hi);
    KeepTree(t.left, t.n, s, s', w, f.rank, HoleLo(p, f.rank, f.lo), f.rank[t.n]);
    KeepTree(t.right, t.n, s, s', w, f.rank, f.rank[t.n] + 1, HoleHi(p, f.rank, f.hi));
  }

  method SetColor(n: RbNode, c: Color, root: RbRoot, ghost p: Path, ghost t: Tree, ghost f: Frame)
    requires At(p, t, root, f) && t.Node? && t.n == n
    modifies n`color
    ensures At(p, t.(color := c), root, f)
  {
    assert n in f.nodes;
    ghost var s := Snap(f.nodes);
    n.color := c;
    RecoloredLinks(p, t, c, root.node, s, Snap(f.nodes), f);
  }

  /** Colour the root of one of the two subtrees of a position. */
  method SetChildColor(n: RbNode, c: Color, root: RbRoot, ghost p: Path, ghost t: Tree, ghost f: Frame)
    returns (ghost t': Tree)
    requires At(p, t, root, f) && t.Node? && n in {Ptr(t.left), Ptr(t.right)}
    modifies n`color
    ensures t.left.Node? && t.left.n == n ==> t' == t.(left := t.left.(color := c))
    ensures !(t.left.Node? && t.left.n == n) ==> t' == t.(right := t.right.(color := c))
    ensures At(p, t', root, f)
  {
    ghost var q, s := InRight(p, t.color, t.n, t.left), t.right;
    if t.left.Node? && t.left.n == n {
      ZipLeft(p, t, root, f);
      q, s := InLeft(p, t.color, t.n, t.right), t.left;
    } else {
      ZipRight(p, t, root, f);
    }
    SetColor(n, c, root, q, s, f);
    ZipUp(q, s.(color := c), root, f);
    t' := Wrap(q, s.(color := c));
  }

  /** The fields code reads at a position. */
  lemma Fields(p: Path, t: Tree, root: RbRoot, f: Frame)
    requires At(p, t, root, f)
    ensures p.Top? ==> root.node == Ptr(t)
    ensures t.Node? ==> t.n in f.nodes && CellOf(t.n) == Cell(t.color, ParentPtr(p), Ptr(t.left), Ptr(t.right))
    ensures p.InLeft? ==> p.n in f.nodes && CellOf(p.n) == Cell(p.color, ParentPtr(p.up), Ptr(t), Ptr(p.sibling))
    ensures p.InRight? ==> p.n in f.nodes && CellOf(p.n) == Cell(p.color, ParentPtr(p.up), Ptr(p.sibling), Ptr(t))
    ensures !p.Top? && t.Node? ==> t.n != Ptr(p.sibling) && t.n != p.n
    ensures !p.Top? && p.sibling.Node? ==> p.sibling.n in f.nodes && p.sibling.n.color == p.sibling.color
  {
  }

  /** The same one level down. */
  lemma ChildFields(p: Path, t: Tree, root: RbRoot, f: Frame)
    requires At(p, t, root, f) && t.Node?
    ensures t.left.Node? ==> t.left.n in f.nodes && t.left.n != t.n && t.left.n != Ptr(t.right)
    ensures t.left.Node? ==> CellOf(t.left.n) == Cell(t.left.color, t.n, Ptr(t.left.left), Ptr(t.left.right))
    ensures t.right.Node? ==> t.right.n in f.nodes && t.right.n != t.n
    ensures t.right.Node? ==> CellOf(t.right.n) == Cell(t.right.color, t.n, Ptr(t.right.left), Ptr(t.right.right))
  {
    ZipLeft(p, t, root, f);
    ZipRight(p, t, root, f);
    Fields(InLeft(p, t.color, t.n, t.right), t.left, root, f);
    Fields(InRight(p, t.color, t.n, t.left), t.right, root, f);
  }

  // ---------------------------------------------------------- rotations

  /** The two ways three subtrees hang from two nodes in order a n b m d. */
  function LowRight(c: Color, a: Tree, n: RbNode, e: Color, b: Tree, m: RbNode, d: Tree): Tree
  {
    Node(c, a, n, Node(e, b, m, d))
  }

  function LowLeft(c: Color, a: Tree, n: RbNode, e: Color, b: Tree, m: RbNode, d: Tree): Tree
  {
    Node(e, Node(c, a, n, b), m, d)
  }

  /** Two nodes and three subtrees in increasing rank, within the hole of p. */
  predicate Spread(n: RbNode, m: RbNode, a: Tree, b: Tree, d: Tree, p: Path, f: Frame)
  {
    var l, h := HoleLo(p, f.rank, f.lo), HoleHi(p, f.rank, f.hi);
    && n in f.rank && m in f.rank && RankedPath(p, f.rank, f.lo, f.hi)
    && l <= f.rank[n] < f.rank[m] < h
    && Ranked(a, f.rank, l, f.rank[n]) && Ranked(b, f.rank, f.rank[n] + 1, f.rank[m])
       && Ranked(d, f.rank, f.rank[m] + 1, h)
  }

  lemma LowRightPlaced(c: Color, a: Tree, n: RbNode, e: Color, b: Tree, m: RbNode, d: Tree, p: Path, f: Frame)
    ensures Placed(p, LowRight(c, a, n, e, b, m, d), f) <==> Spread(n, m, a, b, d, p, f)
  {
    var low, h := Node(e, b, m, d), HoleHi(p, f.rank, f.hi);
    assert n in f.rank ==> (Ranked(low, f.rank, f.rank[n] + 1, h) <==>
      m in f.rank && f.rank[n] < f.rank[m] < h && Ranked(b, f.rank, f.rank[n] + 1, f.rank[m])
        && Ranked(d, f.rank, f.rank[m] + 1, h));
  }

  lemma LowLeftPlaced(c: Color, a: Tree, n: RbNode, e: Color, b: Tree, m: RbNode, d: Tree, p: Path, f: Frame)
    ensures Placed(p, LowLeft(c, a, n, e, b, m, d), f) <==> Spread(n, m, a, b, d, p, f)
  {
    var low, l := Node(c, a, n, b), HoleLo(p, f.rank, f.lo);
    assert m in f.rank ==> (Ranked(low, f.rank, l, f.rank[m]) <==>
      n in f.rank && l <= f.rank[n] < f.rank[m] && Ranked(a, f.rank, l, f.rank[n])
        && Ranked(b, f.rank, f.rank[n] + 1, f.rank[m]));
  }

  lemma LowRightLinked(c: Color, a: Tree, n: RbNode, e: Color, b: Tree, m: RbNode, d: Tree, up: RbNode?, s: Store)
    ensures TreeIn(LowRight(c, a, n, e, b, m, d), up, s) <==>
            && n in s && s[n] == Cell(c, up, Ptr(a), m)
            && m in s && s[m] == Cell(e, n, Ptr(b), Ptr(d))
            && TreeIn(a, n, s) && TreeIn(b, m, s) && TreeIn(d, m, s)
  {
    assert TreeIn(Node(e, b, m, d), n, s) <==>
      m in s && s[m] == Cell(e, n, Ptr(b), Ptr(d)) && TreeIn(b, m, s) && TreeIn(d, m, s);
  }

  lemma LowLeftLinked(c: Color, a: Tree, n: RbNode, e: Color, b: Tree, m: RbNode, d: Tree, up: RbNode?, s: Store)
    ensures TreeIn(LowLeft(c, a, n, e, b, m, d), up, s) <==>
            && m in s && s[m] == Cell(e, up, n, Ptr(d))
            && n in s && s[n] == Cell(c, m, Ptr(a), Ptr(b))
            && TreeIn(a, n, s) && TreeIn(b, n, s) && TreeIn(d, m, s)
  {
    assert TreeIn(Node(c, a, n, b), m, s) <==>
      n in s && s[n] == Cell(c, m, Ptr(a), Ptr(b)) && TreeIn(a, n, s) && TreeIn(b, n, s);
  }

  lemma FirstSubtree(n: RbNode, m: RbNode, a: Tree, b: Tree, d: Tree, p: Path, s: Store, s': Store, f: Frame)
    requires Spread(n, m, a, b, d, p, f) && SameBut(s, s', {n, m, Ptr(b), ParentPtr(p)}) && TreeIn(a, n, s)
    ensures TreeIn(a, n, s')
  {
    ParentOutside(p, f);
    assert b.Node? ==> b.n in f.rank && f.rank[n] < f.rank[b.n] < f.rank[m];
    KeepTree(a, n, s, s', {n, m, Ptr(b), ParentPtr(p)}, f.rank, HoleLo(p, f.rank, f.lo), f.rank[n]);
  }

  lemma LastSubtree(n: RbNode, m: RbNode, a: Tree, b: Tree, d: Tree, p: Path, s: Store, s': Store, f: Frame)
    requires Spread(n, m, a, b, d, p, f) && SameBut(s, s', {n, m, Ptr(b), ParentPtr(p)}) && TreeIn(d, m, s)
    ensures TreeIn(d, m, s')
  {
    ParentOutside(p, f);
    assert b.Node? ==> b.n in f.rank && f.rank[n] < f.rank[b.n] < f.rank[m];
    KeepTree(d, m, s, s', {n, m, Ptr(b), ParentPtr(p)}, f.rank, f.rank[m] + 1, HoleHi(p, f.rank, f.hi));
  }

  lemma MiddleSubtree(n: RbNode, m: RbNode, a: Tree, b: Tree, d: Tree, bn: RbNode, bm: RbNode, p: Path, s: Store,
                      s': Store, f: Frame)
    requires Spread(n, m, a, b, d, p, f) && SameBut(s, s', {n, m, Ptr(b), ParentPtr(p)})
    requires TreeIn(b, bn, s)
    requires b.Node? ==> b.n in s' && s'[b.n] == s[b.n].(parent := bm)
    ensures TreeIn(b, bm, s')
  {
    ParentOutside(p, f);
    MoveTree(b, bn, bm, s, s', {n, m, Ptr(b), ParentPtr(p)}, f.rank, f.rank[n] + 1, f.rank[m]);
  }

  lemma PathAbove(n: RbNode, m: RbNode, a: Tree, b: Tree, d: Tree, p: Path, hole: RbNode?, top: RbNode?, heir: RbNode?,
                  top': RbNode?,
                  s: Store, s': Store, f: Frame)
    requires Spread(n, m, a, b, d, p, f) && SameBut(s, s', {n, m, Ptr(b), ParentPtr(p)})
    requires PathIn(p, hole, top, s) && Refilled(p, top, heir, top', s, s')
    ensures PathIn(p, heir, top', s')
  {
    assert b.Node? ==> b.n in f.rank && f.rank[n] < f.rank[b.n] < f.rank[m];
    RefillPath(p, hole, top, heir, top', s, s', {n, m, Ptr(b), ParentPtr(p)}, f.rank, f.lo, f.hi);
  }

  /** What a rotation of n and m leaves of the other links: the middle subtree
      moves from one to the other and the hole of p gets a new occupant. */
  lemma RotatedLinks(n: RbNode, m: RbNode, a: Tree, b: Tree, d: Tree, bn: RbNode, bm: RbNode, p: Path,
                     hole: RbNode?, top: RbNode?, heir: RbNode?, top': RbNode?, s: Store, s': Store, f: Frame)
    requires Spread(n, m, a, b, d, p, f)
    requires TreeIn(a, n, s) && TreeIn(b, bn, s) && TreeIn(d, m, s) && PathIn(p, hole, top, s)
    requires SameBut(s, s', {n, m, Ptr(b), ParentPtr(p)})
    requires b.Node? ==> b.n in s' && s'[b.n] == s[b.n].(parent := bm)
    requires Refilled(p, top, heir, top', s, s')
    ensures TreeIn(a, n, s') && TreeIn(b, bm, s') && TreeIn(d, m, s') && PathIn(p, heir, top', s')
  {
    hide Spread, TreeIn, PathIn, Refilled, SameBut;
    FirstSubtree(n, m, a, b, d, p, s, s', f);
    LastSubtree(n, m, a, b, d, p, s, s', f);
    MiddleSubtree(n, m, a, b, d, bn, bm, p, s, s', f);
    PathAbove(n, m, a, b, d, p, hole, top, heir, top', s, s', f);
  }

  lemma ParentOutside(p: Path, f: Frame)
    requires RankedPath(p, f.rank, f.lo, f.hi)
    ensures !p.Top? ==> p.n in f.rank && !(HoleLo(p, f.rank, f.lo) <= f.rank[p.n] < HoleHi(p, f.rank, f.hi))
  {
  }

  /** What hangs in the hole of p is not also its sibling. */
  lemma HoleDistinct(p: Path, n: RbNode, f: Frame)
    requires RankedPath(p, f.rank, f.lo, f.hi)
    requires n in f.rank && HoleLo(p, f.rank, f.lo) <= f.rank[n] < HoleHi(p, f.rank, f.hi)
    ensures !p.Top? ==> n != Ptr(p.sibling) && n != p.n
  {
  }

  /** Facts about the links of the hole's holder, for code that tests its fields. */
  lemma HolderLinks(p: Path, hole: RbNode?, root: RbRoot, f: Frame)
    requires PathIn(p, hole, root.node, Snap(f.nodes))
    ensures p.Top? ==> root.node == hole
    ensures !p.Top? ==> p.n in f.nodes
    ensures p.InLeft? ==> p.n.left == hole && p.n.right == Ptr(p.sibling)
    ensures p.InRight? ==> p.n.right == hole && p.n.left == Ptr(p.sibling)
  {
  }

  /** The nodes among a handful of pointers. */
  function Nodes(ps: set<RbNode?>): set<RbNode>
  {
    set n: RbNode | n in ps
  }

  /** `if(child) child->rb_parent = parent`. */
  method Adopt(child: RbNode?, parent: RbNode?)
    modifies Nodes({child})`parent
    ensures child != null ==> child.parent == parent
  {
    if child != null {
      child.parent := parent;
    }
  }

  /** Hang `heir` where `node` hung, testing the left field of the parent. */
  method Relink(node: RbNode?, heir: RbNode?, parent: RbNode?, root: RbRoot)
    modifies root, Nodes({parent})`left, Nodes({parent})`right
    ensures parent == null ==> root.node == heir
    ensures parent != null ==> root.node == old(root.node)
    ensures parent != null && old(parent.left) == node ==> parent.left == heir && parent.right == old(parent.right)
    ensures parent != null && old(parent.left) != node ==> parent.right == heir && parent.left == old(parent.left)
  {
    if parent != null {
      if parent.left == node {
        parent.left := heir;
      } else {
        parent.right := heir;
      }
    } else {
      root.node := heir;
    }
  }

  /** A parent's links after `Relink` and after its mirror image. */
  function HungLeftFirst(c: Cell, node: RbNode?, heir: RbNode?): Cell
  {
    if c.left == node then c.(left := heir) else c.(right := heir)
  }

  function HungRightFirst(c: Cell, node: RbNode?, heir: RbNode?): Cell
  {
    if c.right == node then c.(right := heir) else c.(left := heir)
  }

  /** The same, testing the right field first. */
  method RelinkMirrored(node: RbNode?, heir: RbNode?, parent: RbNode?, root: RbRoot)
    modifies root, Nodes({parent})`left, Nodes({parent})`right
    ensures parent == null ==> root.node == heir
    ensures parent != null ==> root.node == old(root.node)
    ensures parent != null && old(parent.right) == node ==> parent.right == heir && parent.left == old(parent.left)
    ensures parent != null && old(parent.right) != node ==> parent.left == heir && parent.right == old(parent.right)
  {
    if parent != null {
      if parent.right == node {
        parent.right := heir;
      } else {
        parent.left := heir;
      }
    } else {
      root.node := heir;
    }
  }

  /** `__rb_rotate_left`: the field updates. */
  method RotateLeftFields(node: RbNode, root: RbRoot)
    requires node.right != null && node != node.right
    requires node.parent != node && node.parent != node.right
    requires node.right.left != null ==> node.right.left !in {node, node.right, node.parent}
    modifies root, Nodes({node, node.right, node.right.left, node.parent})
    ensures var right := old(node.right);
            && CellOf(node) == old(CellOf(node)).(right := old(right.left), parent := right)
            && CellOf(right) == old(CellOf(right)).(left := node, parent := old(node.parent))
            && (old(right.left) != null ==> CellOf(old(right.left)) == old(CellOf(right.left)).(parent := node))
    ensures old(node.parent) == null ==> root.node == old(node.right)
    ensures old(node.parent) != null ==> root.node == old(root.node)
    ensures var q := old(node.parent);
            q != null ==> CellOf(q) == HungLeftFirst(old(CellOf(q)), node, old(node.right))
  {
    var right := node.right;
    node.right := right.left;
    Adopt(right.left, node);
    right.left := node;
    right.parent := node.parent;
    Relink(node, right, node.parent, root);
    node.parent := right;
  }

  /** `__rb_rotate_left`: the tree it makes. */
  method RotateLeft(node: RbNode, root: RbRoot, ghost p: Path, ghost c: Color, ghost a: Tree,
                    ghost e: Color, ghost b: Tree, ghost m: RbNode, ghost d: Tree, ghost f: Frame)
    requires At(p, LowRight(c, a, node, e, b, m, d), root, f)
    modifies root, f.nodes
    ensures At(p, LowLeft(c, a, node, e, b, m, d), root, f)
  {
    ghost var s, top := Snap(f.nodes), root.node;
    LowRightPlaced(c, a, node, e, b, m, d, p, f);
    LowRightLinked(c, a, node, e, b, m, d, ParentPtr(p), s);
    LowLeftPlaced(c, a, node, e, b, m, d, p, f);
    HolderLinks(p, node, root, f);
    HoleDistinct(p, node, f);
    HoleDistinct(p, m, f);
    MiddleApart(node, m, a, b, d, p, m, s, f);
    hide LowRight, LowLeft, Placed, Spread, Ranked, RankedPath, TreeIn, PathIn, HoleLo, HoleHi;
    RotateLeftFields(node, root);
    ghost var s' := Snap(f.nodes);
    RotatedLinks(node, m, a, b, d, m, node, p, node, top, m, root.node, s, s', f);
    LowLeftLinked(c, a, node, e, b, m, d, ParentPtr(p), s');
    LowPtrs(c, a, node, e, b, m, d);
  }

  lemma MiddleApart(n: RbNode, m: RbNode, a: Tree, b: Tree, d: Tree, p: Path, bn: RbNode, s: Store, f: Frame)
    requires Spread(n, m, a, b, d, p, f) && TreeIn(b, bn, s)
    ensures b.Node? ==> b.n in s && s[b.n].parent == bn && b.n != n && b.n != m && b.n != ParentPtr(p)
  {
    ParentOutside(p, f);
  }

  lemma LowPtrs(c: Color, a: Tree, n: RbNode, e: Color, b: Tree, m: RbNode, d: Tree)
    ensures Ptr(LowLeft(c, a, n, e, b, m, d)) == m && Ptr(LowRight(c, a, n, e, b, m, d)) == n
  {
  }

  /** `__rb_rotate_right`: the field updates. */
  method RotateRightFields(node: RbNode, root: RbRoot)
    requires node.left != null && node != node.left
    requires node.parent != node && node.parent != node.left
    requires node.left.right != null ==> node.left.right !in {node, node.left, node.parent}
    modifies root, Nodes({node, node.left, node.left.right, node.parent})
    ensures var left := old(node.left);
            && CellOf(node) == old(CellOf(node)).(left := old(left.right), parent := left)
            && CellOf(left) == old(CellOf(left)).(right := node, parent := old(node.parent))
            && (old(left.right) != null ==> CellOf(old(left.right)) == old(CellOf(left.right)).(parent := node))
    ensures old(node.parent) == null ==> root.node == old(node.left)
    ensures old(node.parent) != null ==> root.node == old(root.node)
    ensures var q := old(node.parent);
            q != null ==> CellOf(q) == HungRightFirst(old(CellOf(q)), node, old(node.left))
  {
    var left := node.left;
    node.left := left.right;
    Adopt(left.right, node);
    left.right := node;
    left.parent := node.parent;
    RelinkMirrored(node, left, node.parent, root);
    node.parent := left;
  }

  /** `__rb_rotate_right`: the tree it makes. */
  method RotateRight(node: RbNode, root: RbRoot, ghost p: Path, ghost c: Color, ghost a: Tree, ghost n: RbNode,
                     ghost e: Color, ghost b: Tree, ghost d: Tree, ghost f: Frame)
    requires At(p, LowLeft(c, a, n, e, b, node, d), root, f)
    modifies root, f.nodes
    ensures At(p, LowRight(c, a, n, e, b, node, d), root, f)
  {
    ghost var s, top := Snap(f.nodes), root.node;
    LowLeftPlaced(c, a, n, e, b, node, d, p, f);
    LowLeftLinked(c, a, n, e, b, node, d, ParentPtr(p), s);
    LowRightPlaced(c, a, n, e, b, node, d, p, f);
    HolderLinks(p, node, root, f);
    HoleDistinct(p, node, f);
    HoleDistinct(p, n, f);
    MiddleApart(n, node, a, b, d, p, n, s, f);
    hide LowRight, LowLeft, Placed, Spread, Ranked, RankedPath, TreeIn, PathIn, HoleLo, HoleHi;
    RotateRightFields(node, root);
    ghost var s' := Snap(f.nodes);
    RotatedLinks(n, node, a, b, d, n, node, p, node, top, n, root.node, s, s', f);
    LowRightLinked(c, a, n, e, b, node, d, ParentPtr(p), s');
    LowPtrs(c, a, n, e, b, node, d);
  }
}

/** The red-black invariants, of trees and of trees with a hole. */
module RbBalance {
  import opened RbShape
  import opened Bytes

  predicate IsBlack(t: Tree)
  {
    t.Leaf? || t.color == Black
  }

  /** No red node has a red child, and every way down meets h black nodes. */
  predicate Balanced(t: Tree, h: int)
  {
    match t
    case Leaf => h == 0
    case Node(Red, l, _, r) => IsBlack(l) && IsBlack(r) && Balanced(l, h) && Balanced(r, h)
    case Node(Black, l, _, r) => h >= 1 && Balanced(l, h - 1) && Balanced(r, h - 1)
  }

  function BlackHeight(t: Tree): nat
  {
    match t
    case Leaf => 0
    case Node(c, l, _, _) => BlackHeight(l) + if c == Black then 1 else 0
  }

  /** The invariants rbtree.c keeps. */
  predicate RedBlack(t: Tree)
  {
    IsBlack(t) && Balanced(t, BlackHeight(t))
  }

  lemma {:induction false} BalancedHeight(t: Tree, h: int)
    requires Balanced(t, h)
    ensures h == BlackHeight(t)
  {
    match t
    case Leaf =>
    case Node(Red, l, _, r) => BalancedHeight(l, h);
    case Node(Black, l, _, r) => BalancedHeight(l, h - 1);
  }

  predicate RedHolder(p: Path)
  {
    !p.Top? && p.color == Red
  }

  /** A balanced tree but for its hole, which wants black height h and, under a
      red node, a black root. */
  predicate BalancedPath(p: Path, h: int)
  {
    match p
    case Top => true
    case InLeft(up, c, _, s) =>
      Balanced(s, h) && BalancedStep(up, c, s) && BalancedPath(up, if c == Black then h + 1 else h)
    case InRight(up, c, _, s) =>
      Balanced(s, h) && BalancedStep(up, c, s) && BalancedPath(up, if c == Black then h + 1 else h)
  }

  predicate BalancedStep(up: Path, c: Color, s: Tree)
  {
    c == Red ==> IsBlack(s) && !up.Top? && up.color == Black
  }

  function BlacksAbove(p: Path): nat
  {
    match p
    case Top => 0
    case InLeft(up, c, _, _) => BlacksAbove(up) + if c == Black then 1 else 0
    case InRight(up, c, _, _) => BlacksAbove(up) + if c == Black then 1 else 0
  }

  lemma {:induction false} BalancedPlug(p: Path, t: Tree, h: int)
    requires Balanced(t, h) && BalancedPath(p, h) && (RedHolder(p) ==> IsBlack(t))
    ensures Balanced(Plug(p, t), h + BlacksAbove(p))
    ensures !p.Top? ==> IsBlack(Plug(p, t))
    decreases p
  {
    if !p.Top? {
      BalancedPlug(p.up, Wrap(p, t), if p.color == Black then h + 1 else h);
    }
  }

  /** Plugging the hole of a path yields a red-black tree, up to a red root. */
  lemma RedBlackPlug(p: Path, t: Tree, h: int)
    requires Balanced(t, h) && BalancedPath(p, h) && (RedHolder(p) ==> IsBlack(t)) && (p.Top? ==> IsBlack(t))
    ensures RedBlack(Plug(p, t))
  {
    BalancedPlug(p, t, h);
    BalancedHeight(Plug(p, t), h + BlacksAbove(p));
  }

  /** Conversely every position in a red-black tree has its black height. */
  lemma {:induction false} BalancedUnplug(p: Path, t: Tree, h: int)
    requires Balanced(Plug(p, t), h) && IsBlack(Plug(p, t))
    ensures BalancedPath(p, h - BlacksAbove(p)) && Balanced(t, h - BlacksAbove(p))
    ensures RedHolder(p) || p.Top? ==> IsBlack(t)
    decreases p
  {
    if !p.Top? {
      BalancedUnplug(p.up, Wrap(p, t), h);
    }
  }

  lemma RedBlackUnplug(p: Path, t: Tree) returns (h: nat)
    requires RedBlack(Plug(p, t))
    ensures BalancedPath(p, h) && Balanced(t, h) && h == BlackHeight(t)
    ensures RedHolder(p) || p.Top? ==> IsBlack(t)
  {
    BalancedUnplug(p, t, BlackHeight(Plug(p, t)));
    BalancedHeight(t, BlackHeight(Plug(p, t)) - BlacksAbove(p));
    h := BlackHeight(t);
  }

  // -------------------------------------------------------- height

  function Size(t: Tree): nat
  {
    if t.Leaf? then 0 else Size(t.left) + 1 + Size(t.right)
  }

  function Height(t: Tree): nat
  {
    if t.Leaf? then 0 else 1 + if Height(t.left) > Height(t.right) then Height(t.left) else Height(t.right)
  }

  lemma {:induction false} BlackHeightBounds(t: Tree, h: int)
    requires Balanced(t, h)
    ensures h >= 0 && Pow2(h) <= Size(t) + 1
    ensures Height(t) <= 2 * h + if IsBlack(t) then 0 else 1
  {
    match t
    case Leaf =>
    case Node(Red, l, _, r) =>
      BlackHeightBounds(l, h);
      BlackHeightBounds(r, h);
    case Node(Black, l, _, r) =>
      BlackHeightBounds(l, h - 1);
      BlackHeightBounds(r, h - 1);
      assert Pow2(h) == 2 * Pow2(h - 1);
  }

  /** Height at most 2*log2(n + 1), squared to stay with integers. */
  lemma HeightLogarithmic(t: Tree)
    requires RedBlack(t)
    ensures Pow2(Height(t)) <= (Size(t) + 1) * (Size(t) + 1)
  {
    var h := BlackHeight(t);
    BlackHeightBounds(t, h);
    Pow2Monotone(Height(t), 2 * h);
    Pow2Add(h, h);
    assert Pow2(h) * Pow2(h) <= (Size(t) + 1) * (Size(t) + 1) by {
      MulMonotone(Pow2(h), Size(t) + 1);
    }
  }

  lemma MulMonotone(a: nat, b: nat)
    requires a <= b
    ensures a * a <= b * b
  {
    assert a * a <= a * b <= b * b;
  }

  lemma {:induction false} Pow2Monotone(a: nat, b: nat)
    requires a <= b
    ensures Pow2(a) <= Pow2(b)
    decreases b
  {
    if a < b { Pow2Monotone(a, b - 1); }
  }
}

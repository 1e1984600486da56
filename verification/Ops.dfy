/** ops.c: the operations of a context, indexed by id in a tree that is linked
    but never recoloured. */
module Ops {
  import opened Ids
  import opened RbShape
  import opened RbBalance
  import opened RbRemove
  import opened RbWalk
  import opened RbKeyed

  /** The tree's nodes are the values of a map from their ids. */
  ghost predicate Denotes(order: seq<RbNode>, ops: map<Id, RbNode>)
  {
    && (forall n :: n in order ==> n.id in ops && ops[n.id] == n)
    && (forall id :: id in ops ==> ops[id] in order && ops[id].id == id)
  }

  lemma DenotesAdded(order: seq<RbNode>, i: nat, op: RbNode, ops: map<Id, RbNode>)
    requires Denotes(order, ops) && i <= |order| && op.id !in ops
    ensures Denotes(order[..i] + [op] + order[i..], ops[op.id := op])
  {
    var order' := order[..i] + [op] + order[i..];
    forall n ensures n in order' <==> n == op || n in order {
      assert order == order[..i] + order[i..];
    }
  }

  lemma DenotesRemoved(order: seq<RbNode>, i: nat, ops: map<Id, RbNode>)
    requires Denotes(order, ops) && i < |order| && Distinct(order)
    ensures Denotes(order[..i] + order[i + 1..], ops - {order[i].id})
  {
    var order' := order[..i] + order[i + 1..];
    forall n ensures n in order' <==> n in order && n != order[i] {
      if n in order && n != order[i] {
        var j :| 0 <= j < |order| && order[j] == n;
        assert n == if j < i then order'[j] else order'[j - 1];
      }
      if n in order' {
        var j :| 0 <= j < |order'| && order'[j] == n;
        assert n == if j < i then order[j] else order[j + 1];
      }
    }
  }

  function Members(order: seq<RbNode>): set<RbNode>
  {
    set n | n in order
  }

  /** The heap under `root` is t, a search tree of red nodes that stands for `ops`. */
  ghost predicate Indexed(root: RbRoot, t: Tree, nodes: set<RbNode>, ops: map<Id, RbNode>)
    reads root, nodes
  {
    At(Top, t, root, KeyFrame(nodes)) && Standing(t, nodes, ops)
  }

  ghost predicate Standing(t: Tree, nodes: set<RbNode>, ops: map<Id, RbNode>)
  {
    AllRed(t) && Denotes(InOrder(t), ops) && nodes == NodesOf(t)
  }

  lemma IndexedAscending(root: RbRoot, t: Tree, nodes: set<RbNode>, ops: map<Id, RbNode>)
    requires Indexed(root, t, nodes, ops)
    ensures Ascending(InOrder(t)) && Distinct(InOrder(t))
  {
    var f, order := KeyFrame(NodesOf(t)), InOrder(t);
    RankedOrder(t, f.rank, f.lo, f.hi);
    forall j, k | 0 <= j < k < |order| ensures Key(order[j].id) < Key(order[k].id) {
      assert order[j] in NodesOf(t) && order[k] in NodesOf(t);
    }
  }

  predicate Distinct(order: seq<RbNode>)
  {
    forall j, k :: 0 <= j < k < |order| ==> order[j] != order[k]
  }

  /** The search of `f4op_add`: the stored op, or the place for the new one. */
  method Lookup(op: RbNode, root: RbRoot, ghost t: Tree, ghost nodes: set<RbNode>, ghost ops: map<Id, RbNode>)
    returns (found: RbNode?, parent: RbNode?, link: Link, ghost p: Path)
    requires Indexed(root, t, nodes, ops)
    ensures found != null ==> op.id in ops && found == ops[op.id]
    ensures found == null ==>
      op.id !in ops && Standing(t, nodes, ops) && Plug(p, Leaf) == t && link == LinkOf(p) && parent == ParentPtr(p)
    ensures found == null ==>
      At(p, Leaf, root, KeyFrame(nodes + {op})) && Placed(p, RedLeaf(op), KeyFrame(nodes + {op}))
  {
    ghost var f := KeyFrame(nodes + {op});
    Reframe(t, root, nodes, nodes + {op});
    hide At;
    found, parent, link, p := Descend(op.id, root, t, f);
    if found == null {
      LeafFits(op, p, root, f);
    }
  }

  method LinkNew(op: RbNode, parent: RbNode?, link: Link, root: RbRoot, ghost p: Path, ghost t: Tree,
                 ghost nodes: set<RbNode>, ghost ops: map<Id, RbNode>)
    returns (ghost t': Tree)
    requires At(p, Leaf, root, KeyFrame(nodes + {op})) && Placed(p, RedLeaf(op), KeyFrame(nodes + {op}))
    requires Plug(p, Leaf) == t && link == LinkOf(p) && parent == ParentPtr(p)
    requires Standing(t, nodes, ops) && op.id !in ops
    modifies root, nodes, op
    ensures Indexed(root, t', nodes + {op}, ops[op.id := op])
  {
    ghost var f := KeyFrame(nodes + {op});
    hide At, Placed;
    LinkNode(op, parent, link, root, p, f);
    ZipTop(p, RedLeaf(op), root, f);
    GrownTree(p, op, t, ops);
    t' := Plug(p, RedLeaf(op));
    Reframe(t', root, f.nodes, NodesOf(t'));
  }

  method Unindex(n: RbNode, root: RbRoot, ghost t: Tree, ghost nodes: set<RbNode>, ghost ops: map<Id, RbNode>)
    returns (ghost t': Tree)
    requires Indexed(root, t, nodes, ops) && n in nodes
    modifies root, nodes
    ensures Indexed(root, t', nodes - {n}, ops - {n.id})
    ensures Without(InOrder(t), n, InOrder(t'))
  {
    hide At, Placed, Indexed, InOrder, Plug, RedBlack, AllRed, Denotes, Distinct, Without, Index;
    ghost var p, u, i := Position(n, root, t, nodes, ops);
    t' := Erase(n, root, p, u, KeyFrame(nodes));
    Removed(n, root, t, t', i, nodes, ops);
  }

  lemma Position(n: RbNode, root: RbRoot, t: Tree, nodes: set<RbNode>, ops: map<Id, RbNode>)
    returns (p: Path, u: Tree, i: nat)
    requires Indexed(root, t, nodes, ops) && n in nodes
    ensures At(p, u, root, KeyFrame(nodes)) && u.Node? && u.n == n && Plug(p, u) == t && Index(p, u) == i && AllRed(t)
    ensures Distinct(InOrder(t)) && Standing(t, nodes, ops)
  {
    IndexedAscending(root, t, nodes, ops);
    p, u := Locate(Top, t, n);
    i := Index(p, u);
    ZipTo(p, u, root, KeyFrame(nodes));
  }

  lemma Removed(n: RbNode, root: RbRoot, t: Tree, t': Tree, i: nat, nodes: set<RbNode>, ops: map<Id, RbNode>)
    requires At(Top, t', root, KeyFrame(nodes)) && AllRed(t') && Standing(t, nodes, ops) && Distinct(InOrder(t))
    requires i < |InOrder(t)| && InOrder(t)[i] == n && InOrder(t') == InOrder(t)[..i] + InOrder(t)[i + 1..]
    ensures Indexed(root, t', nodes - {n}, ops - {n.id}) && Without(InOrder(t), n, InOrder(t'))
  {
    hide At, Denotes, InOrder, Without, Distinct;
    ShrunkTree(InOrder(t), i, t', ops);
    WithoutAt(InOrder(t), i, n, InOrder(t'));
    Reframe(t', root, nodes, nodes - {n});
  }

  /** `was` less the one entry n. */
  ghost predicate Without(was: seq<RbNode>, n: RbNode, order: seq<RbNode>)
  {
    exists i :: 0 <= i < |was| && was[i] == n && order == was[..i] + was[i + 1..]
  }

  lemma WithoutAt(was: seq<RbNode>, i: nat, n: RbNode, order: seq<RbNode>)
    requires i < |was| && was[i] == n && order == was[..i] + was[i + 1..]
    ensures Without(was, n, order)
  {
  }

  /** `rb_next` of the first op. */
  method Second(first: RbNode, root: RbRoot, ghost t: Tree, ghost nodes: set<RbNode>, ghost ops: map<Id, RbNode>)
    returns (p: RbNode?)
    requires Indexed(root, t, nodes, ops) && InOrder(t) != [] && first == InOrder(t)[0]
    ensures p == if |InOrder(t)| > 1 then InOrder(t)[1] else null
  {
    IndexedAscending(root, t, nodes, ops);
    ghost var q, u := Locate(Top, t, first);
    ZipTo(q, u, root, KeyFrame(nodes));
    FirstIndex(first, q, u, t);
    p, q, u := Next(first, root, 0, q, u, t, KeyFrame(nodes));
  }

  /** `rb_first`. */
  method Foremost(root: RbRoot, ghost t: Tree, ghost nodes: set<RbNode>, ghost ops: map<Id, RbNode>)
    returns (p: RbNode?)
    requires Indexed(root, t, nodes, ops)
    ensures p == if InOrder(t) == [] then null else InOrder(t)[0]
  {
    ghost var q, u;
    p, q, u := First(root, t, KeyFrame(nodes));
  }

  lemma WithoutFirst(was: seq<RbNode>, order: seq<RbNode>)
    requires Distinct(was) && was != [] && Without(was, was[0], order)
    ensures order == was[1..]
  {
  }

  /** `f4op_ctx_t`. */
  class OpContext {
    const ops: RbRoot
    ghost var tree: Tree
    ghost var nodes: set<RbNode>
    ghost var contents: map<Id, RbNode>

    ghost predicate Valid()
      reads this, ops, nodes
    {
      Indexed(ops, tree, nodes, contents)
    }

    /** The ops in ascending order of their ids. */
    ghost function Sequence(): seq<RbNode>
      reads this
    {
      InOrder(tree)
    }

    /** `f4op_new_ctx`. */
    constructor ()
      ensures Valid() && contents == map[] && fresh(ops)
    {
      ops := new RbRoot();
      tree, nodes, contents := Leaf, {}, map[];
    }

    /** `f4op_find`. */
    method Find(id: Id) returns (op: RbNode?)
      requires Valid()
      ensures op == if id in contents then contents[id] else null
    {
      op := Search(id, ops, tree, KeyFrame(nodes));
    }

    /** `f4op_add`: an id already present yields the stored op and changes nothing. */
    method Add(op: RbNode) returns (found: RbNode?)
      requires Valid()
      modifies this, ops, nodes, op
      ensures Valid()
      ensures op.id in old(contents) ==>
        found == old(contents)[op.id] && unchanged(this, ops, op) && unchanged(old(nodes))
      ensures op.id !in old(contents) ==> found == null && contents == old(contents)[op.id := op]
      ensures op.id !in old(contents) ==> nodes == old(nodes) + {op}
    {
      hide Indexed, InOrder, At, Placed, Plug, Standing;
      var parent, link;
      ghost var p;
      found, parent, link, p := Lookup(op, ops, tree, nodes, contents);
      if found != null {
        return;
      }
      ghost var t := LinkNew(op, parent, link, ops, p, tree, nodes, contents);
      tree, nodes, contents := t, nodes + {op}, contents[op.id := op];
    }

    /** `f4op_remove`: exactly this op leaves. */
    method Remove(n: RbNode)
      requires Valid() && n in nodes
      modifies this, ops, nodes
      ensures Valid() && contents == old(contents) - {n.id}
      ensures nodes == old(nodes) - {n} && Without(old(Sequence()), n, Sequence())
    {
      hide Indexed, Without, InOrder;
      ghost var t := Unindex(n, ops, tree, nodes, contents);
      tree, nodes, contents := t, nodes - {n}, contents - {n.id};
    }

    /** `p = rb_next(tmp)` and the removal of tmp, the first op. */
    method FreeFirst(tmp: RbNode) returns (p: RbNode?)
      requires Valid() && Distinct(Sequence()) && Sequence() != [] && tmp == Sequence()[0]
      modifies this, ops, nodes
      ensures Valid() && nodes <= old(nodes) && Distinct(Sequence())
      ensures old(Sequence()) == [tmp] + Sequence() && p == if Sequence() == [] then null else Sequence()[0]
    {
      hide Indexed, InOrder, Without, Distinct, Ascending;
      ghost var order := Sequence();
      FirstMember(ops, tree, nodes, contents);
      p := Second(tmp, ops, tree, nodes, contents);
      Remove(tmp);
      WithoutFirst(order, Sequence());
      DistinctTail(order);
    }

    /** `f4op_free_ctx` before the context itself goes: every op is removed once,
        in ascending order of ids, and nothing is left. */
    method FreeAll() returns (freed: seq<RbNode>)
      requires Valid()
      modifies this, ops, nodes
      ensures freed == old(Sequence()) && Ascending(freed)
      ensures ops.node == null && contents == map[]
    {
      hide Indexed, InOrder, Without, Distinct, Ascending, NodesOf, Standing;
      ghost var all, before := Sequence(), nodes;
      IndexedAscending(ops, tree, nodes, contents);
      freed := [];
      var p := Foremost(ops, tree, nodes, contents);
      while p != null
        invariant Valid() && nodes <= before && Distinct(Sequence())
        invariant freed + Sequence() == all
        invariant p == if Sequence() == [] then null else Sequence()[0]
        decreases |Sequence()|
      {
        var tmp := p;
        p := FreeFirst(tmp);
        ShiftOne(freed, tmp, Sequence());
        freed := freed + [tmp];
      }
      EmptyIndex(ops, tree, nodes, contents);
    }
  }

  lemma FirstMember(root: RbRoot, t: Tree, nodes: set<RbNode>, ops: map<Id, RbNode>)
    requires Indexed(root, t, nodes, ops) && InOrder(t) != []
    ensures InOrder(t)[0] in nodes
  {
  }

  lemma ShiftOne(done: seq<RbNode>, n: RbNode, rest: seq<RbNode>)
    ensures done + ([n] + rest) == (done + [n]) + rest
  {
  }

  lemma DistinctTail(order: seq<RbNode>)
    requires Distinct(order) && order != []
    ensures Distinct(order[1..]) && order == [order[0]] + order[1..]
  {
  }

  lemma GrownTree(p: Path, op: RbNode, was: Tree, ops: map<Id, RbNode>)
    requires was == Plug(p, Leaf) && AllRed(was) && Denotes(InOrder(was), ops) && op.id !in ops
    ensures var t := Plug(p, RedLeaf(op));
            AllRed(t) && Denotes(InOrder(t), ops[op.id := op]) && NodesOf(t) == NodesOf(was) + {op}
  {
    AllRedPlug(p, Leaf);
    AllRedPlug(p, RedLeaf(op));
    LinkedOrder(p, op);
    DenotesAdded(InOrder(was), |Before(p)|, op, ops);
  }

  lemma ShrunkTree(order: seq<RbNode>, i: nat, t: Tree, ops: map<Id, RbNode>)
    requires Denotes(order, ops) && i < |order| && InOrder(t) == order[..i] + order[i + 1..]
    requires Distinct(order)
    ensures Denotes(InOrder(t), ops - {order[i].id})
    ensures NodesOf(t) == Members(order) - {order[i]}
  {
    DenotesRemoved(order, i, ops);
    Others(order, i);
  }

  lemma Others(order: seq<RbNode>, i: nat)
    requires i < |order| && Distinct(order)
    ensures Members(order[..i] + order[i + 1..]) == Members(order) - {order[i]}
  {
    var order' := order[..i] + order[i + 1..];
    forall n | n in order && n != order[i] ensures n in order' {
      var j :| 0 <= j < |order| && order[j] == n;
      assert n == if j < i then order'[j] else order'[j - 1];
    }
  }

  lemma FirstIndex(n: RbNode, p: Path, u: Tree, t: Tree)
    requires u.Node? && u.n == n && Plug(p, u) == t && InOrder(t) != [] && InOrder(t)[0] == n
    requires Distinct(InOrder(t))
    ensures Index(p, u) == 0
  {
    IndexSplits(p, u);
  }

  lemma EmptyIndex(root: RbRoot, t: Tree, nodes: set<RbNode>, ops: map<Id, RbNode>)
    requires Indexed(root, t, nodes, ops) && InOrder(t) == []
    ensures root.node == null && ops == map[]
  {
    Fields(Top, t, root, KeyFrame(NodesOf(t)));
  }
}

/** The search tree of btree.c on the heap: nodes with child and parent pointers. */
module BTree {
  import opened Order
  import opened BTreeShape

  /** The pointers of the nodes of `t` are those of its shape, and the root's parent is `p`. */
  ghost predicate Embodies<T>(t: Tree<T>, p: BNode?<T>)
    reads Nodes(t)
  {
    t.Node? ==>
      && t.n.parent == p && t.n.lchild == RootOf(t.l) && t.n.rchild == RootOf(t.r)
      && Embodies(t.l, t.n) && Embodies(t.r, t.n)
  }

  /** The same for a tree with a hole, in which `h` stands. */
  ghost predicate CtxEmbodies<T>(c: Ctx<T>, h: BNode?<T>)
    reads CtxNodes(c)
    decreases c
  {
    match c
    case Top => true
    case InLeft(up, n, r) =>
      && n.parent == HoleParent(up) && n.lchild == h && n.rchild == RootOf(r)
      && Embodies(r, n) && CtxEmbodies(up, n)
    case InRight(up, l, n) =>
      && n.parent == HoleParent(up) && n.lchild == RootOf(l) && n.rchild == h
      && Embodies(l, n) && CtxEmbodies(up, n)
  }

  lemma {:induction false} PlugEmbodies<T>(c: Ctx<T>, t: Tree<T>)
    ensures Embodies(Plug(c, t), null) <==> CtxEmbodies(c, RootOf(t)) && Embodies(t, HoleParent(c))
    decreases c
  {
    match c
    case Top =>
    case InLeft(up, n, r) => PlugEmbodies(up, Node(t, n, r));
    case InRight(up, l, n) => PlugEmbodies(up, Node(l, n, t));
  }

  lemma {:induction false} PlugRoot<T>(c: Ctx<T>, t: Tree<T>, t': Tree<T>)
    ensures RootOf(Plug(c, t')) == if c.Top? then RootOf(t') else RootOf(Plug(c, t))
    decreases c
  {
    match c
    case Top =>
    case InLeft(up, n, r) => PlugRoot(up, Node(t, n, r), Node(t', n, r));
    case InRight(up, l, n) => PlugRoot(up, Node(l, n, t), Node(l, n, t'));
  }

  ghost function Owner<T>(n: BNode?<T>): set<BNode<T>> { if n == null then {} else {n} }

  class BTree<T(!new)> {
    var root: BNode?<T>
    const cmp: (T, T) -> int
    ghost var shape: Tree<T>

    ghost predicate Valid()
      reads this, Nodes(shape)
    {
      && IsOrder(cmp) && root == RootOf(shape) && Embodies(shape, null)
      && Unique(shape) && Ordered(shape, cmp)
    }

    /** btree.c:326-346 */
    constructor (cmp: (T, T) -> int)
      requires IsOrder(cmp)
      ensures Valid() && shape == Leaf && this.cmp == cmp
    {
      this.cmp := cmp;
      root := null;
      shape := Leaf;
    }

    /**
     The assignment `*pparent = h`: the slot is the root, or a child slot of
     `owner`. A tree `t` whose nodes stand elsewhere is not touched.
     */
    method SetSlot(owner: BNode?<T>, left: bool, h: BNode?<T>, ghost c: Ctx<T>, ghost h0: BNode?<T>,
                   ghost t: Tree<T>, ghost p: BNode?<T>)
      requires owner == HoleParent(c) && (left <==> c.InLeft?)
      requires CtxEmbodies(c, h0) && CtxUnique(c)
      requires Embodies(t, p) && CtxNodes(c) !! Nodes(t)
      modifies this`root, Owner(owner)`lchild, Owner(owner)`rchild
      ensures CtxEmbodies(c, h) && Embodies(t, p)
      ensures root == if c.Top? then h else old(root)
    {
      if owner == null {
        root := h;
      } else if left {
        owner.lchild := h;
        assert Embodies(c.r, c.n) && CtxEmbodies(c.up, c.n);
      } else {
        owner.rchild := h;
        assert Embodies(c.l, c.n) && CtxEmbodies(c.up, c.n);
      }
    }

    /** btree.c:7-35 */
    method Push(node: BNode<T>)
      requires Valid() && node !in Nodes(shape)
      modifies this, Nodes(shape), node
      ensures Valid() && shape == Insert(old(shape), node, cmp)
      ensures HangsLeaf(old(shape), shape, node)
      ensures InOrder(shape) == InsertBehindPeers(old(InOrder(shape)), node, ByEntry(cmp))
    {
      hide HangsLeaf, Ordered, Unique, InOrder, IsOrder, InsertBehindPeers;
      ghost var was := shape;
      ghost var goal := Insert(was, node, cmp);
      InsertUnique(was, node, cmp);
      InsertOrdered(was, node, cmp);
      InsertInOrder(was, node, cmp);
      InsertHangsLeaf(was, node, cmp);
      shape := goal;
      node.parent, node.lchild, node.rchild := null, null, null;
      ghost var c, sub := Top, was;
      var at, cur, left := root, null, false;
      while at != null
        invariant Plug(c, sub) == was && Embodies(was, null) && root == RootOf(was)
        invariant node.lchild == null && node.rchild == null && shape == goal
        invariant at == RootOf(sub) && cur == HoleParent(c) && (left <==> c.InLeft?)
        invariant Plug(c, Insert(sub, node, cmp)) == goal
        decreases sub
      {
        PlugEmbodies(c, sub);
        cur := at;
        if cmp(node.entry, cur.entry) >= 0 {
          at, left := cur.rchild, false;
          c, sub := InRight(c, sub.l, sub.n), sub.r;
        } else {
          at, left := cur.lchild, true;
          c, sub := InLeft(c, sub.n, sub.r), sub.l;
        }
      }
      PlugEmbodies(c, sub);
      PlugUnique(c, sub);
      PlugNodes(c, sub);
      ghost var leaf := Node(Leaf, node, Leaf);
      PlugRoot(c, sub, leaf);
      assert goal == Plug(c, leaf);
      node.parent := cur;
      SetSlot(cur, left, node, c, null, leaf, cur);
      PlugEmbodies(c, leaf);
    }

    /** btree.c:141-161 */
    method Find(key: T) returns (found: BNode?<T>)
      requires Valid()
      ensures found != null ==> exists k :: IsFirstEqual(InOrder(shape), k, key, cmp) && InOrder(shape)[k] == found
      ensures found == null ==> forall a :: a in Nodes(shape) ==> cmp(key, a.entry) != 0
      ensures found == FindIn(shape, key, cmp)
    {
      hide Ordered, Unique, IsOrder, FirstEqual, IsFirstEqual, InOrder;
      FindsFirst(shape, key, cmp);
      FirstEqualMeets(InOrder(shape), key, cmp);
      ghost var c, sub := Top, shape;
      found := root;
      while found != null
        invariant Plug(c, sub) == shape && found == RootOf(sub) && Embodies(shape, null)
        invariant forall a :: a in Nodes(shape) && cmp(key, a.entry) == 0 ==> a in Nodes(sub)
        invariant FindIn(sub, key, cmp) == FindIn(shape, key, cmp)
        decreases sub
      {
        PlugEmbodies(c, sub);
        PlugPartOrdered(c, sub, cmp);
        var n := cmp(key, found.entry);
        FindStep(sub, key, cmp);
        if n == 0 {
          PlugNodes(c, sub);
          return found;
        } else if n < 0 {
          found := found.lchild;
          c, sub := InLeft(c, sub.n, sub.r), sub.l;
        } else {
          assert found.rchild == RootOf(sub.r);
          found := found.rchild;
          c, sub := InRight(c, sub.l, sub.n), sub.r;
        }
      }
    }

    /**
     btree.c:203-217: finds the leftmost node of the right subtree `r` of
     `node` and takes it out of there, whether or not it is a child of `node`.
     */
    method TakeSuccessor(node: BNode<T>, ghost c: Ctx<T>, ghost l: Tree<T>, ghost r: Tree<T>)
      returns (cur: BNode<T>)
      requires r.Node? && Unique(Plug(c, Node(l, node, r))) && Embodies(Plug(c, Node(l, node, r)), null)
      modifies Nodes(Plug(c, Node(l, node, r)))
      ensures cur == Leftmost(r)
      ensures CtxEmbodies(c, node) && Embodies(Node(l, node, WithoutLeftmost(r)), HoleParent(c))
    {
      hide Unique;
      ghost var was := Plug(c, Node(l, node, r));
      ghost var side := InRight(c, l, node);
      ghost var c2, sub := side, r;
      PlugEmbodies(side, r);
      PlugNodes(side, r);
      PlugUnique(side, r);
      cur := node.rchild;
      while cur.lchild != null
        invariant Plug(c2, sub) == was && Embodies(was, null)
        invariant sub.Node? && cur == sub.n && cur.lchild == RootOf(sub.l) && Leftmost(sub) == Leftmost(r)
        invariant Plug(c2, WithoutLeftmost(sub)) == Plug(side, WithoutLeftmost(r))
        invariant c2 == side || (c2.InLeft? && c2.n != node)
        invariant node !in Nodes(sub)
        decreases sub
      {
        PlugEmbodies(c2, sub);
        cur := cur.lchild;
        c2, sub := InLeft(c2, sub.n, sub.r), sub.l;
        PlugEmbodies(c2, sub);
      }
      PlugEmbodies(c2, sub);
      PlugNodes(c2, sub);
      Unlink(node, cur, c2, sub.r);
      PlugEmbodies(c2, sub.r);
      PlugEmbodies(side, WithoutLeftmost(r));
    }

    /** btree.c:207-217: what hangs right of `cur`, which has no left child, takes its place. */
    method Unlink(node: BNode<T>, cur: BNode<T>, ghost c: Ctx<T>, ghost rest: Tree<T>)
      requires Unique(Plug(c, Node(Leaf, cur, rest)))
      requires CtxEmbodies(c, cur) && Embodies(Node(Leaf, cur, rest), HoleParent(c))
      requires if c.InRight? then c.n == node else c.InLeft? && c.n != node
      modifies CtxNodes(c), Nodes(rest)
      ensures CtxEmbodies(c, RootOf(rest)) && Embodies(rest, HoleParent(c))
    {
      hide Unique;
      UnfoldUnique(c, Node(Leaf, cur, rest));
      if cur.parent != node {
        cur.parent.lchild := cur.rchild;
        assert Embodies(c.r, c.n) && CtxEmbodies(c.up, c.n);
      } else {
        cur.parent.rchild := cur.rchild;
        assert Embodies(c.l, c.n) && CtxEmbodies(c.up, c.n);
      }
      assert Embodies(rest, cur) && CtxEmbodies(c, RootOf(rest));
      if cur.rchild != null {
        cur.rchild.parent := cur.parent;
        assert Embodies(rest.l, rest.n) && Embodies(rest.r, rest.n) && CtxEmbodies(c, rest.n);
      }
    }

    /** btree.c:218-226: `cur` takes over the pointers of `node`, and the pointers to it. */
    method ReplaceBy(node: BNode<T>, cur: BNode<T>, owner: BNode?<T>, left: bool,
                     ghost c: Ctx<T>, ghost l: Tree<T>, ghost r: Tree<T>)
      requires Unique(Plug(c, Node(l, node, r))) && Unique(Plug(c, Node(l, cur, r))) && cur != node
      requires CtxEmbodies(c, node) && Embodies(Node(l, node, r), HoleParent(c))
      requires owner == HoleParent(c) && (left <==> c.InLeft?)
      modifies this`root, cur, Nodes(Plug(c, Node(l, node, r)))
      ensures CtxEmbodies(c, cur) && Embodies(Node(l, cur, r), HoleParent(c))
      ensures root == if c.Top? then cur else old(root)
    {
      hide Unique, CtxUnique, Plug;
      UnfoldUnique(c, Node(l, node, r));
      UnfoldUnique(c, Node(l, cur, r));
      UniquePart(c, Node(l, cur, r));
      PlugNodes(c, Node(l, node, r));
      cur.parent, cur.lchild, cur.rchild := node.parent, node.lchild, node.rchild;
      assert Embodies(l, node) && Embodies(r, node) && CtxEmbodies(c, node);
      SetSlot(owner, left, cur, c, node, Node(l, node, r), owner);
      assert cur.lchild == RootOf(l) && cur.rchild == RootOf(r) && cur.parent == owner;
      Adopt(cur, node, c, l, r);
    }

    /** btree.c:222-225 */
    method Adopt(cur: BNode<T>, node: BNode<T>, ghost c: Ctx<T>, ghost l: Tree<T>, ghost r: Tree<T>)
      requires CtxUnique(c) && CtxNodes(c) !! Nodes(Node(l, cur, r)) && Unique(Node(l, cur, r))
      requires cur.lchild == RootOf(l) && cur.rchild == RootOf(r) && cur.parent == HoleParent(c)
      requires Embodies(l, node) && Embodies(r, node) && CtxEmbodies(c, cur)
      modifies Nodes(l), Nodes(r)
      ensures CtxEmbodies(c, cur) && Embodies(Node(l, cur, r), HoleParent(c))
    {
      if cur.lchild != null {
        cur.lchild.parent := cur;
        assert Embodies(l.l, l.n) && Embodies(l.r, l.n);
      }
      assert Embodies(l, cur) && Embodies(r, node) && CtxEmbodies(c, cur);
      if cur.rchild != null {
        cur.rchild.parent := cur;
        assert Embodies(r.l, r.n) && Embodies(r.r, r.n);
      }
      assert Embodies(l, cur) && Embodies(r, cur) && CtxEmbodies(c, cur);
    }

    /** btree.c:184-187 */
    method RemoveLeaf(node: BNode<T>, owner: BNode?<T>, left: bool, ghost c: Ctx<T>)
      requires Unique(Plug(c, Node(Leaf, node, Leaf)))
      requires CtxEmbodies(c, node)
      requires owner == HoleParent(c) && (left <==> c.InLeft?)
      modifies this`root, node`parent, Owner(owner)`lchild, Owner(owner)`rchild
      ensures CtxEmbodies(c, null)
      ensures root == if c.Top? then null else old(root)
      ensures node.parent == null
    {
      hide Unique;
      UnfoldUnique(c, Node(Leaf, node, Leaf));
      node.parent := null;
      SetSlot(owner, left, null, c, node, Leaf, null);
    }

    /** btree.c:188-193 and 194-199: the only child of `node` takes its place. */
    method PromoteChild(node: BNode<T>, child: BNode<T>, owner: BNode?<T>, left: bool, ghost c: Ctx<T>, ghost t: Tree<T>)
      requires Unique(Plug(c, Node(t, node, Leaf))) && t.Node? && child == t.n
      requires CtxEmbodies(c, node) && Embodies(t, node) && node.parent == owner
      requires owner == HoleParent(c) && (left <==> c.InLeft?)
      modifies this`root, node, child`parent, Owner(owner)`lchild, Owner(owner)`rchild
      ensures CtxEmbodies(c, child) && Embodies(t, owner)
      ensures root == if c.Top? then child else old(root)
      ensures node.parent == null && node.lchild == null && node.rchild == null
    {
      hide Unique;
      UnfoldUnique(c, Node(t, node, Leaf));
      child.parent := node.parent;
      assert Embodies(t.l, child) && Embodies(t.r, child) && CtxEmbodies(c, node);
      node.parent, node.lchild, node.rchild := null, null, null;
      assert Embodies(t, owner) && CtxEmbodies(c, node);
      SetSlot(owner, left, child, c, node, t, owner);
    }

    /** btree.c:174-226: the four cases. */
    method TakeOut(node: BNode<T>, ghost c: Ctx<T>, ghost l: Tree<T>, ghost r: Tree<T>)
      requires Unique(Plug(c, Node(l, node, r))) && Embodies(Plug(c, Node(l, node, r)), null)
      requires root == RootOf(Plug(c, Node(l, node, r)))
      modifies this`root, Nodes(Plug(c, Node(l, node, r)))
      ensures CtxEmbodies(c, RootOf(Joined(l, r))) && Embodies(Joined(l, r), HoleParent(c))
      ensures root == if c.Top? then RootOf(Joined(l, r)) else old(root)
    {
      hide Unique, Plug, InOrder;
      PlugEmbodies(c, Node(l, node, r));
      PlugNodes(c, Node(l, node, r));
      UnfoldUnique(c, Node(l, node, r));
      var owner, left := node.parent, false;
      if node.parent != null {
        left := node.parent.lchild == node;
      }
      if node.lchild == null && node.rchild == null {
        RemoveLeaf(node, owner, left, c);
      } else if node.lchild != null && node.rchild == null {
        PromoteChild(node, node.lchild, owner, left, c, l);
      } else if node.rchild != null && node.lchild == null {
        Mirrored(c, node, r);
        PromoteChild(node, node.rchild, owner, left, c, r);
      } else {
        var cur := TakeSuccessor(node, c, l, r);
        SuccessorOutside(c, l, node, r);
        ReplaceBy(node, cur, owner, left, c, l, WithoutLeftmost(r));
      }
    }

    /** btree.c:163-229; -1 for the empty tree. */
    method Del(node: BNode<T>) returns (rc: int)
      requires Valid() && (shape.Node? ==> node in Nodes(shape))
      modifies this, Nodes(shape)
      ensures Valid()
      ensures rc == if old(shape).Leaf? then -1 else 0
      ensures shape == Delete(old(shape), node)
      ensures old(shape).Node? ==> GivesPlace(old(shape), shape, node)
      ensures InOrder(shape) == Removed(old(InOrder(shape)), node)
    {
      if root == null {
        return -1;
      }
      DeleteRemoves(shape, node);
      DeleteGivesPlace(shape, node);
      hide GivesPlace, Ordered, IsOrder, Unique, Delete, Plug, InOrder, Removed;
      ghost var was := shape;
      ghost var c, l, r := DeletionSite(was, node, cmp);
      shape := Plug(c, Joined(l, r));
      TakeOut(node, c, l, r);
      PlugEmbodies(c, Joined(l, r));
      return 0;
    }
  }

  lemma {:induction false} UniquePart<T>(c: Ctx<T>, t: Tree<T>)
    requires Unique(Plug(c, t))
    ensures CtxUnique(c) && Unique(t) && CtxNodes(c) !! Nodes(t)
  {
    PlugUnique(c, t);
  }

  /** Where the node stands, and what the tree will be without it. */
  lemma {:induction false} DeletionSite<T(!new)>(t: Tree<T>, x: BNode<T>, cmp: (T, T) -> int) returns (c: Ctx<T>, l: Tree<T>, r: Tree<T>)
    requires IsOrder(cmp) && Unique(t) && Ordered(t, cmp) && x in Nodes(t)
    ensures t == Plug(c, Node(l, x, r)) && Delete(t, x) == Plug(c, Joined(l, r))
    ensures Unique(Delete(t, x)) && Ordered(Delete(t, x), cmp)
    ensures RootOf(Delete(t, x)) == if c.Top? then RootOf(Joined(l, r)) else RootOf(t)
  {
    c, l, r := Locate(t, x);
    var here := Node(l, x, r);
    DeletePlug(c, here, x);
    DeleteNodes(t, x);
    DeleteOrdered(t, x, cmp);
    PlugRoot(c, here, Joined(l, r));
  }

  lemma Mirrored<T>(c: Ctx<T>, x: BNode<T>, t: Tree<T>)
    requires Unique(Plug(c, Node(Leaf, x, t)))
    ensures Unique(Plug(c, Node(t, x, Leaf)))
  {
    PlugUnique(c, Node(Leaf, x, t));
    PlugUnique(c, Node(t, x, Leaf));
  }

  /** The shapes between the steps of a deletion with two children. */
  lemma SuccessorOutside<T>(c: Ctx<T>, l: Tree<T>, x: BNode<T>, r: Tree<T>)
    requires r.Node? && Unique(Plug(c, Node(l, x, r)))
    ensures Unique(Plug(c, Node(l, x, WithoutLeftmost(r))))
    ensures Unique(Plug(c, Node(l, Leftmost(r), WithoutLeftmost(r))))
    ensures Leftmost(r) != x && Leftmost(r) in Nodes(Plug(c, Node(l, x, r)))
    ensures Nodes(Plug(c, Node(l, x, WithoutLeftmost(r)))) <= Nodes(Plug(c, Node(l, x, r)))
  {
    LeftmostFacts(r);
    PlugUnique(c, Node(l, x, r));
    PlugUnique(c, Node(l, x, WithoutLeftmost(r)));
    PlugUnique(c, Node(l, Leftmost(r), WithoutLeftmost(r)));
    PlugNodes(c, Node(l, x, r));
    PlugNodes(c, Node(l, x, WithoutLeftmost(r)));
  }

  /** The disjointness a proof about one hole needs, spelled out. */
  lemma {:induction false} UnfoldUnique<T>(c: Ctx<T>, t: Tree<T>)
    requires t.Node? && Unique(Plug(c, t))
    ensures CtxUnique(c) && Unique(t.l) && Unique(t.r)
    ensures t.n !in Nodes(t.l) && t.n !in Nodes(t.r) && Nodes(t.l) !! Nodes(t.r)
    ensures CtxNodes(c) !! Nodes(t)
    ensures c.InLeft? ==> c.n !in Nodes(c.r) && c.n !in CtxNodes(c.up)
    ensures c.InRight? ==> c.n !in Nodes(c.l) && c.n !in CtxNodes(c.up)
    ensures t.r.Node? ==> t.r.n !in Nodes(t.r.l) && t.r.n !in Nodes(t.r.r)
    ensures t.l.Node? ==> t.l.n !in Nodes(t.l.l) && t.l.n !in Nodes(t.l.r)
  {
    PlugUnique(c, t);
  }
}

/**
 The traversals of btree.c. `todo` is modelled by the sequence of the nodes it
 is called on; the stacks and the queue are sequences. The iterative versions
 are proved to visit what the recursive definitions list.
 */
module Traversal {
  import opened BTreeShape
  import opened BTree

  ghost function PreOrder<T>(t: Tree<T>): seq<BNode<T>> {
    if t.Leaf? then [] else [t.n] + PreOrder(t.l) + PreOrder(t.r)
  }

  ghost function PostOrder<T>(t: Tree<T>): seq<BNode<T>> {
    if t.Leaf? then [] else PostOrder(t.l) + PostOrder(t.r) + [t.n]
  }

  ghost function Size<T>(t: Tree<T>): nat {
    if t.Leaf? then 0 else Size(t.l) + 1 + Size(t.r)
  }

  ghost function Depth<T>(t: Tree<T>): nat {
    if t.Leaf? then 0 else 1 + if Depth(t.l) > Depth(t.r) then Depth(t.l) else Depth(t.r)
  }

  // ---------- what the three orders mean ----------

  lemma {:induction false} SameCounts<T>(t: Tree<T>)
    ensures multiset(PreOrder(t)) == multiset(InOrder(t)) == multiset(PostOrder(t))
  {
    if t.Node? {
      SameCounts(t.l);
      SameCounts(t.r);
      assert multiset(PreOrder(t)) == multiset{t.n} + multiset(PreOrder(t.l)) + multiset(PreOrder(t.r));
      assert multiset(InOrder(t)) == multiset(InOrder(t.l)) + multiset{t.n} + multiset(InOrder(t.r));
      assert multiset(PostOrder(t)) == multiset(PostOrder(t.l)) + multiset(PostOrder(t.r)) + multiset{t.n};
    }
  }

  /** All three list every node of the tree, as often as it occurs. */
  lemma {:induction false} SameNodesListed<T>(t: Tree<T>)
    ensures multiset(PreOrder(t)) == multiset(InOrder(t)) == multiset(PostOrder(t))
    ensures forall a :: a in Nodes(t) ==> a in PreOrder(t) && a in InOrder(t) && a in PostOrder(t)
  {
    SameCounts(t);
    InOrderMembers(t);
    hide PreOrder, InOrder, PostOrder, Nodes;
    forall a | a in Nodes(t) ensures a in PreOrder(t) && a in PostOrder(t) {
      assert a in multiset(InOrder(t));
      assert a in multiset(PreOrder(t)) && a in multiset(PostOrder(t));
    }
  }

  ghost predicate Precedes<T>(s: seq<T>, a: T, b: T) {
    exists i, j :: 0 <= i < j < |s| && s[i] == a && s[j] == b
  }

  lemma PrecedesAcross<T>(p: seq<T>, s: seq<T>, m: seq<T>, t: seq<T>, q: seq<T>, a: T, b: T)
    requires a in s && b in t
    ensures Precedes(p + s + m + t + q, a, b)
  {
    var w := p + s + m + t + q;
    var i :| 0 <= i < |s| && s[i] == a;
    var j :| 0 <= j < |t| && t[j] == b;
    assert w[|p| + i] == a && w[|p| + |s| + |m| + j] == b;
  }

  lemma PrecedesWithin<T>(p: seq<T>, s: seq<T>, q: seq<T>, a: T, b: T)
    requires Precedes(s, a, b)
    ensures Precedes(p + s + q, a, b)
  {
    var i, j :| 0 <= i < j < |s| && s[i] == a && s[j] == b;
    var w := p + s + q;
    assert w[|p| + i] == a && w[|p| + j] == b;
  }

  lemma Pieces<T>(p: seq<T>, a: seq<T>, b: seq<T>, c: seq<T>, q: seq<T>)
    ensures var w := p + (a + b + c) + q;
            && w == p + a + [] + b + (c + q) && w == p + a + b + c + q && w == (p + a) + b + [] + c + q
            && w == p + a + (b + c + q) && w == (p + a) + b + (c + q) && w == (p + a + b) + c + q
  {
  }

  /** In three pieces one behind the other all of one piece precedes all of a later one. */
  lemma {:induction false} PiecesPrecede<T>(p: seq<T>, a: seq<T>, b: seq<T>, c: seq<T>, q: seq<T>)
    ensures forall x, y :: x in a && y in b ==> Precedes(p + (a + b + c) + q, x, y)
    ensures forall x, y :: x in a && y in c ==> Precedes(p + (a + b + c) + q, x, y)
    ensures forall x, y :: x in b && y in c ==> Precedes(p + (a + b + c) + q, x, y)
  {
    Pieces(p, a, b, c, q);
    hide Precedes;
    forall x, y | x in a && y in b ensures Precedes(p + (a + b + c) + q, x, y) {
      PrecedesAcross(p, a, [], b, c + q, x, y);
    }
    forall x, y | x in a && y in c ensures Precedes(p + (a + b + c) + q, x, y) {
      PrecedesAcross(p, a, b, c, q, x, y);
    }
    forall x, y | x in b && y in c ensures Precedes(p + (a + b + c) + q, x, y) {
      PrecedesAcross(p + a, b, [], c, q, x, y);
    }
  }

  /** The part in a hole is listed in one piece. */
  lemma {:induction false} PreOrderPiece<T>(c: Ctx<T>, t: Tree<T>) returns (p: seq<BNode<T>>, q: seq<BNode<T>>)
    ensures PreOrder(Plug(c, t)) == p + PreOrder(t) + q
    decreases c
  {
    if c.Top? {
      p, q := [], [];
    } else if c.InLeft? {
      var up := Node(t, c.n, c.r);
      assert Plug(c, t) == Plug(c.up, up) && PreOrder(up) == [c.n] + PreOrder(t) + PreOrder(c.r);
      hide *;
      p, q := PreOrderPiece(c.up, up);
      Pieces(p, [c.n], PreOrder(t), PreOrder(c.r), q);
      p, q := p + [c.n], PreOrder(c.r) + q;
    } else {
      var up := Node(c.l, c.n, t);
      assert Plug(c, t) == Plug(c.up, up) && PreOrder(up) == [c.n] + PreOrder(c.l) + PreOrder(t);
      hide *;
      p, q := PreOrderPiece(c.up, up);
      Pieces(p, [c.n], PreOrder(c.l), PreOrder(t), q);
      p := p + [c.n] + PreOrder(c.l);
    }
  }

  lemma {:induction false} PostOrderPiece<T>(c: Ctx<T>, t: Tree<T>) returns (p: seq<BNode<T>>, q: seq<BNode<T>>)
    ensures PostOrder(Plug(c, t)) == p + PostOrder(t) + q
    decreases c
  {
    if c.Top? {
      p, q := [], [];
    } else if c.InLeft? {
      var up := Node(t, c.n, c.r);
      assert Plug(c, t) == Plug(c.up, up) && PostOrder(up) == PostOrder(t) + PostOrder(c.r) + [c.n];
      hide *;
      p, q := PostOrderPiece(c.up, up);
      Pieces(p, PostOrder(t), PostOrder(c.r), [c.n], q);
      q := PostOrder(c.r) + [c.n] + q;
    } else {
      var up := Node(c.l, c.n, t);
      assert Plug(c, t) == Plug(c.up, up) && PostOrder(up) == PostOrder(c.l) + PostOrder(t) + [c.n];
      hide *;
      p, q := PostOrderPiece(c.up, up);
      Pieces(p, PostOrder(c.l), PostOrder(t), [c.n], q);
      p, q := p + PostOrder(c.l), [c.n] + q;
    }
  }

  /** Wherever a node stands, the preorder has it first, then its left part, then its right part. */
  lemma {:induction false} PreOrderMeets<T>(c: Ctx<T>, l: Tree<T>, x: BNode<T>, r: Tree<T>)
    ensures var s := PreOrder(Plug(c, Node(l, x, r)));
            && (forall a :: a in Nodes(l) || a in Nodes(r) ==> Precedes(s, x, a))
            && (forall a, b :: a in Nodes(l) && b in Nodes(r) ==> Precedes(s, a, b))
  {
    assert PreOrder(Node(l, x, r)) == [x] + PreOrder(l) + PreOrder(r);
    hide *;
    SameNodesListed(l);
    SameNodesListed(r);
    var p, q := PreOrderPiece(c, Node(l, x, r));
    PiecesPrecede(p, [x], PreOrder(l), PreOrder(r), q);
    assert x in [x];
  }

  /** The in-order sequence has the left part, the node, the right part. */
  lemma {:induction false} InOrderMeets<T>(c: Ctx<T>, l: Tree<T>, x: BNode<T>, r: Tree<T>)
    ensures var s := InOrder(Plug(c, Node(l, x, r)));
            && (forall a :: a in Nodes(l) ==> Precedes(s, a, x))
            && (forall b :: b in Nodes(r) ==> Precedes(s, x, b))
            && (forall a, b :: a in Nodes(l) && b in Nodes(r) ==> Precedes(s, a, b))
  {
    assert InOrder(Node(l, x, r)) == InOrder(l) + [x] + InOrder(r);
    hide *;
    SameNodesListed(l);
    SameNodesListed(r);
    PlugInOrder(c, Node(l, x, r));
    PiecesPrecede(Before(c), InOrder(l), [x], InOrder(r), After(c));
    assert x in [x];
  }

  /** The postorder has the left part, the right part, then the node. */
  lemma {:induction false} PostOrderMeets<T>(c: Ctx<T>, l: Tree<T>, x: BNode<T>, r: Tree<T>)
    ensures var s := PostOrder(Plug(c, Node(l, x, r)));
            && (forall a :: a in Nodes(l) || a in Nodes(r) ==> Precedes(s, a, x))
            && (forall a, b :: a in Nodes(l) && b in Nodes(r) ==> Precedes(s, a, b))
  {
    assert PostOrder(Node(l, x, r)) == PostOrder(l) + PostOrder(r) + [x];
    hide *;
    SameNodesListed(l);
    SameNodesListed(r);
    var p, q := PostOrderPiece(c, Node(l, x, r));
    PiecesPrecede(p, PostOrder(l), PostOrder(r), [x], q);
    assert x in [x];
  }

  // ---------- the recursive traversals ----------

  /** btree.c:36-44 */
  function PreOrderFrom<T>(cur: BNode?<T>, ghost t: Tree<T>, ghost p: BNode?<T>): (out: seq<BNode<T>>)
    requires cur == RootOf(t) && Embodies(t, p)
    reads Nodes(t)
    ensures out == PreOrder(t)
    decreases t
  {
    if cur == null then []
    else [cur] + PreOrderFrom(cur.lchild, t.l, t.n) + PreOrderFrom(cur.rchild, t.r, t.n)
  }

  /** btree.c:53-61 */
  function InOrderFrom<T>(cur: BNode?<T>, ghost t: Tree<T>, ghost p: BNode?<T>): (out: seq<BNode<T>>)
    requires cur == RootOf(t) && Embodies(t, p)
    reads Nodes(t)
    ensures out == InOrder(t)
    decreases t
  {
    if cur == null then []
    else InOrderFrom(cur.lchild, t.l, t.n) + [cur] + InOrderFrom(cur.rchild, t.r, t.n)
  }

  /** btree.c:70-78 */
  function PostOrderFrom<T>(cur: BNode?<T>, ghost t: Tree<T>, ghost p: BNode?<T>): (out: seq<BNode<T>>)
    requires cur == RootOf(t) && Embodies(t, p)
    reads Nodes(t)
    ensures out == PostOrder(t)
    decreases t
  {
    if cur == null then []
    else PostOrderFrom(cur.lchild, t.l, t.n) + PostOrderFrom(cur.rchild, t.r, t.n) + [cur]
  }

  /** btree.c:116-130 */
  function GetDepth<T>(cur: BNode?<T>, ghost t: Tree<T>, ghost p: BNode?<T>): (d: nat)
    requires cur == RootOf(t) && Embodies(t, p)
    reads Nodes(t)
    ensures d == Depth(t)
    decreases t
  {
    if cur == null then 0
    else
      var ldepth, rdepth := GetDepth(cur.lchild, t.l, t.n), GetDepth(cur.rchild, t.r, t.n);
      if ldepth > rdepth then ldepth + 1 else rdepth + 1
  }

  // ---------- the stack-based traversals ----------

  /** A node on the stack: its subtree, and whether its right part has been entered. */
  datatype Frame<T> = Frame(t: Tree<T>, right: bool)

  /** The frames describe the stack, and the pointers of its nodes to the right are in place. */
  ghost predicate Stacked<T>(fs: seq<Frame<T>>, stack: seq<BNode<T>>)
    reads stack, set i, n | 0 <= i < |fs| && fs[i].t.Node? && n in Nodes(fs[i].t.r) :: n
  {
    && |fs| == |stack|
    && forall i :: 0 <= i < |fs| ==>
         fs[i].t.Node? && fs[i].t.n == stack[i] && stack[i].rchild == RootOf(fs[i].t.r) && Embodies(fs[i].t.r, stack[i])
  }

  lemma StackedPush<T>(fs: seq<Frame<T>>, stack: seq<BNode<T>>, t: Tree<T>, p: BNode?<T>)
    requires Stacked(fs, stack) && t.Node? && Embodies(t, p)
    ensures Stacked(fs + [Frame(t, false)], stack + [t.n])
    ensures t.n.lchild == RootOf(t.l) && Embodies(t.l, t.n)
  {
  }

  lemma StackedTop<T>(fs: seq<Frame<T>>, stack: seq<BNode<T>>)
    requires Stacked(fs, stack)
    ensures |fs| == |stack|
    ensures fs != [] ==>
      var f, n := fs[|fs| - 1], stack[|stack| - 1];
      && Stacked(fs[..|fs| - 1], stack[..|stack| - 1])
      && Stacked(fs[..|fs| - 1] + [Frame(f.t, true)], stack)
      && f.t.Node? && f.t.n == n && n.rchild == RootOf(f.t.r) && Embodies(f.t.r, n)
  {
  }

  lemma StackedEmpty<T>()
    ensures Stacked<T>([], [])
  {
  }

  /** What is still to come: what the nodes on the stack contribute, the top first, once `cur` is done. */
  datatype Kind = Pre | In | Post

  ghost function Listing<T>(o: Kind, t: Tree<T>): seq<BNode<T>> {
    match o
    case Pre => PreOrder(t)
    case In => InOrder(t)
    case Post => PostOrder(t)
  }

  ghost function Contribution<T>(o: Kind, f: Frame<T>): seq<BNode<T>> {
    if f.t.Leaf? then []
    else match o
      case Pre => PreOrder(f.t.r)
      case In => [f.t.n] + InOrder(f.t.r)
      case Post => (if f.right then [] else PostOrder(f.t.r)) + [f.t.n]
  }

  ghost function Rest<T>(o: Kind, fs: seq<Frame<T>>): seq<BNode<T>> {
    if fs == [] then [] else Contribution(o, fs[|fs| - 1]) + Rest(o, fs[..|fs| - 1])
  }

  /** A bound on the rounds of the loop that are left. */
  ghost function Work<T>(sub: Tree<T>, fs: seq<Frame<T>>): nat
    decreases |fs|
  {
    3 * Size(sub) +
    if fs == [] then 0
    else
      var f := fs[|fs| - 1];
      (if f.right then 1 else if f.t.Leaf? then 2 else 2 + 3 * Size(f.t.r)) + Work(Leaf, fs[..|fs| - 1])
  }

  ghost predicate OnTheWay<T>(o: Kind, out: seq<BNode<T>>, sub: Tree<T>, fs: seq<Frame<T>>, t: Tree<T>) {
    out + Listing(o, sub) + Rest(o, fs) == Listing(o, t)
  }

  lemma WayStart<T>(o: Kind, t: Tree<T>)
    ensures OnTheWay(o, [], t, [], t)
  {
  }

  lemma WayEnd<T>(o: Kind, out: seq<BNode<T>>, t: Tree<T>)
    requires OnTheWay(o, out, Leaf, [], t)
    ensures out == Listing(o, t)
  {
    assert out + [] + [] == out;
  }

  lemma RestPushed<T>(o: Kind, fs: seq<Frame<T>>, f: Frame<T>)
    ensures Rest(o, fs + [f]) == Contribution(o, f) + Rest(o, fs)
    ensures Work(Leaf, fs + [f]) == (if f.right then 1 else if f.t.Leaf? then 2 else 2 + 3 * Size(f.t.r)) + Work(Leaf, fs)
  {
    assert (fs + [f])[..|fs + [f]| - 1] == fs;
  }

  lemma WorkSplit<T>(sub: Tree<T>, fs: seq<Frame<T>>)
    ensures Work(sub, fs) == 3 * Size(sub) + Work(Leaf, fs)
  {
  }

  lemma SplitLast<T>(s: seq<T>)
    requires s != []
    ensures s == s[..|s| - 1] + [s[|s| - 1]]
  {
  }

  lemma Regroup3<T>(out: seq<T>, a: seq<T>, b: seq<T>, c: seq<T>, rest: seq<T>)
    ensures out + (a + b + c) + rest == (out + a) + b + (c + rest) == out + a + ((b + c) + rest)
    ensures out + [] + ((b + c) + rest) == out + b + (c + rest) == (out + b) + c + rest
    ensures out + [] + (b + rest) == out + b + rest == (out + b) + [] + rest
    ensures out + b + (([] + c) + rest) == out + b + (c + rest)
  {
  }

  /** How the listing of a tree and the contributions of its root go together. */
  lemma Parts<T>(o: Kind, t: Tree<T>, right: bool)
    requires t.Node?
    ensures match o
      case Pre => Listing(o, t) == [t.n] + Listing(o, t.l) + Listing(o, t.r)
      case In => Listing(o, t) == Listing(o, t.l) + [t.n] + Listing(o, t.r)
      case Post => Listing(o, t) == Listing(o, t.l) + Listing(o, t.r) + [t.n]
    ensures match o
      case Pre => Contribution(o, Frame(t, right)) == Listing(o, t.r)
      case In => Contribution(o, Frame(t, right)) == [t.n] + Listing(o, t.r)
      case Post => Contribution(o, Frame(t, right)) == (if right then [] else Listing(o, t.r)) + [t.n]
    ensures Size(t) == Size(t.l) + 1 + Size(t.r) && Size(Tree<T>.Leaf) == 0
    ensures Listing(o, Tree<T>.Leaf) == []
  {
  }

  /** Descending to the left. Pre-order visits the node now, the others later. */
  lemma {:induction false} WayDown<T>(o: Kind, out: seq<BNode<T>>, sub: Tree<T>, fs: seq<Frame<T>>, t: Tree<T>)
    requires OnTheWay(o, out, sub, fs, t) && sub.Node?
    ensures OnTheWay(o, if o == Pre then out + [sub.n] else out, sub.l, fs + [Frame(sub, false)], t)
    ensures Work(sub.l, fs + [Frame(sub, false)]) < Work(sub, fs)
  {
    hide Listing, Contribution, Rest, Work, Size;
    var f := Frame(sub, false);
    RestPushed(o, fs, f);
    WorkSplit(sub.l, fs + [f]);
    WorkSplit(sub, fs);
    Parts(o, sub, false);
    var rest, l, r := Rest(o, fs), Listing(o, sub.l), Listing(o, sub.r);
    match o
    case Pre => Regroup3(out, [sub.n], l, r, rest);
    case In => Regroup3(out, l, [sub.n], r, rest);
    case Post => Regroup3(out, l, r, [sub.n], rest);
  }

  /** Coming up to a node of which the left part is done: popping it and going right. */
  lemma {:induction false} WayUp<T>(o: Kind, out: seq<BNode<T>>, fs: seq<Frame<T>>, t: Tree<T>)
    requires OnTheWay(o, out, Leaf, fs, t) && fs != [] && fs[|fs| - 1].t.Node? && o != Post
    ensures var f := fs[|fs| - 1].t;
            OnTheWay(o, if o == In then out + [f.n] else out, f.r, fs[..|fs| - 1], t)
    ensures !fs[|fs| - 1].right ==> Work(fs[|fs| - 1].t.r, fs[..|fs| - 1]) < Work(Leaf, fs)
  {
    var f, fs' := fs[|fs| - 1], fs[..|fs| - 1];
    SplitLast(fs);
    hide Listing, Contribution, Rest, Work, Size;
    RestPushed(o, fs', f);
    WorkSplit(f.t.r, fs');
    WorkSplit(Leaf, fs');
    Parts(o, f.t, f.right);
    var rest, r := Rest(o, fs'), Listing(o, f.t.r);
    Regroup3(out, [f.t.n], r, r, rest);
    Regroup3(out, r, [f.t.n], r, rest);
  }

  /** In every frame the right part has not been marked, as pre- and in-order never do. */
  ghost predicate Unmarked<T>(fs: seq<Frame<T>>) {
    forall i :: 0 <= i < |fs| ==> !fs[i].right
  }

  lemma UnmarkedSteps<T>(fs: seq<Frame<T>>, t: Tree<T>)
    requires Unmarked(fs)
    ensures Unmarked(fs + [Frame(t, false)])
    ensures fs != [] ==> Unmarked(fs[..|fs| - 1]) && !fs[|fs| - 1].right
  {
  }

  lemma UnmarkedEmpty<T>()
    ensures Unmarked<T>([])
  {
  }

  /** btree.c:232-258 */
  method PreOrderNoRecursion<T>(root: BNode?<T>, ghost t: Tree<T>) returns (out: seq<BNode<T>>)
    requires root == RootOf(t) && Embodies(t, null)
    ensures out == PreOrder(t)
  {
    hide Work, OnTheWay, Stacked, Unmarked, Embodies, PreOrder;
    var stack: seq<BNode<T>>, cur := [], root;
    ghost var fs: seq<Frame<T>>, sub, p: BNode?<T> := [], t, null;
    WayStart(Pre, t);
    StackedEmpty<T>();
    UnmarkedEmpty<T>();
    out := [];
    while stack != [] || cur != null
      invariant cur == RootOf(sub) && Embodies(sub, p)
      invariant Stacked(fs, stack) && |fs| == |stack| && Unmarked(fs)
      invariant OnTheWay(Pre, out, sub, fs, t)
      decreases Work(sub, fs)
    {
      UnmarkedSteps(fs, sub);
      StackedTop(fs, stack);
      if cur != null {
        StackedPush(fs, stack, sub, p);
        WayDown(Pre, out, sub, fs, t);
        stack := stack + [cur];
        out := out + [cur];
        fs := fs + [Frame(sub, false)];
        p, sub := cur, sub.l;
        cur := cur.lchild;
      } else {
        WayUp(Pre, out, fs, t);
        cur, stack := stack[|stack| - 1], stack[..|stack| - 1];
        p, sub, fs := cur, fs[|fs| - 1].t.r, fs[..|fs| - 1];
        cur := cur.rchild;
      }
    }
    WayEnd(Pre, out, t);
  }

  /** btree.c:261-287 */
  method InOrderNoRecursion<T>(root: BNode?<T>, ghost t: Tree<T>) returns (out: seq<BNode<T>>)
    requires root == RootOf(t) && Embodies(t, null)
    ensures out == InOrder(t)
  {
    hide Work, OnTheWay, Stacked, Unmarked, Embodies, InOrder;
    var stack: seq<BNode<T>>, cur := [], root;
    ghost var fs: seq<Frame<T>>, sub, p: BNode?<T> := [], t, null;
    WayStart(In, t);
    StackedEmpty<T>();
    UnmarkedEmpty<T>();
    out := [];
    while stack != [] || cur != null
      invariant cur == RootOf(sub) && Embodies(sub, p)
      invariant Stacked(fs, stack) && |fs| == |stack| && Unmarked(fs)
      invariant OnTheWay(In, out, sub, fs, t)
      decreases Work(sub, fs)
    {
      UnmarkedSteps(fs, sub);
      StackedTop(fs, stack);
      if cur != null {
        StackedPush(fs, stack, sub, p);
        WayDown(In, out, sub, fs, t);
        stack := stack + [cur];
        fs := fs + [Frame(sub, false)];
        p, sub := cur, sub.l;
        cur := cur.lchild;
      } else {
        WayUp(In, out, fs, t);
        cur, stack := stack[|stack| - 1], stack[..|stack| - 1];
        out := out + [cur];
        p, sub, fs := cur, fs[|fs| - 1].t.r, fs[..|fs| - 1];
        cur := cur.rchild;
      }
    }
    WayEnd(In, out, t);
  }

  // ---------- post-order ----------

  /**
   What `prev` tells: it has been visited, if anything has; and when the right
   part of the top node is done, it is the root of that part. A node below the
   top whose right part has been entered has that part above it.
   */
  ghost predicate Marks<T>(fs: seq<Frame<T>>, sub: Tree<T>, prev: BNode?<T>, out: seq<BNode<T>>) {
    && (prev != null ==> prev in out)
    && (forall i :: 0 <= i < |fs| - 1 && fs[i].right ==> fs[i].t.Node? && fs[i + 1].t == fs[i].t.r)
    && (fs != [] && fs[|fs| - 1].right ==>
          var f := fs[|fs| - 1].t;
          f.Node? && f.r.Node? && (sub == f.r || (sub.Leaf? && prev == f.r.n)))
  }

  lemma {:induction false} PostOrderMembers<T>(t: Tree<T>)
    ensures forall i :: 0 <= i < |PostOrder(t)| ==> PostOrder(t)[i] in Nodes(t)
    ensures forall a :: a in Nodes(t) ==> a in PostOrder(t)
  {
    if t.Node? {
      PostOrderMembers(t.l);
      PostOrderMembers(t.r);
    }
  }

  lemma {:induction false} UniquePostOrder<T>(t: Tree<T>)
    requires Unique(t)
    ensures forall i, j :: 0 <= i < j < |PostOrder(t)| ==> PostOrder(t)[i] != PostOrder(t)[j]
  {
    if t.Node? {
      UniquePostOrder(t.l);
      UniquePostOrder(t.r);
      PostOrderMembers(t.l);
      PostOrderMembers(t.r);
      var l, r, s := PostOrder(t.l), PostOrder(t.r), PostOrder(t);
      forall i, j | 0 <= i < j < |s| ensures s[i] != s[j] {
        if j < |l| { assert l[i] != l[j]; }
        else if i >= |l| && j < |s| - 1 { assert r[i - |l|] != r[j - |l|]; }
        else {
          if i < |l| { assert s[i] == l[i]; }
          if |l| <= i { assert s[i] == r[i - |l|]; }
          if |l| <= j < |s| - 1 { assert s[j] == r[j - |l|]; }
        }
      }
    }
  }

  /** The root of a right part not yet entered has not been visited. */
  lemma NotYetVisited<T>(out: seq<BNode<T>>, fs: seq<Frame<T>>, t: Tree<T>)
    requires Unique(t) && OnTheWay(Post, out, Leaf, fs, t)
    requires fs != [] && fs[|fs| - 1].t.Node? && fs[|fs| - 1].t.r.Node? && !fs[|fs| - 1].right
    ensures fs[|fs| - 1].t.r.n !in out
  {
    var f := fs[|fs| - 1].t;
    UniquePostOrder(t);
    var rest := PostOrder(f.r) + [f.n] + Rest(Post, fs[..|fs| - 1]);
    assert PostOrder(t) == out + [] + rest;
    assert f.r.n == rest[|PostOrder(f.r)| - 1];
    NotAhead(out, rest, |PostOrder(f.r)| - 1);
  }

  lemma NotAhead<T>(out: seq<T>, rest: seq<T>, k: nat)
    requires k < |rest| && forall i, j :: 0 <= i < j < |out + [] + rest| ==> (out + [] + rest)[i] != (out + [] + rest)[j]
    ensures rest[k] !in out
  {
    var s := out + [] + rest;
    forall i | 0 <= i < |out| ensures out[i] != rest[k] {
      assert s[i] == out[i] && s[|out| + k] == rest[k];
    }
  }

  lemma MarksRight<T>(fs: seq<Frame<T>>, prev: BNode?<T>, out: seq<BNode<T>>)
    requires Marks(fs, Leaf, prev, out)
    requires fs != [] && fs[|fs| - 1].t.Node? && fs[|fs| - 1].t.r.Node? && prev != fs[|fs| - 1].t.r.n
    ensures var f := fs[|fs| - 1];
            !f.right && Marks(fs[..|fs| - 1] + [Frame(f.t, true)], f.t.r, prev, out)
  {
    var low := fs[..|fs| - 1];
    if low != [] { assert low[|low| - 1] == fs[|fs| - 2]; }
  }

  /** The top node's right part is entered. */
  lemma {:induction false} WayRight<T>(out: seq<BNode<T>>, fs: seq<Frame<T>>, prev: BNode?<T>, t: Tree<T>)
    requires OnTheWay(Post, out, Leaf, fs, t) && Marks(fs, Leaf, prev, out)
    requires fs != [] && fs[|fs| - 1].t.Node? && fs[|fs| - 1].t.r.Node? && prev != fs[|fs| - 1].t.r.n
    ensures var f := fs[|fs| - 1];
            var fs' := fs[..|fs| - 1] + [Frame(f.t, true)];
            OnTheWay(Post, out, f.t.r, fs', t) && Marks(fs', f.t.r, prev, out) && Work(f.t.r, fs') < Work(Leaf, fs)
  {
    var f, low := fs[|fs| - 1], fs[..|fs| - 1];
    SplitLast(fs);
    MarksRight(fs, prev, out);
    hide Listing, Contribution, Rest, Work, Size, Marks;
    RestPushed(Post, low, f);
    RestPushed(Post, low, Frame(f.t, true));
    WorkSplit(f.t.r, low + [Frame(f.t, true)]);
    Parts(Post, f.t, false);
    Parts(Post, f.t, true);
    Regroup3(out, [], Listing(Post, f.t.r), [f.t.n], Rest(Post, low));
    WorkSplit(Leaf, fs);
  }

  /** The top node is visited and leaves the stack. */
  lemma WayOff<T>(out: seq<BNode<T>>, fs: seq<Frame<T>>, prev: BNode?<T>, t: Tree<T>)
    requires Unique(t) && OnTheWay(Post, out, Leaf, fs, t) && Marks(fs, Leaf, prev, out)
    requires fs != [] && fs[|fs| - 1].t.Node? && (fs[|fs| - 1].t.r.Node? ==> prev == fs[|fs| - 1].t.r.n)
    ensures var n, fs' := fs[|fs| - 1].t.n, fs[..|fs| - 1];
            OnTheWay(Post, out + [n], Leaf, fs', t) && Marks(fs', Leaf, n, out + [n]) && Work(Leaf, fs') < Work(Leaf, fs)
  {
    var f, low := fs[|fs| - 1], fs[..|fs| - 1];
    if f.t.r.Node? && !f.right { NotYetVisited(out, fs, t); }
    assert Contribution(Post, f) == [f.t.n];
    assert out + [] + ([f.t.n] + Rest(Post, low)) == (out + [f.t.n]) + [] + Rest(Post, low);
    if low != [] { assert low[|low| - 1] == fs[|fs| - 2]; }
  }

  lemma MarksDown<T>(fs: seq<Frame<T>>, sub: Tree<T>, prev: BNode?<T>, out: seq<BNode<T>>)
    requires Marks(fs, sub, prev, out) && sub.Node?
    ensures Marks(fs + [Frame(sub, false)], sub.l, prev, out)
  {
  }

  lemma MarksStart<T>(t: Tree<T>)
    ensures Marks([], t, null, [])
  {
  }

  /** btree.c:290-322: `prev` is all that tells a node met for the second time from one met for the third. */
  method PostOrderNoRecursion<T>(root: BNode?<T>, ghost t: Tree<T>) returns (out: seq<BNode<T>>)
    requires root == RootOf(t) && Embodies(t, null) && Unique(t)
    ensures out == PostOrder(t)
  {
    hide Work, OnTheWay, Stacked, Marks, Unique, Embodies, PostOrder;
    var stack: seq<BNode<T>>, cur: BNode?<T>, prev: BNode?<T> := [], root, null;
    ghost var fs: seq<Frame<T>>, sub, p: BNode?<T> := [], t, null;
    WayStart(Post, t);
    StackedEmpty<T>();
    MarksStart(t);
    out := [];
    while stack != [] || cur != null
      invariant cur == RootOf(sub) && Embodies(sub, p)
      invariant Stacked(fs, stack) && |fs| == |stack| && Marks(fs, sub, prev, out)
      invariant OnTheWay(Post, out, sub, fs, t)
      decreases Work(sub, fs)
    {
      StackedTop(fs, stack);
      if cur != null {
        StackedPush(fs, stack, sub, p);
        WayDown(Post, out, sub, fs, t);
        MarksDown(fs, sub, prev, out);
        stack := stack + [cur];
        fs := fs + [Frame(sub, false)];
        p, sub := cur, sub.l;
        cur := cur.lchild;
      } else {
        ghost var f := fs[|fs| - 1].t;
        cur := stack[|stack| - 1];
        if cur.rchild != null && cur.rchild != prev {
          WayRight(out, fs, prev, t);
          fs := fs[..|fs| - 1] + [Frame(f, true)];
          p, sub := cur, f.r;
          cur := cur.rchild;
        } else {
          WayOff(out, fs, prev, t);
          prev, stack := stack[|stack| - 1], stack[..|stack| - 1];
          out := out + [cur];
          cur := null;
          fs := fs[..|fs| - 1];
        }
      }
    }
    WayEnd(Post, out, t);
  }
}

/** The queue-based traversal of btree.c, and what it has to do with the depth of the tree. */
module LevelOrder {
  import opened BTreeShape
  import opened BTree
  import opened Traversal

  /** The nodes at distance `d` from the root, from left to right. */
  ghost function Level<T>(t: Tree<T>, d: nat): seq<BNode<T>> {
    if t.Leaf? then [] else if d == 0 then [t.n] else Level(t.l, d - 1) + Level(t.r, d - 1)
  }

  /** The levels from `d` down, one behind the other. */
  ghost function LevelsFrom<T>(t: Tree<T>, d: nat): seq<BNode<T>>
    decreases Depth(t) - d
  {
    if d >= Depth(t) then [] else Level(t, d) + LevelsFrom(t, d + 1)
  }

  /** Within a level the nodes stand as they do in order: from left to right. */
  lemma {:induction false} LevelLeftToRight<T>(t: Tree<T>, d: nat)
    ensures forall i :: 0 <= i < |Level(t, d)| ==> Level(t, d)[i] in InOrder(t)
    ensures forall i, j :: 0 <= i < j < |Level(t, d)| ==> Precedes(InOrder(t), Level(t, d)[i], Level(t, d)[j])
  {
    if t.Node? && d == 0 {
      assert t.n in InOrder(t);
    } else if t.Node? {
      LevelLeftToRight(t.l, d - 1);
      LevelLeftToRight(t.r, d - 1);
      var u, v, x, y := InOrder(t.l), InOrder(t.r), Level(t.l, d - 1), Level(t.r, d - 1);
      assert Level(t, d) == x + y && InOrder(t) == u + [t.n] + v;
      hide *;
      SidesInOrder(u, [t.n], v, x, y);
    }
  }

  lemma {:induction false} SidesInOrder<T>(u: seq<T>, m: seq<T>, v: seq<T>, x: seq<T>, y: seq<T>)
    requires forall i :: 0 <= i < |x| ==> x[i] in u
    requires forall i :: 0 <= i < |y| ==> y[i] in v
    requires forall i, j :: 0 <= i < j < |x| ==> Precedes(u, x[i], x[j])
    requires forall i, j :: 0 <= i < j < |y| ==> Precedes(v, y[i], y[j])
    ensures var s, z := u + m + v, x + y;
            && (forall i :: 0 <= i < |z| ==> z[i] in s)
            && (forall i, j :: 0 <= i < j < |z| ==> Precedes(s, z[i], z[j]))
  {
    hide Precedes;
    var s, z := u + m + v, x + y;
    assert [] + u + (m + v) == s && (u + m) + v + [] == s && [] + u + m + v + [] == s;
    forall i, j | 0 <= i < j < |z| ensures Precedes(s, z[i], z[j]) {
      if j < |x| {
        PrecedesWithin([], u, m + v, x[i], x[j]);
      } else if i >= |x| {
        PrecedesWithin(u + m, v, [], y[i - |x|], y[j - |x|]);
      } else {
        PrecedesAcross([], u, m, v, [], x[i], y[j - |x|]);
      }
    }
  }

  // ---------- what the queue computes ----------

  ghost predicate NoLeaf<T>(f: seq<Tree<T>>) {
    forall i :: 0 <= i < |f| ==> f[i].Node?
  }

  /** A tree as a queue of at most one. */
  ghost function AsQueue<T>(t: Tree<T>): seq<Tree<T>> {
    if t.Leaf? then [] else [t]
  }

  ghost function Kids<T>(t: Tree<T>): seq<Tree<T>> {
    if t.Leaf? then [] else AsQueue(t.l) + AsQueue(t.r)
  }

  ghost function AllKids<T>(f: seq<Tree<T>>): seq<Tree<T>> {
    if f == [] then [] else Kids(f[0]) + AllKids(f[1..])
  }

  ghost function Roots<T>(f: seq<Tree<T>>): seq<BNode<T>>
    requires NoLeaf(f)
  {
    if f == [] then [] else [f[0].n] + Roots(f[1..])
  }

  ghost function TotalSize<T>(f: seq<Tree<T>>): nat {
    if f == [] then 0 else Size(f[0]) + TotalSize(f[1..])
  }

  lemma SeqFacts<T>(f: seq<T>, g: seq<T>, h: seq<T>)
    ensures f + [] == f && [] + f == f && (f + g) + h == f + (g + h)
    ensures f != [] ==> (f + g)[0] == f[0] && (f + g)[1..] == f[1..] + g
    ensures |f| == 1 ==> f[1..] == []
  {
  }

  lemma {:induction false} TotalSizeConcat<T>(f: seq<Tree<T>>, g: seq<Tree<T>>)
    ensures TotalSize(f + g) == TotalSize(f) + TotalSize(g)
  {
    SeqFacts(f, g, g);
    SeqFacts(g, g, g);
    if f != [] {
      TotalSizeConcat(f[1..], g);
    }
  }

  lemma StepSize<T>(f: seq<Tree<T>>)
    requires f != [] && f[0].Node?
    ensures TotalSize(f[1..] + Kids(f[0])) == TotalSize(f) - 1
  {
    var t := f[0];
    TotalSizeConcat(f[1..], Kids(t));
    TotalSizeConcat(AsQueue(t.l), AsQueue(t.r));
    AsQueueFacts(t.l);
    AsQueueFacts(t.r);
  }

  lemma {:induction false} AsQueueFacts<T>(t: Tree<T>)
    ensures NoLeaf(AsQueue(t)) && TotalSize(AsQueue(t)) == Size(t) && AllKids(AsQueue(t)) == Kids(t)
    ensures Together(AsQueue(t)) == multiset(InOrder(t))
  {
    SeqFacts(AsQueue(t), [], []);
    SeqFacts(Kids(t), [], []);
  }

  lemma StepNoLeaf<T>(f: seq<Tree<T>>)
    requires f != [] && NoLeaf(f)
    ensures NoLeaf(f[1..] + Kids(f[0]))
  {
  }

  /** The nodes leave the queue in this order. */
  ghost function Served<T>(f: seq<Tree<T>>): seq<BNode<T>>
    requires NoLeaf(f)
    decreases TotalSize(f)
  {
    if f == [] then [] else
      StepSize(f);
      StepNoLeaf(f);
      [f[0].n] + Served(f[1..] + Kids(f[0]))
  }

  lemma {:induction false} ServedStep<T>(f: seq<Tree<T>>)
    requires NoLeaf(f)
    ensures f == [] ==> Served(f) == []
    ensures f != [] ==> NoLeaf(f[1..] + Kids(f[0])) && Served(f) == [f[0].n] + Served(f[1..] + Kids(f[0]))
    ensures f != [] ==> TotalSize(f[1..] + Kids(f[0])) < TotalSize(f)
  {
    if f != [] {
      StepSize(f);
      StepNoLeaf(f);
    }
  }

  lemma {:induction false} AllKidsConcat<T>(f: seq<Tree<T>>, g: seq<Tree<T>>)
    ensures AllKids(f + g) == AllKids(f) + AllKids(g)
  {
    SeqFacts(f, g, g);
    SeqFacts(g, g, g);
    if f != [] {
      AllKidsConcat(f[1..], g);
    }
  }

  lemma {:induction false} AllKidsNoLeaf<T>(f: seq<Tree<T>>)
    ensures NoLeaf(AllKids(f))
  {
    if f != [] { AllKidsNoLeaf(f[1..]); }
  }

  lemma {:induction false} RootsConcat<T>(f: seq<Tree<T>>, g: seq<Tree<T>>)
    requires NoLeaf(f) && NoLeaf(g)
    ensures NoLeaf(f + g) && Roots(f + g) == Roots(f) + Roots(g)
  {
    if f == [] {
      assert f + g == g;
    } else {
      assert (f + g)[0] == f[0] && (f + g)[1..] == f[1..] + g;
      RootsConcat(f[1..], g);
      assert Roots(f + g) == [f[0].n] + Roots(f[1..] + g);
      SeqFacts([f[0].n], Roots(f[1..]), Roots(g));
    }
  }

  /** Serving the front of the queue puts all its children behind the rest. */
  lemma {:induction false} ServeFront<T>(f: seq<Tree<T>>, g: seq<Tree<T>>)
    requires NoLeaf(f) && NoLeaf(g)
    ensures NoLeaf(f + g) && NoLeaf(g + AllKids(f))
    ensures Served(f + g) == Roots(f) + Served(g + AllKids(f))
    decreases |f|
  {
    AllKidsNoLeaf(f);
    UnfoldFront(f, g);
    SeqFacts(g, f, f);
    if f != [] {
      hide *;
      var n, k, f' := f[0].n, Kids(f[0]), f[1..];
      SeqFacts(f, g, g);
      SeqFacts(f', g, k);
      ServeFront(f', g + k);
      SeqFacts(g, k, AllKids(f'));
      ServedStep(f + g);
      SeqFacts([n], Roots(f'), Served(g + AllKids(f)));
    }
  }

  lemma UnfoldFront<T>(f: seq<Tree<T>>, g: seq<Tree<T>>)
    requires NoLeaf(f) && NoLeaf(g)
    ensures NoLeaf(f + g) && (NoLeaf(AllKids(f)) ==> NoLeaf(g + AllKids(f)))
    ensures f == [] ==> AllKids(f) == [] && Roots(f) == []
    ensures f != [] ==> AllKids(f) == Kids(f[0]) + AllKids(f[1..]) && f[0].Node?
    ensures f != [] ==> NoLeaf(f[1..]) && Roots(f) == [f[0].n] + Roots(f[1..]) && NoLeaf(g + Kids(f[0]))
  {
  }

  // ---------- generations ----------

  /** The subtrees that hang at distance `d`, from left to right. */
  ghost function Generation<T>(t: Tree<T>, d: nat): seq<Tree<T>> {
    if t.Leaf? then [] else if d == 0 then [t] else Generation(t.l, d - 1) + Generation(t.r, d - 1)
  }

  lemma {:induction false} GenerationIsLevel<T>(t: Tree<T>, d: nat)
    ensures NoLeaf(Generation(t, d)) && Roots(Generation(t, d)) == Level(t, d)
  {
    if t.Node? {
      if d == 0 {
        SeqFacts([t], [], []);
      } else {
        GenerationIsLevel(t.l, d - 1);
        GenerationIsLevel(t.r, d - 1);
        RootsConcat(Generation(t.l, d - 1), Generation(t.r, d - 1));
      }
    }
  }

  lemma NextIsKids<T>(t: Tree<T>)
    requires t.Node?
    ensures Generation(t, 1) == Kids(t) && Generation(t, 0) == AsQueue(t)
  {
  }

  lemma {:induction false} NextGeneration<T>(t: Tree<T>, d: nat)
    ensures AllKids(Generation(t, d)) == Generation(t, d + 1)
  {
    if t.Node? {
      if d == 0 {
        AsQueueFacts(t);
        NextIsKids(t);
      } else {
        NextGeneration(t.l, d - 1);
        NextGeneration(t.r, d - 1);
        AllKidsConcat(Generation(t.l, d - 1), Generation(t.r, d - 1));
      }
    }
  }

  /** A level is empty exactly from the depth of the tree on: there are Depth(t) levels. */
  lemma {:induction false} DepthCountsLevels<T>(t: Tree<T>, d: nat)
    ensures Level(t, d) != [] <==> d < Depth(t)
    ensures Generation(t, d) == [] <==> d >= Depth(t)
  {
    if t.Node? && d > 0 {
      DepthCountsLevels(t.l, d - 1);
      DepthCountsLevels(t.r, d - 1);
    }
  }

  /** From any level on, the queue serves the levels one after the other. */
  lemma {:induction false} ServedIsLevels<T>(t: Tree<T>, d: nat)
    ensures NoLeaf(Generation(t, d)) && Served(Generation(t, d)) == LevelsFrom(t, d)
    decreases Depth(t) - d
  {
    GenerationIsLevel(t, d);
    DepthCountsLevels(t, d);
    if d < Depth(t) {
      var g := Generation(t, d);
      ServeFront(g, []);
      NextGeneration(t, d);
      SeqFacts(g, [], []);
      SeqFacts(AllKids(g), [], []);
      ServedIsLevels(t, d + 1);
    }
  }

  // ---------- each node once ----------

  ghost function Together<T>(f: seq<Tree<T>>): multiset<BNode<T>> {
    if f == [] then multiset{} else multiset(InOrder(f[0])) + Together(f[1..])
  }

  lemma {:induction false} TogetherConcat<T>(f: seq<Tree<T>>, g: seq<Tree<T>>)
    ensures Together(f + g) == Together(f) + Together(g)
  {
    if f == [] {
      assert f + g == g;
    } else {
      assert (f + g)[0] == f[0] && (f + g)[1..] == f[1..] + g;
      hide InOrder;
      TogetherConcat(f[1..], g);
    }
  }

  lemma {:induction false} KidsTogether<T>(t: Tree<T>)
    requires t.Node?
    ensures multiset(InOrder(t)) == multiset{t.n} + Together(Kids(t))
  {
    TogetherConcat(AsQueue(t.l), AsQueue(t.r));
    AsQueueFacts(t.l);
    AsQueueFacts(t.r);
    assert multiset(InOrder(t)) == multiset(InOrder(t.l)) + multiset{t.n} + multiset(InOrder(t.r));
  }

  lemma {:induction false} ServedOnce<T>(f: seq<Tree<T>>)
    requires NoLeaf(f)
    ensures multiset(Served(f)) == Together(f)
    decreases TotalSize(f)
  {
    if f != [] {
      StepSize(f);
      StepNoLeaf(f);
      ServedOnce(f[1..] + Kids(f[0]));
      TogetherConcat(f[1..], Kids(f[0]));
      KidsTogether(f[0]);
    }
  }

  /** The levels together list every node of the tree exactly once. */
  lemma {:induction false} LevelsListEachNodeOnce<T>(t: Tree<T>)
    ensures multiset(LevelsFrom(t, 0)) == multiset(InOrder(t))
  {
    ServedIsLevels(t, 0);
    ServedOnce(Generation(t, 0));
    AsQueueFacts(t);
  }

  // ---------- btree_level_order ----------

  /** The queue holds the roots of `f`, and their pointers are in place. */
  ghost predicate Queued<T>(f: seq<Tree<T>>, queue: seq<BNode<T>>)
    reads queue, set i, n | 0 <= i < |f| && n in Nodes(f[i]) :: n
  {
    |f| == |queue| && forall i :: 0 <= i < |f| ==> f[i].Node? && f[i].n == queue[i] && Embodies(f[i], queue[i].parent)
  }

  lemma QueuedStep<T>(f: seq<Tree<T>>, queue: seq<BNode<T>>)
    requires Queued(f, queue) && queue != []
    ensures NoLeaf(f) && |f| == |queue|
    ensures var t, cur := f[0], queue[0];
            && t.Node? && t.n == cur && cur.lchild == RootOf(t.l) && cur.rchild == RootOf(t.r)
            && Queued(f[1..] + Kids(t), queue[1..] + (if cur.lchild != null then [cur.lchild] else [])
                                                  + (if cur.rchild != null then [cur.rchild] else []))
  {
    var t, cur := f[0], queue[0];
    var left := if cur.lchild != null then [cur.lchild] else [];
    var right := if cur.rchild != null then [cur.rchild] else [];
    assert |AsQueue(t.l)| == |left| && |AsQueue(t.r)| == |right|;
    assert Embodies(t, cur.parent) && Embodies(t.l, cur) && Embodies(t.r, cur);
    assert t.l.Node? ==> t.l.n.parent == cur;
    assert t.r.Node? ==> t.r.n.parent == cur;
    var g, q := f[1..] + Kids(t), queue[1..] + left + right;
    var m := |f| - 1;
    forall i | 0 <= i < |g| ensures g[i].Node? && g[i].n == q[i] && Embodies(g[i], q[i].parent) {
      if i >= m + |left| { assert g[i] == t.r && q[i] == cur.rchild; }
      else if i >= m { assert g[i] == t.l && q[i] == cur.lchild; }
      else { assert g[i] == f[i + 1] && q[i] == queue[i + 1]; }
    }
  }

  lemma QueuedBounds<T>(f: seq<Tree<T>>, queue: seq<BNode<T>>)
    requires Queued(f, queue)
    ensures NoLeaf(f) && |f| == |queue|
  {
  }

  lemma QueueStart<T>(t: Tree<T>, p: BNode?<T>)
    requires t.Node? && Embodies(t, p)
    ensures Queued([t], [t.n]) && NoLeaf([t]) && Served([t]) == LevelsFrom(t, 0)
  {
    ServedIsLevels(t, 0);
  }

  /** btree.c:91-115. On an empty tree the source pushes the null pointer and follows it. */
  method LevelOrderTraversal<T>(root: BNode?<T>, ghost t: Tree<T>) returns (out: seq<BNode<T>>)
    requires root == RootOf(t) && Embodies(t, null) && t.Node?
    ensures out == LevelsFrom(t, 0)
    ensures multiset(out) == multiset(InOrder(t))
  {
    hide Queued, Served, TotalSize, LevelsFrom, NoLeaf;
    QueueStart(t, null);
    LevelsListEachNodeOnce(t);
    var queue: seq<BNode<T>> := [root];
    ghost var f := [t];
    out := [];
    while queue != []
      invariant Queued(f, queue) && NoLeaf(f)
      invariant out + Served(f) == LevelsFrom(t, 0)
      decreases TotalSize(f)
    {
      QueuedStep(f, queue);
      ServedStep(f);
      var cur := queue[0];
      queue := queue[1..];
      out := out + [cur];
      var left := if cur.lchild != null then [cur.lchild] else [];
      var right := if cur.rchild != null then [cur.rchild] else [];
      queue := queue + left + right;
      f := f[1..] + Kids(f[0]);
    }
    QueuedBounds(f, queue);
    ServedStep(f);
  }
}

/**
 Building the tree: huff.c:89-134 on values. A forest is the list of the
 source, its members sorted by weight, each standing for the subtree below it.
 */
module HuffBuild {
  import opened HuffTree
  import opened Seqs

  const LEAF_NUM: nat := 256
  const ALL_NUM: nat := 511

  ghost function ForestWeights(f: seq<Tree>): (s: seq<nat>)
    ensures |s| == |f|
  {
    if f == [] then [] else [Weight(f[0])] + ForestWeights(f[1..])
  }

  ghost function AllLeaves(f: seq<Tree>): seq<Tree> {
    if f == [] then [] else Leaves(f[0]) + AllLeaves(f[1..])
  }

  ghost function AllInner(f: seq<Tree>): nat {
    if f == [] then 0 else InnerSum(f[0]) + AllInner(f[1..])
  }

  /** huff.c:75-87: in front of the first member that is not lighter. */
  ghost function InsertTree(f: seq<Tree>, t: Tree): (g: seq<Tree>)
    ensures |g| == |f| + 1
  {
    if f == [] || Weight(t) <= Weight(f[0]) then [t] + f else [f[0]] + InsertTree(f[1..], t)
  }

  /** One round of huff.c:95-121: the two lightest become one. */
  ghost function Merged(f: seq<Tree>, index: nat): (g: seq<Tree>)
    requires |f| >= 2
    ensures |g| == |f| - 1
  {
    InsertTree(f[2..], Node(index, f[0], f[1]))
  }

  /** The tree that is left in the end. */
  ghost function Build(f: seq<Tree>, index: nat): Tree
    requires f != []
    decreases |f|
  {
    if |f| == 1 then f[0] else Build(Merged(f, index), index + 1)
  }

  // ---------- sums ----------

  lemma {:induction false} InsertTreeWeights(f: seq<Tree>, t: Tree)
    ensures ForestWeights(InsertTree(f, t)) == InsertWeight(ForestWeights(f), Weight(t))
    ensures AllInner(InsertTree(f, t)) == AllInner(f) + InnerSum(t)
    ensures multiset(AllLeaves(InsertTree(f, t))) == multiset(AllLeaves(f)) + multiset(Leaves(t))
  {
    if f != [] && Weight(t) > Weight(f[0]) {
      InsertTreeWeights(f[1..], t);
      var g := InsertTree(f[1..], t);
      hide Leaves, InnerSum, Weight;
      assert InsertTree(f, t) == [f[0]] + g && ([f[0]] + g)[1..] == g;
      assert ForestWeights(f)[1..] == ForestWeights(f[1..]);
    } else {
      hide Leaves, InnerSum, Weight;
      assert ([t] + f)[1..] == f;
    }
  }

  lemma {:induction false} Unfold2(f: seq<Tree>)
    requires |f| >= 2
    ensures ForestWeights(f) == [Weight(f[0]), Weight(f[1])] + ForestWeights(f[2..])
    ensures AllInner(f) == InnerSum(f[0]) + InnerSum(f[1]) + AllInner(f[2..])
    ensures AllLeaves(f) == Leaves(f[0]) + Leaves(f[1]) + AllLeaves(f[2..])
  {
    hide Leaves, InnerSum, Weight;
    assert f[1..][1..] == f[2..];
    Regroup(Leaves(f[0]), Leaves(f[1]), AllLeaves(f[2..]));
    Regroup([Weight(f[0])], [Weight(f[1])], ForestWeights(f[2..]));
  }

  /** A merge keeps the leaves, and creates the weight of the new node. */
  lemma {:induction false} MergedSums(f: seq<Tree>, index: nat)
    requires |f| >= 2
    ensures multiset(AllLeaves(Merged(f, index))) == multiset(AllLeaves(f))
    ensures var s := ForestWeights(f);
            && ForestWeights(Merged(f, index)) == InsertWeight(s[2..], s[0] + s[1])
            && AllInner(Merged(f, index)) == AllInner(f) + s[0] + s[1]
  {
    var n := Node(index, f[0], f[1]);
    Unfold2(f);
    InsertTreeWeights(f[2..], n);
    assert ForestWeights(f)[2..] == ForestWeights(f[2..]);
    assert Leaves(n) == Leaves(f[0]) + Leaves(f[1]);
  }

  /** The finished tree has the leaves of the forest, and its inner weights are what merging costs. */
  lemma {:induction false} BuildSums(f: seq<Tree>, index: nat)
    requires f != []
    ensures multiset(Leaves(Build(f, index))) == multiset(AllLeaves(f))
    ensures InnerSum(Build(f, index)) == AllInner(f) + MergeCost(ForestWeights(f))
    decreases |f|
  {
    hide AllLeaves, Leaves, AllInner, InnerSum, ForestWeights, MergeCost, Merged;
    MergeCostStep(ForestWeights(f));
    if |f| == 1 {
      OneMember(f);
    } else {
      MergedSums(f, index);
      BuildSums(Merged(f, index), index + 1);
    }
  }

  lemma OneMember(f: seq<Tree>)
    requires |f| == 1
    ensures AllLeaves(f) == Leaves(f[0]) && AllInner(f) == InnerSum(f[0])
  {
    assert f[1..] == [] && AllLeaves(f) == Leaves(f[0]) + [];
  }

  /** The weights of the forest together. */
  ghost function Total(f: seq<Tree>): nat {
    if f == [] then 0 else Weight(f[0]) + Total(f[1..])
  }

  lemma {:induction false} TotalBounds(f: seq<Tree>, k: nat)
    requires k < |f|
    ensures Weight(f[k]) <= Total(f)
  {
    if k > 0 { TotalBounds(f[1..], k - 1); }
  }

  lemma {:induction false} TotalInsert(f: seq<Tree>, t: Tree)
    ensures Total(InsertTree(f, t)) == Total(f) + Weight(t)
  {
    if f != [] && Weight(t) > Weight(f[0]) {
      TotalInsert(f[1..], t);
      assert ([f[0]] + InsertTree(f[1..], t))[1..] == InsertTree(f[1..], t);
    } else {
      assert ([t] + f)[1..] == f;
    }
  }

  /** A round keeps the total weight. */
  lemma {:induction false} TotalMerged(f: seq<Tree>, index: nat)
    requires |f| >= 2
    ensures Total(Merged(f, index)) == Total(f)
  {
    TotalInsert(f[2..], Node(index, f[0], f[1]));
    assert f[1..][1..] == f[2..];
  }

  lemma {:induction false} BuildTotal(f: seq<Tree>, index: nat)
    requires f != []
    ensures Weight(Build(f, index)) == Total(f)
    decreases |f|
  {
    if |f| == 1 {
      assert f[1..] == [];
    } else {
      TotalMerged(f, index);
      BuildTotal(Merged(f, index), index + 1);
    }
  }

  // ---------- optimality ----------

  lemma {:induction false} ForestWeightsAt(f: seq<Tree>, k: nat)
    requires k < |f|
    ensures ForestWeights(f)[k] == Weight(f[k])
  {
    if k > 0 { ForestWeightsAt(f[1..], k - 1); }
  }

  lemma {:induction false} ForestWeightsConcat(f: seq<Tree>, g: seq<Tree>)
    ensures ForestWeights(f + g) == ForestWeights(f) + ForestWeights(g)
  {
    if f == [] {
      assert f + g == g;
    } else {
      assert (f + g)[1..] == f[1..] + g;
      ForestWeightsConcat(f[1..], g);
    }
  }

  /** Rearranging trees rearranges their weights. */
  lemma {:induction false} SameTreesSameWeights(f: seq<Tree>, g: seq<Tree>)
    requires multiset(f) == multiset(g)
    ensures multiset(ForestWeights(f)) == multiset(ForestWeights(g))
    decreases |f|
  {
    hide *;
    if f == [] {
      assert |multiset(g)| == |g| == 0;
    } else {
      var k := FirstIn(f, g);
      var x, a, b := f[0], g[..k], g[k + 1..];
      SameTreesSameWeights(f[1..], a + b);
      ForestWeightsConcat([x], f[1..]);
      ForestWeightsConcat(a + [x], b);
      ForestWeightsConcat(a, [x]);
      ForestWeightsConcat(a, b);
      WithMiddle(ForestWeights(a), ForestWeights([x]), ForestWeights(b));
    }
  }

  /** Where the first element of a sequence stands in a rearrangement of it. */
  lemma FirstIn<T>(s: seq<T>, t: seq<T>) returns (k: nat)
    requires s != [] && multiset(s) == multiset(t)
    ensures k < |t| && s == [s[0]] + s[1..] && t == t[..k] + [s[0]] + t[k + 1..]
    ensures multiset(s[1..]) == multiset(t[..k] + t[k + 1..])
  {
    assert s[0] in multiset(t);
    k :| 0 <= k < |t| && t[k] == s[0];
    TakenOut(t, k);
    TakenOut(s, 0);
    hide *;
    assert s[..0] + s[1..] == s[1..] && [] + [s[0]] + s[1..] == [s[0]] + s[1..];
    SameWithout(multiset(s[1..]), multiset(t[..k] + t[k + 1..]), s[0]);
  }

  lemma WithMiddle<T>(a: seq<T>, x: seq<T>, b: seq<T>)
    ensures multiset(a + x + b) == multiset(x) + multiset(a + b)
  {
  }

  lemma {:induction false} WeightsOfLeaves(t: Tree)
    ensures ForestWeights(Leaves(t)) == Weights(t)
  {
    if t.Leaf? {
      assert [t][1..] == [];
    } else {
      WeightsOfLeaves(t.l);
      WeightsOfLeaves(t.r);
      ForestWeightsConcat(Leaves(t.l), Leaves(t.r));
    }
  }

  ghost predicate OnlyLeaves(f: seq<Tree>) {
    forall i :: 0 <= i < |f| ==> f[i].Leaf?
  }

  lemma {:induction false} LeavesOfLeaves(f: seq<Tree>)
    requires OnlyLeaves(f)
    ensures AllLeaves(f) == f && AllInner(f) == 0
  {
    if f != [] { LeavesOfLeaves(f[1..]); }
  }

  /** No binary tree over the same leaves has a smaller sum of weight times depth than the built one. */
  lemma {:induction false} BuildIsOptimal(f: seq<Tree>, index: nat, other: Tree)
    requires f != [] && OnlyLeaves(f) && Ascending(ForestWeights(f))
    requires multiset(Leaves(other)) == multiset(f)
    ensures WeightedDepth(Build(f, index), 0) <= WeightedDepth(other, 0)
    ensures multiset(Leaves(Build(f, index))) == multiset(f)
  {
    hide *;
    LeavesOfLeaves(f);
    BuildSums(f, index);
    DepthIsInnerSum(Build(f, index), 0);
    SameTreesSameWeights(Leaves(other), f);
    WeightsOfLeaves(other);
    MergingIsOptimal(ForestWeights(f), other);
  }

  // ---------- how deep the tree can be ----------

  function Fib(n: nat): nat {
    if n < 2 then n else Fib(n - 1) + Fib(n - 2)
  }

  /** Each node weighs at least as much as each child of its sibling, and no leaf is weightless. */
  ghost predicate Balanced(t: Tree) {
    if t.Leaf? then t.w >= 1
    else
      && Balanced(t.l) && Balanced(t.r)
      && (t.l.Node? ==> Weight(t.l.l) <= Weight(t.r) && Weight(t.l.r) <= Weight(t.r))
      && (t.r.Node? ==> Weight(t.r.l) <= Weight(t.l) && Weight(t.r.r) <= Weight(t.l))
  }

  /** A balanced tree of height h weighs at least Fib(h + 2). */
  lemma {:induction false} BalancedWeight(t: Tree)
    requires Balanced(t)
    ensures Weight(t) >= 1 && Weight(t) >= Fib(Height(t) + 2)
    decreases t, 1
  {
    hide Fib;
    FibStep(0);
    if t.Node? {
      BalancedWeight(t.l);
      BalancedWeight(t.r);
      if Height(t.l) >= Height(t.r) { HighChild(t, t.l, t.r); } else { HighChild(t, t.r, t.l); }
    }
  }

  lemma FibStep(n: nat)
    ensures Fib(n + 2) == Fib(n + 1) + Fib(n) && Fib(1) == 1 && Fib(2) == 1
  {
  }

  /** With `c` the higher child of `t` and `s` its sibling, which outweighs the children of `c`. */
  lemma {:induction false} HighChild(t: Tree, c: Tree, s: Tree)
    requires t.Node? && Balanced(c) && Weight(t) == Weight(c) + Weight(s) && Height(t) == Height(c) + 1
    requires Weight(c) >= Fib(Height(c) + 2) && Weight(s) >= 1
    requires c.Node? ==> Weight(c.l) <= Weight(s) && Weight(c.r) <= Weight(s)
    ensures Weight(t) >= Fib(Height(t) + 2)
    decreases c, 2
  {
    hide Fib, Weight, Height, Balanced;
    FibStep(Height(c) + 1);
    if c.Node? { Sibling(c, s); } else { assert Height(c) == 0 by { LeafHeight(c); } }
  }

  lemma LeafHeight(t: Tree)
    requires t.Leaf?
    ensures Height(t) == 0
  {
  }

  lemma Sibling(c: Tree, s: Tree)
    requires c.Node? && Balanced(c) && Weight(c.l) <= Weight(s) && Weight(c.r) <= Weight(s)
    ensures Weight(s) >= Fib(Height(c) + 1)
    decreases c, 1
  {
    hide Fib, Weight;
    BalancedWeight(c.l);
    BalancedWeight(c.r);
  }

  lemma {:induction false} FibMonotone(m: nat, n: nat)
    requires m <= n
    ensures Fib(m) <= Fib(n)
    decreases n - m
  {
    if m < n {
      assert n >= 2 ==> Fib(n) == Fib(n - 1) + Fib(n - 2);
      FibMonotone(m, n - 1);
    }
  }

  lemma Fib19()
    ensures Fib(19) == 4181
  {
    assert Fib(9) == 34 && Fib(10) == 55;
    assert Fib(13) == 233 && Fib(14) == 377;
    assert Fib(17) == 1597 && Fib(18) == 2584;
  }

  /** A balanced tree that weighs less than 4181 has no path longer than the 16 bits of a code. */
  lemma {:induction false} LightTreesFit(t: Tree)
    requires Balanced(t) && Weight(t) < 4181
    ensures Height(t) <= 16
  {
    hide *;
    BalancedWeight(t);
    if Height(t) >= 17 {
      FibMonotone(19, Height(t) + 2);
      Fib19();
    }
  }

  // ---------- what every round of the construction keeps ----------

  /** Every inner node of `t` has children of weight at most `m`. */
  ghost predicate ChildrenAtMost(t: Tree, m: nat) {
    t.Node? ==> Weight(t.l) <= m && Weight(t.r) <= m && ChildrenAtMost(t.l, m) && ChildrenAtMost(t.r, m)
  }

  /** All inner nodes have indices from 256 up to below `hi`, each below its parent's; leaves are byte values. */
  ghost predicate Indexed(t: Tree, hi: nat) {
    if t.Leaf? then t.sym < LEAF_NUM
    else LEAF_NUM <= t.idx < hi && Indexed(t.l, t.idx) && Indexed(t.r, t.idx)
  }

  ghost function Indices(t: Tree): set<nat> {
    if t.Leaf? then {t.sym} else {t.idx} + Indices(t.l) + Indices(t.r)
  }

  ghost predicate UniqueIndices(t: Tree) {
    t.Node? ==> Indices(t.l) !! Indices(t.r) && UniqueIndices(t.l) && UniqueIndices(t.r)
  }

  ghost predicate MemberOk(t: Tree, index: nat, m: nat) {
    Balanced(t) && ChildrenAtMost(t, m) && Weight(t) >= m && Indexed(t, index) && UniqueIndices(t)
  }

  /** The forest before a round: sorted, with distinct members, all ready to be merged with next index `index`. */
  ghost predicate ForestOk(f: seq<Tree>, index: nat, m: nat) {
    && (forall i :: 0 <= i < |f| ==> MemberOk(f[i], index, m))
    && (forall i, j :: 0 <= i < j < |f| ==> Indices(f[i]) !! Indices(f[j]) && Weight(f[i]) <= Weight(f[j]))
  }

  lemma {:induction false} ChildrenAtMostMore(t: Tree, m: nat, n: nat)
    requires ChildrenAtMost(t, m) && m <= n
    ensures ChildrenAtMost(t, n)
  {
    if t.Node? {
      ChildrenAtMostMore(t.l, m, n);
      ChildrenAtMostMore(t.r, m, n);
    }
  }

  lemma {:induction false} IndexedMore(t: Tree, hi: nat, more: nat)
    requires Indexed(t, hi) && hi <= more
    ensures Indexed(t, more)
    ensures forall i :: i in Indices(t) ==> i < LEAF_NUM || i < hi
  {
    if t.Node? {
      IndexedMore(t.l, t.idx, t.idx);
      IndexedMore(t.r, t.idx, t.idx);
    }
  }

  lemma MemberLater(t: Tree, index: nat, m: nat, m': nat)
    requires MemberOk(t, index, m) && m <= m' <= Weight(t)
    ensures MemberOk(t, index + 1, m')
  {
    ChildrenAtMostMore(t, m, m');
    IndexedMore(t, index, index + 1);
  }

  lemma {:induction false} MergedMember(a: Tree, b: Tree, index: nat, m: nat)
    requires MemberOk(a, index, m) && MemberOk(b, index, m) && Weight(a) <= Weight(b)
    requires index >= LEAF_NUM && Indices(a) !! Indices(b)
    ensures MemberOk(Node(index, a, b), index + 1, Weight(b))
  {
    ChildrenAtMostMore(a, m, Weight(b));
    ChildrenAtMostMore(b, m, Weight(b));
    IndexedMore(a, index, index);
    IndexedMore(b, index, index);
  }

  lemma {:induction false} InsertTreePlace(f: seq<Tree>, t: Tree) returns (k: nat)
    ensures k <= |f| && InsertTree(f, t) == f[..k] + [t] + f[k..]
    ensures forall i :: 0 <= i < k ==> Weight(f[i]) < Weight(t)
    ensures k < |f| ==> Weight(t) <= Weight(f[k])
  {
    if f == [] || Weight(t) <= Weight(f[0]) {
      k := 0;
    } else {
      k := InsertTreePlace(f[1..], t);
      k := k + 1;
    }
  }

  /** Each round keeps the invariant; the new bound is the weight of the heavier of the two merged. */
  lemma {:induction false} MergedOk(f: seq<Tree>, index: nat, m: nat)
    requires |f| >= 2 && index >= LEAF_NUM && ForestOk(f, index, m)
    ensures ForestOk(Merged(f, index), index + 1, Weight(f[1]))
  {
    var n, rest, m' := Node(index, f[0], f[1]), f[2..], Weight(f[1]);
    MergedMember(f[0], f[1], index, m);
    forall i | 0 <= i < |rest| ensures MemberOk(rest[i], index + 1, m') && Indices(rest[i]) !! Indices(n) {
      assert rest[i] == f[i + 2] && Indices(f[0]) !! Indices(f[i + 2]) && Indices(f[1]) !! Indices(f[i + 2]);
      hide MemberOk;
      MemberBounds(f[1], index, m);
      MemberBounds(f[i + 2], index, m);
      MemberLater(f[i + 2], index, m, m');
    }
    forall i, j | 0 <= i < j < |rest| ensures Indices(rest[i]) !! Indices(rest[j]) && Weight(rest[i]) <= Weight(rest[j]) {
      assert rest[i] == f[i + 2] && rest[j] == f[j + 2];
    }
    assert Merged(f, index) == InsertTree(rest, n);
    hide MemberOk, Merged;
    InsertedOk(rest, n, index + 1, m');
  }

  /** A tree that fits among the others keeps them sorted and distinct. */
  lemma {:induction false} InsertedOk(f: seq<Tree>, n: Tree, index: nat, m: nat)
    requires ForestOk(f, index, m) && MemberOk(n, index, m) && forall i :: 0 <= i < |f| ==> Indices(f[i]) !! Indices(n)
    ensures ForestOk(InsertTree(f, n), index, m)
  {
    hide MemberOk;
    var k := InsertTreePlace(f, n);
    var g := InsertTree(f, n);
    hide InsertTree, Indices, Weight;
    forall i, j | 0 <= i < j < |g| ensures Indices(g[i]) !! Indices(g[j]) && Weight(g[i]) <= Weight(g[j]) {
      var i', j' := if i < k then i else i - 1, if j < k then j else j - 1;
      if i != k { assert g[i] == f[i']; }
      if j != k { assert g[j] == f[j']; }
    }
  }

  lemma MemberBounds(t: Tree, index: nat, m: nat)
    requires MemberOk(t, index, m) && index >= LEAF_NUM
    ensures m <= Weight(t)
    ensures forall i :: i in Indices(t) ==> i < index
  {
    IndexedMore(t, index, index);
  }

  /** The finished tree: balanced, properly indexed, with the last index at its root. */
  lemma {:induction false} BuildOk(f: seq<Tree>, index: nat, m: nat)
    requires f != [] && index >= LEAF_NUM && ForestOk(f, index, m)
    ensures Balanced(Build(f, index)) && UniqueIndices(Build(f, index))
    ensures Indexed(Build(f, index), index + |f| - 1)
    ensures |f| >= 2 ==> Build(f, index).Node? && Index(Build(f, index)) == index + |f| - 2
    decreases |f|
  {
    if |f| >= 2 {
      MergedOk(f, index, m);
      var g := Merged(f, index);
      BuildOk(g, index + 1, Weight(f[1]));
      if |g| == 1 {
        assert f[2..] == [];
        assert g == [Node(index, f[0], f[1])];
      }
    } else {
      assert MemberOk(f[0], index, m);
    }
  }

  /** The left child of every node is no heavier than the right one. */
  ghost predicate LighterLeft(t: Tree) {
    t.Node? ==> Weight(t.l) <= Weight(t.r) && LighterLeft(t.l) && LighterLeft(t.r)
  }

  lemma {:induction false} MergedLighterLeft(f: seq<Tree>, index: nat, m: nat)
    requires |f| >= 2 && ForestOk(f, index, m) && forall i :: 0 <= i < |f| ==> LighterLeft(f[i])
    ensures forall i :: 0 <= i < |Merged(f, index)| ==> LighterLeft(Merged(f, index)[i])
  {
    var n, rest, g := Node(index, f[0], f[1]), f[2..], Merged(f, index);
    assert LighterLeft(n) && g == InsertTree(rest, n);
    hide LighterLeft, ForestOk, InsertTree;
    var k := InsertTreePlace(rest, n);
    forall i | 0 <= i < |g| ensures LighterLeft(g[i]) {
      if i != k { assert g[i] == rest[if i < k then i else i - 1]; }
    }
  }

  /** The lighter of two merged trees goes to the left. */
  lemma {:induction false} BuildLighterLeft(f: seq<Tree>, index: nat, m: nat)
    requires f != [] && index >= LEAF_NUM && ForestOk(f, index, m)
    requires forall i :: 0 <= i < |f| ==> LighterLeft(f[i])
    ensures LighterLeft(Build(f, index))
    decreases |f|
  {
    assert Build(f, index) == if |f| == 1 then f[0] else Build(Merged(f, index), index + 1);
    if |f| >= 2 {
      hide *;
      MergedOk(f, index, m);
      MergedLighterLeft(f, index, m);
      BuildLighterLeft(Merged(f, index), index + 1, Weight(f[1]));
    }
  }
}

/** Weighted binary trees, and the tree huff.c builds from a list sorted by weight. */
module HuffTree {
  import opened Seqs

  /** A leaf is a byte value with its frequency; an inner node carries its index in the table. */
  datatype Tree = Leaf(sym: nat, w: nat) | Node(idx: nat, l: Tree, r: Tree)

  function Index(t: Tree): nat {
    if t.Leaf? then t.sym else t.idx
  }

  function Weight(t: Tree): nat {
    if t.Leaf? then t.w else Weight(t.l) + Weight(t.r)
  }

  function Height(t: Tree): nat {
    if t.Leaf? then 0 else 1 + if Height(t.l) > Height(t.r) then Height(t.l) else Height(t.r)
  }

  /** The leaves from left to right. */
  function Leaves(t: Tree): seq<Tree> {
    if t.Leaf? then [t] else Leaves(t.l) + Leaves(t.r)
  }

  /** The sum over all leaves of weight times distance from the root, for a root at distance `d`. */
  function WeightedDepth(t: Tree, d: nat): nat {
    if t.Leaf? then t.w * d else WeightedDepth(t.l, d + 1) + WeightedDepth(t.r, d + 1)
  }

  /** The sum of the weights of all inner nodes. */
  function InnerSum(t: Tree): nat {
    if t.Leaf? then 0 else InnerSum(t.l) + InnerSum(t.r) + Weight(t)
  }

  /** Weight times depth adds up to the weights of the inner nodes. */
  lemma {:induction false} DepthIsInnerSum(t: Tree, d: nat)
    ensures WeightedDepth(t, d) == InnerSum(t) + d * Weight(t)
  {
    if t.Node? {
      DepthIsInnerSum(t.l, d + 1);
      DepthIsInnerSum(t.r, d + 1);
      OneDeeper(Weight(t.l), Weight(t.r), d);
    }
  }

  lemma OneDeeper(a: nat, b: nat, d: nat)
    ensures (d + 1) * a + (d + 1) * b == (a + b) + d * (a + b)
  {
    assert (d + 1) * a == d * a + a && (d + 1) * b == d * b + b && d * (a + b) == d * a + d * b;
  }

  // ---------- sums over leaves and depths ----------

  function Weights(t: Tree): seq<nat> {
    if t.Leaf? then [t.w] else Weights(t.l) + Weights(t.r)
  }

  function Depths(t: Tree, d: nat): seq<nat> {
    if t.Leaf? then [d] else Depths(t.l, d + 1) + Depths(t.r, d + 1)
  }

  function Dot(ws: seq<nat>, ds: seq<nat>): nat
    requires |ws| == |ds|
  {
    if ws == [] then 0 else ws[0] * ds[0] + Dot(ws[1..], ds[1..])
  }

  lemma {:induction false} DotConcat(ws: seq<nat>, ds: seq<nat>, vs: seq<nat>, es: seq<nat>)
    requires |ws| == |ds| && |vs| == |es|
    ensures Dot(ws + vs, ds + es) == Dot(ws, ds) + Dot(vs, es)
  {
    if ws == [] {
      assert ws + vs == vs && ds + es == es;
    } else {
      assert (ws + vs)[1..] == ws[1..] + vs && (ds + es)[1..] == ds[1..] + es;
      DotConcat(ws[1..], ds[1..], vs, es);
    }
  }

  lemma {:induction false} SameLength(t: Tree, d: nat)
    ensures |Weights(t)| == |Depths(t, d)| == |Leaves(t)| > 0
  {
    if t.Node? {
      SameLength(t.l, d + 1);
      SameLength(t.r, d + 1);
    }
  }

  lemma {:induction false} DepthIsDot(t: Tree, d: nat)
    ensures |Weights(t)| == |Depths(t, d)| && WeightedDepth(t, d) == Dot(Weights(t), Depths(t, d))
  {
    SameLength(t, d);
    if t.Node? {
      DepthIsDot(t.l, d + 1);
      DepthIsDot(t.r, d + 1);
      DotConcat(Weights(t.l), Depths(t.l, d + 1), Weights(t.r), Depths(t.r, d + 1));
    }
  }

  lemma DotOne(w: nat, d: nat)
    ensures Dot([w], [d]) == w * d
  {
    assert [w][1..] == [] && [d][1..] == [];
  }

  // ---------- rearranging weights over a fixed shape ----------

  /** The shape of `t` with other weights at the leaves. */
  function Reweigh(t: Tree, ws: seq<nat>): Tree
    requires |ws| == |Leaves(t)|
  {
    if t.Leaf? then Leaf(t.sym, ws[0])
    else Node(t.idx, Reweigh(t.l, ws[..|Leaves(t.l)|]), Reweigh(t.r, ws[|Leaves(t.l)|..]))
  }

  lemma {:induction false} ReweighMeets(t: Tree, ws: seq<nat>, d: nat)
    requires |ws| == |Leaves(t)|
    ensures Weights(Reweigh(t, ws)) == ws && Depths(Reweigh(t, ws), d) == Depths(t, d)
  {
    if t.Node? {
      var k := |Leaves(t.l)|;
      ReweighMeets(t.l, ws[..k], d + 1);
      ReweighMeets(t.r, ws[k..], d + 1);
      assert ws == ws[..k] + ws[k..];
    }
  }

  /** Exchanging the weights of two leaves. */
  function Swap(ws: seq<nat>, i: nat, j: nat): seq<nat>
    requires i < |ws| && j < |ws|
  {
    ws[i := ws[j]][j := ws[i]]
  }

  lemma DotUpdate(ws: seq<nat>, ds: seq<nat>, i: nat, w: nat)
    requires |ws| == |ds| && i < |ws|
    ensures Dot(ws[i := w], ds) == Dot(ws, ds) - ws[i] * ds[i] + w * ds[i]
  {
    var a, b := ws[..i], ws[i + 1..];
    assert ws == a + ([ws[i]] + b) && ws[i := w] == a + ([w] + b);
    assert ds == ds[..i] + ([ds[i]] + ds[i + 1..]);
    DotConcat(a, ds[..i], [ws[i]] + b, [ds[i]] + ds[i + 1..]);
    DotConcat(a, ds[..i], [w] + b, [ds[i]] + ds[i + 1..]);
    DotConcat([ws[i]], [ds[i]], b, ds[i + 1..]);
    DotConcat([w], [ds[i]], b, ds[i + 1..]);
    DotOne(ws[i], ds[i]);
    DotOne(w, ds[i]);
  }

  lemma Rearrangement(a: nat, b: nat, c: nat, d: nat)
    requires a <= b && c <= d
    ensures b * c + a * d <= a * c + b * d
  {
    assert (b - a) * (d - c) >= 0;
  }

  /** Moving a lighter weight to a deeper leaf does not raise the sum. */
  lemma {:induction false} SwapLowers(ws: seq<nat>, ds: seq<nat>, i: nat, j: nat)
    requires |ws| == |ds| && i < |ws| && j < |ws|
    requires ws[i] <= ws[j] && ds[i] <= ds[j]
    ensures |Swap(ws, i, j)| == |ws| && Dot(Swap(ws, i, j), ds) <= Dot(ws, ds)
  {
    hide Dot;
    if i == j {
      assert Swap(ws, i, j) == ws;
    } else {
      DotUpdate(ws, ds, i, ws[j]);
      DotUpdate(ws[i := ws[j]], ds, j, ws[i]);
      Rearrangement(ws[i], ws[j], ds[i], ds[j]);
    }
  }

  lemma SwapPermutes(ws: seq<nat>, i: nat, j: nat)
    requires i < |ws| && j < |ws|
    ensures multiset(Swap(ws, i, j)) == multiset(ws)
  {
  }

  // ---------- the deepest pair of siblings ----------

  predicate DeepestAt(ds: seq<nat>, p: nat) {
    p + 1 < |ds| && ds[p] == ds[p + 1] >= 1 && forall i :: 0 <= i < |ds| ==> ds[i] <= ds[p]
  }

  /** `s` with the elements at `p` and `p + 1` replaced by one. */
  function Contracted(s: seq<nat>, p: nat, x: nat): seq<nat>
    requires p + 1 < |s|
  {
    s[..p] + [x] + s[p + 2..]
  }

  /** The deepest pair of a part is that of the whole, if the other part is not deeper. */
  lemma DeepestInFront(s: seq<nat>, t: seq<nat>, p: nat)
    requires DeepestAt(s, p) && forall i :: 0 <= i < |t| ==> t[i] <= s[p]
    ensures DeepestAt(s + t, p) && (s + t)[p] == s[p]
    ensures Contracted(s + t, p, s[p] - 1) == Contracted(s, p, s[p] - 1) + t
  {
    assert (s + t)[..p] == s[..p] && (s + t)[p + 2..] == s[p + 2..] + t;
  }

  lemma DeepestBehind(s: seq<nat>, t: seq<nat>, p: nat)
    requires DeepestAt(t, p) && forall i :: 0 <= i < |s| ==> s[i] <= t[p]
    ensures DeepestAt(s + t, |s| + p) && (s + t)[|s| + p] == t[p]
    ensures Contracted(s + t, |s| + p, t[p] - 1) == s + Contracted(t, p, t[p] - 1)
  {
    assert (s + t)[..|s| + p] == s + t[..p] && (s + t)[|s| + p + 2..] == t[p + 2..];
  }

  lemma TwoLeaves(t: Tree, d: nat)
    requires t.Node? && t.l.Leaf? && t.r.Leaf?
    ensures PairIn(t, d, 0, Leaf(0, 0))
  {
    assert Depths(t, d) == [d + 1, d + 1];
  }

  /** `p` is the deepest pair of `t`, and `c` is `t` with that pair contracted. */
  predicate PairIn(t: Tree, d: nat, p: nat, c: Tree) {
    DeepestAt(Depths(t, d), p) && Depths(c, d) == Contracted(Depths(t, d), p, Depths(t, d)[p] - 1)
  }

  lemma DepthsNode(i: nat, l: Tree, r: Tree, d: nat)
    ensures Depths(Node(i, l, r), d) == Depths(l, d + 1) + Depths(r, d + 1)
  {
  }

  lemma PairFromLeft(t: Tree, d: nat, p: nat, c: Tree)
    requires t.Node? && Height(t.l) >= Height(t.r) && PairIn(t.l, d + 1, p, c)
    ensures PairIn(t, d, p, Node(t.idx, c, t.r))
  {
    hide Depths, DeepestAt, Contracted, Height;
    DeepestBound(t.r, d + 1);
    PairIsDeepest(t.l, d + 1, p);
    DeepestInFront(Depths(t.l, d + 1), Depths(t.r, d + 1), p);
    DepthsNode(t.idx, t.l, t.r, d);
    DepthsNode(t.idx, c, t.r, d);
  }

  lemma PairFromRight(t: Tree, d: nat, p: nat, c: Tree)
    requires t.Node? && Height(t.l) <= Height(t.r) && PairIn(t.r, d + 1, p, c)
    ensures PairIn(t, d, |Depths(t.l, d + 1)| + p, Node(t.idx, t.l, c))
  {
    hide Depths, DeepestAt, Contracted, Height;
    DeepestBound(t.l, d + 1);
    PairIsDeepest(t.r, d + 1, p);
    DeepestBehind(Depths(t.l, d + 1), Depths(t.r, d + 1), p);
    DepthsNode(t.idx, t.l, t.r, d);
    DepthsNode(t.idx, t.l, c, d);
  }

  /** Every tree with two leaves has two sibling leaves, next to each other, that no leaf is deeper than. */
  lemma {:induction false} DeepestPair(t: Tree, d: nat) returns (p: nat, c: Tree)
    requires t.Node?
    ensures PairIn(t, d, p, c)
  {
    hide Depths, PairIn;
    if t.l.Leaf? && t.r.Leaf? {
      p, c := 0, Leaf(0, 0);
      TwoLeaves(t, d);
    } else if Height(t.l) >= Height(t.r) {
      p, c := DeepestPair(t.l, d + 1);
      PairFromLeft(t, d, p, c);
      c := Node(t.idx, c, t.r);
    } else {
      p, c := DeepestPair(t.r, d + 1);
      PairFromRight(t, d, p, c);
      p, c := |Depths(t.l, d + 1)| + p, Node(t.idx, t.l, c);
    }
  }

  /** No leaf is deeper than the height, and one is as deep. */
  lemma {:induction false} DeepestBound(t: Tree, d: nat)
    ensures forall i :: 0 <= i < |Depths(t, d)| ==> Depths(t, d)[i] <= d + Height(t)
    ensures d + Height(t) in Depths(t, d)
  {
    if t.Node? {
      DeepestBound(t.l, d + 1);
      DeepestBound(t.r, d + 1);
    }
  }

  lemma PairIsDeepest(t: Tree, d: nat, p: nat)
    requires DeepestAt(Depths(t, d), p)
    ensures Depths(t, d)[p] == d + Height(t)
  {
    DeepestBound(t, d);
  }

  // ---------- the greedy cost is least ----------

  predicate Ascending(s: seq<nat>) {
    forall i, j :: 0 <= i < j < |s| ==> s[i] <= s[j]
  }

  /** huff.c:75-87 on weights: in front of the first that is not less. */
  function InsertWeight(s: seq<nat>, x: nat): seq<nat> {
    if s == [] || x <= s[0] then [x] + s else [s[0]] + InsertWeight(s[1..], x)
  }

  lemma {:induction false} InsertWeightCounts(s: seq<nat>, x: nat)
    ensures multiset(InsertWeight(s, x)) == multiset(s) + multiset{x}
    ensures |InsertWeight(s, x)| == |s| + 1
  {
    if s != [] && x > s[0] {
      InsertWeightCounts(s[1..], x);
      assert s == [s[0]] + s[1..];
    }
  }

  lemma {:induction false} InsertWeightAscends(s: seq<nat>, x: nat)
    requires Ascending(s)
    ensures Ascending(InsertWeight(s, x))
    ensures forall i :: 0 <= i < |InsertWeight(s, x)| ==> InsertWeight(s, x)[i] in s || InsertWeight(s, x)[i] == x
  {
    if s != [] && x > s[0] { InsertWeightAscends(s[1..], x); }
  }

  /** The sum of all weights the merging of huff.c:95-121 creates. */
  function MergeCost(s: seq<nat>): nat
    decreases |s|
  {
    if |s| < 2 then 0
    else
      InsertWeightCounts(s[2..], s[0] + s[1]);
      s[0] + s[1] + MergeCost(InsertWeight(s[2..], s[0] + s[1]))
  }

  /** Apart from one occurrence of the least weight, a rearrangement holds the rest of the sorted sequence. */
  lemma TheOthers(s: seq<nat>, us: seq<nat>, p: nat)
    requires s != [] && multiset(us) == multiset(s) && p < |us| && us[p] == s[0]
    ensures multiset(us[..p] + us[p + 1..]) == multiset(s[1..])
  {
    TakenOut(us, p);
    TakenOut(s, 0);
    assert s[..0] + s[1..] == s[1..];
    SameWithout(multiset(us[..p] + us[p + 1..]), multiset(s[1..]), s[0]);
  }

  /** The second least weight stands somewhere else, and nothing else is less. */
  lemma SecondLeast(s: seq<nat>, us: seq<nat>, p: nat) returns (j: nat)
    requires Ascending(s) && |s| >= 2 && multiset(us) == multiset(s) && p < |us| && us[p] == s[0]
    ensures j < |us| && j != p && us[j] == s[1]
    ensures forall q :: 0 <= q < |us| && q != p ==> s[1] <= us[q]
  {
    TheOthers(s, us, p);
    var rest, tail := us[..p] + us[p + 1..], s[1..];
    assert tail[0] in multiset(rest);
    var k :| 0 <= k < |rest| && rest[k] == s[1];
    j := if k < p then k else k + 1;
    forall q | 0 <= q < |us| && q != p ensures s[1] <= us[q] {
      assert us[q] == rest[if q < p then q else q - 1];
      assert us[q] in multiset(tail);
    }
  }

  lemma LeastIn(s: seq<nat>, ws: seq<nat>) returns (i: nat)
    requires s != [] && Ascending(s) && multiset(ws) == multiset(s)
    ensures i < |ws| && ws[i] == s[0] && forall q :: 0 <= q < |ws| ==> s[0] <= ws[q]
  {
    assert s[0] in multiset(ws);
    i :| 0 <= i < |ws| && ws[i] == s[0];
    forall q | 0 <= q < |ws| ensures s[0] <= ws[q] {
      assert ws[q] in multiset(s);
    }
  }

  lemma {:induction false} LeastToDeepest(s: seq<nat>, ws: seq<nat>, ds: seq<nat>, p: nat) returns (us: seq<nat>)
    requires Ascending(s) && multiset(ws) == multiset(s) && |ws| == |ds| == |s| && DeepestAt(ds, p)
    ensures |us| == |ds| && multiset(us) == multiset(s) && us[p] == s[0]
    ensures Dot(us, ds) <= Dot(ws, ds)
  {
    hide Dot;
    var i := LeastIn(s, ws);
    SwapLowers(ws, ds, i, p);
    SwapPermutes(ws, i, p);
    us := Swap(ws, i, p);
  }

  /** The two lightest weights can be brought to the deepest pair without raising the sum. */
  lemma {:induction false} LightestToDeepest(s: seq<nat>, ws: seq<nat>, ds: seq<nat>, p: nat) returns (vs: seq<nat>)
    requires Ascending(s) && multiset(ws) == multiset(s) && |ws| == |ds| == |s| && DeepestAt(ds, p)
    ensures |vs| == |ds| && multiset(vs) == multiset(s) && vs[p] == s[0] && vs[p + 1] == s[1]
    ensures Dot(vs, ds) <= Dot(ws, ds)
  {
    hide Dot, Ascending;
    var us := LeastToDeepest(s, ws, ds, p);
    var j := SecondLeast(s, us, p);
    SwapLowers(us, ds, j, p + 1);
    SwapPermutes(us, j, p + 1);
    vs := Swap(us, j, p + 1);
  }

  /** The pair contracted to one leaf of their joint weight. */
  lemma ContractDot(vs: seq<nat>, ds: seq<nat>, p: nat)
    requires |vs| == |ds| && p + 1 < |ds| && ds[p] == ds[p + 1] >= 1
    ensures Dot(vs, ds) == Dot(Contracted(vs, p, vs[p] + vs[p + 1]), Contracted(ds, p, ds[p] - 1)) + vs[p] + vs[p + 1]
  {
    var d, a, b := ds[p], vs[p], vs[p + 1];
    assert vs == vs[..p] + [a, b] + vs[p + 2..];
    assert ds == ds[..p] + [d, d] + ds[p + 2..];
    DotAround(vs[..p], ds[..p], [a, b], [d, d], vs[p + 2..], ds[p + 2..]);
    DotAround(vs[..p], ds[..p], [a + b], [d - 1], vs[p + 2..], ds[p + 2..]);
    assert [a, b][1..] == [b] && [d, d][1..] == [d];
    DotOne(b, d);
    DotOne(a + b, d - 1);
    Distribute(a, b, d);
  }

  lemma Distribute(a: nat, b: nat, d: nat)
    requires d >= 1
    ensures a * d + b * d == (a + b) * (d - 1) + (a + b)
  {
  }

  lemma {:induction false} DotAround(us: seq<nat>, cs: seq<nat>, ws: seq<nat>, ds: seq<nat>, vs: seq<nat>, es: seq<nat>)
    requires |us| == |cs| && |ws| == |ds| && |vs| == |es|
    ensures Dot(us + ws + vs, cs + ds + es) == Dot(us, cs) + Dot(ws, ds) + Dot(vs, es)
  {
    hide Dot;
    DotConcat(us + ws, cs + ds, vs, es);
    DotConcat(us, cs, ws, ds);
  }

  lemma ContractedWeights(s: seq<nat>, vs: seq<nat>, p: nat)
    requires |s| >= 2 && multiset(vs) == multiset(s) && p + 1 < |vs| && vs[p] == s[0] && vs[p + 1] == s[1]
    ensures multiset(Contracted(vs, p, s[0] + s[1])) == multiset(s[2..]) + multiset{s[0] + s[1]}
  {
    TheOthers(s, vs, p);
    var us := vs[..p] + vs[p + 1..];
    assert us[p] == s[1..][0];
    TheOthers(s[1..], us, p);
    assert us[..p] + us[p + 1..] == vs[..p] + vs[p + 2..] && s[1..][1..] == s[2..];
    assert multiset(vs[..p] + [s[0] + s[1]] + vs[p + 2..]) == multiset(vs[..p] + vs[p + 2..]) + multiset{s[0] + s[1]};
  }

  lemma MergeCostStep(s: seq<nat>)
    ensures MergeCost(s) == if |s| < 2 then 0 else s[0] + s[1] + MergeCost(InsertWeight(s[2..], s[0] + s[1]))
  {
  }

  /** No tree over the same weights has a smaller sum of weight times depth than merging costs. */
  lemma {:induction false} MergingIsOptimal(s: seq<nat>, t: Tree)
    requires Ascending(s) && multiset(Weights(t)) == multiset(s)
    ensures MergeCost(s) <= WeightedDepth(t, 0)
    decreases |s|
  {
    hide *;
    MergeCostStep(s);
    if |s| >= 2 {
      assert |multiset(Weights(t))| == |Weights(t)| && |multiset(s)| == |s|;
      var a, b := s[0], s[1];
      var p, c, vs := Improve(s, t);
      var t', s' := Reweigh(c, Contracted(vs, p, a + b)), InsertWeight(s[2..], a + b);
      InsertWeightCounts(s[2..], a + b);
      AscendingTail(s);
      InsertWeightAscends(s[2..], a + b);
      ContractedWeights(s, vs, p);
      MergingIsOptimal(s', t');
    }
  }

  lemma AscendingTail(s: seq<nat>)
    requires Ascending(s) && |s| >= 2
    ensures Ascending(s[2..])
  {
  }

  lemma PairGives(t: Tree, d: nat, p: nat, c: Tree)
    requires PairIn(t, d, p, c)
    ensures var ds := Depths(t, d);
            && p + 1 < |ds| && ds[p] == ds[p + 1] >= 1 && DeepestAt(ds, p)
            && Depths(c, d) == Contracted(ds, p, ds[p] - 1)
  {
  }

  lemma ContractedLength(s: seq<nat>, p: nat, x: nat)
    requires p + 1 < |s|
    ensures |Contracted(s, p, x)| == |s| - 1
  {
  }

  /** The two lightest weights on the deepest pair, and that pair contracted. */
  lemma Contract(s: seq<nat>, t: Tree) returns (p: nat, c: Tree, vs: seq<nat>)
    requires Ascending(s) && |s| >= 2 && multiset(Weights(t)) == multiset(s) && |Weights(t)| == |s|
    ensures p + 1 < |vs| && multiset(vs) == multiset(s) && vs[p] == s[0] && vs[p + 1] == s[1]
    ensures |Contracted(vs, p, s[0] + s[1])| == |Depths(c, 0)|
    ensures Dot(Contracted(vs, p, s[0] + s[1]), Depths(c, 0)) + s[0] + s[1] <= WeightedDepth(t, 0)
  {
    assert t.Node?;
    hide *;
    SameLength(t, 0);
    p, c := DeepestPair(t, 0);
    PairGives(t, 0, p, c);
    var ds := Depths(t, 0);
    DepthIsDot(t, 0);
    vs := LightestToDeepest(s, Weights(t), ds, p);
    ContractDot(vs, ds, p);
    ContractedLength(vs, p, s[0] + s[1]);
    ContractedLength(ds, p, ds[p] - 1);
  }

  /** A tree with the two lightest weights contracted, smaller by at least their sum. */
  lemma Improve(s: seq<nat>, t: Tree) returns (p: nat, c: Tree, vs: seq<nat>)
    requires Ascending(s) && |s| >= 2 && multiset(Weights(t)) == multiset(s) && |Weights(t)| == |s|
    ensures p + 1 < |vs| && multiset(vs) == multiset(s) && vs[p] == s[0] && vs[p + 1] == s[1]
    ensures |Contracted(vs, p, s[0] + s[1])| == |Leaves(c)|
    ensures var t' := Reweigh(c, Contracted(vs, p, s[0] + s[1]));
            && Weights(t') == Contracted(vs, p, s[0] + s[1])
            && WeightedDepth(t', 0) + s[0] + s[1] <= WeightedDepth(t, 0)
  {
    hide *;
    p, c, vs := Contract(s, t);
    var vs' := Contracted(vs, p, s[0] + s[1]);
    SameLength(c, 0);
    ReweighMeets(c, vs', 0);
    DepthIsDot(Reweigh(c, vs'), 0);
  }
}

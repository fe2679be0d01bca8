/**
 How long a text must be before a limit of huff.c shows: the 16 bits of a
 code, the 32 places of a shift, the int of a comparison. For every size at
 which a limit can be passed there is a text of that size that passes it.
 */
module HuffLimits {
  import opened Order
  import opened HuffTree
  import opened HuffBuild
  import opened HuffCode
  import opened HuffPack
  import opened HuffTable
  import opened HuffText
  import opened HuffSpread

  // ---------- the deepest trees ----------

  /** 1, 1, 1, 2, 3, 5, ..., and what is left of `n` for the last. */
  ghost function FibWeights(h: nat, n: nat): (ws: seq<nat>)
    requires h >= 1 && n >= Fib(h + 2)
    ensures |ws| == h + 1 && ws[0] == 1 && ws[h] == n - Fib(h + 1)
    ensures forall i :: 1 <= i < h ==> ws[i] == Fib(i)
  {
    FibStep(h);
    seq(h + 1, i requires 0 <= i <= h => if i == 0 then 1 else if i < h then Fib(i) else n - Fib(h + 1))
  }

  lemma {:induction false} FibSums(ws: seq<nat>, h: nat, n: nat, j: nat)
    requires h >= 1 && n >= Fib(h + 2) && ws == FibWeights(h, n) && 1 <= j <= h
    ensures Sum(ws[..j]) == Fib(j + 1)
  {
    hide Fib, FibWeights;
    FibStep(j - 1);
    assert ws[..j][..j - 1] == ws[..j - 1];
    if j > 1 { FibSums(ws, h, n, j - 1); } else { assert Sum(ws[..0]) == 0; }
  }

  lemma FibWeightsMeet(h: nat, n: nat)
    requires h >= 1 && n >= Fib(h + 2)
    ensures var ws := FibWeights(h, n);
            Sum(ws) == n && Ascending(ws) && ws[h] >= Fib(h) && forall i :: 0 <= i <= h ==> ws[i] > 0
  {
    hide Fib, FibWeights;
    var ws := FibWeights(h, n);
    FibSums(ws, h, n, h);
    FibStep(h);
    assert ws[..|ws| - 1] == ws[..h];
    FibStep(0);
    forall i | 1 <= i <= h ensures Fib(i) >= 1 { FibMonotone(1, i); }
    forall i, j | 0 <= i < j <= h ensures ws[i] <= ws[j] {
      if i > 0 { FibMonotone(i, j); }
    }
  }

  /** Two trees in front of the rest of the leaves; together they weigh what comes two later. */
  ghost predicate Staged(L: seq<Tree>, h: nat, k: nat, a: Tree, b: Tree) {
    && 1 <= k <= h && |L| == h + 1
    && (forall i :: 1 <= i < h ==> Weight(L[i]) == Fib(i)) && Weight(L[h]) >= Fib(h)
    && (forall i :: 0 <= i <= h ==> L[i].Leaf?)
    && (k < h ==> Weight(a) + Weight(b) == Fib(k + 2))
    && Height(Node(0, a, b)) == k
  }

  lemma InsertSecond(t: Tree, f: seq<Tree>)
    requires f != [] && Weight(f[0]) < Weight(t) && (|f| > 1 ==> Weight(t) <= Weight(f[1]))
    ensures InsertTree(f, t) == [f[0], t] + f[1..]
  {
    assert f[1..] != [] ==> f[1..][0] == f[1];
    assert InsertTree(f[1..], t) == [t] + f[1..];
    assert [f[0]] + ([t] + f[1..]) == [f[0], t] + f[1..];
  }

  lemma FirstTwo(a: Tree, b: Tree, rest: seq<Tree>, index: nat)
    ensures Build([a, b] + rest, index) == Build(InsertTree(rest, Node(index, a, b)), index + 1)
  {
    var f := [a, b] + rest;
    assert f[2..] == rest && f[0] == a && f[1] == b;
  }

  /** The new tree is heavier than the next leaf, and no heavier than the one after that. */
  lemma {:induction false} NextWeights(L: seq<Tree>, h: nat, k: nat, a: Tree, b: Tree)
    requires Staged(L, h, k, a, b) && k + 1 < h
    ensures Weight(L[k + 1]) == Fib(k + 1) < Weight(a) + Weight(b) <= Weight(L[k + 2])
    ensures Weight(L[k + 1]) + (Weight(a) + Weight(b)) == Fib(k + 3)
  {
    hide Fib;
    FibStep(k);
    FibStep(k + 1);
    FibMonotone(1, k);
  }

  /** Every round takes in one leaf more, so the tree grows by one level each time. */
  lemma {:induction false} GrowsByOne(L: seq<Tree>, h: nat, k: nat, a: Tree, b: Tree, index: nat)
    requires Staged(L, h, k, a, b)
    ensures Height(Build([a, b] + L[k + 1..], index)) == h
    decreases h - k
  {
    hide Fib, Build, InsertTree;
    var n, rest := Node(index, a, b), L[k + 1..];
    FirstTwo(a, b, rest, index);
    assert Height(n) == k && Weight(n) == Weight(a) + Weight(b);
    if k == h {
      LastRound(n, index + 1);
      assert rest == [];
    } else if k + 1 == h {
      assert rest == [L[h]];
      LastTwo(L[h], n, index + 1);
    } else {
      NextWeights(L, h, k, a, b);
      InsertSecond(n, rest);
      assert rest[0] == L[k + 1] && rest[1..] == L[k + 2..];
      assert Height(Node(0, L[k + 1], n)) == k + 1;
      GrowsByOne(L, h, k + 1, L[k + 1], n, index + 1);
    }
  }

  lemma LastRound(n: Tree, index: nat)
    ensures Build(InsertTree([], n), index) == n
  {
    assert InsertTree([], n) == [n];
  }

  lemma LastTwo(l: Tree, n: Tree, index: nat)
    requires l.Leaf?
    ensures Height(Build(InsertTree([l], n), index)) == Height(n) + 1
  {
    var g := InsertTree([l], n);
    assert [l][1..] == [] && InsertTree([], n) == [n];
    assert g == [n, l] || g == [l, n];
    assert g[2..] == [];
    var r := Node(index, g[0], g[1]);
    assert InsertTree([], r) == [r];
    assert Merged(g, index) == [r];
    assert Build(g, index) == Build([r], index + 1) == r;
  }

  /** For every height there is a text of every size from Fib(height + 2) on whose tree has that height. */
  lemma HeightReached(h: nat, n: nat) returns (text: seq<Byte>)
    requires 1 <= h < LEAF_NUM && Fib(h + 2) <= n <= SIZE_LIMIT
    ensures |text| == n && InDomain(text) && text != [] && Height(TreeOf(text)) == h
  {
    hide Fib, FibWeights, Ascending, Build, Spread;
    var ws := FibWeights(h, n);
    FibWeightsMeet(h, n);
    text := Spread(ws);
    SpreadInDomain(ws);
    SpreadStart(ws);
    var L := LeavesOf(ws);
    StageOne(h, n);
    assert L == [L[0], L[1]] + L[2..];
    hide *;
    GrowsByOne(L, h, 1, L[0], L[1], LEAF_NUM);
  }

  lemma StageOne(h: nat, n: nat)
    requires h >= 1 && n >= Fib(h + 2)
    ensures var L := LeavesOf(FibWeights(h, n)); |L| == h + 1 && Staged(L, h, 1, L[0], L[1])
  {
    hide Fib, FibWeights;
    FibWeightsMeet(h, n);
    FibStep(1);
    FibStep(0);
    var ws, L := FibWeights(h, n), LeavesOf(FibWeights(h, n));
    forall i | 1 <= i < h ensures Weight(L[i]) == Fib(i) { assert L[i] == Leaf(i, ws[i]); }
    assert L[0] == Leaf(0, 1) && L[1] == Leaf(1, ws[1]) && L[h] == Leaf(h, ws[h]);
    assert Height(Node(0, L[0], L[1])) == 1;
  }

  lemma HeightNeeds(text: seq<Byte>)
    requires InDomain(text) && text != []
    ensures Fib(Height(TreeOf(text)) + 2) <= |text| && 1 <= Height(TreeOf(text)) < LEAF_NUM
  {
    hide Fib;
    TreeShape(text);
    TreeWeight(text);
    hide TreeOf, Height, Weight;
    BalancedWeight(TreeOf(text));
    NodeHeight(TreeOf(text));
  }

  lemma NodeHeight(t: Tree)
    requires t.Node?
    ensures Height(t) >= 1
  {
  }

  /** Texts of `n` bytes can need codes of more than `h` bits exactly from Fib(h + 3) bytes on. */
  lemma CodesFitIff(h: nat, n: nat)
    requires 1 <= h < LEAF_NUM - 1 && n <= SIZE_LIMIT
    ensures (forall text: seq<Byte> :: |text| == n && InDomain(text) && text != [] ==> Height(TreeOf(text)) <= h)
            <==> n < Fib(h + 3)
  {
    hide Fib, InDomain, TreeOf, Height;
    if n < Fib(h + 3) {
      forall text: seq<Byte> | |text| == n && InDomain(text) && text != [] ensures Height(TreeOf(text)) <= h {
        HeightNeeds(text);
        if Height(TreeOf(text)) > h { FibMonotone(h + 3, Height(TreeOf(text)) + 2); }
      }
    } else {
      var text := HeightReached(h + 1, n);
    }
  }

  // ---------- the 16 bits of a code and the 32 places of a shift ----------

  lemma FibValues()
    ensures Fib(19) == 4181 && Fib(35) == 9227465
  {
    Fib19();
    assert Fib(20) == 6765 && Fib(21) == 10946;
    assert Fib(24) == 46368 && Fib(25) == 75025;
    assert Fib(28) == 317811 && Fib(29) == 514229;
    assert Fib(32) == 2178309 && Fib(33) == 3524578;
  }

  /** What the decompressor makes of the packed codes of a text. */
  ghost function Restored(text: seq<Byte>): seq<nat>
    requires InDomain(text)
  {
    if text == [] then []
    else
      TreeShape(text);
      SentSize(text);
      var t := TreeOf(text);
      var bits := Sent(t, text);
      Decoded(t, t, bits + Zeros(FillUp(|bits|)), |text|)
  }

  /** The zeros behind `n` bits up to a whole number of bytes. */
  function FillUp(n: nat): nat { (8 - n % 8) % 8 }

  /** A text comes back exactly when its tree is no higher than the 16 bits of a code. */
  lemma {:induction false} RestoredIff(text: seq<Byte>)
    requires InDomain(text)
    ensures Restored(text) == text <==> text == [] || Height(TreeOf(text)) <= 16
  {
    if text != [] {
      var t := TreeOf(text);
      TreeShape(text);
      TreeLeaves(text);
      SentSize(text);
      hide TreeOf, Decoded, Sent, Height, InDomain, UniqueIndices, Symbols;
      RoundTripIff(t, text, Zeros(FillUp(|Sent(t, text)|)));
    }
  }

  /** For every size from 4181 bytes on a text with a code of 17 bits, which is lost. */
  lemma LongCodeIsLost(n: nat) returns (text: seq<Byte>)
    requires 4181 <= n <= SIZE_LIMIT
    ensures |text| == n && InDomain(text) && text != [] && Height(TreeOf(text)) == 17 && Restored(text) != text
  {
    FibValues();
    assert LEAF_NUM == 256;
    hide *;
    text := HeightReached(17, n);
    RestoredIff(text);
  }

  /** All texts of `n` bytes come back exactly when there are fewer than 4181 bytes. */
  lemma AllComeBackIff(n: nat)
    requires n <= SIZE_LIMIT
    ensures (forall text: seq<Byte> :: |text| == n && InDomain(text) ==> Restored(text) == text) <==> n < 4181
  {
    hide *;
    if n < 4181 {
      forall text: seq<Byte> | |text| == n && InDomain(text) ensures Restored(text) == text {
        RestoredIff(text);
        if text != [] { ShortTextsFit(text); }
      }
    } else {
      var text := LongCodeIsLost(n);
    }
  }

  /** No code needs a shift of 32 places or more exactly when there are fewer than 9227465 bytes. */
  lemma ShiftsFitIff(n: nat)
    requires n <= SIZE_LIMIT
    ensures (forall text: seq<Byte> :: |text| == n && InDomain(text) && text != [] ==> Height(TreeOf(text)) <= 32)
            <==> n < 9227465
  {
    FibValues();
    assert LEAF_NUM == 256;
    hide *;
    CodesFitIff(32, n);
  }

  // ---------- the int of a comparison ----------

  /**
   From two bytes over the limit on there are texts of every size in which a
   value that occurs 2^31 + 1 times is taken to be lighter than one that occurs once.
   */
  lemma Misordered(n: nat) returns (text: seq<Byte>)
    requires n > SIZE_LIMIT
    ensures |text| == n && !OneValue(text)
    ensures multiset(text)[0 as Byte] == 0x8000_0001 && multiset(text)[1 as Byte] == 1
    ensures NodeCmp(CountTable(text))(0, 1) < 0 && !ComparesRightly(CountTable(text))
  {
    var ws: seq<nat> := [0x8000_0001, 1, n - 0x8000_0002];
    text := Spread(ws);
    SpreadCounts(ws, 0);
    SpreadCounts(ws, 1);
    SpreadTable(ws, 0);
    SpreadTable(ws, 1);
    assert ws[..2] == [0x8000_0001, 1] && ws[..2][..1] == [0x8000_0001] && ws[..1][..0] == [];
    hide Spread, CountTable;
    assert Sum(ws[..1]) == 0x8000_0001 && Sum(ws[..2]) == 0x8000_0002 && Sum(ws) == n;
    assert (0 as Byte) in multiset(text) && (1 as Byte) in multiset(text);
    assert (0 as Byte) in text && (1 as Byte) in text;
    var tab := CountTable(text);
    assert IsUsed(tab, 0) && IsUsed(tab, 1);
    assert ToInt32(0x8000_0000) < 0;
    assert NodeCmp(tab)(0, 1) == ToInt32(tab[0].weight - tab[1].weight);
    assert !SameSign(NodeCmp(tab)(0, 1), ByWeight(tab)(0, 1));
  }

  /** All texts of `n` bytes have their values compared as meant exactly up to the limit of 2^31 + 1 bytes. */
  lemma ComparisonLimit(n: nat)
    ensures (forall text: seq<Byte> :: |text| == n && !OneValue(text) ==> ComparesRightly(CountTable(text)))
            <==> n <= SIZE_LIMIT
  {
    hide OneValue, CountTable, ComparesRightly;
    if n <= SIZE_LIMIT {
      forall text: seq<Byte> | |text| == n && !OneValue(text) ensures ComparesRightly(CountTable(text)) {
        WithinLimit(text);
      }
    } else {
      var text := Misordered(n);
    }
  }
}

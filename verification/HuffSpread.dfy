/** A text with given frequencies, and the list and tree it starts huff.c from. */
module HuffSpread {
  import opened Order
  import opened HuffTree
  import opened HuffBuild
  import opened HuffCode
  import opened HuffPack
  import opened HuffTable
  import opened HuffText

  ghost function Times(b: Byte, n: nat): (s: seq<Byte>)
    ensures |s| == n
  {
    if n == 0 then [] else [b] + Times(b, n - 1)
  }

  ghost function Sum(ws: seq<nat>): nat {
    if ws == [] then 0 else Sum(ws[..|ws| - 1]) + ws[|ws| - 1]
  }

  /** The byte k, ws[k] times, for each k. */
  ghost function Spread(ws: seq<nat>): seq<Byte>
    requires |ws| <= LEAF_NUM
  {
    if ws == [] then [] else Spread(ws[..|ws| - 1]) + Times(|ws| - 1, ws[|ws| - 1])
  }

  lemma {:induction false} TimesCount(b: Byte, n: nat, x: Byte)
    ensures multiset(Times(b, n))[x] == if x == b then n else 0
  {
    if n > 0 { TimesCount(b, n - 1, x); }
  }

  lemma {:induction false} SpreadCounts(ws: seq<nat>, x: Byte)
    requires |ws| <= LEAF_NUM
    ensures |Spread(ws)| == Sum(ws)
    ensures multiset(Spread(ws))[x] == if x < |ws| then ws[x] else 0
  {
    if ws != [] {
      var k := |ws| - 1;
      SpreadCounts(ws[..k], x);
      TimesCount(k, ws[k], x);
      var a, b := Spread(ws[..k]), Times(k, ws[k]);
      assert Spread(ws) == a + b && Sum(ws) == Sum(ws[..k]) + ws[k];
      hide *;
      CountsAdd(a, b, x);
    }
  }

  lemma CountsAdd(a: seq<Byte>, b: seq<Byte>, x: Byte)
    ensures multiset(a + b)[x] == multiset(a)[x] + multiset(b)[x]
  {
  }

  lemma {:induction false} SpreadTable(ws: seq<nat>, i: nat)
    requires |ws| <= LEAF_NUM && i < LEAF_NUM
    ensures CountTable(Spread(ws))[i].weight == if i < |ws| then ws[i] else 0
  {
    SpreadCounts(ws, i);
  }

  ghost function Range(n: nat): (s: seq<Idx>)
    requires n <= LEAF_NUM
    ensures |s| == n && forall i :: 0 <= i < n ==> s[i] == i
  {
    seq(n, i requires 0 <= i < n => i)
  }

  /** Where exactly the first `m` values occur, they are the ones in use. */
  lemma {:induction false} UsedFirst(tab: Table, m: nat, n: nat)
    requires m <= LEAF_NUM && n <= LEAF_NUM && forall i :: 0 <= i < LEAF_NUM ==> (tab[i].weight != 0 <==> i < m)
    ensures Used(tab, n) == Range(if n < m then n else m)
  {
    if n > 0 {
      UsedStep(tab, n);
      hide *;
      UsedFirst(tab, m, n - 1);
      if n <= m { RangeStep(n); }
    } else {
      assert Used(tab, 0) == [] == Range(0);
    }
  }

  lemma {:induction false} UsedSpread(ws: seq<nat>)
    requires |ws| <= LEAF_NUM && forall i :: 0 <= i < |ws| ==> ws[i] > 0
    ensures Used(CountTable(Spread(ws)), LEAF_NUM) == Range(|ws|)
  {
    hide Used, CountTable, Spread;
    forall i | 0 <= i < LEAF_NUM ensures CountTable(Spread(ws))[i].weight != 0 <==> i < |ws| {
      SpreadTable(ws, i);
    }
    UsedFirst(CountTable(Spread(ws)), |ws|, LEAF_NUM);
  }

  lemma UsedStep(tab: Table, n: nat)
    requires 0 < n <= LEAF_NUM
    ensures Used(tab, n) == if tab[n - 1].weight != 0 then Used(tab, n - 1) + [n - 1] else Used(tab, n - 1)
  {
  }

  lemma RangeStep(n: nat)
    requires 0 < n <= LEAF_NUM
    ensures Range(n - 1) + [n - 1] == Range(n)
  {
  }

  lemma SortedStays<T(!new)>(s: seq<T>, cmp: (T, T) -> int)
    requires IsOrder(cmp) && Sorted(s, cmp)
    ensures StableSort(s, cmp) == s
  {
    IsStable(s, s, cmp);
    StableSortUnique(s, s, cmp);
  }

  ghost function LeavesOf(ws: seq<nat>): (f: seq<Tree>)
    ensures |f| == |ws| && forall i :: 0 <= i < |f| ==> f[i] == Leaf(i, ws[i])
  {
    seq(|ws|, i requires 0 <= i < |ws| => Leaf(i, ws[i]))
  }

  /** Rising frequencies are the list the compressor starts from. */
  lemma {:induction false} SpreadStart(ws: seq<nat>)
    requires |ws| <= LEAF_NUM && Ascending(ws) && forall i :: 0 <= i < |ws| ==> ws[i] > 0
    ensures StartFor(Spread(ws)) == LeavesOf(ws)
  {
    var tab, u := CountTable(Spread(ws)), Range(|ws|);
    UsedSpread(ws);
    ByWeightIsOrder(tab);
    forall i | 0 <= i < |ws| ensures tab[i].weight == ws[i] { SpreadTable(ws, i); }
    hide CountTable, Spread, StableSort, Used, Ascending;
    assert Sorted(u, ByWeight(tab)) by {
      forall i, j | 0 <= i < j < |u| ensures ByWeight(tab)(u[i], u[j]) <= 0 { AscendingAt(ws, i, j); }
    }
    SortedStays(u, ByWeight(tab));
    assert LeavesFor(tab, u) == LeavesOf(ws);
  }

  lemma AscendingAt(ws: seq<nat>, i: nat, j: nat)
    requires Ascending(ws) && i < j < |ws|
    ensures ws[i] <= ws[j]
  {
  }

  lemma SpreadInDomain(ws: seq<nat>)
    requires 2 <= |ws| <= LEAF_NUM && ws[0] > 0 && ws[1] > 0 && Sum(ws) <= SIZE_LIMIT
    ensures InDomain(Spread(ws)) && |Spread(ws)| == Sum(ws) && Spread(ws) != []
  {
    var text := Spread(ws);
    SpreadCounts(ws, 0);
    SpreadCounts(ws, 1);
    hide Spread;
    assert (0 as Byte) in multiset(text) && (1 as Byte) in multiset(text);
    var i :| 0 <= i < |text| && text[i] == 0;
    var j :| 0 <= j < |text| && text[j] == 1;
  }

  // ---------- a small archive ----------

  lemma SmallSpread()
    ensures Spread([1, 2]) == [0, 1, 1] && Ascending([1, 2]) && InDomain([0, 1, 1])
  {
    var ws: seq<nat> := [1, 2];
    assert ws[..1] == [1] && ws[..1][..0] == [];
    assert Times(1, 1) == [1] && Times(1, 2) == [1] + Times(1, 1) && Times(0, 1) == [0];
    assert Spread([]) == [] && Spread([1]) == [] + Times(0, 1);
    assert Spread(ws) == Spread([1]) + Times(1, 2);
    var text: seq<Byte> := [0, 1, 1];
    assert text[1] != text[0];
  }

  lemma SmallBuild(a: Tree, b: Tree, index: nat)
    ensures Build([a, b], index) == Node(index, a, b)
  {
    var f, n := [a, b], Node(index, a, b);
    assert f[2..] == [] && InsertTree([], n) == [n];
    assert Merged(f, index) == [n];
    assert Build([n], index + 1) == n;
  }

  /** Once the value 0 and twice the value 1: a root at 256 with the rarer value on its left. */
  lemma {:induction false} SmallTree(text: seq<Byte>)
    requires text == [0, 1, 1]
    ensures InDomain(text) && TreeOf(text) == Node(256, Leaf(0, 1), Leaf(1, 2))
  {
    assert LEAF_NUM == 256;
    hide *;
    SmallSpread();
    var f := LeavesOf([1, 2]);
    assert f == [Leaf(0, 1), Leaf(1, 2)];
    SpreadStart([1, 2]);
    TreeIsBuilt(text);
    SmallBuild(f[0], f[1], 256);
  }

  lemma TreeIsBuilt(text: seq<Byte>)
    requires InDomain(text) && text != [] && StartFor(text) != []
    ensures TreeOf(text) == Build(StartFor(text), LEAF_NUM)
  {
  }

  /** The rarer value has the code 0 and the other one the code 1. */
  lemma {:induction false} SmallCodes(t: Tree, text: seq<Byte>)
    requires t == Node(256, Leaf(0, 1), Leaf(1, 2)) && text == [0, 1, 1]
    ensures Symbols(t) == {0, 1} && PathOf(t, 0) == [false] && PathOf(t, 1) == [true]
    ensures CodeOf([false]) == 0 && CodeOf([true]) == 1
    ensures Sent(t, text) == [false, true, true]
  {
    assert Symbols(t) == {0, 1};
    assert PathOf(t, 0) == [false] + [] && PathOf(t, 1) == [true] + [];
    assert [true][1..] == [] && [false][1..] == [];
    EmittedIsPath([false]);
    EmittedIsPath([true]);
    hide CodeOf, Emit, PathOf, Symbols, Sent;
    SentOne(t, 0);
    SentOne(t, 1);
    SentConcat(t, [1], [1]);
    SentConcat(t, [0], [1] + [1]);
    assert text == [0] + ([1] + [1]);
  }

  lemma SmallPadding()
    ensures [false, true, true] + Zeros(5) == [false, true, true, false, false, false, false, false]
  {
    assert Zeros(2) == [false, false] && Zeros(4) == [false, false, false, false];
    assert Zeros(5) == [false, false, false, false, false];
  }

  lemma UnpackOne(b: Byte)
    ensures Unpack([b]) == ToBits(b, 8)
  {
    assert [b][..0] == [] && [] + ToBits(b, 8) == ToBits(b, 8);
  }

  /** Its bits fill the one byte 01100000. */
  lemma {:induction false} SmallBody(body: seq<Byte>)
    ensures Padded(body, [false, true, true]) <==> body == [0x60]
  {
    hide FromBits, ToBits, Zeros, Unpack;
    SmallNumber();
    SmallPadding();
    Pow2Of8();
    BitsBack([false, true, true, false, false, false, false, false]);
    if |body| == 1 {
      assert body == [body[0]];
      UnpackOne(body[0]);
      NumberBack(body[0], 8);
    }
  }

  lemma SmallNumber()
    ensures FromBits([false, true, true, false, false, false, false, false]) == 0x60
  {
    hide *;
    AppendBit([], false);
    assert FromBits([]) == 0 by { NoBits(); }
    AppendBit([false], true);
    AppendBit([false, true], true);
    AppendBit([false, true, true], false);
    AppendBit([false, true, true, false], false);
    AppendBit([false, true, true, false, false], false);
    AppendBit([false, true, true, false, false, false], false);
    AppendBit([false, true, true, false, false, false, false], false);
    assert [] + [false] == [false] && [false] + [true] == [false, true];
    assert [false, true] + [true] == [false, true, true] && [false, true, true] + [false] == [false, true, true, false];
    assert [false, true, true, false] + [false] == [false, true, true, false, false];
    assert [false, true, true, false, false] + [false] == [false, true, true, false, false, false];
    assert [false, true, true, false, false, false] + [false] == [false, true, true, false, false, false, false];
    assert [false, true, true, false, false, false, false] + [false]
        == [false, true, true, false, false, false, false, false];
  }

  lemma NoBits()
    ensures FromBits([]) == 0
  {
  }
}

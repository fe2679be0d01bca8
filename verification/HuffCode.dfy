/**
 The codes of huff.c: the path from the root to a leaf, the 16 bits of it that
 the table keeps, and what the decoder makes of a sequence of such codes.
 */
module HuffCode {
  import opened Arith
  import opened HuffTree
  import opened HuffBuild
  import opened HuffPack

  ghost function Symbols(t: Tree): set<nat> {
    if t.Leaf? then {t.sym} else Symbols(t.l) + Symbols(t.r)
  }

  /** The branches from the root to the leaf of `s`; true is right. */
  ghost function PathOf(t: Tree, s: nat): seq<bool>
    requires s in Symbols(t)
  {
    if t.Leaf? then []
    else if s in Symbols(t.l) then [false] + PathOf(t.l, s)
    else [true] + PathOf(t.r, s)
  }

  lemma {:induction false} SymbolsAreIndices(t: Tree)
    ensures Symbols(t) <= Indices(t)
  {
    if t.Node? {
      SymbolsAreIndices(t.l);
      SymbolsAreIndices(t.r);
    }
  }

  lemma PathStep(t: Tree, s: nat)
    requires t.Node? && UniqueIndices(t) && s in Symbols(t)
    ensures PathOf(t, s) != []
    ensures var c := if PathOf(t, s)[0] then t.r else t.l;
            s in Symbols(c) && PathOf(t, s)[1..] == PathOf(c, s) && PathOf(t, s) == [PathOf(t, s)[0]] + PathOf(c, s)
    ensures s in Symbols(t.r) ==> s !in Symbols(t.l)
  {
    SymbolsAreIndices(t.l);
    SymbolsAreIndices(t.r);
  }

  // ---------- a prefix code ----------

  /** No code is the beginning of another. */
  lemma {:induction false} PrefixFree(t: Tree, s: nat, u: nat)
    requires UniqueIndices(t) && s in Symbols(t) && u in Symbols(t) && s != u
    ensures !(PathOf(t, s) <= PathOf(t, u))
  {
    PathStep(t, s);
    PathStep(t, u);
    var a, b := PathOf(t, s), PathOf(t, u);
    if a <= b {
      assert a[0] == b[0] && a[1..] <= b[1..];
      PrefixFree(if a[0] then t.r else t.l, s, u);
    }
  }

  /** The sum of 2^(h - d) over depths. */
  function KraftSum(ds: seq<nat>, h: nat): nat
    requires forall i :: 0 <= i < |ds| ==> ds[i] <= h
  {
    if ds == [] then 0 else Pow2(h - ds[0]) + KraftSum(ds[1..], h)
  }

  lemma {:induction false} KraftConcat(ds: seq<nat>, es: seq<nat>, h: nat)
    requires forall i :: 0 <= i < |ds| ==> ds[i] <= h
    requires forall i :: 0 <= i < |es| ==> es[i] <= h
    ensures KraftSum(ds + es, h) == KraftSum(ds, h) + KraftSum(es, h)
  {
    if ds == [] {
      assert ds + es == es;
    } else {
      assert (ds + es)[1..] == ds[1..] + es;
      KraftConcat(ds[1..], es, h);
    }
  }

  /** The sum of 2^-length over all codes is exactly 1, here multiplied by 2^h. */
  lemma {:induction false} KraftExact(t: Tree, d: nat, h: nat)
    requires d + Height(t) <= h
    ensures forall i :: 0 <= i < |Depths(t, d)| ==> Depths(t, d)[i] <= h
    ensures KraftSum(Depths(t, d), h) == Pow2(h - d)
  {
    if t.Leaf? {
      assert [d][1..] == [];
    } else {
      KraftExact(t.l, d + 1, h);
      KraftExact(t.r, d + 1, h);
      KraftConcat(Depths(t.l, d + 1), Depths(t.r, d + 1), h);
    }
  }

  /** The depth of a leaf is the length of its code. */
  lemma {:induction false} DepthIsLength(t: Tree, d: nat, i: nat)
    requires UniqueIndices(t) && i < |Leaves(t)|
    ensures i < |Depths(t, d)| && Leaves(t)[i].Leaf? && Leaves(t)[i].sym in Symbols(t)
    ensures Depths(t, d)[i] == d + |PathOf(t, Leaves(t)[i].sym)|
  {
    SameLength(t, d);
    if t.Node? {
      SameLength(t.l, d + 1);
      var k := |Leaves(t.l)|;
      if i < k {
        DepthIsLength(t.l, d + 1, i);
      } else {
        DepthIsLength(t.r, d + 1, i - k);
        PathStep(t, Leaves(t)[i].sym);
      }
    }
  }

  lemma {:induction false} PathFits(t: Tree, s: nat)
    requires s in Symbols(t)
    ensures |PathOf(t, s)| <= Height(t)
  {
    if t.Node? {
      if s in Symbols(t.l) { PathFits(t.l, s); } else { PathFits(t.r, s); }
    }
  }

  /** A tree higher than `k` has a code with a 1 behind its first `k` bits. */
  lemma {:induction false} LongCodeWithOne(t: Tree, k: nat) returns (s: nat, i: nat)
    requires Height(t) > k && UniqueIndices(t)
    ensures s in Symbols(t) && k <= i < |PathOf(t, s)| && PathOf(t, s)[i]
  {
    if k == 0 {
      s := SomeSymbol(t.r);
      i := 0;
      PathStep(t, s);
    } else {
      var left := Height(t.l) >= Height(t.r);
      s, i := LongCodeWithOne(if left then t.l else t.r, k - 1);
      PathStep(t, s);
      i := i + 1;
    }
  }

  lemma {:induction false} SomeSymbol(t: Tree) returns (s: nat)
    ensures s in Symbols(t)
  {
    if t.Leaf? { s := t.sym; } else { s := SomeSymbol(t.l); }
  }

  // ---------- the 16 bits of the table ----------

  /** The number with these bits, the first one lowest. */
  function Low(bits: seq<bool>): nat {
    if bits == [] then 0 else (if bits[0] then 1 else 0) + 2 * Low(bits[1..])
  }

  lemma LowStep(b: bool, bits: seq<bool>)
    ensures Low([b] + bits) == (if b then 1 else 0) + 2 * Low(bits)
  {
    assert ([b] + bits)[1..] == bits;
  }

  lemma LowHalf(bits: seq<bool>)
    ensures bits == [] ==> Low(bits) == 0
    ensures bits != [] ==> Low(bits) / 2 == Low(bits[1..]) && (Low(bits) % 2 == 1 <==> bits[0])
  {
  }

  /** Shifting right and looking at the lowest bit. */
  function BitAt(n: nat, i: nat): bool {
    if i == 0 then n % 2 == 1 else BitAt(n / 2, i - 1)
  }

  /** What huff.c:145-152 leaves in a 16-bit code: the lowest bit is the branch at the root. */
  function CodeOf(path: seq<bool>): nat {
    Low(path) % 0x1_0000
  }

  function Emit(code: nat, len: nat): seq<bool> {
    seq(len, i requires 0 <= i < len => BitAt(code, i))
  }

  lemma {:induction false} LowBits(bits: seq<bool>, i: nat)
    ensures BitAt(Low(bits), i) == (i < |bits| && bits[i])
    decreases i
  {
    hide Low;
    LowHalf(bits);
    if i > 0 { LowBits(if bits == [] then [] else bits[1..], i - 1); }
  }

  lemma {:induction false} ModBits(n: nat, w: nat, i: nat)
    ensures BitAt(n % Pow2(w), i) == (i < w && BitAt(n, i))
    decreases w
  {
    if w == 0 {
      assert n % 1 == 0;
      ZeroBits(i);
    } else {
      HalfOfMod(n, Pow2(w - 1));
      if i > 0 { ModBits(n / 2, w - 1, i - 1); }
    }
  }

  lemma {:induction false} ZeroBits(i: nat)
    ensures !BitAt(0, i)
  {
    if i > 0 { ZeroBits(i - 1); }
  }

  lemma HalfOfMod(n: nat, m: nat)
    requires m > 0
    ensures (n % (2 * m)) / 2 == (n / 2) % m
    ensures (n % (2 * m)) % 2 == n % 2
  {
    var q, r := n / 2 / m, n / 2 % m;
    assert n / 2 == m * q + r && n == 2 * (n / 2) + n % 2;
    assert n == (2 * m) * q + (2 * r + n % 2) by { assert 2 * (m * q) == (2 * m) * q; }
    ModIs(n, q, 2 * r + n % 2, 2 * m);
  }

  lemma Pow16()
    ensures Pow2(16) == 0x1_0000
  {
    assert Pow2(8) == 256;
    assert Pow2(12) == 4096;
  }

  /** The bits sent for a path: its first 16, and zeros in the place of the rest. */
  lemma EmittedBits(path: seq<bool>, i: nat)
    requires i < |path|
    ensures Emit(CodeOf(path), |path|)[i] == (i < 16 && path[i])
  {
    Pow16();
    ModBits(Low(path), 16, i);
    LowBits(path, i);
  }

  lemma EmittedIsPath(path: seq<bool>)
    requires |path| <= 16
    ensures Emit(CodeOf(path), |path|) == path
  {
    forall i | 0 <= i < |path| ensures Emit(CodeOf(path), |path|)[i] == path[i] {
      EmittedBits(path, i);
    }
  }

  // ---------- decoding ----------

  /** huff.c:396-413: from the node `cur`, at most `n` values. */
  ghost function Decoded(root: Tree, cur: Tree, bits: seq<bool>, n: nat): seq<nat>
    requires root.Node? && cur.Node?
    decreases |bits|
  {
    if n == 0 || bits == [] then []
    else
      var next := if bits[0] then cur.r else cur.l;
      if next.Leaf? then [next.sym] + Decoded(root, root, bits[1..], n - 1)
      else Decoded(root, next, bits[1..], n)
  }

  /** The bits sent for a text, all codes being whole. */
  ghost function Encoded(t: Tree, text: seq<nat>): seq<bool>
    requires forall i :: 0 <= i < |text| ==> text[i] in Symbols(t)
  {
    if text == [] then [] else PathOf(t, text[0]) + Encoded(t, text[1..])
  }

  /** The bits sent for a text, cut to 16 bits each. */
  ghost function Sent(t: Tree, text: seq<nat>): seq<bool>
    requires forall i :: 0 <= i < |text| ==> text[i] in Symbols(t)
  {
    if text == [] then [] else Emit(CodeOf(PathOf(t, text[0])), |PathOf(t, text[0])|) + Sent(t, text[1..])
  }

  lemma {:induction false} DecodeOne(root: Tree, cur: Tree, s: nat, rest: seq<bool>, n: nat)
    requires root.Node? && cur.Node? && UniqueIndices(cur) && s in Symbols(cur) && n > 0
    ensures Decoded(root, cur, PathOf(cur, s) + rest, n) == [s] + Decoded(root, root, rest, n - 1)
  {
    PathStep(cur, s);
    var p := PathOf(cur, s);
    var next := if p[0] then cur.r else cur.l;
    assert (p + rest)[0] == p[0] && (p + rest)[1..] == p[1..] + rest;
    if next.Leaf? {
      assert p[1..] == [] && [] + rest == rest;
    } else {
      DecodeOne(root, next, s, rest, n);
    }
  }

  /** Decoding what was sent for a text, whatever padding follows it, gives the text. */
  lemma {:induction false} DecodeText(t: Tree, text: seq<nat>, pad: seq<bool>)
    requires t.Node? && UniqueIndices(t) && forall i :: 0 <= i < |text| ==> text[i] in Symbols(t)
    ensures Decoded(t, t, Encoded(t, text) + pad, |text|) == text
  {
    if text != [] {
      var p, rest := PathOf(t, text[0]), Encoded(t, text[1..]);
      assert (p + rest) + pad == p + (rest + pad);
      DecodeOne(t, t, text[0], rest + pad, |text|);
      DecodeText(t, text[1..], pad);
    }
  }

  /** What is decoded first has its code at the front of the bits. */
  lemma {:induction false} DecodedFirst(root: Tree, cur: Tree, bits: seq<bool>, n: nat)
    requires root.Node? && cur.Node? && UniqueIndices(cur) && Decoded(root, cur, bits, n) != []
    ensures Decoded(root, cur, bits, n)[0] in Symbols(cur)
    ensures PathOf(cur, Decoded(root, cur, bits, n)[0]) <= bits
    decreases |bits|
  {
    var s := Decoded(root, cur, bits, n)[0];
    var next := if bits[0] then cur.r else cur.l;
    if next.Node? { DecodedFirst(root, next, bits[1..], n); }
    PathStep(cur, s);
    assert bits == [bits[0]] + bits[1..];
    SymbolsAreIndices(cur.l);
    SymbolsAreIndices(cur.r);
  }

  lemma {:induction false} SentIsEncoded(t: Tree, text: seq<nat>)
    requires forall i :: 0 <= i < |text| ==> text[i] in Symbols(t)
    requires forall i :: 0 <= i < |text| ==> |PathOf(t, text[i])| <= 16
    ensures Sent(t, text) == Encoded(t, text)
  {
    if text != [] {
      EmittedIsPath(PathOf(t, text[0]));
      SentIsEncoded(t, text[1..]);
    }
  }

  ghost predicate SentWhole(t: Tree, s: nat)
    requires s in Symbols(t)
  {
    Emit(CodeOf(PathOf(t, s)), |PathOf(t, s)|) == PathOf(t, s)
  }

  /** A value sent whole is decoded, and decoding goes on behind it. */
  lemma AfterWhole(t: Tree, text: seq<nat>, pad: seq<bool>)
    requires t.Node? && UniqueIndices(t) && forall i :: 0 <= i < |text| ==> text[i] in Symbols(t)
    requires text != [] && SentWhole(t, text[0])
    ensures Decoded(t, t, Sent(t, text) + pad, |text|)
         == [text[0]] + Decoded(t, t, Sent(t, text[1..]) + pad, |text| - 1)
  {
    var p, rest := PathOf(t, text[0]), Sent(t, text[1..]);
    assert (p + rest) + pad == p + (rest + pad);
    DecodeOne(t, t, text[0], rest + pad, |text|);
  }

  lemma OtherPrefix(p: seq<bool>, e: seq<bool>, rest: seq<bool>)
    requires |p| == |e| && p != e
    ensures !(p <= e + rest)
  {
    var i :| 0 <= i < |p| && p[i] != e[i];
    assert (e + rest)[i] == e[i];
  }

  lemma MangledFront(t: Tree, text: seq<nat>)
    requires forall i :: 0 <= i < |text| ==> text[i] in Symbols(t)
    requires text != [] && !SentWhole(t, text[0])
    ensures var p := PathOf(t, text[0]);
            var e := Emit(CodeOf(p), |p|);
            |e| == |p| && p != e && Sent(t, text) == e + Sent(t, text[1..])
  {
    hide PathOf, CodeOf, Symbols;
  }

  /** A value not sent whole is not decoded first. */
  lemma AtMangled(t: Tree, text: seq<nat>, pad: seq<bool>)
    requires t.Node? && UniqueIndices(t) && forall i :: 0 <= i < |text| ==> text[i] in Symbols(t)
    requires text != [] && !SentWhole(t, text[0])
    ensures Decoded(t, t, Sent(t, text) + pad, |text|) != text
  {
    var p := PathOf(t, text[0]);
    var e := Emit(CodeOf(p), |p|);
    var rest := Sent(t, text[1..]) + pad;
    MangledFront(t, text);
    hide *;
    assert Sent(t, text) + pad == e + rest;
    if Decoded(t, t, e + rest, |text|) == text {
      DecodedFirst(t, t, e + rest, |text|);
      OtherPrefix(p, e, rest);
    }
  }

  /** A text with a value whose code is not sent as it is does not come back. */
  lemma {:induction false} MangledText(t: Tree, text: seq<nat>, pad: seq<bool>, k: nat)
    requires t.Node? && UniqueIndices(t) && forall i :: 0 <= i < |text| ==> text[i] in Symbols(t)
    requires k < |text| && !SentWhole(t, text[k])
    ensures Decoded(t, t, Sent(t, text) + pad, |text|) != text
    decreases k
  {
    hide *;
    if SentWhole(t, text[0]) {
      AfterWhole(t, text, pad);
      MangledText(t, text[1..], pad, k - 1);
      assert text == [text[0]] + text[1..];
      SameTail(text[0], Decoded(t, t, Sent(t, text[1..]) + pad, |text| - 1), text[1..]);
    } else {
      AtMangled(t, text, pad);
    }
  }

  lemma SameTail(x: nat, a: seq<nat>, b: seq<nat>)
    requires a != b
    ensures [x] + a != [x] + b
  {
    assert ([x] + a)[1..] == a && ([x] + b)[1..] == b;
  }

  /**
   The round trip succeeds exactly when no code is longer than 16 bits, for
   every text that uses all byte values of the tree.
   */
  lemma RoundTripIff(t: Tree, text: seq<nat>, pad: seq<bool>)
    requires t.Node? && UniqueIndices(t)
    requires forall i :: 0 <= i < |text| ==> text[i] in Symbols(t)
    requires forall s :: s in Symbols(t) ==> s in text
    ensures Decoded(t, t, Sent(t, text) + pad, |text|) == text <==> Height(t) <= 16
  {
    if Height(t) <= 16 {
      forall i | 0 <= i < |text| ensures |PathOf(t, text[i])| <= 16 {
        PathFits(t, text[i]);
      }
      SentIsEncoded(t, text);
      DecodeText(t, text, pad);
    } else {
      var s, i := LongCodeWithOne(t, 16);
      EmittedBits(PathOf(t, s), i);
      assert !SentWhole(t, s);
      var j :| 0 <= j < |text| && text[j] == s;
      MangledText(t, text, pad, j);
    }
  }

  // ---------- how much is sent ----------

  /** How many values of the text belong to `t`. */
  ghost function Count(t: Tree, text: seq<nat>): nat {
    if text == [] then 0 else (if text[0] in Symbols(t) then 1 else 0) + Count(t, text[1..])
  }

  /** The bits the values of the text that belong to `t` take below its root. */
  ghost function BitsBelow(t: Tree, text: seq<nat>): nat {
    if text == [] then 0 else (if text[0] in Symbols(t) then |PathOf(t, text[0])| else 0) + BitsBelow(t, text[1..])
  }

  /** The weight of every leaf is how often its value occurs in the text. */
  ghost predicate Counted(t: Tree, text: seq<nat>) {
    if t.Leaf? then t.w == multiset(text)[t.sym] else Counted(t.l, text) && Counted(t.r, text)
  }

  lemma {:induction false} LeafCount(s: nat, w: nat, text: seq<nat>)
    ensures Count(Leaf(s, w), text) == multiset(text)[s]
  {
    if text != [] {
      LeafCount(s, w, text[1..]);
      assert text == [text[0]] + text[1..];
    }
  }

  lemma {:induction false} LeafBits(s: nat, w: nat, text: seq<nat>)
    ensures BitsBelow(Leaf(s, w), text) == 0
  {
    if text != [] { LeafBits(s, w, text[1..]); }
  }

  lemma {:induction false} NodeCount(t: Tree, text: seq<nat>)
    requires t.Node? && UniqueIndices(t)
    ensures Count(t, text) == Count(t.l, text) + Count(t.r, text)
    ensures BitsBelow(t, text) == BitsBelow(t.l, text) + BitsBelow(t.r, text) + Count(t, text)
  {
    SymbolsAreIndices(t.l);
    SymbolsAreIndices(t.r);
    if text != [] { NodeCount(t, text[1..]); }
  }

  /** Each value costs one bit at every inner node above it. */
  lemma {:induction false} BitsAreInnerSum(t: Tree, text: seq<nat>)
    requires UniqueIndices(t) && Counted(t, text)
    ensures Count(t, text) == Weight(t) && BitsBelow(t, text) == InnerSum(t)
  {
    if t.Leaf? {
      LeafCount(t.sym, t.w, text);
      LeafBits(t.sym, t.w, text);
    } else {
      BitsAreInnerSum(t.l, text);
      BitsAreInnerSum(t.r, text);
      NodeCount(t, text);
    }
  }

  lemma {:induction false} SentLength(t: Tree, text: seq<nat>)
    requires forall i :: 0 <= i < |text| ==> text[i] in Symbols(t)
    ensures |Sent(t, text)| == BitsBelow(t, text)
  {
    if text != [] { SentLength(t, text[1..]); }
  }

  /** The number of bits sent is the sum of the weights of the inner nodes. */
  lemma SentIsInnerSum(t: Tree, text: seq<nat>)
    requires UniqueIndices(t) && Counted(t, text) && forall i :: 0 <= i < |text| ==> text[i] in Symbols(t)
    ensures |Sent(t, text)| == InnerSum(t) == WeightedDepth(t, 0)
  {
    SentLength(t, text);
    BitsAreInnerSum(t, text);
    DepthIsInnerSum(t, 0);
  }

  // ---------- the loops that pack and unpack ----------

  lemma EmitNothing(bits: seq<bool>, code: nat)
    ensures bits + Emit(code, 0) == bits
  {
  }

  lemma EmitMore(bits: seq<bool>, code: nat, i: nat)
    ensures bits + Emit(code, i) + [BitAt(code, i)] == bits + Emit(code, i + 1)
  {
  }

  lemma {:induction false} SentConcat(t: Tree, a: seq<nat>, b: seq<nat>)
    requires forall i :: 0 <= i < |a| ==> a[i] in Symbols(t)
    requires forall i :: 0 <= i < |b| ==> b[i] in Symbols(t)
    ensures Sent(t, a + b) == Sent(t, a) + Sent(t, b)
  {
    if a == [] {
      assert a + b == b;
    } else {
      assert (a + b)[0] == a[0] && (a + b)[1..] == a[1..] + b;
      SentConcat(t, a[1..], b);
    }
  }

  lemma SentOne(t: Tree, s: nat)
    requires s in Symbols(t)
    ensures Sent(t, [s]) == Emit(CodeOf(PathOf(t, s)), |PathOf(t, s)|)
  {
    hide Symbols, PathOf, CodeOf, Emit;
    assert [s][1..] == [];
    assert Sent(t, [s]) == Emit(CodeOf(PathOf(t, s)), |PathOf(t, s)|) + [];
  }

  /** The bits of a number, the highest of the `n` lowest first, are the ones shifted to the lowest place. */
  lemma {:induction false} ToBitsAt(x: nat, n: nat, i: nat)
    requires i < n
    ensures ToBits(x, n)[i] == BitAt(x, n - 1 - i)
  {
    if i < n - 1 { ToBitsAt(x / 2, n - 1, i); }
  }

  lemma {:induction false} UnpackAt(bytes: seq<Byte>, j: nat, i: nat)
    requires j < |bytes| && i < 8
    ensures |Unpack(bytes)| == 8 * |bytes| && Unpack(bytes)[8 * j + i] == BitAt(bytes[j], 7 - i)
    decreases |bytes|
  {
    var n := |bytes| - 1;
    UnpackLength(bytes);
    UnpackLength(bytes[..n]);
    if j < n { UnpackAt(bytes[..n], j, i); } else { ToBitsAt(bytes[n], 8, i); }
  }

  /** Between two bits: what has been decoded, and what the rest of the bits will still give. */
  ghost predicate DecodeState(t: Tree, cur: Tree, bits: seq<bool>, pos: nat, n: nat, out: seq<nat>) {
    && t.Node? && cur.Node? && pos <= |bits| && |out| < n
    && Decoded(t, t, bits, n) == out + Decoded(t, cur, bits[pos..], n - |out|)
  }

  lemma DecodeStart(t: Tree, bits: seq<bool>, n: nat)
    requires t.Node? && n > 0
    ensures DecodeState(t, t, bits, 0, n, [])
  {
    assert bits[0..] == bits;
  }

  /** huff.c:397-412 for one bit. */
  lemma DecodeBit(t: Tree, cur: Tree, bits: seq<bool>, pos: nat, n: nat, out: seq<nat>)
    requires DecodeState(t, cur, bits, pos, n, out) && pos < |bits|
    ensures var next := if bits[pos] then cur.r else cur.l;
            && (next.Node? ==> DecodeState(t, next, bits, pos + 1, n, out))
            && (next.Leaf? ==> if |out| + 1 == n then Decoded(t, t, bits, n) == out + [next.sym]
                               else DecodeState(t, t, bits, pos + 1, n, out + [next.sym]))
  {
    var rest := bits[pos..];
    assert rest[0] == bits[pos] && rest[1..] == bits[pos + 1..];
    var next := if bits[pos] then cur.r else cur.l;
    if next.Leaf? {
      assert out + ([next.sym] + Decoded(t, t, rest[1..], n - |out| - 1)) == (out + [next.sym]) + Decoded(t, t, rest[1..], n - |out| - 1);
    }
  }

  lemma DecodeEnd(t: Tree, cur: Tree, bits: seq<bool>, n: nat, out: seq<nat>)
    requires DecodeState(t, cur, bits, |bits|, n, out)
    ensures out == Decoded(t, t, bits, n)
  {
  }
}

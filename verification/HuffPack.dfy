/** Bits packed into bytes, the first bit of a byte in its highest place. */
module HuffPack {
  import opened Arith
  import opened Seqs

  type Byte = b: nat | b < 256

  /** The number with these bits, the last one lowest. */
  function FromBits(bits: seq<bool>): nat {
    if bits == [] then 0 else 2 * FromBits(bits[..|bits| - 1]) + (if bits[|bits| - 1] then 1 else 0)
  }

  /** The lowest `n` bits of a number, the highest of them first. */
  function ToBits(x: nat, n: nat): (bits: seq<bool>)
    ensures |bits| == n
  {
    if n == 0 then [] else ToBits(x / 2, n - 1) + [x % 2 == 1]
  }

  lemma {:induction false} FromBitsBound(bits: seq<bool>)
    ensures FromBits(bits) < Pow2(|bits|)
    decreases |bits|
  {
    if bits != [] { FromBitsBound(bits[..|bits| - 1]); }
  }

  /** Bits that make a number are the bits of that number. */
  lemma {:induction false} BitsBack(bits: seq<bool>)
    ensures ToBits(FromBits(bits), |bits|) == bits
    decreases |bits|
  {
    if bits != [] { BitsBack(bits[..|bits| - 1]); }
  }

  /** And the number with the bits of a number is that number. */
  lemma {:induction false} NumberBack(x: nat, n: nat)
    requires x < Pow2(n)
    ensures FromBits(ToBits(x, n)) == x
  {
    if n > 0 {
      NumberBack(x / 2, n - 1);
      assert ToBits(x, n)[..n - 1] == ToBits(x / 2, n - 1);
    }
  }

  /** The bits of a sequence of bytes. */
  function Unpack(bytes: seq<Byte>): seq<bool> {
    if bytes == [] then [] else Unpack(bytes[..|bytes| - 1]) + ToBits(bytes[|bytes| - 1], 8)
  }

  lemma {:induction false} UnpackLength(bytes: seq<Byte>)
    ensures |Unpack(bytes)| == 8 * |bytes|
  {
    if bytes != [] { UnpackLength(bytes[..|bytes| - 1]); }
  }

  lemma {:induction false} UnpackHead(bytes: seq<Byte>)
    requires bytes != []
    ensures Unpack(bytes) == ToBits(bytes[0], 8) + Unpack(bytes[1..])
    decreases |bytes|
  {
    var k := |bytes| - 1;
    if k > 0 {
      UnpackHead(bytes[..k]);
      assert bytes[..k][1..] == bytes[1..][..k - 1];
    } else {
      assert bytes[..k] == [] && bytes[1..] == [];
    }
  }

  lemma UnpackAppend(bytes: seq<Byte>, b: Byte)
    ensures Unpack(bytes + [b]) == Unpack(bytes) + ToBits(b, 8)
  {
    assert (bytes + [b])[..|bytes|] == bytes;
  }

  function Zeros(n: nat): (z: seq<bool>)
    ensures |z| == n
  {
    if n == 0 then [] else Zeros(n - 1) + [false]
  }

  /** Shifting left appends zeros. */
  lemma {:induction false} ShiftLeft(bits: seq<bool>, n: nat)
    ensures FromBits(bits + Zeros(n)) == FromBits(bits) * Pow2(n)
  {
    if n == 0 {
      assert bits + Zeros(0) == bits && Pow2(0) == 1;
    } else {
      assert bits + Zeros(n) == (bits + Zeros(n - 1)) + [false] && Pow2(n) == 2 * Pow2(n - 1);
      hide *;
      ShiftLeft(bits, n - 1);
      AppendBit(bits + Zeros(n - 1), false);
      Doubled(FromBits(bits), Pow2(n - 1));
    }
  }

  lemma Doubled(x: nat, p: nat)
    ensures 2 * (x * p) == x * (2 * p)
  {
  }

  lemma AppendBit(bits: seq<bool>, b: bool)
    ensures FromBits(bits + [b]) == 2 * FromBits(bits) + (if b then 1 else 0)
  {
    assert (bits + [b])[..|bits|] == bits;
  }

  lemma Pow2Of8()
    ensures Pow2(8) == 256
  {
  }

  /** A full buffer written out adds its eight bits. */
  lemma {:induction false} WriteFull(bytes: seq<Byte>, pending: seq<bool>)
    requires |pending| == 8
    ensures FromBits(pending) < 256 && Unpack(bytes + [FromBits(pending)]) == Unpack(bytes) + pending
  {
    FromBitsBound(pending);
    Pow2Of8();
    BitsBack(pending);
    UnpackAppend(bytes, FromBits(pending));
  }

  /** A buffer with room for one more bit does not overflow when it takes one. */
  lemma RoomForOne(pending: seq<bool>)
    requires |pending| < 8
    ensures 2 * FromBits(pending) + 1 < 256
  {
    FromBitsBound(pending + [true]);
    AppendBit(pending, true);
    Pow2Monotone(|pending| + 1, 8);
    Pow2Of8();
  }

  // ---------- the loop that packs ----------

  /** Bytes that hold these bits, and then zeros up to the end of the last byte. */
  ghost predicate Padded(body: seq<Byte>, bits: seq<bool>) {
    |bits| <= 8 * |body| < |bits| + 8 && Unpack(body) == bits + Zeros(8 * |body| - |bits|)
  }

  /** Between two bits: what has been written, and what waits in the buffer. */
  ghost predicate PackState(body: seq<Byte>, pending: seq<bool>, wbuf: nat, count: nat, bits: seq<bool>) {
    |pending| == count < 8 && wbuf == FromBits(pending) && Unpack(body) + pending == bits
  }

  lemma PackStart()
    ensures PackState([], [], 0, 0, [])
  {
  }

  /** huff.c:278-292 for one bit. */
  lemma PackBit(body: seq<Byte>, pending: seq<bool>, wbuf: nat, count: nat, bits: seq<bool>, b: bool)
    requires PackState(body, pending, wbuf, count, bits)
    ensures var w := 2 * wbuf % 256 + (if b then 1 else 0);
            && w < 256
            && if count + 1 == 8 then PackState(body + [w], [], 0, 0, bits + [b])
               else PackState(body, pending + [b], w, count + 1, bits + [b])
  {
    hide FromBits, Unpack, ToBits;
    RoomForOne(pending);
    AppendBit(pending, b);
    Regroup(Unpack(body), pending, [b]);
    if count + 1 == 8 {
      WriteFull(body, pending + [b]);
      PackStart();
      AppendNothing(bits + [b]);
    }
  }

  /** huff.c:295-301 */
  lemma PackEnd(body: seq<Byte>, pending: seq<bool>, wbuf: nat, count: nat, bits: seq<bool>)
    requires PackState(body, pending, wbuf, count, bits)
    ensures count == 0 ==> Padded(body, bits)
    ensures count != 0 ==> Padded(body + [wbuf * Pow2(8 - count) % 256], bits)
  {
    UnpackLength(body);
    hide FromBits, Unpack, ToBits, Pow2;
    if count == 0 {
      AppendNothing(Unpack(body));
    } else {
      var z := 8 - count;
      ShiftLeft(pending, z);
      WriteFull(body, pending + Zeros(z));
      Regroup(Unpack(body), pending, Zeros(z));
      assert |Unpack(body) + pending| == |Unpack(body)| + count;
    }
  }
}

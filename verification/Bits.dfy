/** Bytes as bits, the lowest bit first. */
module Bits {
  import opened Arithmetic
  import opened Bitwise
  import opened Common

  /** Which byte a bit of a stream is in, and where in it. */
  function ByteIndex(i: nat): nat {
    i / 8
  }

  function InByte(i: nat): (j: nat)
    ensures j < 8
  {
    i % 8
  }

  lemma Places(k: nat, j: nat)
    requires j < 8
    ensures ByteIndex(8 * k + j) == k && InByte(8 * k + j) == j
  {
  }

  lemma PlaceOf(i: nat)
    ensures i == 8 * ByteIndex(i) + InByte(i)
  {
  }

  lemma SamePlace(k: nat, i: nat)
    ensures InByte(8 * k + i) == InByte(i)
  {
  }

  function ToBits(bytes: seq<byte>): (r: seq<bit>)
    ensures |r| == 8 * |bytes|
  {
    seq(8 * |bytes|, i requires 0 <= i < 8 * |bytes| => BitOf(bytes[ByteIndex(i)], InByte(i)))
  }

  /** The number that bits stand for, the lowest first. */
  function Value(bits: seq<bit>): nat {
    if bits == [] then 0 else bits[0] + 2 * Value(bits[1..])
  }

  function LowestBits(b: nat, n: nat): (bits: seq<bit>)
    ensures |bits| == n
  {
    if n == 0 then [] else [Lowest(b)] + LowestBits(Rest(b), n - 1)
  }

  lemma {:induction false} LowestBitsAre(b: nat, n: nat)
    ensures forall i | 0 <= i < n :: LowestBits(b, n)[i] == BitOf(b, i)
    ensures b < Pow2(n) ==> Value(LowestBits(b, n)) == b
    decreases n
  {
    if n > 0 {
      LowestBitsAre(Rest(b), n - 1);
      assert LowestBits(b, n)[1..] == LowestBits(Rest(b), n - 1);
    }
  }

  /** The bits of a byte are its binary digits, the lowest first. */
  lemma ByteBits(b: byte)
    ensures Value(ToBits([b])) == b
  {
    hide BitOf, Value;
    assert Pow2(8) == 256;
    LowestBitsAre(b, 8);
    forall i | 0 <= i < 8 ensures ToBits([b])[i] == LowestBits(b, 8)[i] {
      Places(0, i);
    }
    assert ToBits([b]) == LowestBits(b, 8);
  }

  lemma ToBitsJoin(a: seq<byte>, b: seq<byte>)
    ensures ToBits(a + b) == ToBits(a) + ToBits(b)
  {
    hide BitOf, ByteIndex, InByte;
    forall i | 0 <= i < 8 * |a + b| ensures ToBits(a + b)[i] == (ToBits(a) + ToBits(b))[i] {
      PlaceOf(i);
      if i >= 8 * |a| {
        Places(ByteIndex(i) - |a|, InByte(i));
      }
    }
  }

  /** Adding a bit above the others. */
  lemma {:induction false} AddBit(b: nat, j: nat, x: bit, i: nat)
    requires b < Pow2(j)
    ensures b + x * Pow2(j) < 2 * Pow2(j)
    ensures BitOf(b + x * Pow2(j), i) == if i == j then x else if i < j then BitOf(b, i) else 0
  {
    if j == 0 {
      if i > 0 {
        ZeroBits(i - 1);
      }
    } else {
      assert Rest(b + x * Pow2(j)) == Rest(b) + x * Pow2(j - 1) && Lowest(b + x * Pow2(j)) == Lowest(b);
      if i > 0 {
        AddBit(Rest(b), j - 1, x, i - 1);
      }
    }
  }

  lemma {:induction false} HighBitsZero(b: nat, j: nat, i: nat)
    requires b < Pow2(j) && j <= i
    ensures BitOf(b, i) == 0
  {
    if j == 0 {
      ZeroBits(i);
    } else {
      HighBitsZero(Rest(b), j - 1, i - 1);
    }
  }

  lemma ByteWeight(j: nat)
    requires j < 8
    ensures Pow2(j) <= 128
  {
    assert Pow2(7) == 128;
    Pow2Grows(j, 7);
  }

  /** The first `n` bits of the data are in use; in a byte used in part the bits above are zero. */
  predicate ZeroAbove(data: seq<byte>, n: nat)
  {
    n <= 8 * |data| && (InByte(n) > 0 ==> ByteIndex(n) < |data| && data[ByteIndex(n)] < Pow2(InByte(n)))
  }

  /** The byte that holds bit `n`, once that bit is written. */
  function WithBit(data: seq<byte>, n: nat, x: bit): (b: byte)
    requires n < 8 * |data| && ZeroAbove(data, n)
  {
    var before := if InByte(n) == 0 then 0 else data[ByteIndex(n)];
    ByteWeight(InByte(n));
    AddBit(before, InByte(n), x, 0);
    OrAbove(before, x, InByte(n));
    Or(before, x * Pow2(InByte(n)))
  }

  /** Writing a bit appends it to the bits in use. */
  lemma WriteBitAppends(data: seq<byte>, n: nat, x: bit)
    requires n < 8 * |data| && ZeroAbove(data, n)
    ensures ByteIndex(n) < |data|
    ensures var data' := data[ByteIndex(n) := WithBit(data, n, x)];
            ToBits(data')[..n + 1] == ToBits(data)[..n] + [x] && ZeroAbove(data', n + 1)
  {
    hide Or, BitOf, ToBits, Pow2, ByteIndex, InByte;
    PlaceOf(n);
    var k, j := ByteIndex(n), InByte(n);
    var before := if j == 0 then 0 else data[k];
    OrAbove(before, x, j);
    var data' := data[k := WithBit(data, n, x)];
    forall i | 0 <= i <= n ensures ToBits(data')[i] == (ToBits(data)[..n] + [x])[i] {
      PlaceOf(i);
      BitAt(data, i);
      BitAt(data', i);
      AddBit(before, j, x, InByte(i));
    }
    AddBit(before, j, x, 0);
    NextPlace(n);
  }

  lemma BitAt(data: seq<byte>, i: nat)
    requires i < 8 * |data|
    ensures ByteIndex(i) < |data| && ToBits(data)[i] == BitOf(data[ByteIndex(i)], InByte(i))
  {
  }

  lemma NextPlace(n: nat)
    ensures if InByte(n) == 7 then InByte(n + 1) == 0
            else ByteIndex(n + 1) == ByteIndex(n) && InByte(n + 1) == InByte(n) + 1
    ensures InByte(n) < 7 ==> Pow2(InByte(n + 1)) == 2 * Pow2(InByte(n))
  {
  }

  function BytesFor(n: nat): nat {
    (n + 7) / 8
  }

  /** The bytes that hold the bits in use; fewer than eight zeros follow. */
  lemma PaddedBits(data: seq<byte>, n: nat)
    requires ZeroAbove(data, n)
    ensures BytesFor(n) <= |data| && n <= 8 * BytesFor(n) < n + 8
    ensures ToBits(data[..BytesFor(n)]) == ToBits(data)[..n] + Repeat(0, 8 * BytesFor(n) - n)
  {
    hide BitOf, ToBits, Pow2, ByteIndex, InByte;
    PlaceOf(n);
    var m := BytesFor(n);
    forall i | 0 <= i < 8 * m ensures ToBits(data[..m])[i] == (ToBits(data)[..n] + Repeat(0, 8 * m - n))[i] {
      PlaceOf(i);
      BitAt(data[..m], i);
      if i < n {
        BitAt(data, i);
      } else {
        HighBitsZero(data[ByteIndex(i)], InByte(n), InByte(i));
      }
    }
  }

  /** A whole byte, at a byte boundary. */
  lemma WriteByteAppends(data: seq<byte>, n: nat, b: byte)
    requires n + 8 <= 8 * |data| && InByte(n) == 0
    ensures ByteIndex(n) < |data| && ZeroAbove(data[ByteIndex(n) := b], n + 8)
    ensures ToBits(data[ByteIndex(n) := b])[..n + 8] == ToBits(data)[..n] + ToBits([b])
  {
    hide BitOf, ToBits, Pow2, ByteIndex, InByte;
    PlaceOf(n);
    var k := ByteIndex(n);
    var data' := data[k := b];
    Places(k + 1, 0);
    forall i | 0 <= i < n + 8 ensures ToBits(data')[i] == (ToBits(data)[..n] + ToBits([b]))[i] {
      PlaceOf(i);
      BitAt(data', i);
      if i < n {
        BitAt(data, i);
      } else {
        Places(0, i - n);
        Places(k, i - n);
        BitAt([b], i - n);
      }
    }
  }
}

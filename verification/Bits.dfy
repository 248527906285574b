/** Bits packed into bytes, first bit highest (`primitives/bools.rs`, `huffman.rs`, `json.rs`). */
module Bits {
  import opened Primitives

  /** The weight `1 << (7 - j)` of bit `j`, counted from the high end. */
  function Weight(j: nat): (w: nat)
    requires j < 8
    ensures w > 0
    decreases 7 - j
  {
    if j == 7 then 1 else 2 * Weight(j + 1)
  }

  lemma WeightOfFirst()
    ensures Weight(0) == 128
  {
    assert Weight(4) == 8;
  }

  /** What is left of a byte when its `j` highest bits are cleared. */
  function Low(b: byte, j: nat): (low: nat)
    requires j <= 8
    ensures low < if j == 8 then 1 else 2 * Weight(j)
    decreases j, 0
  {
    WeightOfFirst();
    if j == 0 then b else Low(b, j - 1) - if BitOf(b, j - 1) then Weight(j - 1) else 0
  }

  /** Whether bit `j` is set: `byte & (1 << (7 - j)) != 0`. */
  predicate BitOf(b: byte, j: nat)
    requires j < 8
    decreases j, 1
  {
    Low(b, j) >= Weight(j)
  }

  function Worth(flag: bool, weight: nat): nat {
    if flag then weight else 0
  }

  /** A byte is the sum of its bits: bit 0 is worth 128, and bit 7 is worth 1. */
  lemma ByteIsItsBits(b: byte)
    ensures b == Worth(BitOf(b, 0), 128) + Worth(BitOf(b, 1), 64) + Worth(BitOf(b, 2), 32) + Worth(BitOf(b, 3), 16)
                 + Worth(BitOf(b, 4), 8) + Worth(BitOf(b, 5), 4) + Worth(BitOf(b, 6), 2) + Worth(BitOf(b, 7), 1)
  {
    hide Low, BitOf, Weight, Worth;
    Weights();
    assert Low(b, 0) == b by { NothingCleared(b); }
    var l1 := NextLow(b, 0, b, 128);
    var l2 := NextLow(b, 1, l1, 64);
    var l3 := NextLow(b, 2, l2, 32);
    var l4 := NextLow(b, 3, l3, 16);
    var l5 := NextLow(b, 4, l4, 8);
    var l6 := NextLow(b, 5, l5, 4);
    var l7 := NextLow(b, 6, l6, 2);
    var l8 := NextLow(b, 7, l7, 1);
    assert l8 == 0 by { AllCleared(b); }
  }

  lemma NothingCleared(b: byte)
    ensures Low(b, 0) == b
  {
  }

  lemma AllCleared(b: byte)
    ensures Low(b, 8) == 0
  {
  }

  lemma Weights()
    ensures Weight(0) == 128 && Weight(1) == 64 && Weight(2) == 32 && Weight(3) == 16
    ensures Weight(4) == 8 && Weight(5) == 4 && Weight(6) == 2 && Weight(7) == 1
  {
    assert Weight(4) == 8;
  }

  /** One bit off: what is left is the remainder, and the bit is set if it was at least its weight. */
  lemma NextLow(b: byte, j: nat, low: nat, weight: nat) returns (next: nat)
    requires j < 8 && Low(b, j) == low && Weight(j) == weight
    ensures low == Worth(BitOf(b, j), weight) + next && Low(b, j + 1) == next
  {
    next := if low >= weight then low - weight else low;
  }

  predicate Present(bits: seq<bool>, i: nat) {
    i < |bits| && bits[i]
  }

  /** Bits `j..7` of the byte that starts at `base`; missing bits are zero. */
  function SumFrom(bits: seq<bool>, base: nat, j: nat): (sum: nat)
    requires j <= 8
    ensures sum < if j == 8 then 1 else 2 * Weight(j)
    decreases 8 - j
  {
    if j == 8 then 0 else (if Present(bits, base + j) then Weight(j) else 0) + SumFrom(bits, base, j + 1)
  }

  function ByteAt(bits: seq<bool>, base: nat): byte {
    WeightOfFirst();
    SumFrom(bits, base, 0)
  }

  function Pack(bits: seq<bool>): (bytes: seq<byte>)
    ensures |bytes| == CeilDiv(|bits|, 8)
  {
    seq(CeilDiv(|bits|, 8), i requires 0 <= i => ByteAt(bits, 8 * i))
  }

  /** The bit at `position`, and false beyond the end. */
  predicate BitAt(bytes: seq<byte>, position: nat) {
    position / 8 < |bytes| && BitOf(bytes[position / 8], position % 8)
  }

  /** The first `count` bits, padded with false where the bytes end. */
  function Unpack(bytes: seq<byte>, count: nat): (bits: seq<bool>)
    ensures |bits| == count
    ensures forall p :: 0 <= p < count ==> bits[p] == BitAt(bytes, p)
  {
    seq(count, p requires 0 <= p => BitAt(bytes, p))
  }

  lemma {:induction false} SumBehindBit(bits: seq<bool>, base: nat, j: nat)
    requires j <= 8
    ensures Low(ByteAt(bits, base), j) == SumFrom(bits, base, j)
  {
    if j > 0 {
      SumBehindBit(bits, base, j - 1);
    }
  }

  lemma BitOfByteAt(bits: seq<bool>, base: nat, j: nat)
    requires j < 8
    ensures BitOf(ByteAt(bits, base), j) == Present(bits, base + j)
  {
    SumBehindBit(bits, base, j);
  }

  /** Every packed bit is found at its position, and all padding bits are zero. */
  lemma BitAtPack(bits: seq<bool>, p: nat)
    ensures BitAt(Pack(bits), p) == Present(bits, p)
  {
    if p / 8 < |Pack(bits)| {
      BitOfByteAt(bits, 8 * (p / 8), p % 8);
    }
  }

  lemma {:induction false} SumOfEqualBits(b: byte, bits: seq<bool>, base: nat, j: nat)
    requires j <= 8 && forall i :: 0 <= i < 8 ==> BitOf(b, i) == Present(bits, base + i)
    ensures Low(b, j) == SumFrom(bits, base, j)
    decreases 8 - j
  {
    if j < 8 {
      assert Low(b, j + 1) == Low(b, j) - if BitOf(b, j) then Weight(j) else 0;
      SumOfEqualBits(b, bits, base, j + 1);
    }
  }

  /** `bytes` are `bits` followed by fewer than eight zero bits. */
  ghost predicate Holds(bytes: seq<byte>, bits: seq<bool>) {
    |bytes| == CeilDiv(|bits|, 8) && forall p :: 0 <= p < 8 * |bytes| ==> BitAt(bytes, p) == Present(bits, p)
  }

  /** Packing has one outcome. */
  lemma PackIsUnique(bits: seq<bool>, bytes: seq<byte>)
    ensures Pack(bits) == bytes <==> Holds(bytes, bits)
  {
    forall p | 0 <= p < 8 * |Pack(bits)| ensures BitAt(Pack(bits), p) == Present(bits, p) {
      BitAtPack(bits, p);
    }
    if Holds(bytes, bits) {
      forall i | 0 <= i < |bytes| ensures Pack(bits)[i] == bytes[i] {
        HeldByte(bytes, bits, i);
      }
    }
  }

  lemma HeldByte(bytes: seq<byte>, bits: seq<bool>, i: nat)
    requires Holds(bytes, bits) && i < |bytes|
    ensures bytes[i] == ByteAt(bits, 8 * i)
  {
    hide BitOf, SumFrom;
    forall j | 0 <= j < 8 ensures BitOf(bytes[i], j) == Present(bits, 8 * i + j) {
      assert BitAt(bytes, 8 * i + j) == Present(bits, 8 * i + j);
    }
    SumOfEqualBits(bytes[i], bits, 8 * i, 0);
    assert Low(bytes[i], 0) == bytes[i];
  }

  /** Unpacking `count` bits of packed values gives the values, cut or padded with false to that count. */
  lemma UnpackOfPack(bits: seq<bool>, count: nat)
    ensures Unpack(Pack(bits), count) == seq(count, p requires 0 <= p => Present(bits, p))
  {
    forall p | 0 <= p < count ensures Unpack(Pack(bits), count)[p] == Present(bits, p) {
      BitAtPack(bits, p);
    }
  }

  // ---- setting bits one after the other

  /** `byte |= 1 << (7 - j)` */
  function OrBit(b: byte, j: nat): nat
    requires j < 8
  {
    if BitOf(b, j) then b else b + Weight(j)
  }

  lemma {:induction false} SumWithNext(bits: seq<bool>, p: nat, base: nat, j: nat)
    requires p < |bits| && j <= 8
    ensures SumFrom(bits[..p + 1], base, j)
         == SumFrom(bits[..p], base, j) + if bits[p] && base + j <= p < base + 8 then Weight(p - base) else 0
    decreases 8 - j
  {
    if j < 8 {
      SumWithNext(bits, p, base, j + 1);
      assert Present(bits[..p + 1], base + j) <==> Present(bits[..p], base + j) || (base + j == p && bits[p]);
    }
  }

  /** The next bit is set in its own byte, where it was still zero, and nowhere else. */
  lemma NextBit(bits: seq<bool>, p: nat, k: nat)
    requires p < |bits|
    ensures ByteAt(bits[..p + 1], 8 * k)
         == if bits[p] && k == p / 8 then OrBit(ByteAt(bits[..p], 8 * k), p % 8) else ByteAt(bits[..p], 8 * k)
  {
    hide SumFrom, BitOf, Weight;
    SumWithNext(bits, p, 8 * k, 0);
    assert 8 * k <= p < 8 * k + 8 <==> k == p / 8;
    if k == p / 8 {
      BitOfByteAt(bits[..p], 8 * k, p % 8);
    }
  }

  lemma {:induction false} NoBits(bits: seq<bool>, base: nat, j: nat)
    requires |bits| <= base && j <= 8
    ensures SumFrom(bits, base, j) == 0
    decreases 8 - j
  {
    if j < 8 {
      NoBits(bits, base, j + 1);
    }
  }

  /** A byte is complete once its eight bits are there. */
  lemma {:induction false} LaterBits(bits: seq<bool>, p: nat, k: nat)
    requires 8 * k + 8 <= p <= |bits|
    ensures ByteAt(bits[..p], 8 * k) == ByteAt(bits, 8 * k)
    decreases |bits| - p
  {
    hide ByteAt, OrBit;
    if p == |bits| {
      assert bits[..p] == bits;
    } else {
      assert p / 8 != k;
      NextBit(bits, p, k);
      LaterBits(bits, p + 1, k);
    }
  }

  /** The loop over chunks of eight bits: each byte is put together bit by bit and pushed. */
  method PackLoop(bits: seq<bool>) returns (out: seq<byte>)
    ensures out == Pack(bits)
  {
    hide ByteAt, OrBit;
    out := [];
    while 8 * |out| < |bits|
      invariant |out| <= CeilDiv(|bits|, 8)
      invariant forall i :: 0 <= i < |out| ==> out[i] == ByteAt(bits, 8 * i)
      decreases CeilDiv(|bits|, 8) - |out|
    {
      var k := |out|;
      var end := if 8 * k + 8 <= |bits| then 8 * k + 8 else |bits|;
      var b: nat := 0;
      assert ByteAt(bits[..8 * k], 8 * k) == 0 by { NoBitsYet(bits[..8 * k], 8 * k); }
      for p := 8 * k to end
        invariant b == ByteAt(bits[..p], 8 * k)
      {
        NextBit(bits, p, k);
        assert p / 8 == k && p % 8 == p - 8 * k;
        if bits[p] {
          b := OrBit(b, p - 8 * k);
        }
      }
      assert ByteAt(bits[..end], 8 * k) == ByteAt(bits, 8 * k) by {
        if end == |bits| {
          assert bits[..end] == bits;
        } else {
          LaterBits(bits, end, k);
        }
      }
      out := out + [b];
    }
  }

  lemma NoBitsYet(bits: seq<bool>, base: nat)
    requires |bits| <= base
    ensures ByteAt(bits, base) == 0
  {
    NoBits(bits, base, 0);
  }
}

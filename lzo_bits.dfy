/** Bit-level helpers of Lzo1xCompressor (MiniLZO.cs lines 130 and 236-249): the
    little-endian 32-bit read, the match-table hash, and the de Bruijn trailing-zero count
    that finishes a match; with the facts about them that the compressor relies on. */
module LzoBits {
  import opened LzoFormat

  /** Eight flags as an 8-bit vector, p0 the least significant bit. */
  function Flags(p0: bool, p1: bool, p2: bool, p3: bool, p4: bool, p5: bool, p6: bool, p7: bool): bv8
  {
    (if p0 then 1 else 0) | (if p1 then 2 else 0) | (if p2 then 4 else 0) | (if p3 then 8 else 0) |
    (if p4 then 16 else 0) | (if p5 then 32 else 0) | (if p6 then 64 else 0) | (if p7 then 128 else 0)
  }

  /** The last n binary digits of x as a bit vector, the lowest digit in bit 0. Written
      recursively, so that a read of four bytes unfolds one digit per byte at a time. */
  function DigitBits(x: nat, n: nat): bv8
    requires n <= 8
  {
    if n == 0 then 0 else (DigitBits(x / 2, n - 1) << 1) | (if x % 2 == 1 then 1 else 0)
  }

  /** A byte as an 8-bit vector. */
  function Bits(b: byte): bv8
  {
    DigitBits(b as nat, 8)
  }

  /** The same vector, its eight bits written out. */
  function FlatBits(b: byte): bv8
  {
    var n0 := b as int;
    var n1 := n0 / 2;
    var n2 := n1 / 2;
    var n3 := n2 / 2;
    var n4 := n3 / 2;
    var n5 := n4 / 2;
    var n6 := n5 / 2;
    var n7 := n6 / 2;
    Flags(n0 % 2 == 1, n1 % 2 == 1, n2 % 2 == 1, n3 % 2 == 1, n4 % 2 == 1, n5 % 2 == 1, n6 % 2 == 1, n7 % 2 == 1)
  }

  /** The byte an 8-bit vector stands for. */
  function ByteOf(v: bv8): nat
  {
    (if v & 1 != 0 then 1 else 0) + (if v & 2 != 0 then 2 else 0) + (if v & 4 != 0 then 4 else 0) +
    (if v & 8 != 0 then 8 else 0) + (if v & 16 != 0 then 16 else 0) + (if v & 32 != 0 then 32 else 0) +
    (if v & 64 != 0 then 64 else 0) + (if v & 128 != 0 then 128 else 0)
  }

  function Weight(p: bool, w: nat): nat { if p then w else 0 }

  lemma FlagsValue(p0: bool, p1: bool, p2: bool, p3: bool, p4: bool, p5: bool, p6: bool, p7: bool)
    ensures ByteOf(Flags(p0, p1, p2, p3, p4, p5, p6, p7)) ==
      Weight(p0, 1) + Weight(p1, 2) + Weight(p2, 4) + Weight(p3, 8) +
      Weight(p4, 16) + Weight(p5, 32) + Weight(p6, 64) + Weight(p7, 128)
  {
  }

  /** The binary digits of a byte, read off by repeated halving, each at its weight. */
  function DigitWeights(b: byte): nat
  {
    var x0 := b as int; var x1 := x0 / 2; var x2 := x1 / 2; var x3 := x2 / 2; var x4 := x3 / 2;
    var x5 := x4 / 2; var x6 := x5 / 2; var x7 := x6 / 2;
    Weight(x0 % 2 == 1, 1) + Weight(x1 % 2 == 1, 2) + Weight(x2 % 2 == 1, 4) + Weight(x3 % 2 == 1, 8) +
    Weight(x4 % 2 == 1, 16) + Weight(x5 % 2 == 1, 32) + Weight(x6 % 2 == 1, 64) + Weight(x7 % 2 == 1, 128)
  }

  /** A byte is the sum of its binary digits. */
  lemma DigitSum(x0: nat)
    requires x0 < 256
    ensures var x1 := x0 / 2; var x2 := x1 / 2; var x3 := x2 / 2; var x4 := x3 / 2;
      var x5 := x4 / 2; var x6 := x5 / 2; var x7 := x6 / 2;
      x0 == x0 % 2 + 2 * (x1 % 2) + 4 * (x2 % 2) + 8 * (x3 % 2) +
        16 * (x4 % 2) + 32 * (x5 % 2) + 64 * (x6 % 2) + 128 * (x7 % 2)
  {
    var x1 := x0 / 2; var x2 := x1 / 2; var x3 := x2 / 2; var x4 := x3 / 2;
    var x5 := x4 / 2; var x6 := x5 / 2; var x7 := x6 / 2;
    assert x6 == x6 % 2 + 2 * (x7 % 2);
    assert x5 == x5 % 2 + 2 * x6;
    assert x4 == x4 % 2 + 2 * x5;
    assert x3 == x3 % 2 + 2 * x4;
    assert x2 == x2 % 2 + 2 * x3;
    assert x1 == x1 % 2 + 2 * x2;
    assert x0 == x0 % 2 + 2 * x1;
  }

  lemma DigitWeight(x: nat)
    ensures Weight(x % 2 == 1, 1) == x % 2 && Weight(x % 2 == 1, 2) == 2 * (x % 2)
    ensures Weight(x % 2 == 1, 4) == 4 * (x % 2) && Weight(x % 2 == 1, 8) == 8 * (x % 2)
    ensures Weight(x % 2 == 1, 16) == 16 * (x % 2) && Weight(x % 2 == 1, 32) == 32 * (x % 2)
    ensures Weight(x % 2 == 1, 64) == 64 * (x % 2) && Weight(x % 2 == 1, 128) == 128 * (x % 2)
  {
  }

  lemma DigitWeightsValue(b: byte)
    ensures DigitWeights(b) == b as int
  {
    var x0 := b as int;
    var x1 := x0 / 2;
    var x2 := x1 / 2;
    var x3 := x2 / 2;
    var x4 := x3 / 2;
    var x5 := x4 / 2;
    var x6 := x5 / 2;
    var x7 := x6 / 2;
    DigitSum(x0);
    DigitWeight(x0);
    DigitWeight(x1);
    DigitWeight(x2);
    DigitWeight(x3);
    DigitWeight(x4);
    DigitWeight(x5);
    DigitWeight(x6);
    DigitWeight(x7);
  }

  lemma BitsFlat(b: byte)
    ensures Bits(b) == FlatBits(b)
  {
    var x0 := b as nat;
    var x1 := x0 / 2;
    var x2 := x1 / 2;
    var x3 := x2 / 2;
    var x4 := x3 / 2;
    var x5 := x4 / 2;
    var x6 := x5 / 2;
    var x7 := x6 / 2;
    assert DigitBits(x7, 1) == (DigitBits(x7 / 2, 0) << 1) | (if x7 % 2 == 1 then 1 else 0);
    assert DigitBits(x6, 2) == (DigitBits(x7, 1) << 1) | (if x6 % 2 == 1 then 1 else 0);
    assert DigitBits(x5, 3) == (DigitBits(x6, 2) << 1) | (if x5 % 2 == 1 then 1 else 0);
    assert DigitBits(x4, 4) == (DigitBits(x5, 3) << 1) | (if x4 % 2 == 1 then 1 else 0);
    assert DigitBits(x3, 5) == (DigitBits(x4, 4) << 1) | (if x3 % 2 == 1 then 1 else 0);
    assert DigitBits(x2, 6) == (DigitBits(x3, 5) << 1) | (if x2 % 2 == 1 then 1 else 0);
    assert DigitBits(x1, 7) == (DigitBits(x2, 6) << 1) | (if x1 % 2 == 1 then 1 else 0);
    assert DigitBits(x0, 8) == (DigitBits(x1, 7) << 1) | (if x0 % 2 == 1 then 1 else 0);
  }

  lemma BitsValue(b: byte)
    ensures ByteOf(FlatBits(b)) == DigitWeights(b)
  {
    var x0 := b as int;
    var x1 := x0 / 2;
    var x2 := x1 / 2;
    var x3 := x2 / 2;
    var x4 := x3 / 2;
    var x5 := x4 / 2;
    var x6 := x5 / 2;
    var x7 := x6 / 2;
    FlagsValue(x0 % 2 == 1, x1 % 2 == 1, x2 % 2 == 1, x3 % 2 == 1, x4 % 2 == 1, x5 % 2 == 1, x6 % 2 == 1, x7 % 2 == 1);
  }

  /** The bits of a byte stand for that byte. */
  lemma BitsRoundTrip(b: byte)
    ensures ByteOf(Bits(b)) == b as int
  {
    BitsFlat(b);
    BitsValue(b);
    DigitWeightsValue(b);
  }

  lemma BitsInjective(a: byte, b: byte)
    ensures Bits(a) == Bits(b) ==> a == b
  {
    BitsRoundTrip(a);
    BitsRoundTrip(b);
  }

  /** Four bytes as a 32-bit value, least significant first. */
  function Pack(b0: bv8, b1: bv8, b2: bv8, b3: bv8): bv32
  {
    b0 as bv32 | (b1 as bv32 << 8) | (b2 as bv32 << 16) | (b3 as bv32 << 24)
  }

  /** ReadUintFromInput (lines 236-239). The C# adds the shifted bytes as `int` and casts
      the sum to `uint`; the shifted fields do not overlap, so modulo 2^32 the sum is their
      bitwise union. */
  function ReadU32(s: seq<byte>, i: nat): bv32
    requires i + 4 <= |s|
  {
    Pack(Bits(s[i]), Bits(s[i + 1]), Bits(s[i + 2]), Bits(s[i + 3]))
  }

  /** The read is little-endian: byte j of the word is the input byte at i + j. */
  lemma ReadU32Lanes(s: seq<byte>, i: nat)
    requires i + 4 <= |s|
    ensures Lane(ReadU32(s, i), 0) == Bits(s[i]) as bv32 && Lane(ReadU32(s, i), 1) == Bits(s[i + 1]) as bv32
    ensures Lane(ReadU32(s, i), 2) == Bits(s[i + 2]) as bv32 && Lane(ReadU32(s, i), 3) == Bits(s[i + 3]) as bv32
  {
  }

  /** The hash of line 130: `(0x1824429d * dv >> (32 - 14)) & ((1u << 14) - 1)`, the product
      wrapping as a `uint`. It indexes a table of 2^14 entries. */
  function HashIndex(dv: bv32): (h: nat)
    ensures h < 0x4000
  {
    HashLookup(dv, 1)
  }

  /** The hash, reached after `delay` recursive steps; as with DeBruijnLookup, the step
      keeps the 32-bit product out of the proofs that only need the bound. */
  function HashLookup(dv: bv32, delay: nat): (h: nat)
    ensures h < 0x4000
  {
    if delay == 0 then Low14((0x1824429d * dv) >> (32 - 14)) else HashLookup(dv, delay - 1)
  }

  /** `x & ((1u << 14) - 1)`: the low 14 bits. */
  function Low14(x: bv32): (h: nat)
    ensures h < 0x4000
  {
    (x & ((1 << 14) - 1)) as int
  }

  /** A bit position of a 32-bit word. */
  type BitIndex = k: nat | k < 32

  const MultiplyDeBruijnBitPosition: seq<BitIndex> :=
    [0, 1, 28, 2, 29, 14, 24, 3, 30, 22, 20, 15, 25, 17, 4, 8,
     31, 27, 13, 23, 21, 19, 16, 7, 26, 12, 18, 6, 11, 5, 10, 9]

  /** TrailingZeroCountUint32 (lines 246-249). The C# negates `v` as a `long` and truncates
      the product back to `uint`; in 32-bit two's complement both steps give the same low
      32 bits as this `bv32` expression. */
  function TrailingZeroCount(v: bv32): (r: nat)
    ensures r < 32
  {
    DeBruijnLookup(v, 1)
  }

  /** The table lookup, reached after `delay` recursive steps. The one step taken from
      TrailingZeroCount keeps the 32-bit product out of every proof that does not ask for it
      through TrailingZeroCountValue. */
  function DeBruijnLookup(v: bv32, delay: nat): (r: nat)
    ensures r < 32
  {
    if delay == 0 then MultiplyDeBruijnBitPosition[DeBruijnSlot(v & -v)] else DeBruijnLookup(v, delay - 1)
  }

  lemma TrailingZeroCountValue(v: bv32)
    ensures TrailingZeroCount(v) == MultiplyDeBruijnBitPosition[DeBruijnSlot(v & -v)]
  {
    assert TrailingZeroCount(v) == DeBruijnLookup(v, 0);
  }

  /** The table index: the top five bits of the product with the de Bruijn constant. */
  function DeBruijnSlot(x: bv32): (r: nat)
    ensures r < 32
  {
    (((x * 0x077CB531) >> 27) as bv5) as int
  }

  function Bit(k: nat): bv32
    requires k < 32
  {
    1 << k
  }

  predicate HasBit(v: bv32, k: nat)
    requires k < 32
  {
    v & Bit(k) != 0
  }

  predicate ZeroBelow(v: bv32, k: nat)
    requires k < 32
  {
    v & (Bit(k) - 1) == 0
  }

  /** Bit k of v is set and every bit below it is clear. */
  predicate LowestSetBit(v: bv32, k: nat)
  {
    k < 32 && HasBit(v, k) && ZeroBelow(v, k)
  }

  /** `v & -v` isolates the lowest set bit. */
  lemma Isolate(v: bv32, k: nat)
    requires LowestSetBit(v, k)
    ensures v & -v == Bit(k)
  {
    if k == 0 {
    } else if k == 1 {
    } else if k == 2 {
    } else if k == 3 {
    } else if k == 4 {
    } else if k == 5 {
    } else if k == 6 {
    } else if k == 7 {
    } else if k == 8 {
    } else if k == 9 {
    } else if k == 10 {
    } else if k == 11 {
    } else if k == 12 {
    } else if k == 13 {
    } else if k == 14 {
    } else if k == 15 {
    } else if k == 16 {
    } else if k == 17 {
    } else if k == 18 {
    } else if k == 19 {
    } else if k == 20 {
    } else if k == 21 {
    } else if k == 22 {
    } else if k == 23 {
    } else if k == 24 {
    } else if k == 25 {
    } else if k == 26 {
    } else if k == 27 {
    } else if k == 28 {
    } else if k == 29 {
    } else if k == 30 {
    } else {
    }
  }

  lemma TableAt0(k: nat)
    requires 0 <= k < 4
    ensures MultiplyDeBruijnBitPosition[DeBruijnSlot(Bit(k))] == k
  {
    if k == 0 {
      assert Bit(k) == 0x1;
    } else if k == 1 {
      assert Bit(k) == 0x2;
    } else if k == 2 {
      assert Bit(k) == 0x4;
    } else {
      assert Bit(k) == 0x8;
    }
  }

  lemma TableAt4(k: nat)
    requires 4 <= k < 8
    ensures MultiplyDeBruijnBitPosition[DeBruijnSlot(Bit(k))] == k
  {
    if k == 4 {
      assert Bit(k) == 0x10;
    } else if k == 5 {
      assert Bit(k) == 0x20;
    } else if k == 6 {
      assert Bit(k) == 0x40;
    } else {
      assert Bit(k) == 0x80;
    }
  }

  lemma TableAt8(k: nat)
    requires 8 <= k < 12
    ensures MultiplyDeBruijnBitPosition[DeBruijnSlot(Bit(k))] == k
  {
    if k == 8 {
      assert Bit(k) == 0x100;
    } else if k == 9 {
      assert Bit(k) == 0x200;
    } else if k == 10 {
      assert Bit(k) == 0x400;
    } else {
      assert Bit(k) == 0x800;
    }
  }

  lemma TableAt12(k: nat)
    requires 12 <= k < 16
    ensures MultiplyDeBruijnBitPosition[DeBruijnSlot(Bit(k))] == k
  {
    if k == 12 {
      assert Bit(k) == 0x1000;
    } else if k == 13 {
      assert Bit(k) == 0x2000;
    } else if k == 14 {
      assert Bit(k) == 0x4000;
    } else {
      assert Bit(k) == 0x8000;
    }
  }

  lemma TableAt16(k: nat)
    requires 16 <= k < 20
    ensures MultiplyDeBruijnBitPosition[DeBruijnSlot(Bit(k))] == k
  {
    if k == 16 {
      assert Bit(k) == 0x10000;
    } else if k == 17 {
      assert Bit(k) == 0x20000;
    } else if k == 18 {
      assert Bit(k) == 0x40000;
    } else {
      assert Bit(k) == 0x80000;
    }
  }

  lemma TableAt20(k: nat)
    requires 20 <= k < 24
    ensures MultiplyDeBruijnBitPosition[DeBruijnSlot(Bit(k))] == k
  {
    if k == 20 {
      assert Bit(k) == 0x100000;
    } else if k == 21 {
      assert Bit(k) == 0x200000;
    } else if k == 22 {
      assert Bit(k) == 0x400000;
    } else {
      assert Bit(k) == 0x800000;
    }
  }

  lemma TableAt24(k: nat)
    requires 24 <= k < 28
    ensures MultiplyDeBruijnBitPosition[DeBruijnSlot(Bit(k))] == k
  {
    if k == 24 {
      assert Bit(k) == 0x1000000;
    } else if k == 25 {
      assert Bit(k) == 0x2000000;
    } else if k == 26 {
      assert Bit(k) == 0x4000000;
    } else {
      assert Bit(k) == 0x8000000;
    }
  }

  lemma TableAt28(k: nat)
    requires 28 <= k < 32
    ensures MultiplyDeBruijnBitPosition[DeBruijnSlot(Bit(k))] == k
  {
    if k == 28 {
      assert Bit(k) == 0x10000000;
    } else if k == 29 {
      assert Bit(k) == 0x20000000;
    } else if k == 30 {
      assert Bit(k) == 0x40000000;
    } else {
      assert Bit(k) == 0x80000000;
    }
  }

  lemma TableAt(k: nat)
    requires k < 32
    ensures MultiplyDeBruijnBitPosition[DeBruijnSlot(Bit(k))] == k
  {
    if k < 4 {
      TableAt0(k);
    } else if k < 8 {
      TableAt4(k);
    } else if k < 12 {
      TableAt8(k);
    } else if k < 16 {
      TableAt12(k);
    } else if k < 20 {
      TableAt16(k);
    } else if k < 24 {
      TableAt20(k);
    } else if k < 28 {
      TableAt24(k);
    } else {
      TableAt28(k);
    }
  }

  lemma ZeroBelowStep(v: bv32, k: nat)
    requires k < 31 && ZeroBelow(v, k) && !HasBit(v, k)
    ensures ZeroBelow(v, k + 1)
  {
  }

  lemma ZeroBelowTop(v: bv32, k: nat)
    requires v != 0 && k < 32 && ZeroBelow(v, k) && !HasBit(v, k)
    ensures k < 31
  {
  }

  /** A non-zero value whose bits below k are clear has a lowest set bit. */
  lemma {:induction false} LowestFrom(v: bv32, k: nat) returns (j: nat)
    requires v != 0 && k < 32 && ZeroBelow(v, k)
    ensures LowestSetBit(v, j)
    decreases 32 - k
  {
    if HasBit(v, k) {
      j := k;
    } else {
      ZeroBelowTop(v, k);
      ZeroBelowStep(v, k);
      j := LowestFrom(v, k + 1);
    }
  }

  /** The de Bruijn lookup returns the index of the lowest set bit. */
  lemma TrailingZeroCountCorrect(v: bv32)
    requires v != 0
    ensures LowestSetBit(v, TrailingZeroCount(v))
  {
    assert ZeroBelow(v, 0) by {
      assert Bit(0) - 1 == 0;
    }
    var k := LowestFrom(v, 0);
    TrailingZeroCountValue(v);
    Isolate(v, k);
    TableAt(k);
  }

  /** Byte j of a 32-bit value, least significant first. */
  function Lane(v: bv32, j: nat): bv32
    requires j < 4
  {
    if j == 0 then v & 0xFF
    else if j == 1 then (v >> 8) & 0xFF
    else if j == 2 then (v >> 16) & 0xFF
    else v >> 24
  }

  lemma LowestLane0(v: bv32, k: nat)
    requires LowestSetBit(v, k) && k < 8
    ensures Lane(v, 0) != 0
  {
  }

  lemma LowestLane1(v: bv32, k: nat)
    requires LowestSetBit(v, k) && 8 <= k < 16
    ensures Lane(v, 0) == 0 && Lane(v, 1) != 0
  {
  }

  lemma LowestLane2(v: bv32, k: nat)
    requires LowestSetBit(v, k) && 16 <= k < 24
    ensures Lane(v, 0) == 0 && Lane(v, 1) == 0 && Lane(v, 2) != 0
  {
  }

  lemma LowestLane3(v: bv32, k: nat)
    requires LowestSetBit(v, k) && 24 <= k < 32
    ensures Lane(v, 0) == 0 && Lane(v, 1) == 0 && Lane(v, 2) == 0 && Lane(v, 3) != 0
  {
  }

  /** The lanes below the lowest set bit's byte are zero, and that byte is not. */
  lemma LowestLane(v: bv32, k: nat)
    requires LowestSetBit(v, k)
    ensures forall j :: 0 <= j < k / 8 ==> Lane(v, j) == 0
    ensures Lane(v, k / 8) != 0
  {
    if k < 8 {
      LowestLane0(v, k);
    } else if k < 16 {
      LowestLane1(v, k);
    } else if k < 24 {
      LowestLane2(v, k);
    } else {
      LowestLane3(v, k);
    }
  }

  lemma PackXorLane0(x0: bv8, x1: bv8, x2: bv8, x3: bv8, y0: bv8, y1: bv8, y2: bv8, y3: bv8)
    ensures Lane(Pack(x0, x1, x2, x3) ^ Pack(y0, y1, y2, y3), 0) == 0 <==> x0 == y0
  {
  }

  lemma PackXorLane1(x0: bv8, x1: bv8, x2: bv8, x3: bv8, y0: bv8, y1: bv8, y2: bv8, y3: bv8)
    ensures Lane(Pack(x0, x1, x2, x3) ^ Pack(y0, y1, y2, y3), 1) == 0 <==> x1 == y1
  {
  }

  lemma PackXorLane2(x0: bv8, x1: bv8, x2: bv8, x3: bv8, y0: bv8, y1: bv8, y2: bv8, y3: bv8)
    ensures Lane(Pack(x0, x1, x2, x3) ^ Pack(y0, y1, y2, y3), 2) == 0 <==> x2 == y2
  {
  }

  lemma PackXorLane3(x0: bv8, x1: bv8, x2: bv8, x3: bv8, y0: bv8, y1: bv8, y2: bv8, y3: bv8)
    ensures Lane(Pack(x0, x1, x2, x3) ^ Pack(y0, y1, y2, y3), 3) == 0 <==> x3 == y3
  {
  }

  lemma PackEqual(x0: bv8, x1: bv8, x2: bv8, x3: bv8, y0: bv8, y1: bv8, y2: bv8, y3: bv8)
    ensures Pack(x0, x1, x2, x3) == Pack(y0, y1, y2, y3) <==> x0 == y0 && x1 == y1 && x2 == y2 && x3 == y3
  {
    PackXorLane0(x0, x1, x2, x3, y0, y1, y2, y3);
    PackXorLane1(x0, x1, x2, x3, y0, y1, y2, y3);
    PackXorLane2(x0, x1, x2, x3, y0, y1, y2, y3);
    PackXorLane3(x0, x1, x2, x3, y0, y1, y2, y3);
    var v := Pack(x0, x1, x2, x3) ^ Pack(y0, y1, y2, y3);
    if x0 == y0 && x1 == y1 && x2 == y2 && x3 == y3 {
      LanesZero(v);
    }
    XorZeroEqual(Pack(x0, x1, x2, x3), Pack(y0, y1, y2, y3));
  }

  lemma LanesZero(v: bv32)
    requires Lane(v, 0) == 0 && Lane(v, 1) == 0 && Lane(v, 2) == 0 && Lane(v, 3) == 0
    ensures v == 0
  {
  }

  lemma XorZeroEqual(a: bv32, b: bv32)
    ensures a ^ b == 0 <==> a == b
  {
  }

  /** For two different packed words, a quarter of the trailing-zero count of their XOR
      is the index z of the first byte where they differ. */
  lemma PackFirstDifference(x0: bv8, x1: bv8, x2: bv8, x3: bv8, y0: bv8, y1: bv8, y2: bv8, y3: bv8)
    returns (z: nat)
    requires Pack(x0, x1, x2, x3) != Pack(y0, y1, y2, y3)
    ensures z == TrailingZeroCount(Pack(x0, x1, x2, x3) ^ Pack(y0, y1, y2, y3)) / 8
    ensures z < 4
    ensures (z > 0 ==> x0 == y0) && (z > 1 ==> x1 == y1) && (z > 2 ==> x2 == y2)
    ensures (z == 0 ==> x0 != y0) && (z == 1 ==> x1 != y1) && (z == 2 ==> x2 != y2) && (z == 3 ==> x3 != y3)
  {
    var v := Pack(x0, x1, x2, x3) ^ Pack(y0, y1, y2, y3);
    XorZeroEqual(Pack(x0, x1, x2, x3), Pack(y0, y1, y2, y3));
    TrailingZeroCountCorrect(v);
    LowestLane(v, TrailingZeroCount(v));
    PackXorLane0(x0, x1, x2, x3, y0, y1, y2, y3);
    PackXorLane1(x0, x1, x2, x3, y0, y1, y2, y3);
    PackXorLane2(x0, x1, x2, x3, y0, y1, y2, y3);
    PackXorLane3(x0, x1, x2, x3, y0, y1, y2, y3);
    z := TrailingZeroCount(v) / 8;
  }

  /** The four bytes read at i, as a sequence. */
  lemma Quad(s: seq<byte>, i: nat)
    requires i + 4 <= |s|
    ensures s[i..i + 4] == [s[i], s[i + 1], s[i + 2], s[i + 3]]
  {
  }

  /** Two equal reads mean four equal bytes, and back (the comparison of line 133). */
  lemma EqualReads(s: seq<byte>, i: nat, p: nat)
    requires i + 4 <= |s| && p + 4 <= |s|
    ensures ReadU32(s, i) == ReadU32(s, p) <==> s[i..i + 4] == s[p..p + 4]
  {
    PackEqual(Bits(s[i]), Bits(s[i + 1]), Bits(s[i + 2]), Bits(s[i + 3]),
              Bits(s[p]), Bits(s[p + 1]), Bits(s[p + 2]), Bits(s[p + 3]));
    BitsInjective(s[i], s[p]);
    BitsInjective(s[i + 1], s[p + 1]);
    BitsInjective(s[i + 2], s[p + 2]);
    BitsInjective(s[i + 3], s[p + 3]);
    Quad(s, i);
    Quad(s, p);
  }

  /** PackFirstDifference on bytes rather than bit vectors. */
  lemma ByteFirstDifference(x0: byte, x1: byte, x2: byte, x3: byte, y0: byte, y1: byte, y2: byte, y3: byte)
    returns (z: nat)
    requires Pack(Bits(x0), Bits(x1), Bits(x2), Bits(x3)) != Pack(Bits(y0), Bits(y1), Bits(y2), Bits(y3))
    ensures z == TrailingZeroCount(Pack(Bits(x0), Bits(x1), Bits(x2), Bits(x3)) ^ Pack(Bits(y0), Bits(y1), Bits(y2), Bits(y3))) / 8
    ensures z < 4
    ensures (z > 0 ==> x0 == y0) && (z > 1 ==> x1 == y1) && (z > 2 ==> x2 == y2)
    ensures (z == 0 ==> x0 != y0) && (z == 1 ==> x1 != y1) && (z == 2 ==> x2 != y2) && (z == 3 ==> x3 != y3)
  {
    z := PackFirstDifference(Bits(x0), Bits(x1), Bits(x2), Bits(x3), Bits(y0), Bits(y1), Bits(y2), Bits(y3));
    BitsInjective(x0, y0);
    BitsInjective(x1, y1);
    BitsInjective(x2, y2);
    BitsInjective(x3, y3);
  }

  /** Lines 151-155: for two different reads, a quarter of the trailing-zero count of
      their XOR is the number of leading bytes that agree; the byte after them differs. */
  lemma FirstDifference(s: seq<byte>, i: nat, p: nat) returns (z: nat)
    requires i + 4 <= |s| && p + 4 <= |s|
    requires ReadU32(s, i) != ReadU32(s, p)
    ensures z == TrailingZeroCount(ReadU32(s, i) ^ ReadU32(s, p)) / 8 && z < 4
    ensures s[i..i + z] == s[p..p + z] && s[i + z] != s[p + z]
  {
    z := ByteFirstDifference(s[i], s[i + 1], s[i + 2], s[i + 3], s[p], s[p + 1], s[p + 2], s[p + 3]);
    AgreeUpTo(s, i, p, z);
  }

  lemma AgreeUpTo(s: seq<byte>, i: nat, p: nat, z: nat)
    requires i + 4 <= |s| && p + 4 <= |s| && z < 4
    requires (z > 0 ==> s[i] == s[p]) && (z > 1 ==> s[i + 1] == s[p + 1]) && (z > 2 ==> s[i + 2] == s[p + 2])
    requires (z == 0 ==> s[i] != s[p]) && (z == 1 ==> s[i + 1] != s[p + 1])
    requires (z == 2 ==> s[i + 2] != s[p + 2]) && (z == 3 ==> s[i + 3] != s[p + 3])
    ensures s[i..i + z] == s[p..p + z] && s[i + z] != s[p + z]
  {
    if z == 1 {
      assert s[i..i + z] == [s[i]] && s[p..p + z] == [s[p]];
    } else if z == 2 {
      assert s[i..i + z] == [s[i], s[i + 1]] && s[p..p + z] == [s[p], s[p + 1]];
    } else if z == 3 {
      assert s[i..i + z] == [s[i], s[i + 1], s[i + 2]] && s[p..p + z] == [s[p], s[p + 1], s[p + 2]];
    }
  }

}

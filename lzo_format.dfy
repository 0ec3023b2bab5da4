/** Byte-level building blocks of the LZO1X-1 wire format as MiniLZO.cs writes and reads it:
    the length escape, the literal-run header, the three match record layouts, and the
    decoder-side arithmetic that recovers each field. Every record has a round-trip lemma. */
module LzoFormat {

  /** An element of a C# `byte[]`. */
  newtype byte = x: int | 0 <= x < 256

  function Pow2(w: nat): nat { if w == 0 then 1 else 2 * Pow2(w - 1) }

  /** The two field widths the tags use: 3 bits below the far tag bit, 5 below a length. */
  lemma FieldWidths()
    ensures Pow2(3) == 8 && Pow2(5) == 32
  {
  }

  /** Bitwise OR of two naturals, one binary digit at a time. */
  function OrNat(a: nat, b: nat): nat
    decreases a + b
  {
    if a == 0 then b
    else if b == 0 then a
    else 2 * OrNat(a / 2, b / 2) + (if a % 2 == 1 || b % 2 == 1 then 1 else 0)
  }

  /** OR of two w-bit values is a w-bit value. */
  lemma {:induction false} OrNatBound(a: nat, b: nat, w: nat)
    requires a < Pow2(w) && b < Pow2(w)
    ensures OrNat(a, b) < Pow2(w)
    decreases w
  {
    if a != 0 && b != 0 {
      OrNatBound(a / 2, b / 2, w - 1);
    }
  }

  /** The C# `|` on two bytes. */
  function Or(a: byte, b: byte): byte
  {
    OrNatBound(a as nat, b as nat, 8);
    OrNat(a as nat, b as nat) as byte
  }

  datatype Option<T> = None | Some(value: T)

  const EndMarker: seq<byte> := [17, 0, 0]

  function Max(a: int, b: int): int { if a < b then b else a }

  function Min(a: int, b: int): int { if a < b then a else b }

  /** C#'s unchecked `uint` arithmetic: the value modulo 2^32. */
  function U32(x: int): (r: nat)
    ensures r < 0x1_0000_0000
    ensures 0 <= x < 0x1_0000_0000 ==> r == x
  {
    x % 0x1_0000_0000
  }

  /** The bytes WriteLengthLong(n) appends (lines 219-227): a zero for every 255 taken off
      while n > 255, then the remainder as one byte. */
  function LongLength(n: nat): seq<byte>
    requires n <= 0x1_0000_0000
    decreases n
  {
    if n > 255 then [0] + LongLength(n - 255) else [n as byte]
  }

  /** The escape is zero bytes ended by one byte in 1..255, which is why ReadLength can
      find its end. */
  lemma {:induction false} LongLengthShape(n: nat)
    requires 1 <= n <= 0x1_0000_0000
    ensures forall i :: 0 <= i < |LongLength(n)| - 1 ==> LongLength(n)[i] == 0
    ensures LongLength(n)[|LongLength(n)| - 1] != 0
    ensures |LongLength(n)| * 255 >= n
    decreases n
  {
    if n > 255 {
      LongLengthShape(n - 255);
    }
  }

  /** The escape of n >= 1 is (n - 1) / 255 zero bytes and then the byte (n - 1) % 255 + 1. */
  lemma {:induction false} LongLengthCount(n: nat)
    requires 1 <= n <= 0x1_0000_0000
    ensures |LongLength(n)| == (n - 1) / 255 + 1
    ensures LongLength(n)[|LongLength(n)| - 1] as int == (n - 1) % 255 + 1
    decreases n
  {
    if n > 255 {
      LongLengthCount(n - 255);
      assert (n - 1) / 255 == (n - 256) / 255 + 1 && (n - 1) % 255 == (n - 256) % 255;
    }
  }

  /** What ReadLength returns: the accumulated (wrapped) length and the cursor after the
      byte that ended it. */
  datatype LengthRead = LengthRead(value: nat, next: nat)

  /** ReadLength (lines 381-398) from cursor ip with the running total acc: adds 255 per zero
      byte, stops after the first non-zero byte and adds it, wrapping as a `uint`. None when
      the input ends first, where the C# indexer throws. */
  function ReadLength(input: seq<byte>, ip: nat, acc: nat): (r: Option<LengthRead>)
    decreases |input| - ip
    ensures r.Some? ==> ip < r.value.next <= |input| && r.value.value < 0x1_0000_0000
    ensures r.Some? ==> input[r.value.next - 1] != 0
  {
    if ip >= |input| then None
    else if input[ip] == 0 then ReadLength(input, ip + 1, U32(acc + 255))
    else Some(LengthRead(U32(acc + input[ip] as int), ip + 1))
  }

  lemma U32Exact(x: int)
    requires 0 <= x < 0x1_0000_0000
    ensures U32(x) == x
  {
  }

  /** Wrapping after every addition is the same as wrapping once at the end. */
  lemma U32Add(x: int, y: int)
    ensures U32(U32(x) + y) == U32(x + y)
  {
    var q := x / 0x1_0000_0000;
    assert x == q * 0x1_0000_0000 + U32(x);
    assert (U32(x) + y) - (x + y) == -q * 0x1_0000_0000;
  }

  lemma SliceOfSlice(s: seq<byte>, p: nat, n: nat, i: nat, j: nat)
    requires p + n <= |s| && i <= j <= n
    ensures s[p..p + n][i..j] == s[p + i..p + j]
  {
    var u := s[p..p + n][i..j];
    assert forall x :: 0 <= x < |u| ==> u[x] == s[p + i + x];
  }

  predicate BytesAt(input: seq<byte>, p: nat, w: seq<byte>)
  {
    p + |w| <= |input| && input[p..p + |w|] == w
  }

  /** Long-length round trip: ReadLength over exactly the bytes of LongLength(n) returns n
      (plus the running total) and consumes all of them. */
  lemma {:induction false} ReadLongLength(input: seq<byte>, p: nat, acc: nat, n: nat)
    requires 1 <= n <= 0x1_0000_0000
    requires BytesAt(input, p, LongLength(n))
    ensures ReadLength(input, p, acc) == Some(LengthRead(U32(acc + n), p + |LongLength(n)|))
    decreases n
  {
    assert input[p] == LongLength(n)[0];
    if n > 255 {
      assert BytesAt(input, p + 1, LongLength(n - 255)) by {
        assert input[p + 1..p + 1 + |LongLength(n - 255)|] == LongLength(n)[1..];
      }
      ReadLongLength(input, p + 1, U32(acc + 255), n - 255);
      U32Add(acc + 255, n - 255);
    }
  }

  /** The header WriteLength (lines 203-217) puts before a literal run of t >= 4 bytes. */
  function LiteralHeader(t: nat): seq<byte>
    requires 4 <= t <= 0x1_0000_0000
  {
    if t <= 18 then [(t - 3) as byte] else [0] + LongLength(t - 18)
  }

  /** How the decoder reads a literal-run header at p (lines 296-299): a byte 1..15 is the
      header value t itself; a zero is followed by a long escape and gives 15 + ReadLength().
      Returns t and the cursor after the header; the run then has 4 + t - 1 literals. */
  function LiteralRunLength(input: seq<byte>, p: nat): (r: Option<LengthRead>)
    requires p < |input| && input[p] as int < 16
    ensures r.Some? ==> p < r.value.next <= |input|
  {
    if input[p] != 0 then Some(LengthRead(input[p] as int, p + 1))
    else match ReadLength(input, p + 1, 0)
      case None => None
      case Some(lr) => Some(LengthRead(U32(15 + lr.value), lr.next))
  }

  /** Literal-run length round trip: the header's first byte is below 16, and the decoder
      consumes exactly the header and recovers the run length t as 4 + value - 1. */
  lemma ReadLiteralHeader(input: seq<byte>, p: nat, t: nat)
    requires 4 <= t < 0x8000_0000
    requires BytesAt(input, p, LiteralHeader(t))
    ensures input[p] as int < 16
    ensures LiteralRunLength(input, p).Some?
    ensures LiteralRunLength(input, p).value.next == p + |LiteralHeader(t)|
    ensures U32(4 + LiteralRunLength(input, p).value.value - 1) == t
  {
    var h := LiteralHeader(t);
    assert input[p] == input[p..p + |h|][0] == h[0];
    if t > 18 {
      var w := LongLength(t - 18);
      BytesAtTail(input, p, h, 1);
      assert h[1..] == w;
      ReadLongLength(input, p + 1, 0, t - 18);
      U32Exact(15 + (t - 18));
      U32Exact(4 + (t - 3) - 1);
    } else {
      assert input[p] as int == t - 3;
      U32Exact(4 + (t - 3) - 1);
    }
  }

  /** The low byte of a match offset: `(byte)(off << 2)`. */
  function OffsetLow(off: nat): byte { ((off * 4) % 256) as byte }

  lemma OffsetLowFields(off: nat)
    ensures OffsetLow(off) as int == (off % 64) * 4
    ensures OffsetLow(off) as int % 4 == 0
  {
    var q := off / 64;
    assert off == q * 64 + off % 64;
    assert off * 4 == q * 256 + (off % 64) * 4;
  }

  /** Short layout (lines 164-169): distance up to 0x800, length 3..8, two bytes. */
  function ShortMatch(d: nat, l: nat): seq<byte>
    requires 1 <= d <= 0x800 && 3 <= l <= 8
  {
    var off := d - 1;
    [((l - 1) * 32 + (off % 8) * 4) as byte, (off / 8) as byte]
  }

  /** 32..63 layout (lines 170-183): distance up to 0x4000; the length is inline up to 33,
      otherwise the tag is 32 and a long escape of length - 33 follows. */
  function MediumMatch(d: nat, l: nat): seq<byte>
    requires 1 <= d <= 0x4000 && 3 <= l <= 0x1_0000_0000
  {
    var off := d - 1;
    (if l <= 33 then [(32 + (l - 2)) as byte] else [32 as byte] + LongLength(l - 33))
      + [OffsetLow(off), (off / 64) as byte]
  }

  /** Bit 14 of the far offset, which the encoder moves into bit 3 of the tag
      (`(off >> 11) & 8`). */
  function FarHighBit(off: nat): nat { (off / 0x4000) % 2 }

  /** 16..31 layout (lines 184-197): offset d - 0x4000, bit 14 of it in the tag, the low
      14 bits in the two trailing bytes; inline length up to 9, else a long escape of
      length - 9. The `(byte)` casts keep the low eight bits. */
  function FarMatch(d: nat, l: nat): seq<byte>
    requires 0x4000 < d && 3 <= l <= 0x1_0000_0000
  {
    var off := d - 0x4000;
    (if l <= 9 then [(16 + FarHighBit(off) * 8 + (l - 2)) as byte]
     else [(16 + FarHighBit(off) * 8) as byte] + LongLength(l - 9))
      + [OffsetLow(off), ((off / 64) % 256) as byte]
  }

  /** The record the compressor emits for a match (lines 164-197). Its first byte selects the
      layout the decoder takes, and the byte two from its end has its low two bits clear,
      ready for the trailing-literal count. */
  function MatchRecord(d: nat, l: nat): (r: seq<byte>)
    requires 1 <= d && 3 <= l <= 0x1_0000_0000
    ensures |r| >= 2 && r[|r| - 2] as int % 4 == 0
    ensures l <= 8 && d <= 0x800 ==> |r| == 2 && r[0] as int >= 64
    ensures !(l <= 8 && d <= 0x800) && d <= 0x4000 ==> 32 <= r[0] as int < 64
    ensures d > 0x4000 ==> 16 <= r[0] as int < 32
  {
    if l <= 8 && d <= 0x800 then ShortMatch(d, l)
    else if d <= 0x4000 then
      OffsetLowFields(d - 1);
      MediumMatch(d, l)
    else
      OffsetLowFields(d - 0x4000);
      FarMatch(d, l)
  }

  /** WriteLength of a trailing run of k <= 3 literals ORs k into the byte two back (line 208). */
  function WithTrail(rec: seq<byte>, k: nat): (r: seq<byte>)
    requires |rec| >= 2 && k < 4
    ensures |r| == |rec| && r[..|r| - 2] == rec[..|rec| - 2] && r[|r| - 1] == rec[|rec| - 1]
  {
    rec[|rec| - 2 := Or(rec[|rec| - 2], k as byte)]
  }

  /** ORing k < 4 into a byte whose low two bits are clear adds k, and `& 3`, the
      remainder modulo 4, reads it back. */
  lemma OrLowBits(x: byte, k: nat)
    requires x as int % 4 == 0 && k < 4
    ensures Or(x, k as byte) as int == x as int + k
    ensures Or(x, k as byte) as int % 4 == k
  {
    var n: nat := x as int;
    OrNatLow(n, k);
  }

  lemma OrNatLow(n: nat, k: nat)
    requires n % 4 == 0 && k < 4
    ensures OrNat(n, k) == n + k
  {
    if n != 0 && k != 0 {
      var h := n / 2;
      assert n == 2 * h && h % 2 == 0;
      assert OrNat(n, k) == 2 * OrNat(h, k / 2) + k % 2;
      if k / 2 == 1 {
        assert OrNat(h, 1) == 2 * OrNat(h / 2, 0) + 1;
      }
    }
  }

  // ---- decoder-side field arithmetic (lines 321-367) ----

  /** ReadUshortFromInput (lines 418-421): little-endian 16-bit value. */
  function UShort(lo: byte, hi: byte): nat { lo as int + hi as int * 256 }

  /** Tag >= 64: the distance `1 + ((t >> 2) & 7) + (b << 3)` (lines 323-325). */
  function ShortDistance(t: nat, b: byte): nat { 1 + (t / 4) % 8 + b as int * 8 }

  /** Tag >= 64: bytes copied, `Max(3, ((t >> 5) - 1) + 2)` (lines 326-328). */
  function ShortCount(t: nat): int { Max(3, t / 32 - 1 + 2) }

  /** Tag 32..63: the distance `1 + (ushort >> 2)` (line 337). */
  function MediumDistance(u: nat): nat { 1 + u / 4 }

  /** Tag 16..31: what line 345 subtracts from the output cursor before the end-marker test,
      computed from the already masked `t` (`(t & 8) << 11`) and the ushort. */
  function FarBackOffset(t: nat, u: nat): nat { (t / 8) % 2 * 0x4000 + u / 4 }

  /** Lines 359-366: the number of bytes a 32..63 or 16..31 match copies from the decoded `t`
      and the distance `op - m`. */
  function CopyCount(t: nat, dist: int): nat
  {
    if t >= 6 && dist >= 4 then U32(t + 2) else Max(3, U32(t + 2))
  }

  lemma Div4Unique(x: int, q: int, r: int)
    requires x == q * 4 + r && 0 <= r < 4
    ensures x / 4 == q
  {
  }

  lemma Mod4000Unique(x: int, q: int, r: int)
    requires x == q * 0x4000 + r && 0 <= r < 0x4000
    ensures x % 0x4000 == r
  {
  }

  /** The length field of a 32..63 (mask 32) or 16..31 (mask 8) match after its tag
      (lines 334-335 and 342-343): the tag's low bits, or, when they are zero,
      mask - 1 + ReadLength(). Returns the decoded `t` (the length less two) and the cursor. */
  function MatchLengthField(input: seq<byte>, ip: nat, tag: nat, mask: nat): (r: Option<LengthRead>)
    requires mask == 32 || mask == 8
    requires ip <= |input|
    ensures r.Some? ==> ip <= r.value.next <= |input|
  {
    var t := tag % mask;
    if t != 0 then Some(LengthRead(t, ip))
    else match ReadLength(input, ip, 0)
      case None => None
      case Some(lr) => Some(LengthRead(U32(mask - 1 + lr.value), lr.next))
  }

  /** The two bytes that end a record, with k ORed into the first: the ushort they form
      carries the offset's low 14 bits above the two-bit count k. */
  lemma OffsetTail(input: seq<byte>, q: nat, off: nat, hi: byte, k: nat)
    requires q + 1 < |input| && k < 4
    requires input[q] == Or(OffsetLow(off), k as byte) && input[q + 1] == hi
    requires hi as int == (off / 64) % 256
    ensures input[q] as int % 4 == k
    ensures UShort(input[q], input[q + 1]) / 4 == off % 0x4000
  {
    OffsetLowFields(off);
    OrLowBits(OffsetLow(off), k);
    var a, b := off % 64, (off / 64) % 256;
    var u := UShort(input[q], input[q + 1]);
    assert u == 4 * (a + 64 * b) + k;
    Div4Unique(u, a + 64 * b, k);
    var q64 := off / 64;
    assert off == a + 64 * q64;
    assert q64 == b + 256 * (q64 / 256);
    assert off == (a + 64 * b) + 0x4000 * (q64 / 256);
    Mod4000Unique(off, q64 / 256, a + 64 * b);
  }

  /** Short layout round trip, whatever trailing-literal count k is ORed into the tag. */
  lemma ShortRoundTrip(d: nat, l: nat, k: nat)
    requires 1 <= d <= 0x800 && 3 <= l <= 8 && k < 4
    ensures var r := WithTrail(ShortMatch(d, l), k);
      r[0] as int >= 64 && ShortDistance(r[0] as int, r[1]) == d &&
      ShortCount(r[0] as int) == l && r[0] as int % 4 == k
  {
    var off := d - 1;
    var x := ShortMatch(d, l)[0];
    assert x as int == (l - 1) * 32 + (off % 8) * 4;
    OrLowBits(x, k);
    var y := Or(x, k as byte) as int;
    assert y == (l - 1) * 32 + (off % 8) * 4 + k;
    assert y / 32 == l - 1;
    assert (y / 4) % 8 == off % 8;
    assert off == off % 8 + (off / 8) * 8;
  }

  /** A record with k ORed into the byte two from its end, laid out at p:
      its head is intact, the byte two back carries k, the last byte is intact. */
  lemma TrailedRecordAt(input: seq<byte>, p: nat, rec: seq<byte>, k: nat)
    requires |rec| >= 2 && k < 4
    requires BytesAt(input, p, WithTrail(rec, k))
    ensures BytesAt(input, p, rec[..|rec| - 2])
    ensures input[p + |rec| - 2] == Or(rec[|rec| - 2], k as byte)
    ensures input[p + |rec| - 1] == rec[|rec| - 1]
  {
    var n := |rec|;
    var w := WithTrail(rec, k);
    assert input[p..p + n] == w;
    assert input[p + n - 2] == w[n - 2];
    assert input[p + n - 1] == w[n - 1];
    SliceOfSlice(input, p, n, 0, n - 2);
    assert input[p..p + n - 2] == w[..n - 2];
  }

  lemma BytesAtTail(input: seq<byte>, p: nat, w: seq<byte>, i: nat)
    requires BytesAt(input, p, w) && i <= |w|
    ensures BytesAt(input, p + i, w[i..])
  {
    SliceOfSlice(input, p, |w|, i, |w|);
  }

  /** The two bytes that end a 32..63 record hold the offset d - 1, and the decoder's
      distance 1 + (ushort >> 2) gives d back from its low 14 bits. */
  lemma MediumOffsetBytes(d: nat, l: nat)
    requires 1 <= d <= 0x4000 && 3 <= l < 0x8000_0000
    ensures var r := MediumMatch(d, l);
      |r| >= 3 && r[|r| - 2] == OffsetLow(d - 1) && r[|r| - 1] as int == ((d - 1) / 64) % 256
  {
    var off := d - 1;
    assert off / 64 < 256;
    var r := MediumMatch(d, l);
    var tail := [OffsetLow(off), (off / 64) as byte];
    assert r[|r| - 2..] == tail;
    assert r[|r| - 2] == tail[0] && r[|r| - 1] == tail[1];
  }

  /** The decoder's distance 1 + (ushort >> 2) gives d back from the low 14 bits of d - 1. */
  lemma MediumDistanceBack(d: nat)
    requires 1 <= d <= 0x4000
    ensures MediumDistance((d - 1) % 0x4000 * 4) == d
  {
    var off := d - 1;
    assert off % 0x4000 == off;
    Div4Unique(off * 4, off, 0);
  }

  /** 32..63 layout round trip: the masked tag (or 31 + ReadLength) plus 2 is the length,
      1 + (ushort >> 2) is the distance, and the count copied is the length. */
  lemma MediumRoundTrip(input: seq<byte>, p: nat, d: nat, l: nat, k: nat)
    requires 1 <= d <= 0x4000 && 3 <= l < 0x8000_0000 && k < 4
    requires BytesAt(input, p, WithTrail(MediumMatch(d, l), k))
    ensures 32 <= input[p] as int < 64
    ensures var n := |MediumMatch(d, l)|;
      input[p + n - 2] as int % 4 == k &&
      MediumDistance(UShort(input[p + n - 2], input[p + n - 1])) == d
    ensures p + |MediumMatch(d, l)| <= |input| &&
      MatchLengthField(input, p + 1, input[p] as int, 32) == Some(LengthRead(l - 2, p + |MediumMatch(d, l)| - 2))
    ensures CopyCount(l - 2, d) == l
  {
    var rec := MediumMatch(d, l);
    var n := |rec|;
    TrailedRecordAt(input, p, rec, k);
    assert input[p] == rec[0];
    MediumOffsetBytes(d, l);
    MediumDistanceBack(d);
    OffsetTail(input, p + n - 2, d - 1, rec[n - 1], k);
    MediumTag(d, l);
    LengthFieldRoundTrip(input, p, rec[..n - 2], 32, l);
    CopyCountExact(d, l);
  }

  /** When the 16..31 layout, as the decoder is written, recovers the distance: the decoder
      masks `t &= 7` before testing bit 3, so bit 14 of the offset is read back as bit 3 of
      the inline length field (always clear) or of `7 + ReadLength()`. */
  predicate FarRoundTrips(d: nat, l: nat)
  {
    0x4000 < d < 0xC000 &&
    (if l <= 9 then FarHighBit(d - 0x4000) == 0 else ((l - 2) / 8) % 2 == FarHighBit(d - 0x4000))
  }

  /** The back offset the decoder computes from a 16..31 record for (d, l). */
  function FarDecodedOffset(d: nat, l: nat): nat
    requires 0x4000 < d < 0xC000 && 3 <= l
  {
    var off := d - 0x4000;
    FarBackOffset(l - 2, off % 0x4000 * 4)
  }

  /** 16..31 layout round trip, exactly as written: the decoder's back offset equals
      d - 0x4000 (so the distance is d and the end-marker test fails) if and only if
      FarRoundTrips(d, l). */
  lemma FarRoundTripIff(d: nat, l: nat)
    requires 0x4000 < d < 0xC000 && 3 <= l
    ensures FarDecodedOffset(d, l) == d - 0x4000 <==> FarRoundTrips(d, l)
  {
    var off := d - 0x4000;
    assert off == FarHighBit(off) * 0x4000 + off % 0x4000;
    if l <= 9 {
      assert (l - 2) / 8 % 2 == 0;
    }
  }

  lemma FarOffsetBytes(d: nat, l: nat)
    requires 0x4000 < d < 0xC000 && 3 <= l < 0x8000_0000
    ensures var r := FarMatch(d, l);
      |r| >= 3 && r[|r| - 2] == OffsetLow(d - 0x4000) && r[|r| - 1] as int == ((d - 0x4000) / 64) % 256
  {
  }

  /** The 16..31 layout read back from the bytes, as written: the decoded `t` is l - 2, the
      ushort carries the offset's low 14 bits, and the count copied is l. */
  lemma FarRoundTrip(input: seq<byte>, p: nat, d: nat, l: nat, k: nat)
    requires 0x4000 < d < 0xC000 && 3 <= l < 0x8000_0000 && k < 4
    requires BytesAt(input, p, WithTrail(FarMatch(d, l), k))
    ensures 16 <= input[p] as int < 32
    ensures var n := |FarMatch(d, l)|;
      input[p + n - 2] as int % 4 == k &&
      UShort(input[p + n - 2], input[p + n - 1]) / 4 == (d - 0x4000) % 0x4000
    ensures p + |FarMatch(d, l)| <= |input| &&
      MatchLengthField(input, p + 1, input[p] as int, 8) == Some(LengthRead(l - 2, p + |FarMatch(d, l)| - 2))
    ensures CopyCount(l - 2, d) == l
  {
    var rec := FarMatch(d, l);
    var n := |rec|;
    TrailedRecordAt(input, p, rec, k);
    assert input[p] == rec[0];
    FarOffsetBytes(d, l);
    OffsetTail(input, p + n - 2, d - 0x4000, rec[n - 1], k);
    FarTag(d, l);
    LengthFieldRoundTrip(input, p, rec[..n - 2], 8, l);
    CopyCountExact(d, l);
  }

  /** A tag and its optional long escape, laid out at p, give back length l - 2 through
      MatchLengthField. */
  lemma LengthFieldRoundTrip(input: seq<byte>, p: nat, head: seq<byte>, mask: nat, l: nat)
    requires (mask == 32 || mask == 8) && 3 <= l < 0x8000_0000
    requires |head| >= 1 && BytesAt(input, p, head)
    requires l <= mask + 1 ==> |head| == 1 && head[0] as int % mask == l - 2
    requires l > mask + 1 ==> head[0] as int % mask == 0 && head[1..] == LongLength(l - mask - 1)
    ensures MatchLengthField(input, p + 1, head[0] as int, mask) == Some(LengthRead(l - 2, p + |head|))
  {
    assert input[p] == input[p..p + |head|][0];
    if l > mask + 1 {
      BytesAtTail(input, p, head, 1);
      ReadLongLength(input, p + 1, 0, l - mask - 1);
      U32Exact(mask - 1 + (l - mask - 1));
    }
  }

  lemma CopyCountExact(d: nat, l: nat)
    requires 3 <= l < 0x8000_0000
    ensures CopyCount(l - 2, d) == l
  {
    U32Exact(l);
  }

  lemma MediumTag(d: nat, l: nat)
    requires 1 <= d <= 0x4000 && 3 <= l < 0x8000_0000
    ensures 32 <= MediumMatch(d, l)[0] as int < 64
    ensures l <= 33 ==> |MediumMatch(d, l)| == 3 && MediumMatch(d, l)[0] as int % 32 == l - 2
    ensures l > 33 ==> MediumMatch(d, l)[0] as int % 32 == 0
  {
  }

  lemma FarTag(d: nat, l: nat)
    requires 0x4000 < d < 0xC000 && 3 <= l < 0x8000_0000
    ensures 16 <= FarMatch(d, l)[0] as int < 32
    ensures l <= 9 ==> |FarMatch(d, l)| == 3 && FarMatch(d, l)[0] as int % 8 == l - 2
    ensures l > 9 ==> FarMatch(d, l)[0] as int % 8 == 0
  {
    var h := FarHighBit(d - 0x4000);
    assert h == 0 || h == 1;
  }

  /** Three concrete 16..31 records the decoder, as written, gets wrong: an inline length
      with bit 14 of the offset set, distance 0x8000 read as the end marker, and a long
      length whose bit 3 is set. */
  lemma FarLayoutCounterexamples()
    ensures FarDecodedOffset(0x9000, 5) == 0x1000 && !FarRoundTrips(0x9000, 5)
    ensures FarDecodedOffset(0x8000, 4) == 0 && !FarRoundTrips(0x8000, 4)
    ensures FarDecodedOffset(0x5000, 12) == 0x5000 && !FarRoundTrips(0x5000, 12)
  {
  }
}

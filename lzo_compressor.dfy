/** Lzo1xCompressor (MiniLZO.cs lines 43-250): the compressor as a class over its input, its
    output and its match table, with the two cursors as fields. A ghost field holds the
    records written so far; every method is proved to keep the output's written prefix equal
    to their bytes and their expansion equal to the input read so far, so Compress ends with
    a stream that decompresses to its input. */
module Lzo1xCompression {
  import opened LzoFormat
  import opened LzoBits
  import opened LzoStream
  import opened LzoEncoderProof

  /** An element of a C# `ushort[]`. */
  newtype ushort = x: int | 0 <= x < 0x10000

  /** Line 51 allocates IntPtr.Size * 8192 table slots; in a 64-bit process that is 8 * 8192.
      The hash only ever indexes the first 2^14 of them. */
  const WorkMemorySize: nat := 8 * 8192

  /** Line 75: at most 0xC000 input bytes per call of Lzo1x1CompressCore. */
  const SegmentMax: nat := 0xC000

  /** The C# `(byte)` cast: the low eight bits. */
  function Low8(x: nat): (r: byte)
    ensures r as int == x % 256
  {
    (x % 256) as byte
  }

  /** `(off >> 11) & 8`, the far layout's tag bit (lines 188 and 192): bit 3 of off / 2048. */
  function FarTagBit(off: nat): nat
  {
    (off / 2048) / 8 % 2 * 8
  }

  /** The bytes lines 166-168 write are ShortMatch: the two fields of the first byte do not
      overlap, so `|` adds them, and every value already fits a byte. */
  lemma ShortMatchBytes(d: nat, l: nat)
    requires 1 <= d <= 0x800 && 3 <= l <= 8
    ensures ShortMatch(d, l) == [Low8(OrNat((l - 1) * 32, ((d - 1) % 8) * 4)), Low8((d - 1) / 8)]
  {
    ShortTag(d - 1, l);
    Low8Small((d - 1) / 8);
  }

  /** `((l - 1) << 5) | ((off & 7) << 2)`, line 166. */
  lemma ShortTag(off: nat, l: nat)
    requires 3 <= l <= 8
    ensures Low8(OrNat((l - 1) * 32, (off % 8) * 4)) == ((l - 1) * 32 + (off % 8) * 4) as byte
  {
    FieldWidths();
    OrDisjoint(l - 1, (off % 8) * 4, 5);
    assert (l - 1) * Pow2(5) == (l - 1) * 32 <= 224;
    Low8Small((l - 1) * 32 + (off % 8) * 4);
  }

  /** The two offset bytes lines 179-180 write are MediumMatch's last two. */
  lemma MediumOffsetWritten(off: nat)
    requires off < 0x4000
    ensures [Low8(off * 4), Low8(off / 64)] == [OffsetLow(off), (off / 64) as byte]
  {
  }

  /** The bytes lines 172-173 and 179-180 write for an inline length are MediumMatch. */
  lemma MediumInlineMatchBytes(d: nat, l: nat)
    requires 1 <= d <= 0x4000 && 3 <= l <= 33
    ensures MediumMatch(d, l) == [Low8(OrNat(32, l - 2))] + [Low8((d - 1) * 4), Low8((d - 1) / 64)]
  {
    MediumOffsetWritten(d - 1);
    MediumInlineTag(l);
  }

  /** `32 | (l - 2)` for an inline length l <= 33. */
  lemma MediumInlineTag(l: nat)
    requires 3 <= l <= 33
    ensures Low8(OrNat(32, l - 2)) == (32 + (l - 2)) as byte
  {
    FieldWidths();
    OrDisjoint(1, l - 2, 5);
    assert 1 * Pow2(5) == 32;
    assert OrNat(32, l - 2) == 32 + (l - 2);
    Low8Small(32 + (l - 2));
  }

  /** `(byte)` of a value that fits. */
  lemma Low8Small(x: nat)
    requires x < 256
    ensures Low8(x) == x as byte
  {
  }

  /** The bytes lines 175-180 write for a long length are MediumMatch. */
  lemma MediumLongMatchBytes(d: nat, l: nat)
    requires 1 <= d <= 0x4000 && 33 < l <= 0x1_0000_0000
    ensures MediumMatch(d, l) == [32 as byte] + LongLength(l - 33) + [Low8((d - 1) * 4), Low8((d - 1) / 64)]
  {
    MediumOffsetWritten(d - 1);
  }

  /** `(off >> 11) & 8` is bit 14 of the offset moved to bit 3. */
  lemma FarTagBitIsHighBit(off: nat)
    ensures FarTagBit(off) == FarHighBit(off) * 8
  {
    var q := off / 2048;
    assert off == q * 2048 + off % 2048;
    assert off / 0x4000 == q / 8;
  }

  /** `16 | ((off >> 11) & 8)` is 16 plus the tag bit. */
  lemma FarTagOr(off: nat)
    ensures OrNat(16, FarTagBit(off)) == 16 + FarTagBit(off)
  {
    if FarTagBit(off) != 0 {
      assert FarTagBit(off) == 8;
      assert OrNat(16, 8) == 2 * OrNat(8, 4);
      assert OrNat(8, 4) == 2 * OrNat(4, 2);
      assert OrNat(4, 2) == 2 * OrNat(2, 1);
      assert OrNat(2, 1) == 2 * OrNat(1, 0) + 1;
    }
  }

  /** The two offset bytes lines 194-195 write are FarMatch's last two. */
  lemma FarOffsetWritten(off: nat)
    ensures [Low8(off * 4), Low8(off / 64)] == [OffsetLow(off), ((off / 64) % 256) as byte]
  {
  }

  /** The bytes lines 186-189 and 194-195 write for an inline length are FarMatch. */
  lemma FarInlineMatchBytes(d: nat, l: nat)
    requires 0x4000 < d && 3 <= l <= 9
    ensures var off := d - 0x4000;
      FarMatch(d, l) == [Low8(OrNat(OrNat(16, FarTagBit(off)), l - 2))] + [Low8(off * 4), Low8(off / 64)]
  {
    var off := d - 0x4000;
    FarInlineTagByte(off, l);
    FarOffsetWritten(off);
  }

  /** The bytes lines 190-195 write for a long length are FarMatch. */
  lemma FarLongMatchBytes(d: nat, l: nat)
    requires 0x4000 < d && 9 < l <= 0x1_0000_0000
    ensures var off := d - 0x4000;
      FarMatch(d, l) ==
      [Low8(OrNat(16, FarTagBit(off)))] + LongLength(l - 9) + [Low8(off * 4), Low8(off / 64)]
  {
    var off := d - 0x4000;
    FarTagBitIsHighBit(off);
    FarTagOr(off);
    FarOffsetWritten(off);
    assert FarHighBit(off) <= 1;
    Low8Small(16 + FarHighBit(off) * 8);
  }

  /** The `(byte)` of the tag for an inline length is the tag byte of FarMatch. */
  lemma FarInlineTagByte(off: nat, l: nat)
    requires 3 <= l <= 9
    ensures Low8(OrNat(OrNat(16, FarTagBit(off)), l - 2)) == (16 + FarHighBit(off) * 8 + (l - 2)) as byte
  {
    FarInlineTag(off, l);
    assert FarHighBit(off) <= 1;
    Low8Small(16 + FarHighBit(off) * 8 + (l - 2));
  }

  /** `16 | ((off >> 11) & 8) | (l - 2)` for an inline length l <= 9. */
  lemma FarInlineTag(off: nat, l: nat)
    requires 3 <= l <= 9
    ensures OrNat(OrNat(16, FarTagBit(off)), l - 2) == 16 + FarHighBit(off) * 8 + (l - 2)
  {
    FarTagBitIsHighBit(off);
    FarTagOr(off);
    var h := FarHighBit(off);
    FieldWidths();
    assert 16 + FarTagBit(off) == (2 + h) * Pow2(3);
    OrDisjoint(2 + h, l - 2, 3);
  }

  /** Lines 150-153: `ReadUintFromInput(i) ^ ReadUintFromInput(j)`, and when it is not zero
      `TrailingZeroCountUint32(v) / 8`. agree is how many of the four bytes at i and j are
      equal before the first that differs (4 when none does, which is when v is zero). */
  method CompareFour(s: seq<byte>, i: nat, j: nat) returns (v: bv32, agree: nat)
    requires i + 4 <= |s| && j + 4 <= |s|
    ensures agree <= 4 && Agree(s, i, j, agree)
    ensures (v == 0) == (agree == 4)
    ensures agree < 4 ==> s[i + agree] != s[j + agree]
  {
    v := ReadU32(s, i) ^ ReadU32(s, j);
    XorZeroEqual(ReadU32(s, i), ReadU32(s, j));
    if v != 0 {
      agree := TrailingZeroCount(v) / 8;
      ghost var z := FirstDifference(s, i, j);
    } else {
      EqualReads(s, i, j);
      agree := 4;
    }
  }

  /** The cursors of the compression loop (lines 113-127): the literals waiting since
      inputPointerTemp - tiLeft, the first tiLeft of them from the previous segment until
      the first match; inputPointer back at inputPointerTemp when it is not to be advanced. */
  predicate Scanning(inputPointerStart: nat, inputPointerTemp: nat, inputPointer: nat, inputPointerEnd: nat,
                     ti: nat, tiLeft: nat, increment: bool, recorded: bool)
  {
    inputPointerStart <= inputPointerTemp <= inputPointer < inputPointerEnd + 8 && tiLeft <= inputPointerTemp &&
    (inputPointerTemp == inputPointerStart ==> tiLeft == ti && inputPointerStart + 4 <= inputPointer + ti && increment) &&
    (inputPointerTemp != inputPointerStart ==> recorded && tiLeft == 0) &&
    (!increment ==> inputPointerTemp == inputPointer)
  }

  /** When WriteLength (lines 203-217) stays inside an output of `capacity` bytes after the
      bytes o: the tag of the last literals needs one byte; the count ORed into the byte two
      back needs two bytes written; the literal-run header needs its own bytes. */
  predicate LengthFits(o: seq<byte>, length: nat, isLastWrite: bool, capacity: nat)
    requires length < MaxRun
  {
    if isLastWrite && |o| == 0 && length <= 238 then capacity >= 1
    else if length <= 3 then |o| >= 2
    else |o| + |LiteralHeader(length)| <= capacity
  }

  /** The compressor ran out of output: `over` are the records written so far with the one
      whose writing failed, a prefix of the input, or the complete stream of the whole input,
      and their bytes do not fit in `capacity`. */
  ghost predicate Overflows(s: seq<byte>, capacity: nat, over: seq<Item>)
  {
    (WellFormed(over) && Expand(over) <= s && |Enc(over)| > capacity) ||
    (StreamItems(over) && Expand(over) == s && |EncodeStream(over)| > capacity)
  }

  /** Literals after the records `items` that do not fit (WriteLength or CopyBytesFromPointer
      would pass the end of the output): the records with the literals appended overflow. */
  lemma LiteralOverflow(s: seq<byte>, capacity: nat, items: seq<Item>, from: nat, t: nat, upTo: nat, isLastWrite: bool)
    returns (over: seq<Item>)
    requires 1 <= t < MaxRun && upTo == from + t <= |s|
    requires WellFormed(items) && Open(items) && Expand(items) == s[..from]
    requires t <= 3 ==> items != []
    requires !(isLastWrite && items == [] && t <= 238)
    requires !(LengthFits(Enc(items), t, isLastWrite, capacity) &&
               |LengthWritten(Enc(items), t, isLastWrite)| + t <= capacity)
    ensures over == WithLiterals(items, s[from..upTo]) && WellFormed(over)
    ensures Enc(over) == LengthWritten(Enc(items), t, isLastWrite) + s[from..upTo]
    ensures Expand(over) == s[..upTo] && Overflows(s, capacity, over)
  {
    assert s[from..from + t] == s[from..upTo] && s[..from + t] == s[..upTo];
    assert s[..upTo] <= s by {
      assert s[..upTo] == s[..|s[..upTo]|];
    }
    over := InputLiteralRecords(s, items, from, t, isLastWrite);
    LiteralsTooLong(Enc(items), t, isLastWrite, capacity);
    assert WellFormed(over) && Expand(over) <= s && |Enc(over)| > capacity;
  }

  /** Where WriteLength does not fit, or the literals after it do not, the length and the
      literals together are longer than the room left. */
  lemma LiteralsTooLong(o: seq<byte>, t: nat, isLastWrite: bool, capacity: nat)
    requires 1 <= t < MaxRun
    requires t <= 3 && !(isLastWrite && |o| == 0) ==> |o| >= 2
    requires !(LengthFits(o, t, isLastWrite, capacity) && |LengthWritten(o, t, isLastWrite)| + t <= capacity)
    ensures |LengthWritten(o, t, isLastWrite)| + t > capacity
  {
  }

  /** A match record after the records `items` that does not fit: the records with the
      copy appended overflow. */
  lemma MatchOverflow(s: seq<byte>, capacity: nat, items: seq<Item>, p: nat, d: nat, l: nat)
    returns (over: seq<Item>)
    requires 1 <= d <= p && 3 <= l < MaxRun && p + l <= |s|
    requires WellFormed(items) && Expand(items) == s[..p] && Agree(s, p, p - d, l)
    requires |Enc(items)| + |MatchRecord(d, l)| > capacity
    ensures over == items + [Copy(d, l, [])] && Enc(over) == Enc(items) + MatchRecord(d, l)
    ensures Expand(over) == s[..p + l] && Overflows(s, capacity, over)
  {
    over := InputMatchRecords(s, items, p, d, l);
    assert Expand(over) <= s by {
      assert s[..p + l] == s[..|s[..p + l]|];
    }
  }

  class Compressor {
    var inputPointer: nat
    var outputPointer: nat
    /** `_input`, which the compressor only reads, as the sequence of its bytes. */
    const input: seq<byte>
    const output: array<byte>
    const workMemory: array<ushort>

    /** No length reaches 2^31 (a .NET array bound), so the
        `uint` cursor arithmetic of the source never wraps. */
    ghost predicate Valid()
      reads this`outputPointer
    {
      workMemory.Length == WorkMemorySize &&
      outputPointer <= output.Length && |input| < MaxRun && output.Length < MaxRun
    }

    /** The records are well formed, their bytes are what has been written, and they expand
        to the first upTo input bytes. */
    ghost predicate Coded(items: seq<Item>, upTo: nat)
      reads this`outputPointer, output
    {
      CodedAt(items, upTo, 1)
    }

    /** Coded, reached after `delay` recursive steps: a proof that only carries Coded along
        does not unfold it, and one that needs its parts asks for them through CodedIs. */
    ghost predicate CodedAt(items: seq<Item>, upTo: nat, delay: nat)
      reads this`outputPointer, output
    {
      if delay == 0 then
        Valid() && upTo <= |input| && WellFormed(items) &&
        output[..outputPointer] == Enc(items) && Expand(items) == input[..upTo]
      else
        CodedAt(items, upTo, delay - 1)
    }

    lemma Recoded(items: seq<Item>, upTo: nat, upTo': nat)
      requires Coded(items, upTo) && upTo == upTo'
      ensures Coded(items, upTo')
    {
    }

    lemma Recorded(items: seq<Item>, upTo: nat)
      requires Valid() && upTo <= |input| && WellFormed(items)
      requires output[..outputPointer] == Enc(items) && Expand(items) == input[..upTo]
      ensures Coded(items, upTo)
    {
      assert CodedAt(items, upTo, 0);
    }

    lemma CodedIs(items: seq<Item>, upTo: nat)
      requires Coded(items, upTo)
      ensures Valid() && upTo <= |input| && WellFormed(items)
      ensures output[..outputPointer] == Enc(items) && Expand(items) == input[..upTo]
    {
      assert CodedAt(items, upTo, 0);
    }

    /** Lines 57-63: fills the output with 0xFF; the table starts zeroed, as `new ushort[]`
        does. */
    constructor (input: seq<byte>, output: array<byte>)
      requires |input| < MaxRun && output.Length < MaxRun
      modifies output
      ensures this.input == input && this.output == output
      ensures inputPointer == 0 && outputPointer == 0
      ensures fresh(workMemory) && Valid()
      ensures forall h :: 0 <= h < workMemory.Length ==> workMemory[h] == 0
      ensures forall i :: 0 <= i < output.Length ==> output[i] == 0xFF
    {
      var i := 0;
      while i < output.Length
        invariant i <= output.Length
        invariant forall k :: 0 <= k < i ==> output[k] == 0xFF
      {
        output[i] := 0xFF;
        i := i + 1;
      }
      this.input := input;
      this.output := output;
      inputPointer := 0;
      outputPointer := 0;
      workMemory := new ushort[WorkMemorySize](_ => 0);
    }

    /** The OutputByte setter (line 55): writes v at outputPointer and moves it on. ok is
        false where outputPointer is past the end and the C# throws. */
    method OutputByte(v: byte) returns (ok: bool)
      requires Valid()
      modifies this`outputPointer, output
      ensures Valid()
      ensures ok == (old(outputPointer) < output.Length)
      ensures !ok ==> outputPointer == old(outputPointer)
      ensures ok ==> outputPointer == old(outputPointer) + 1
      ensures ok ==> output[..outputPointer] == old(output[..outputPointer]) + [v]
    {
      if outputPointer >= output.Length {
        return false;
      }
      output[outputPointer] := v;
      outputPointer := outputPointer + 1;
      return true;
    }

    /** WriteLengthLong (lines 219-227): LongLength(length), one byte at a time. */
    method WriteLengthLong(length: nat) returns (ok: bool)
      requires length <= 0x1_0000_0000
      requires Valid()
      modifies this`outputPointer, output
      ensures Valid()
      ensures ok == (old(outputPointer) + |LongLength(length)| <= output.Length)
      ensures outputPointer >= old(outputPointer)
      ensures ok ==> outputPointer == old(outputPointer) + |LongLength(length)|
      ensures ok ==> output[..outputPointer] == old(output[..outputPointer]) + LongLength(length)
    {
      var n: nat := length;
      while n > 255
        invariant n <= length && Valid() && outputPointer >= old(outputPointer)
        invariant old(outputPointer) + |LongLength(length)| == outputPointer + |LongLength(n)|
        invariant old(output[..outputPointer]) + LongLength(length) == output[..outputPointer] + LongLength(n)
        decreases n
      {
        ghost var before := output[..outputPointer];
        ok := OutputByte(0);
        if !ok {
          return;
        }
        assert LongLength(n) == [0] + LongLength(n - 255);
        assert before + LongLength(n) == (before + [0]) + LongLength(n - 255);
        n := n - 255;
      }
      ghost var before := output[..outputPointer];
      assert LongLength(n) == [n as byte];
      ok := OutputByte(n as byte);
    }

    /** WriteLength (lines 203-217): what it leaves written is LengthWritten. ok is false
        where an index leaves the array (for the OR, where fewer than two bytes have been
        written). */
    method WriteLength(length: nat, isLastWrite: bool) returns (ok: bool)
      requires Valid() && length < MaxRun
      modifies this`outputPointer, output
      ensures Valid()
      ensures ok == LengthFits(old(output[..outputPointer]), length, isLastWrite, output.Length)
      ensures ok ==> output[..outputPointer] == LengthWritten(old(output[..outputPointer]), length, isLastWrite)
      ensures outputPointer >= old(outputPointer)
    {
      if isLastWrite && outputPointer == 0 && length <= 238 {
        ok := OutputByte((17 + length) as byte);
      } else if length <= 3 {
        if outputPointer < 2 {
          return false;
        }
        ghost var o := output[..outputPointer];
        output[outputPointer - 2] := Or(output[outputPointer - 2], length as byte);
        assert output[..outputPointer] == WithTrail(o, length);
        ok := true;
      } else if length <= 18 {
        ok := OutputByte((length - 3) as byte);
      } else {
        ok := WriteLongHeader(length);
      }
    }

    /** Lines 212-214: the header of a literal run of more than 18 bytes, a zero and then
        the long length of length - 18. */
    method WriteLongHeader(length: nat) returns (ok: bool)
      requires Valid() && 18 < length < MaxRun
      modifies this`outputPointer, output
      ensures Valid() && outputPointer >= old(outputPointer)
      ensures ok == (old(outputPointer) + |LiteralHeader(length)| <= output.Length)
      ensures ok ==> output[..outputPointer] == old(output[..outputPointer]) + LiteralHeader(length)
    {
      assert LiteralHeader(length) == [0] + LongLength(length - 18);
      ok := OutputByte(0);
      if ok {
        ok := WriteLengthLong(length - 18);
      }
    }

    /** CopyBytesFromPointer (lines 229-234): n input bytes from `from` appended to the
        output. ok is false where an index leaves either array. */
    method CopyBytesFromPointer(from: nat, n: nat) returns (ok: bool)
      requires Valid()
      modifies this`outputPointer, output
      ensures Valid()
      ensures ok == (n == 0 || (from + n <= |input| && old(outputPointer) + n <= output.Length))
      ensures outputPointer >= old(outputPointer)
      ensures ok ==> outputPointer == old(outputPointer) + n
      ensures ok && n > 0 ==> output[..outputPointer] == old(output[..outputPointer]) + input[from..from + n]
      ensures ok && n == 0 ==> output[..outputPointer] == old(output[..outputPointer])
    {
      var i: nat := 0;
      while i < n
        invariant i <= n && outputPointer == old(outputPointer) && Valid()
        invariant i > 0 ==> from + i <= |input| && outputPointer + i <= output.Length
        invariant output[..outputPointer] == old(output[..outputPointer])
        invariant i > 0 ==> output[outputPointer..outputPointer + i] == input[from..from + i]
      {
        if from + i >= |input| || outputPointer + i >= output.Length {
          return false;
        }
        output[outputPointer + i] := input[from + i];
        assert output[outputPointer..outputPointer + i + 1] == output[outputPointer..outputPointer + i] + [input[from + i]];
        i := i + 1;
      }
      ghost var written := output[..outputPointer + n];
      assert written == output[..outputPointer] + output[outputPointer..outputPointer + n];
      outputPointer := outputPointer + n;
      return true;
    }

    /** Lines 142-146 and 96-100: WriteLength(t) then CopyBytesFromPointer(from, t), which
        leave the length written and then the t input bytes from `from`. ok is false where
        either call would leave an array. */
    method EmitLiterals(from: nat, t: nat, isLastWrite: bool) returns (ok: bool)
      requires Valid() && 1 <= t < MaxRun
      modifies this`outputPointer, output
      ensures Valid() && outputPointer >= old(outputPointer)
      ensures var o := old(output[..outputPointer]);
        ok == (LengthFits(o, t, isLastWrite, output.Length) && from + t <= |input| &&
               |LengthWritten(o, t, isLastWrite)| + t <= output.Length)
      ensures ok ==> from + t <= |input|
      ensures ok && t <= 3 && !(isLastWrite && old(outputPointer) == 0) ==> old(outputPointer) >= 2
      ensures ok ==>
        output[..outputPointer] == LengthWritten(old(output[..outputPointer]), t, isLastWrite) + input[from..from + t]
    {
      ok := WriteLength(t, isLastWrite);
      if !ok {
        return;
      }
      ok := CopyBytesFromPointer(from, t);
    }

    /** The literals just written extend the records, as a literal run or as trailing
        literals of the last match. */
    lemma RecordLiterals(items: seq<Item>, from: nat, t: nat, upTo: nat, isLastWrite: bool, o: seq<byte>)
      returns (items': seq<Item>)
      requires Valid() && 1 <= t && upTo == from + t <= |input|
      requires WellFormed(items) && Open(items) && o == Enc(items) && Expand(items) == input[..from]
      requires t <= 3 ==> items != [] && |o| >= 2
      requires !(isLastWrite && items == [] && t <= 238)
      requires output[..outputPointer] == LengthWritten(o, t, isLastWrite) + input[from..from + t]
      ensures items' == WithLiterals(items, input[from..from + t])
      ensures Coded(items', upTo) && (isLastWrite ==> !SingleShortLiteral(items'))
    {
      items' := InputLiteralRecords(input, items, from, t, isLastWrite);
    }

    /** The waiting literals from `from` up to upTo, written after the bytes o of the records
        (ok) or found not to fit (not ok): they extend the records, or the records with them
        overflow. */
    lemma RecordWaitingLiterals(items: seq<Item>, from: nat, t: nat, upTo: nat, o: seq<byte>, ok: bool)
      returns (items': seq<Item>)
      requires Valid() && 1 <= t && upTo == from + t <= |input|
      requires WellFormed(items) && Open(items) && o == Enc(items) && Expand(items) == input[..from]
      requires t <= 3 ==> items != [] && |o| >= 2
      requires ok == (LengthFits(o, t, false, output.Length) && from + t <= |input| &&
                      |LengthWritten(o, t, false)| + t <= output.Length)
      requires ok ==> output[..outputPointer] == LengthWritten(o, t, false) + input[from..from + t]
      ensures items' == WithLiterals(items, input[from..upTo])
      ensures ok ==> Coded(items', upTo)
      ensures !ok ==> Overflows(input, output.Length, items')
    {
      assert input[from..from + t] == input[from..upTo];
      if ok {
        items' := RecordLiterals(items, from, t, upTo, false, o);
      } else {
        items' := LiteralOverflow(input, output.Length, items, from, t, upTo, false);
      }
    }

    /** The last write, before anything else was written, of the last t <= 238 input bytes:
        the records before them are empty, so these are all the input, and the records are
        the single short literal run. */
    lemma RecordSingleLiteral(items: seq<Item>, t: nat, o: seq<byte>) returns (items': seq<Item>)
      requires Valid() && 1 <= t <= 238 && t <= |input| && WellFormed(items)
      requires o == Enc(items) && |o| == 0 && Expand(items) == input[..|input| - t]
      requires output[..outputPointer] == LengthWritten(o, t, true) + input[|input| - t..|input|]
      ensures items' == [Literal(input)] && SingleShortLiteral(items') && Expand(items') == input
      ensures output[..outputPointer] + EndMarker == EncodeStream(items')
    {
      EncEmpty(items);
      assert |input| - t == 0;
      assert input[|input| - t..|input|] == input;
      SingleLiteralStream(input);
      items' := [Literal(input)];
    }

    /** Lines 164-197: the match record for distance off and length mlen, in the layout
        its length and distance select. */
    method WriteMatch(off: nat, mlen: nat) returns (ok: bool)
      requires Valid() && 1 <= off && 3 <= mlen < MaxRun
      modifies this`outputPointer, output
      ensures Valid() && outputPointer >= old(outputPointer)
      ensures ok == (old(outputPointer) + |MatchRecord(off, mlen)| <= output.Length)
      ensures ok ==> output[..outputPointer] == old(output[..outputPointer]) + MatchRecord(off, mlen)
    {
      if mlen <= 8 && off <= 0x800 {
        ok := WriteShortMatch(off, mlen);
      } else if off <= 0x4000 {
        ok := WriteMediumMatch(off, mlen);
      } else {
        ok := WriteFarMatch(off, mlen);
      }
    }

    /** Lines 164-168: two bytes, the length and the low three offset bits in the first. */
    method WriteShortMatch(off: nat, mlen: nat) returns (ok: bool)
      requires Valid() && 1 <= off <= 0x800 && 3 <= mlen <= 8
      modifies this`outputPointer, output
      ensures Valid() && outputPointer >= old(outputPointer)
      ensures ok == (old(outputPointer) + |ShortMatch(off, mlen)| <= output.Length)
      ensures ok ==> output[..outputPointer] == old(output[..outputPointer]) + ShortMatch(off, mlen)
    {
      var memoryOffset := off - 1;
      ShortMatchBytes(off, mlen);
      ok := OutputByte(Low8(OrNat((mlen - 1) * 32, (memoryOffset % 8) * 4)));
      if ok {
        ok := OutputByte(Low8(memoryOffset / 8));
      }
    }

    /** Lines 170-180: the tag 32 with the length inline or as a long length, then the
        offset. */
    method WriteMediumMatch(off: nat, mlen: nat) returns (ok: bool)
      requires Valid() && 1 <= off <= 0x4000 && 3 <= mlen < MaxRun
      modifies this`outputPointer, output
      ensures Valid() && outputPointer >= old(outputPointer)
      ensures ok == (old(outputPointer) + |MediumMatch(off, mlen)| <= output.Length)
      ensures ok ==> output[..outputPointer] == old(output[..outputPointer]) + MediumMatch(off, mlen)
    {
      var memoryOffset := off - 1;
      if mlen <= 33 {
        MediumInlineMatchBytes(off, mlen);
        ok := OutputByte(Low8(OrNat(32, mlen - 2)));
      } else {
        MediumLongMatchBytes(off, mlen);
        ok := OutputByte(32);
        if ok {
          ok := WriteLengthLong(mlen - 33);
        }
      }
      if ok {
        ok := WriteOffset(memoryOffset);
      }
    }

    /** Lines 182-195: the tag 16 with bit 14 of the offset, the length inline or as a long
        length, then the offset. */
    method WriteFarMatch(off: nat, mlen: nat) returns (ok: bool)
      requires Valid() && 0x4000 < off && 3 <= mlen < MaxRun
      modifies this`outputPointer, output
      ensures Valid() && outputPointer >= old(outputPointer)
      ensures ok == (old(outputPointer) + |FarMatch(off, mlen)| <= output.Length)
      ensures ok ==> output[..outputPointer] == old(output[..outputPointer]) + FarMatch(off, mlen)
    {
      var memoryOffset := off - 0x4000;
      if mlen <= 9 {
        FarInlineMatchBytes(off, mlen);
        ok := OutputByte(Low8(OrNat(OrNat(16, FarTagBit(memoryOffset)), mlen - 2)));
      } else {
        FarLongMatchBytes(off, mlen);
        ok := OutputByte(Low8(OrNat(16, FarTagBit(memoryOffset))));
        if ok {
          ok := WriteLengthLong(mlen - 9);
        }
      }
      if ok {
        ok := WriteOffset(memoryOffset);
      }
    }

    /** Lines 179-180 and 194-195: `(byte)(memoryOffset << 2)`, `(byte)(memoryOffset >> 6)`. */
    method WriteOffset(memoryOffset: nat) returns (ok: bool)
      requires Valid()
      modifies this`outputPointer, output
      ensures Valid() && outputPointer >= old(outputPointer)
      ensures ok == (old(outputPointer) + 2 <= output.Length)
      ensures ok ==>
        output[..outputPointer] == old(output[..outputPointer]) + [Low8(memoryOffset * 4), Low8(memoryOffset / 64)]
    {
      ok := OutputByte(Low8(memoryOffset * 4));
      if ok {
        ok := OutputByte(Low8(memoryOffset / 64));
      }
    }

    /** The match of the mlen input bytes at `at` copied from off bytes back, written after
        the bytes o of the records (ok) or found not to fit (not ok): it becomes the next
        record, or the records with it appended overflow. */
    lemma RecordMatch(items: seq<Item>, at: nat, off: nat, mlen: nat, upTo: nat, o: seq<byte>, ok: bool)
      returns (items': seq<Item>)
      requires Valid() && 1 <= off <= at && 3 <= mlen < MaxRun && upTo == at + mlen <= |input|
      requires WellFormed(items) && o == Enc(items) && Expand(items) == input[..at]
      requires Agree(input, at, at - off, mlen)
      requires ok == (|o| + |MatchRecord(off, mlen)| <= output.Length)
      requires ok ==> output[..outputPointer] == o + MatchRecord(off, mlen)
      ensures items' == items + [Copy(off, mlen, [])]
      ensures ok ==> Coded(items', upTo) && Open(items')
      ensures !ok ==> Overflows(input, output.Length, items')
    {
      if ok {
        items' := InputMatchRecords(input, items, at, off, mlen);
        Recorded(items', upTo);
      } else {
        items' := MatchOverflow(input, output.Length, items, at, off, mlen);
      }
    }

    /** Every table slot holds a position, relative to segmentStart, at or below bound. */
    ghost predicate TableBelow(segmentStart: nat, bound: int)
      reads workMemory
    {
      forall h :: 0 <= h < workMemory.Length ==> segmentStart + workMemory[h] as int <= bound
    }

    lemma TableBelowRaise(segmentStart: nat, bound: int, raised: int)
      requires TableBelow(segmentStart, bound) && bound <= raised
      ensures TableBelow(segmentStart, raised)
    {
    }

    /** Lines 129-132: reads the four bytes at inputPointer, takes the candidate position
        from their table slot, and stores the current position (relative to the segment
        start, cast to `ushort`) in that slot; no other slot changes. The table holds only
        positions before inputPointer, so the candidate comes before it, and afterwards the
        table holds only positions up to inputPointer. */
    method HashProbe(inputPointerStart: nat) returns (dv: bv32, workMemoryIndex: nat, inputPointerM: nat)
      requires inputPointer + 4 <= |input| && workMemory.Length == WorkMemorySize
      requires inputPointerStart <= inputPointer && TableBelow(inputPointerStart, inputPointer - 1)
      modifies workMemory
      ensures inputPointerM < inputPointer && TableBelow(inputPointerStart, inputPointer)
      ensures dv == ReadU32(input, inputPointer) && workMemoryIndex == HashIndex(dv)
      ensures inputPointerM == inputPointerStart + old(workMemory[workMemoryIndex]) as int
      ensures workMemory[workMemoryIndex] == ((inputPointer - inputPointerStart) % 0x10000) as ushort
      ensures forall h :: 0 <= h < workMemory.Length && h != workMemoryIndex ==> workMemory[h] == old(workMemory[h])
    {
      dv := ReadU32(input, inputPointer);
      workMemoryIndex := HashIndex(dv);
      inputPointerM := inputPointerStart + workMemory[workMemoryIndex] as int;
      workMemory[workMemoryIndex] := ((inputPointer - inputPointerStart) % 0x10000) as ushort;
    }

    /** Lines 129-135: the candidate for the position at inputPointer, taken from the table,
        and whether its four bytes equal the current four (the C# compares the `uint` words
        read at both positions). A candidate always comes before inputPointer. */
    method FindCandidate(inputPointerStart: nat) returns (found: bool, inputPointerM: nat)
      requires inputPointer + 4 <= |input| && workMemory.Length == WorkMemorySize
      requires inputPointerStart <= inputPointer && TableBelow(inputPointerStart, inputPointer - 1)
      modifies workMemory
      ensures inputPointerM < inputPointer && TableBelow(inputPointerStart, inputPointer)
      ensures found == Agree(input, inputPointer, inputPointerM, 4)
    {
      var dv, workMemoryIndex;
      dv, workMemoryIndex, inputPointerM := HashProbe(inputPointerStart);
      found := dv == ReadU32(input, inputPointerM);
      EqualReads(input, inputPointer, inputPointerM);
    }

    /** Lines 147-159: how far the match at inputPointer against m extends. Four bytes at a
        time are compared until they differ, where a quarter of the XOR's trailing-zero count
        adds the bytes that still agree, or until the next comparison would start at or past
        limit. The result is at least 4, the bytes agree over it, and the match stops at a
        byte that differs or at limit. */
    method MatchLength(m: nat, limit: nat) returns (length: nat)
      requires m < inputPointer < limit && limit + 8 <= |input|
      requires Agree(input, inputPointer, m, 4)
      ensures 4 <= length && inputPointer + length < limit + 8
      ensures Agree(input, inputPointer, m, length)
      ensures inputPointer + length >= limit || input[inputPointer + length] != input[m + length]
    {
      length := 4;
      while true
        invariant 4 <= length && inputPointer + length < limit + 4
        invariant Agree(input, inputPointer, m, length)
        decreases limit + 4 - (inputPointer + length)
      {
        var v, agree := CompareFour(input, inputPointer + length, m + length);
        AgreeJoin(input, inputPointer, m, length, agree);
        if v != 0 {
          length := length + agree;
          return;
        }
        length := length + 4;
        if inputPointer + length >= limit {
          return;
        }
      }
    }

    /** Lines 138-198, once a match is found at inputPointer against inputPointerM: the
        waiting literals from literalStart, then the match as long as it extends, after
        which inputPointer is past the match and the records cover the input up to it. */
    method EncodeMatch(literalStart: nat, inputPointerM: nat, inputPointerEnd: nat, ghost items: seq<Item>)
      returns (ok: bool, ghost items': seq<Item>, ghost dist: nat, ghost len: nat)
      requires Coded(items, literalStart) && Open(items) && literalStart <= inputPointer
      requires inputPointerM < inputPointer < inputPointerEnd && inputPointerEnd + 8 <= |input|
      requires Agree(input, inputPointer, inputPointerM, 4)
      requires inputPointer - literalStart <= 3 ==> items != []
      modifies this`inputPointer, this`outputPointer, output
      ensures Valid() && outputPointer >= old(outputPointer)
      ensures ok ==> old(inputPointer) + 4 <= inputPointer < inputPointerEnd + 8
      ensures ok ==> Coded(items', inputPointer) && Open(items') && items' != []
      ensures dist == old(inputPointer) - inputPointerM
      ensures var literals := WithLiterals(items, input[literalStart..old(inputPointer)]);
        (items' == literals + [Copy(dist, len, [])] && inputPointer == old(inputPointer) + len) ||
        (!ok && items' == literals && inputPointer == old(inputPointer))
      ensures !ok ==> Overflows(input, output.Length, items')
    {
      ghost var literals;
      ok, literals := EmitWaitingLiterals(literalStart, items);
      items', dist, len := literals, inputPointer - inputPointerM, 0;
      if ok {
        ok, items', dist, len := EmitMatch(inputPointerM, inputPointerEnd, literals);
      }
    }

    /** Lines 138-146: the literals from literalStart up to inputPointer, if any. */
    method EmitWaitingLiterals(literalStart: nat, ghost items: seq<Item>) returns (ok: bool, ghost items': seq<Item>)
      requires Coded(items, literalStart) && Open(items) && literalStart <= inputPointer <= |input|
      requires inputPointer - literalStart <= 3 ==> items != []
      modifies this`outputPointer, output
      ensures Valid() && outputPointer >= old(outputPointer)
      ensures ok ==> Coded(items', inputPointer)
      ensures items' == WithLiterals(items, input[literalStart..inputPointer])
      ensures !ok ==> Overflows(input, output.Length, items')
    {
      CodedIs(items, literalStart);
      items' := items;
      var t := inputPointer - literalStart;
      if t != 0 {
        ghost var o := output[..outputPointer];
        if items != [] {
          EncLength(items);
        }
        ok := EmitLiterals(literalStart, t, false);
        items' := RecordWaitingLiterals(items, literalStart, t, inputPointer, o, ok);
      } else {
        ok := true;
        Recoded(items, literalStart, inputPointer);
      }
    }

    /** Lines 147-198: the match at inputPointer against inputPointerM, as long as it
        extends, written as a record; inputPointer moves past it. */
    method EmitMatch(inputPointerM: nat, inputPointerEnd: nat, ghost items: seq<Item>)
      returns (ok: bool, ghost items': seq<Item>, ghost dist: nat, ghost len: nat)
      requires Coded(items, inputPointer)
      requires inputPointerM < inputPointer < inputPointerEnd && inputPointerEnd + 8 <= |input|
      requires Agree(input, inputPointer, inputPointerM, 4)
      modifies this`inputPointer, this`outputPointer, output
      ensures Valid() && outputPointer >= old(outputPointer)
      ensures ok ==> old(inputPointer) + 4 <= inputPointer < inputPointerEnd + 8
      ensures ok ==> Coded(items', inputPointer) && Open(items') && items' != []
      ensures dist == old(inputPointer) - inputPointerM && inputPointer == old(inputPointer) + len
      ensures items' == items + [Copy(dist, len, [])]
      ensures !ok ==> Overflows(input, output.Length, items')
    {
      var memoryLength := MatchLength(inputPointerM, inputPointerEnd);
      var memoryOffset := inputPointer - inputPointerM;
      ghost var at := inputPointer;
      inputPointer := inputPointer + memoryLength;
      CodedIs(items, at);
      ghost var o := output[..outputPointer];
      ok := WriteMatch(memoryOffset, memoryLength);
      items' := RecordMatch(items, at, memoryOffset, memoryLength, inputPointer, o, ok);
      dist, len := memoryOffset, memoryLength;
    }

    /** Lzo1x1CompressCore (lines 107-201): compresses the inputLength bytes at inputPointer,
        the ti bytes before them still waiting to be written as literals. Each position is
        hashed; a candidate whose four bytes equal the current ones becomes a match, after
        the waiting literals are written. The result is how many bytes at the end are still
        waiting, and how many bytes were written. ok is false where an index would leave an
        array and the C# throws. */
    method Lzo1x1CompressCore(inputLength: nat, ti: nat, ghost items: seq<Item>)
      returns (ok: bool, pending: nat, outLength: nat, ghost items': seq<Item>)
      requires Valid() && 20 < inputLength <= SegmentMax && inputPointer + inputLength <= |input|
      requires ti <= inputPointer && Coded(items, inputPointer - ti) && Open(items)
      requires forall h :: 0 <= h < workMemory.Length ==> workMemory[h] == 0
      modifies this`inputPointer, this`outputPointer, output, workMemory
      ensures Valid()
      ensures ok ==> pending <= old(inputPointer) + inputLength
      ensures ok ==> Coded(items', old(inputPointer) + inputLength - pending) && Open(items')
      ensures ok ==> outputPointer == old(outputPointer) + outLength
      ensures !ok ==> Overflows(input, output.Length, items')
    {
      ok, pending, outLength, items' := false, 0, 0, items;
      var outputPointerStart := outputPointer;
      var inputPointerStart := inputPointer;
      var inputPointerEndHmm := inputPointer + inputLength;
      var inputPointerEnd := inputPointer + inputLength - 20;
      var inputPointerTemp := inputPointer;
      var tiLeft := ti;
      inputPointer := inputPointer + (if ti < 4 then 4 - ti else 0);
      var incrementInputPointerAtStartOfLoop := true;
      ghost var covered: nat := inputPointerTemp - tiLeft;
      while true
        invariant Valid() && outputPointer >= outputPointerStart
        invariant Scanning(inputPointerStart, inputPointerTemp, inputPointer, inputPointerEnd, ti, tiLeft,
                           incrementInputPointerAtStartOfLoop, items' != [])
        invariant covered == inputPointerTemp - tiLeft && Coded(items', covered) && Open(items')
        invariant TableBelow(inputPointerStart, if incrementInputPointerAtStartOfLoop then inputPointer else inputPointer - 1)
        decreases 2 * (inputPointerEnd + 8 - inputPointer) + (if incrementInputPointerAtStartOfLoop then 0 else 1)
      {
        if incrementInputPointerAtStartOfLoop {
          ghost var before := inputPointer;
          inputPointer := inputPointer + 1 + (inputPointer - inputPointerTemp) / 32;
          TableBelowRaise(inputPointerStart, before, inputPointer - 1);
        }
        if inputPointer >= inputPointerEnd {
          break;
        }
        var found, inputPointerM := FindCandidate(inputPointerStart);
        if !found {
          incrementInputPointerAtStartOfLoop := true;
          continue;
        }
        inputPointerTemp := inputPointerTemp - tiLeft;
        tiLeft := 0;
        ghost var before := inputPointer;
        ghost var dist, len;
        ok, items', dist, len := EncodeMatch(inputPointerTemp, inputPointerM, inputPointerEnd, items');
        if !ok {
          return;
        }
        TableBelowRaise(inputPointerStart, before, inputPointer - 1);
        inputPointerTemp := inputPointer;
        covered := inputPointer;
        incrementInputPointerAtStartOfLoop := false;
      }
      ok, pending, outLength := true, inputPointerEndHmm - (inputPointerTemp - tiLeft), outputPointer - outputPointerStart;
      Recoded(items', covered, old(inputPointer) + inputLength - pending);
    }

    /** Compress (lines 65-105): the input in segments of at most 0xC000 bytes while more
        than 20 remain, the table cleared before each; then the bytes still waiting as the
        last literals, and the end marker. The bytes written are the stream of records that
        expand to the whole input. ok is false where an index would leave an array and the C#
        throws. */
    method Compress() returns (ok: bool, length: nat, ghost items: seq<Item>)
      requires Valid() && inputPointer == 0 && outputPointer == 0
      modifies this`inputPointer, this`outputPointer, output, workMemory
      ensures Valid()
      ensures ok ==> StreamItems(items) && Expand(items) == input
      ensures ok ==> length == outputPointer && output[..length] == EncodeStream(items)
      ensures !ok ==> Overflows(input, output.Length, items)
    {
      length, items := 0, [];
      var lengthLeftToRead: nat := |input|;
      var t: nat := 0;
      var outputCursor: nat := 0;
      while lengthLeftToRead > 20
        invariant Valid() && inputPointer + lengthLeftToRead == |input|
        invariant t <= inputPointer && Coded(items, inputPointer - t) && Open(items)
        invariant outputPointer == outputCursor
        decreases lengthLeftToRead
      {
        var lengthToReadThisCycle: nat := Min(lengthLeftToRead, SegmentMax);
        var inputPointerAfterCycle := inputPointer + lengthToReadThisCycle;
        var grown := inputPointerAfterCycle + U32(t + lengthToReadThisCycle) / 32;
        if grown <= inputPointerAfterCycle || grown <= U32(inputPointer + lengthToReadThisCycle) {
          break;
        }
        forall h | 0 <= h < workMemory.Length {
          workMemory[h] := 0;
        }
        var inputPointerBefore := inputPointer;
        outputPointer := outputCursor;
        var pending, outLen;
        ok, pending, outLen, items := Lzo1x1CompressCore(lengthToReadThisCycle, t, items);
        if !ok {
          return;
        }
        t := pending;
        inputPointer := inputPointerBefore + lengthToReadThisCycle;
        outputCursor := outputCursor + outLen;
        lengthLeftToRead := lengthLeftToRead - lengthToReadThisCycle;
        Recoded(items, inputPointerBefore + lengthToReadThisCycle - pending, inputPointer - t);
      }
      outputPointer := outputCursor;
      ghost var covered := inputPointer - t;
      t := t + lengthLeftToRead;
      Recoded(items, covered, |input| - t);
      ok, items := EmitLastLiterals(t, items);
      if !ok {
        return;
      }
      ghost var written := outputPointer;
      ok := WriteEndMarker();
      length := outputPointer;
      if !ok {
        assert |EncodeStream(items)| == written + |EndMarker|;
      }
    }

    /** Lines 96-101: the t bytes still waiting at the end of the input, if any, as the last
        literals; the records then expand to the whole input and, with the end marker, make a
        complete stream. */
    method EmitLastLiterals(t: nat, ghost items: seq<Item>) returns (ok: bool, ghost items': seq<Item>)
      requires t <= |input| && Coded(items, |input| - t) && Open(items)
      modifies this`outputPointer, output
      ensures Valid()
      ensures ok ==> StreamItems(items') && Expand(items') == input
      ensures ok ==> output[..outputPointer] + EndMarker == EncodeStream(items')
      ensures items == [] && 1 <= t <= 238 ==> items' == [Literal(input)]
      ensures !(items == [] && 1 <= t <= 238) ==> items' == WithLiterals(items, input[|input| - t..|input|])
      ensures !ok ==> Overflows(input, output.Length, items')
    {
      items' := items;
      if t == 0 {
        OpenNotSingle(items);
        Recoded(items, |input| - t, |input|);
        Closed(items);
        return true, items;
      }
      CodedIs(items, |input| - t);
      ghost var o := output[..outputPointer];
      ok := EmitLiterals(|input| - t, t, true);
      if !ok {
        items' := LastLiteralOverflow(items, t, o);
        return;
      }
      if items == [] && t <= 238 {
        items' := RecordSingleLiteral(items, t, o);
      } else {
        if items != [] {
          EncLength(items);
        }
        items' := RecordLastLiterals(items, t, o);
      }
    }

    /** The last t input bytes, written as the last literals after the bytes o of the
        records before them when o is not empty or t > 238, are records of their own that
        complete the stream. */
    lemma RecordLastLiterals(items: seq<Item>, t: nat, o: seq<byte>) returns (items': seq<Item>)
      requires Valid() && 1 <= t <= |input| && WellFormed(items) && Open(items)
      requires o == Enc(items) && Expand(items) == input[..|input| - t]
      requires !(|o| == 0 && t <= 238) && (t <= 3 ==> |o| >= 2)
      requires output[..outputPointer] == LengthWritten(o, t, true) + input[|input| - t..|input|]
      ensures items' == WithLiterals(items, input[|input| - t..|input|])
      ensures StreamItems(items') && Expand(items') == input
      ensures output[..outputPointer] + EndMarker == EncodeStream(items')
    {
      items' := RecordLiterals(items, |input| - t, t, |input|, true, o);
      Closed(items');
    }

    /** The last t input bytes do not fit after the bytes o of the records before them: as
        the single short literal run its stream does not fit, otherwise the records with
        the literals appended overflow. */
    lemma LastLiteralOverflow(items: seq<Item>, t: nat, o: seq<byte>) returns (over: seq<Item>)
      requires Valid() && 1 <= t <= |input| && WellFormed(items) && Open(items)
      requires o == Enc(items) && Expand(items) == input[..|input| - t]
      requires !(LengthFits(o, t, true, output.Length) && |LengthWritten(o, t, true)| + t <= output.Length)
      ensures items == [] && t <= 238 ==> over == [Literal(input)]
      ensures !(items == [] && t <= 238) ==> over == WithLiterals(items, input[|input| - t..|input|])
      ensures Overflows(input, output.Length, over)
    {
      if items == [] && t <= 238 {
        assert |input| - t == 0 && o == [];
        SingleLiteralStream(input);
        over := [Literal(input)];
        assert |EncodeStream(over)| == |LengthWritten(o, t, true)| + t + |EndMarker|;
        assert |LengthWritten(o, t, true)| == 1;
      } else {
        if items != [] {
          EncLength(items);
        }
        over := LiteralOverflow(input, output.Length, items, |input| - t, t, |input|, true);
      }
    }

    /** Records that expand to the whole input, other than the single short literal run, are
        a stream whose bytes are those written followed by the end marker. */
    lemma Closed(items: seq<Item>)
      requires Coded(items, |input|) && !SingleShortLiteral(items)
      ensures Valid() && StreamItems(items) && Expand(items) == input
      ensures output[..outputPointer] + EndMarker == EncodeStream(items)
    {
      CodedIs(items, |input|);
      assert input[..|input|] == input;
    }

    /** Lines 102-104: the end marker, the tag 16 | 1 and two zero bytes. */
    method WriteEndMarker() returns (ok: bool)
      requires Valid()
      modifies this`outputPointer, output
      ensures Valid()
      ensures ok == (old(outputPointer) + |EndMarker| <= output.Length)
      ensures ok ==> output[..outputPointer] == old(output[..outputPointer]) + EndMarker
    {
      ok := OutputByte(Or(16, 1));
      if !ok {
        return;
      }
      ok := OutputByte(0);
      if !ok {
        return;
      }
      ok := OutputByte(0);
      if !ok {
        return;
      }
      assert Or(16, 1) == 17 by {
        OrDisjoint(2, 1, 3);
        FieldWidths();
      }
    }
  }
}

/** The static MiniLZO class (MiniLZO.cs lines 21-41): the two entry points, which allocate
    the arrays and run the compressor or the decompressor over them, and the round trip of
    the whole codec. */
module MiniLzo {
  import opened LzoFormat
  import opened LzoStream
  import LzoDecoderSpec
  import opened LzoEncoderProof
  import opened LzoDecoderProof
  import Lzo1xCompression
  import Lzo1xDecompression

  /** Round trip of the codec: the stream of records that expand to u decompresses, into a
      buffer of |u| bytes, to u with result 0, when u is at most 0x4000 bytes (so that no
      record uses the 16..31 layout, which the decoder reads back only in part). */
  lemma CodecRoundTrip(items: seq<Item>, u: seq<byte>)
    requires StreamItems(items) && Expand(items) == u && |u| <= 0x4000
    ensures LzoDecoderSpec.Decompress(EncodeStream(items), |u|) == LzoDecoderSpec.Done(0, u)
  {
    if !SingleShortLiteral(items) {
      SmallDecodable(items);
    }
    DecodesStream(items, |u|);
    assert u + LzoDecoderSpec.Zeros(0) == u;
  }

  /** MiniLZO.Decompress (lines 23-31): decompresses into a zeroed buffer of
      uncompressedLength bytes and hands that buffer back when the decompressor returns 0.
      None for any other return value and for an exception of the decompressor. */
  method Decompress(compressed: seq<byte>, uncompressedLength: nat) returns (r: Option<seq<byte>>)
    ensures var o := LzoDecoderSpec.Decompress(compressed, uncompressedLength);
      (r.Some? <==> o.Done? && o.code == 0) && (r.Some? ==> r.value == o.out)
  {
    var input := new byte[|compressed|](i => if 0 <= i < |compressed| then compressed[i] else 0);
    var decompressed := new byte[uncompressedLength](_ => 0);
    assert input[..] == compressed;
    assert decompressed[..] == LzoDecoderSpec.Zeros(uncompressedLength);
    var decompressor := new Lzo1xDecompression.Decompressor(input, decompressed);
    assert decompressor.State(LzoDecoderSpec.Start, 0) == LzoDecoderSpec.Initial(uncompressedLength);
    var result := decompressor.Decompress();
    if result == Lzo1xDecompression.Returned(0) {
      r := Some(decompressed[..]);
    } else {
      r := None;
    }
  }

  /** The output capacity line 35 allocates. */
  function Capacity(n: nat): nat
  {
    n + n / 16 + 64 + 3
  }

  /** MiniLZO.Compress (lines 33-40): compresses into a buffer of Capacity(|u|) bytes and
      keeps the part written. The bytes are the stream of records that expand to u; they
      decompress back to u when u is at most 0x4000 bytes; the empty input gives the end
      marker alone. None where a write would pass the end of the buffer and the C# throws. */
  method Compress(uncompressed: seq<byte>) returns (r: Option<seq<byte>>, ghost items: seq<Item>)
    requires Capacity(|uncompressed|) < MaxRun
    ensures r.Some? ==> StreamItems(items) && Expand(items) == uncompressed && r.value == EncodeStream(items)
    ensures r.Some? && |uncompressed| <= 0x4000 ==>
      LzoDecoderSpec.Decompress(r.value, |uncompressed|) == LzoDecoderSpec.Done(0, uncompressed)
    ensures r.Some? && uncompressed == [] ==> r.value == EndMarker
    ensures r.None? ==> Lzo1xCompression.Overflows(uncompressed, Capacity(|uncompressed|), items)
  {
    var compressed := new byte[Capacity(|uncompressed|)];
    var compressor := new Lzo1xCompression.Compressor(uncompressed, compressed);
    var ok, outputLength;
    ok, outputLength, items := compressor.Compress();
    if !ok {
      return None, items;
    }
    r := Some(compressed[..outputLength]);
    if |uncompressed| <= 0x4000 {
      CodecRoundTrip(items, uncompressed);
    }
    if uncompressed == [] {
      EmptyStream(items);
    }
  }

  /** The round trip the test suite runs (CompressionDecompressionTest): Compress, then
      Decompress with the original length, gives the original bytes back, for every input
      of at most 0x4000 bytes that Compress can write into its buffer. */
  method CompressDecompress(uncompressed: seq<byte>) returns (compressed: Option<seq<byte>>, decompressed: Option<seq<byte>>)
    requires Capacity(|uncompressed|) < MaxRun && |uncompressed| <= 0x4000
    ensures compressed.Some? ==> decompressed == Some(uncompressed)
  {
    ghost var items;
    compressed, items := Compress(uncompressed);
    if compressed.None? {
      return compressed, None;
    }
    decompressed := Decompress(compressed.value, |uncompressed|);
  }
}

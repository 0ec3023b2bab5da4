# MiniLZO in Dafny

A model of the C# port of miniLZO's LZO1X-1 codec, `src/MiniLZO/MiniLZO.cs`. The model covers:

- the compressor `Lzo1xCompressor`;
- the decompressor `Lzo1xDecompressor`;
- the two static entry points `MiniLZO.Compress` and `MiniLZO.Decompress`.

Each is given with proofs of what the code promises.

## Modules

- **LzoFormat** (`lzo_format.dfy`) holds the byte layouts as pure functions:
  - the long-length escape;
  - the literal-run header;
  - the three match record layouts (short, 32..63 and 16..31);
  - the count of up to three trailing literals, ORed into the byte two from a record's end;
  - the arithmetic the decoder uses to recover each field.

  Every layout has a round-trip lemma. Bytes are a `newtype byte`. The C# `|` is bitwise OR on naturals. The C# `uint` wrap-around is `U32`.
- **LzoBits** (`lzo_bits.dfy`) holds the pieces that work on 32-bit words as `bv32`:
  - `ReadUintFromInput`;
  - the hash of line 130;
  - the de Bruijn `TrailingZeroCountUint32`, proved to give the index of the lowest set bit;
  - the fact that a quarter of the trailing-zero count of an XOR is the index of the first byte that differs.
- **LzoStream** (`lzo_stream.dfy`) describes a compressed stream as a sequence of records: literal runs, and copies `(distance, length)` with their trailing literals.
  - `Enc` gives the bytes of the records and `Expand` what they decompress to.
  - `CopyBack` is the overlapping back-reference copy.
  - `WellFormed` and `Decodable` say which record sequences are legal and which the decoder reads back.
- **Lzo1xCompression** (`lzo_compressor.dfy`) is `Lzo1xCompressor` as a class. It has the two cursors as fields, the output as an `array<byte>` and the hash table as an `array<ushort>`.
  - Each method is a C# method, loop for loop. `Lzo1x1CompressCore` (lines 107-201) is split at its inner blocks: `HashProbe`, `FindCandidate`, `MatchLength`, `EncodeMatch`, `EmitWaitingLiterals` and `EmitMatch` are blocks of its loop.
  - A ghost record sequence is carried along, with the invariant that the written prefix of the output is `Enc` of the records and that they expand to the input consumed so far.
  - `Compress` therefore ends with a complete stream that expands to its input.
  - A write that would pass the end of the output makes the method fail. The ghost result then holds records of a prefix of the input, the ones written and the one that failed, whose bytes are longer than the output (`Overflows`). So every failure is an output overflow.
- **LzoEncoderProof** (`lzo_encoder_proof.dfy`) holds the record-level lemmas the compressor's methods use. Examples: what `WriteLength` does to the records, and that a short input has only decodable records.
- **LzoDecoderSpec** (`lzo_decoder_spec.dfy`) is the `goto`-driven decompression loop as a state machine over values:
  - a program-point enum `Pc` with one state per label;
  - `Step` from one label to the next;
  - `Run` to the end, terminating because every step consumes input or moves to a later label.

  Exceptions of the C# are the outcome `Fault`.
- **Lzo1xDecompression** (`lzo_decompressor.dfy`) is `Lzo1xDecompressor` as a class over two arrays and three cursor fields.
  - One method per program point is proved to take the step `Step` describes.
  - `Decompress` loops over them and is proved to return what `Run` computes.
- **LzoDecoderProof** (`lzo_decoder_proof.dfy`) proves the decoder round trip: decompressing the bytes of any decodable record sequence into a large enough buffer returns 0 and the expansion.
- **MiniLzo** (`minilzo.dfy`) holds the entry points and the whole-codec round trip. `Decompress(Compress(u), |u|) == u` for every input of at most 0x4000 bytes that fits the output buffer, which covers the lengths 0..399 and 2000 of the repository's round-trip tests.

## Notes on the code as written

- **The 16..31 layout does not always round-trip.** The decoder masks `t &= 7` before it takes `(t & 8) << 11` as bit 14 of the offset (lines 342-345). As a result, a 16..31 record decodes its distance correctly only when `FarRoundTrips(d, l)` holds. This is modelled as written.
  - `LzoFormat.FarRoundTripIff` states exactly when the distance comes back.
  - `LzoFormat.FarLayoutCounterexamples` gives three records that do not round-trip.
  - Inputs of at most 0x4000 bytes never produce such a record (`LzoEncoderProof.SmallDecodable`). This is why the whole-codec round trip is stated for them.
- **A short first literal run.** After an initial literal run of fewer than four bytes (line 282), the code goes to the loop top and reads a literal-run header, where miniLZO reads a match. The compressor never produces this case: its first run of 1..3 bytes is always the last write, followed by the end marker, which is a match tag in both readings.
- **The -4 result of line 378 is never returned.** Every read past the end of the input throws first. `LzoDecoderSpec.Run` states this.

## Model

| member | source | states |
|---|---|---|
| LzoFormat.LongLengthShape | src/MiniLZO/MiniLZO.cs:219-227 | the bytes WriteLengthLong writes for n >= 1 are zero bytes ended by one non-zero byte |
| LzoFormat.LongLengthCount | src/MiniLZO/MiniLZO.cs:219-227 | for n >= 1 the escape is (n - 1) / 255 zero bytes, then the byte (n - 1) % 255 + 1 |
| LzoFormat.ReadLength | src/MiniLZO/MiniLZO.cs:381-398 | a successful read ends just after a non-zero byte inside the input, with a value below 2^32; None when the input ends first |
| LzoFormat.ReadLongLength | src/MiniLZO/MiniLZO.cs:381-398 | ReadLength over exactly the escape of n returns the running total plus n (as a uint) and consumes all of it |
| LzoFormat.U32 | src/MiniLZO/MiniLZO.cs:389-393 | the uint sum is below 2^32 and is exact when no wrap occurs |
| LzoFormat.LiteralRunLength | src/MiniLZO/MiniLZO.cs:297-298 | a header read ends inside the input after its first byte |
| LzoFormat.ReadLiteralHeader | src/MiniLZO/MiniLZO.cs:297-300 | the header WriteLength writes for t >= 4 starts below 16, is consumed exactly, and gives back t as 4 + value - 1 |
| LzoFormat.MatchRecord | src/MiniLZO/MiniLZO.cs:164-197 | the layout is chosen by length and distance: short (tag >= 64, two bytes), 32..63 for distance up to 0x4000, and 16..31 beyond; the byte two from the end has its low two bits clear |
| LzoFormat.WithTrail | src/MiniLZO/MiniLZO.cs:207-208 | ORing a count into a record changes only the byte two from its end |
| LzoFormat.OrLowBits | src/MiniLZO/MiniLZO.cs:208 | ORing k < 4 into a byte with clear low bits adds k, and `& 3` reads k back |
| LzoFormat.OffsetTail | src/MiniLZO/MiniLZO.cs:337 | the two bytes ending a record, with k ORed in, carry k in their low bits and the offset's low 14 bits in ushort >> 2 |
| LzoFormat.ShortRoundTrip | src/MiniLZO/MiniLZO.cs:321-328 | a short record with any trailing count is read back as a tag >= 64 with the same distance, length and count |
| LzoFormat.MediumDistanceBack | src/MiniLZO/MiniLZO.cs:337 | 1 + (ushort >> 2) gives the distance back from the low 14 bits of distance - 1 |
| LzoFormat.MediumRoundTrip | src/MiniLZO/MiniLZO.cs:332-339 | a 32..63 record is read back with its tag range, trailing count, distance and length, and exactly that many bytes are copied |
| LzoFormat.MediumTag | src/MiniLZO/MiniLZO.cs:170-180 | the 32..63 tag holds the length inline up to 33, otherwise its low five bits are zero |
| LzoFormat.FarTag | src/MiniLZO/MiniLZO.cs:184-194 | the 16..31 tag holds the length inline up to 9, otherwise its low three bits are zero |
| LzoFormat.LengthFieldRoundTrip | src/MiniLZO/MiniLZO.cs:334-336 | a tag and its optional escape give back the length less two, with the cursor after them |
| LzoFormat.MatchLengthField | src/MiniLZO/MiniLZO.cs:342-344 | the length field read ends inside the input |
| LzoFormat.CopyCountExact | src/MiniLZO/MiniLZO.cs:359-367 | both branches of the copy count copy exactly the length |
| LzoFormat.FarRoundTrip | src/MiniLZO/MiniLZO.cs:340-346 | a 16..31 record is read back with its tag range, trailing count, the offset's low 14 bits and its length |
| LzoFormat.FarRoundTripIff | src/MiniLZO/MiniLZO.cs:342-349 | the decoder's back offset equals distance - 0x4000 if and only if FarRoundTrips holds |
| LzoFormat.FarLayoutCounterexamples | src/MiniLZO/MiniLZO.cs:342-345 | three concrete 16..31 records read back wrong, one of them as the end marker |
| LzoBits.HashIndex | src/MiniLZO/MiniLZO.cs:130 | the table index is below 2^14 |
| LzoBits.ReadU32Lanes | src/MiniLZO/MiniLZO.cs:236-239 | the four-byte read is little-endian: byte j of the word is the input byte at i + j |
| LzoBits.TrailingZeroCount | src/MiniLZO/MiniLZO.cs:246-249 | the de Bruijn lookup is a bit position, below 32 |
| LzoBits.TrailingZeroCountCorrect | src/MiniLZO/MiniLZO.cs:246-249 | for v != 0 the de Bruijn lookup is the index of the lowest set bit |
| LzoBits.EqualReads | src/MiniLZO/MiniLZO.cs:236-239 | two four-byte reads are equal exactly when the four bytes are equal |
| LzoBits.FirstDifference | src/MiniLZO/MiniLZO.cs:150-153 | for two different reads, a quarter of the XOR's trailing-zero count is below 4; the bytes before that index agree and the byte at it differs |
| LzoStream.CopyBack | src/MiniLZO/MiniLZO.cs:402-408 | the overlapping copy grows the output by n and keeps what was there |
| LzoEncoderProof.LiteralRecords | src/MiniLZO/MiniLZO.cs:142-146 | WriteLength then the literals extend the records, as trailing literals or as a run, and the expansion by those literals |
| LzoEncoderProof.SingleLiteralStream | src/MiniLZO/MiniLZO.cs:205-206 | a whole input of 1..238 bytes written first becomes the short literal stream |
| LzoEncoderProof.SmallDecodable | src/MiniLZO/MiniLZO.cs:164-183 | records that expand to at most 0x4000 bytes use only layouts the decoder reads back |
| LzoEncoderProof.EmptyStream | src/MiniLZO/MiniLZO.cs:101-103 | a stream that expands to nothing is the end marker 17, 0, 0 alone |
| LzoDecoderSpec.StepStart | src/MiniLZO/MiniLZO.cs:277-283 | the first step consumes input or moves on, and keeps the output length |
| LzoDecoderSpec.StepLoopTop | src/MiniLZO/MiniLZO.cs:293-300 | the loop-top step makes progress and keeps the output length |
| LzoDecoderSpec.StepFirstLiteralRun | src/MiniLZO/MiniLZO.cs:302-311 | the first_literal_run step makes progress and keeps the output length |
| LzoDecoderSpec.StepMatch | src/MiniLZO/MiniLZO.cs:313-357 | the match step makes progress and keeps the output length |
| LzoDecoderSpec.StepMatchDone | src/MiniLZO/MiniLZO.cs:368-375 | the match_done step makes progress and keeps the output length |
| LzoDecoderSpec.Run | src/MiniLZO/MiniLZO.cs:377-378 | a normal end returns 0 or -8 with an output of the buffer's length; -4 is never returned |
| LzoDecoderSpec.Decompress | src/MiniLZO/MiniLZO.cs:25-27 | decompressing into n fresh bytes ends with n bytes and never -4 |
| LzoDecoderProof.CopyInAppends | src/MiniLZO/MiniLZO.cs:409-415 | a literal copy into the zero tail of a buffer appends the input bytes |
| LzoDecoderProof.CopyForwardIsCopyBack | src/MiniLZO/MiniLZO.cs:402-408 | the forward byte-by-byte copy from d back is the overlapping copy CopyBack, for every d |
| LzoDecoderProof.ShortStepAt | src/MiniLZO/MiniLZO.cs:321-330 | a short tag appends the copy of its distance and count |
| LzoDecoderProof.MediumStepAt | src/MiniLZO/MiniLZO.cs:332-367 | a 32..63 tag appends the copy of its distance and length |
| LzoDecoderProof.FarStepAt | src/MiniLZO/MiniLZO.cs:340-367 | a 16..31 tag whose back offset is right appends the copy |
| LzoDecoderProof.RecordDecodes | src/MiniLZO/MiniLZO.cs:319-367 | every record layout the compressor writes for a decodable (d, l) is read back as (d, l) with its trailing count |
| LzoDecoderProof.FlushTrail | src/MiniLZO/MiniLZO.cs:368-374 | one to three trailing literals are copied and the next tag is read |
| LzoDecoderProof.EndStep | src/MiniLZO/MiniLZO.cs:340-348 | the end marker at the end of the input returns 0 with the output as it is |
| LzoDecoderProof.DecodesRecords | src/MiniLZO/MiniLZO.cs:271-379 | the bytes of decodable records and the end marker decompress to their expansion followed by zeros, result 0 |
| LzoDecoderProof.DecodesShortLiteral | src/MiniLZO/MiniLZO.cs:277-283 | the stream 17 + t, t bytes, end marker decompresses to those bytes |
| LzoDecoderProof.DecodesStream | src/MiniLZO/MiniLZO.cs:271-379 | every stream of the record layer decompresses to its expansion, result 0 |
| Lzo1xCompression.ShortMatchBytes | src/MiniLZO/MiniLZO.cs:166-168 | the two bytes written for a short match are ShortMatch |
| Lzo1xCompression.MediumInlineMatchBytes | src/MiniLZO/MiniLZO.cs:172-182 | the bytes written for a 32..63 match with inline length are MediumMatch |
| Lzo1xCompression.MediumLongMatchBytes | src/MiniLZO/MiniLZO.cs:175-182 | the bytes written for a 32..63 match with an escape are MediumMatch |
| Lzo1xCompression.FarTagBitIsHighBit | src/MiniLZO/MiniLZO.cs:188 | `(off >> 11) & 8` is bit 14 of the offset moved to bit 3 |
| Lzo1xCompression.FarInlineMatchBytes | src/MiniLZO/MiniLZO.cs:186-196 | the bytes written for a 16..31 match with inline length are FarMatch |
| Lzo1xCompression.FarLongMatchBytes | src/MiniLZO/MiniLZO.cs:189-196 | the bytes written for a 16..31 match with an escape are FarMatch |
| Lzo1xCompression.CompareFour | src/MiniLZO/MiniLZO.cs:150-153 | the XOR of two reads is zero exactly when all four bytes agree; otherwise the count of agreeing bytes stops at the first that differs |
| Lzo1xCompression.Compressor.constructor | src/MiniLZO/MiniLZO.cs:57-63 | the output is filled with 0xFF and the table is zeroed |
| Lzo1xCompression.Compressor.OutputByte | src/MiniLZO/MiniLZO.cs:55 | appends one byte, or fails at the end of the array |
| Lzo1xCompression.Compressor.WriteLengthLong | src/MiniLZO/MiniLZO.cs:219-227 | appends LongLength(n) exactly when it fits |
| Lzo1xCompression.Compressor.WriteLength | src/MiniLZO/MiniLZO.cs:203-217 | leaves the output as LengthWritten: the tag 17 + length, the count ORed two back, or the literal header; succeeds exactly when LengthFits (one byte of room for the tag, two bytes written for the OR, room for the header) |
| Lzo1xCompression.Compressor.WriteLongHeader | src/MiniLZO/MiniLZO.cs:211-216 | appends the header of a run of more than 18 literals |
| Lzo1xCompression.Compressor.CopyBytesFromPointer | src/MiniLZO/MiniLZO.cs:229-234 | appends the n input bytes at the pointer exactly when both ranges fit |
| Lzo1xCompression.LiteralOverflow | src/MiniLZO/MiniLZO.cs:142-146 | when the length or the literals do not fit after the records, the records with the literals appended (`WithLiterals`: trailing literals of the last copy, or a run of their own) are well formed, have the bytes WriteLength and the literal copy would write, expand to the input up to the literals, and overflow the output |
| Lzo1xCompression.MatchOverflow | src/MiniLZO/MiniLZO.cs:164-197 | when a match record does not fit after the records, the records with `Copy(d, l)` appended have the bytes of the records and MatchRecord(d, l), expand to the input up to the match's end, and overflow the output |
| Lzo1xCompression.Compressor.EmitLiterals | src/MiniLZO/MiniLZO.cs:142-146 | writes the length and then the literals, exactly when the length fits, the literals are inside the input and both fit in the output |
| Lzo1xCompression.Compressor.RecordLiterals | src/MiniLZO/MiniLZO.cs:142-146 | the literals just written extend the records, which then expand to the input up to them |
| Lzo1xCompression.Compressor.RecordSingleLiteral | src/MiniLZO/MiniLZO.cs:205-206 | a first and last write of 1..238 bytes is the whole input as the short literal stream |
| Lzo1xCompression.Compressor.WriteMatch | src/MiniLZO/MiniLZO.cs:164-197 | appends MatchRecord(distance, length), exactly when they fit in the output |
| Lzo1xCompression.Compressor.WriteShortMatch | src/MiniLZO/MiniLZO.cs:164-169 | appends ShortMatch, exactly when they fit in the output |
| Lzo1xCompression.Compressor.WriteMediumMatch | src/MiniLZO/MiniLZO.cs:170-183 | appends MediumMatch, exactly when they fit in the output |
| Lzo1xCompression.Compressor.WriteFarMatch | src/MiniLZO/MiniLZO.cs:184-197 | appends FarMatch, exactly when they fit in the output |
| Lzo1xCompression.Compressor.WriteOffset | src/MiniLZO/MiniLZO.cs:181-182 | appends the two offset bytes, exactly when they fit in the output |
| Lzo1xCompression.Compressor.RecordMatch | src/MiniLZO/MiniLZO.cs:161-197 | the records become the records with `Copy(offset, length)` appended, whether or not the match fitted; when it was written they describe the output and the input up to the match's end; when it did not fit they overflow the output |
| Lzo1xCompression.Compressor.HashProbe | src/MiniLZO/MiniLZO.cs:129-132 | the slot for the hash of the four bytes gives the candidate and is set to the position; no other slot changes; the candidate is before the position |
| Lzo1xCompression.Compressor.FindCandidate | src/MiniLZO/MiniLZO.cs:129-137 | the candidate is before the position and is accepted exactly when its four bytes equal the current four |
| Lzo1xCompression.Compressor.MatchLength | src/MiniLZO/MiniLZO.cs:147-159 | the length is at least 4, the bytes agree over it, and it stops at a differing byte or at the limit |
| Lzo1xCompression.Compressor.EncodeMatch | src/MiniLZO/MiniLZO.cs:138-198 | the records become the records with the waiting literals appended (`WithLiterals`) and then `Copy(distance, length)`, with the distance the cursor minus the candidate and the cursor moved by the length; or, when the literals did not fit, the records with the literals only and the cursor unmoved; on success they describe the output up to the new cursor, on failure they overflow the output |
| Lzo1xCompression.Compressor.EmitWaitingLiterals | src/MiniLZO/MiniLZO.cs:139-146 | the records become the records with the waiting literals appended (`WithLiterals`); on success they describe the output and the input up to the cursor, on failure they overflow the output |
| Lzo1xCompression.Compressor.RecordWaitingLiterals | src/MiniLZO/MiniLZO.cs:142-146 | the literals after WriteLength give the records with them appended; written, these describe the output up to them; not fitted, they overflow the output |
| Lzo1xCompression.Compressor.EmitMatch | src/MiniLZO/MiniLZO.cs:147-198 | the records become the records with `Copy(distance, length)` appended, with the distance the cursor minus the candidate and the cursor moved by the length; on success they describe the output up to the new cursor, on failure they overflow the output |
| Lzo1xCompression.Compressor.Lzo1x1CompressCore | src/MiniLZO/MiniLZO.cs:107-201 | the records cover the segment except the literals still waiting at its end, and the output grew by the length returned; it fails only where records of the input overflow the output |
| Lzo1xCompression.Compressor.Compress | src/MiniLZO/MiniLZO.cs:65-105 | the bytes written are a complete stream of records that expand to the whole input; it fails only where the records written so far with the failing one, or the complete stream, are longer than the output |
| Lzo1xCompression.Compressor.EmitLastLiterals | src/MiniLZO/MiniLZO.cs:94-100 | the records become the single short run when the whole input of 1..238 bytes is written at once, and otherwise the records with the last literals appended (`WithLiterals`); on success they expand to the whole input and describe the output, on failure they overflow the output |
| Lzo1xCompression.Compressor.RecordLastLiterals | src/MiniLZO/MiniLZO.cs:96-100 | the last literals, when they are not the whole input as one short run, complete the stream |
| Lzo1xCompression.Compressor.LastLiteralOverflow | src/MiniLZO/MiniLZO.cs:96-100 | when the last literals do not fit, the single short run (for a whole input of 1..238 bytes written at once) or the records with the last literals appended (`WithLiterals`) overflow the output |
| Lzo1xCompression.Compressor.Closed | src/MiniLZO/MiniLZO.cs:94-104 | records that expand to the whole input make the stream with the end marker |
| Lzo1xCompression.Compressor.WriteEndMarker | src/MiniLZO/MiniLZO.cs:101-103 | appends 17, 0, 0, exactly when they fit in the output |
| Lzo1xDecompression.FarTailEnds | src/MiniLZO/MiniLZO.cs:345-348 | a zero back offset ends decompression with the eof_found code |
| Lzo1xDecompression.FarTailCopyFrom | src/MiniLZO/MiniLZO.cs:345-349 | a non-zero back offset plus 0x4000 is the copy distance |
| Lzo1xDecompression.Decompressor.constructor | src/MiniLZO/MiniLZO.cs:265-269 | holds the two arrays with all cursors at zero |
| Lzo1xDecompression.Decompressor.ReadLength | src/MiniLZO/MiniLZO.cs:381-398 | the loop returns what ReadLength computes, moves only the input cursor, and fails where the input ends |
| Lzo1xDecompression.Decompressor.CopyLiteralBytes | src/MiniLZO/MiniLZO.cs:409-415 | copies n input bytes exactly when both ranges fit, moving both cursors by n |
| Lzo1xDecompression.Decompressor.CopyMatchBytes | src/MiniLZO/MiniLZO.cs:402-408 | copies forward from the match cursor exactly when it fits, moving the output and match cursors by n and not the input cursor |
| Lzo1xDecompression.Decompressor.ReadUshortFromInput | src/MiniLZO/MiniLZO.cs:418-421 | the value is below 2^16, its low byte is the byte at the cursor and its high byte the next one |
| Lzo1xDecompression.Decompressor.AtStart | src/MiniLZO/MiniLZO.cs:277-283 | takes StepStart |
| Lzo1xDecompression.Decompressor.ReadLiteralRunHeader | src/MiniLZO/MiniLZO.cs:296-298 | reads the header LiteralRunLength describes |
| Lzo1xDecompression.Decompressor.AtLoopTop | src/MiniLZO/MiniLZO.cs:293-300 | takes StepLoopTop |
| Lzo1xDecompression.Decompressor.AtFirstLiteralRun | src/MiniLZO/MiniLZO.cs:302-311 | takes StepFirstLiteralRun |
| Lzo1xDecompression.Decompressor.CopyCounted | src/MiniLZO/MiniLZO.cs:359-367 | takes MatchCopy |
| Lzo1xDecompression.Decompressor.ReadLengthField | src/MiniLZO/MiniLZO.cs:334-336 | reads the length field MatchLengthField describes |
| Lzo1xDecompression.Decompressor.AtMediumTail | src/MiniLZO/MiniLZO.cs:337-339 | takes MediumTail |
| Lzo1xDecompression.Decompressor.AtFarTail | src/MiniLZO/MiniLZO.cs:345-350 | takes FarTail |
| Lzo1xDecompression.Decompressor.AtShortMatch | src/MiniLZO/MiniLZO.cs:321-331 | takes StepMatch for a short tag |
| Lzo1xDecompression.Decompressor.AtNearMatch | src/MiniLZO/MiniLZO.cs:351-357 | takes StepMatch for a tag below 16 |
| Lzo1xDecompression.Decompressor.AtMatch | src/MiniLZO/MiniLZO.cs:313-357 | takes StepMatch |
| Lzo1xDecompression.Decompressor.AtMatchDone | src/MiniLZO/MiniLZO.cs:368-375 | takes StepMatchDone |
| Lzo1xDecompression.Decompressor.StepFrom | src/MiniLZO/MiniLZO.cs:285-376 | takes Step from any program point |
| Lzo1xDecompression.Decompressor.Decompress | src/MiniLZO/MiniLZO.cs:271-379 | returns what Run computes from the start, and on a normal end the output array holds Run's output |
| MiniLzo.CodecRoundTrip | src/MiniLZO/MiniLZO.cs:33-40 | the stream for an input of at most 0x4000 bytes decompresses, into a buffer of its length, to that input with result 0 |
| MiniLzo.Decompress | src/MiniLZO/MiniLZO.cs:23-31 | gives the output exactly when the decompressor returns 0 |
| MiniLzo.Compress | src/MiniLZO/MiniLZO.cs:33-40 | gives a stream that expands to the input; it decompresses back for inputs up to 0x4000 bytes; the empty input gives 17, 0, 0; `None` only where records of the input are longer than the buffer of line 35 |
| MiniLzo.CompressDecompress | src/MiniLZO.Tests/CompressionDecompressionTests.cs:51-61 | Decompress(Compress(u), \|u\|) is u whenever Compress succeeds, for inputs up to 0x4000 bytes |

## Left out

- The exception thrown on a non-zero result (lines 28-29): `MiniLzo.Decompress` returns `None` instead.
- `Array.Resize` (line 38): `MiniLzo.Compress` returns the written prefix of the buffer.
- MiniLzo.Compress: the worst-case size bound `N + N/16 + 64 + 3` (line 35) is not proved to suffice. The contract says that `None` comes only from an overflow (`Lzo1xCompression.Overflows`: the records written so far with the one that failed, or the complete stream, are longer than the buffer), but not that this overflow never happens.
- MiniLzo.CompressDecompress: relies on the same unproved bound, so its round trip is stated only for runs where `Compress` succeeds.
- Lzo1xCompression.Compressor.Compress: failure is characterised as an overflow of records of a prefix of the input, which its ghost result holds. Which records they are is stated by the methods that fail (`EmitWaitingLiterals`, `EmitMatch`, `EncodeMatch`, `EmitLastLiterals`, the end marker); that they are exactly the bytes the C# had written when it threw is not stated, because the output after a failure is not specified.
- Lzo1xCompression.Compressor.Lzo1x1CompressCore: on failure only `Overflows` is stated of its ghost records; the record that failed is named by `EncodeMatch`.
- `IntPtr.Size` (line 51) is fixed at 8. Only the first 2^14 slots of the table are ever indexed (line 130).
- The 0xFF prefill of the output (lines 61-62) is modelled in the constructor. No proof depends on it, because every byte that is ORed into was written first.
- `DecompressionTests.cs` reads sample files that are not part of this model, so file I/O is left out.
- The compressor's `_input` is a `seq<byte>`, since the compressor only reads it. The decompressor's input is an `array<byte>`.
- C# runtime exceptions are not modelled as exceptions. An index outside an array, or a `uint` cursor that wrapped below zero and is then used as an index (lines 306, 337, 345, 353), is the error outcome `Fault` in the decoder, `Threw` in the decompressor class, and `ok == false` in the compressor. After such an error the output contents are not specified.
- Cursors are unbounded naturals, because .NET arrays have fewer than 2^31 elements and no cursor can wrap above. `uint` wrap-around is modelled where a length is summed (ReadLength, 15 + length, t + 2, t + 3).
- LzoFormat.FarRoundTrip: round-trips only the low 14 bits of the offset. Bit 14 is lost by the decoder as written; `FarRoundTripIff` states when the distance comes back in full.
- MiniLzo.CodecRoundTrip: is stated for inputs of at most 0x4000 bytes. Longer inputs can produce 16..31 records that the decoder as written reads back wrong (`LzoFormat.FarLayoutCounterexamples`).
- LzoDecoderSpec.StepMatch: the contracts of the individual steps state progress and the output length. What each step computes is stated by the decoder-proof lemmas (ShortStepAt, MediumStepAt, FarStepAt, FlushTrail, EndStep).

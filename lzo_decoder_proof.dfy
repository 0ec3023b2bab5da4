/** The decompressor reads back what the record layer writes: decoding the bytes of a
    well-formed record sequence, followed by the end marker, returns 0 with the records'
    expansion at the front of the output buffer and the buffer's zeros after it. */
module LzoDecoderProof {
  import opened LzoFormat
  import opened LzoStream
  import opened LzoDecoderSpec

  /** The output buffer of n bytes holds x, the rest still zero, and the output cursor is
      right after x. */
  predicate Holds(s: Machine, x: seq<byte>, n: nat)
  {
    s.op == |x| && |x| <= n && s.out == x + Zeros(n - |x|)
  }

  // ---- the two copies against the record layer's definitions ----

  lemma UpdateZeros(a: seq<byte>, v: byte, r: nat)
    ensures (a + Zeros(r + 1))[|a| := v] == (a + [v]) + Zeros(r)
  {
    var lhs := (a + Zeros(r + 1))[|a| := v];
    var rhs := (a + [v]) + Zeros(r);
    assert |lhs| == |rhs|;
    forall i | 0 <= i < |lhs|
      ensures lhs[i] == rhs[i]
    {
      if i < |a| {
      } else if i == |a| {
      } else {
        assert lhs[i] == Zeros(r + 1)[i - |a|] == 0;
      }
    }
  }

  /** Copying l literals into a buffer that holds x appends input[ip..ip + l]. */
  lemma {:induction false} CopyInAppends(x: seq<byte>, n: nat, input: seq<byte>, ip: nat, l: nat)
    requires ip + l <= |input| && |x| + l <= n
    ensures LiteralsFit(|input|, ip, n, |x|, l)
    ensures CopyIn(x + Zeros(n - |x|), |x|, input, ip, l) == (x + input[ip..ip + l]) + Zeros(n - |x| - l)
  {
    if l > 0 {
      CopyInAppends(x, n, input, ip, l - 1);
      var a := x + input[ip..ip + l - 1];
      UpdateZeros(a, input[ip + l - 1], n - |x| - l);
      assert input[ip..ip + l] == input[ip..ip + l - 1] + [input[ip + l - 1]];
      assert a + [input[ip + l - 1]] == x + input[ip..ip + l];
    } else {
      assert input[ip..ip] == [];
      assert x + [] == x;
    }
  }

  /** The forward byte-by-byte copy from d back is CopyBack(x, d, l): each byte it reads
      is one this copy or an earlier one has already written. */
  lemma {:induction false} CopyForwardIsCopyBack(x: seq<byte>, n: nat, d: nat, l: nat)
    requires 1 <= d <= |x| && |x| + l <= n
    ensures MatchFits(n, |x| - d, |x|, l)
    ensures CopyForward(x + Zeros(n - |x|), |x| - d, |x|, l) == CopyBack(x, d, l) + Zeros(n - |x| - l)
  {
    if l > 0 {
      CopyForwardIsCopyBack(x, n, d, l - 1);
      var r := CopyBack(x, d, l - 1);
      var o := r + Zeros(n - |x| - l + 1);
      assert o[|x| - d + l - 1] == r[|r| - d];
      UpdateZeros(r, r[|r| - d], n - |x| - l);
    }
  }

  // ---- single steps of the decoder over the bytes of one record ----

  /** Lines 296-300: a literal-run header and its literals, read at the loop top. */
  lemma LiteralStep(input: seq<byte>, s: Machine, x: seq<byte>, b: seq<byte>, n: nat) returns (s': Machine)
    requires s.pc == LoopTop && s.ip <= |input|
    requires 4 <= |b| < MaxRun && BytesAt(input, s.ip, LiteralHeader(|b|) + b)
    requires Holds(s, x, n) && |x| + |b| <= n
    ensures Step(input, s) == Next(s')
    ensures s'.pc == FirstLiteralRun && s'.ip == s.ip + |LiteralHeader(|b|)| + |b| && Holds(s', x + b, n)
  {
    var h := LiteralHeader(|b|);
    BytesAtSplit(input, s.ip, h, b);
    ReadLiteralHeader(input, s.ip, |b|);
    s' := LiteralStepAt(input, s, x, b, s.ip + |h|, n);
  }

  /** The decoder at a literal-run header that ends at q and gives run length |b|, with
      the literals b after it. */
  lemma LiteralStepAt(input: seq<byte>, s: Machine, x: seq<byte>, b: seq<byte>, q: nat, n: nat) returns (s': Machine)
    requires s.pc == LoopTop && s.ip < |input| && input[s.ip] as int < 16
    requires LiteralRunLength(input, s.ip).Some? && LiteralRunLength(input, s.ip).value.next == q
    requires U32(4 + LiteralRunLength(input, s.ip).value.value - 1) == |b|
    requires BytesAt(input, q, b) && Holds(s, x, n) && |x| + |b| <= n
    ensures Step(input, s) == Next(s')
    ensures s'.pc == FirstLiteralRun && s'.ip == q + |b| && Holds(s', x + b, n)
  {
    CopyInAppends(x, n, input, q, |b|);
    assert input[q..q + |b|] == b;
    var tr := Step(input, s);
    s' := tr.s;
  }

  lemma BytesAtSplit(input: seq<byte>, p: nat, a: seq<byte>, b: seq<byte>)
    requires BytesAt(input, p, a + b)
    ensures BytesAt(input, p, a) && BytesAt(input, p + |a|, b)
  {
    assert input[p..p + |a|] == (a + b)[..|a|];
    assert input[p + |a|..p + |a| + |b|] == (a + b)[|a|..];
  }

  /** A match copy from d back over a buffer that holds x appends CopyBack(x, d, l). */
  lemma MatchCopyAppends(s: Machine, x: seq<byte>, d: nat, l: nat, n: nat)
    requires Holds(s, x, n) && 1 <= d <= |x| && |x| + l <= n && s.m == s.op - d
    ensures CopyMatch(s, l).Some?
    ensures var s1 := CopyMatch(s, l).value;
      s1.pc == s.pc && s1.ip == s.ip && s1.t == s.t && Holds(s1, CopyBack(x, d, l), n)
  {
    CopyForwardIsCopyBack(x, n, d, l);
  }

  /** Which layout MatchRecord picks. */
  lemma RecordLayouts(d: nat, l: nat)
    requires 1 <= d && 3 <= l <= 0x1_0000_0000
    ensures l <= 8 && d <= 0x800 ==> MatchRecord(d, l) == ShortMatch(d, l)
    ensures !(l <= 8 && d <= 0x800) && d <= 0x4000 ==> MatchRecord(d, l) == MediumMatch(d, l)
    ensures d > 0x4000 ==> MatchRecord(d, l) == FarMatch(d, l)
  {
  }

  /** The state at a match tag: the tag is the byte just read. */
  predicate AtTag(input: seq<byte>, s: Machine)
  {
    s.pc == Match && 1 <= s.ip <= |input| && s.t == input[s.ip - 1] as int
  }

  /** The decoder reads the match record whose tag is at p and which ends at e as distance
      d and count l, with k, the count of trailing literals, in the low bits of the byte two
      from its end. The tag picks the layout (lines 319, 328 and 340). */
  predicate DecodedLayout(input: seq<byte>, p: nat, d: nat, l: nat, k: nat, e: nat)
  {
    3 <= l && p + 2 <= e <= |input| && input[e - 2] as int % 4 == k &&
    var t := input[p] as int;
    if t >= 64 then
      e == p + 2 && ShortDistance(t, input[p + 1]) == d && ShortCount(t) == l
    else if t >= 32 then
      MatchLengthField(input, p + 1, t, 32) == Some(LengthRead(l - 2, e - 2)) &&
      MediumDistance(UShort(input[e - 2], input[e - 1])) == d && CopyCount(l - 2, d) == l
    else if t >= 16 then
      MatchLengthField(input, p + 1, t, 8) == Some(LengthRead(l - 2, e - 2)) &&
      0x4000 < d && FarBackOffset(l - 2, UShort(input[e - 2], input[e - 1])) == d - 0x4000 &&
      CopyCount(l - 2, d) == l
    else false
  }

  /** DecodedLayout behind one recursive step: a lemma that only passes it on does not
      unfold the layouts, and one that needs them asks through DecodedIs. */
  predicate Decoded(input: seq<byte>, p: nat, d: nat, l: nat, k: nat, e: nat)
  {
    DecodedAt(input, p, d, l, k, e, 1)
  }

  predicate DecodedAt(input: seq<byte>, p: nat, d: nat, l: nat, k: nat, e: nat, delay: nat)
  {
    if delay == 0 then DecodedLayout(input, p, d, l, k, e) else DecodedAt(input, p, d, l, k, e, delay - 1)
  }

  lemma DecodedIs(input: seq<byte>, p: nat, d: nat, l: nat, k: nat, e: nat)
    requires Decoded(input, p, d, l, k, e)
    ensures DecodedLayout(input, p, d, l, k, e)
  {
    assert DecodedAt(input, p, d, l, k, e, 0);
  }

  /** Lines 319-327: a tag of 64 or more and the byte after it give the distance and the
      count. */
  lemma ShortStepAt(input: seq<byte>, s: Machine, x: seq<byte>, d: nat, l: nat, n: nat) returns (s': Machine)
    requires s.pc == Match && s.ip < |input| && s.t >= 64
    requires ShortDistance(s.t, input[s.ip]) == d && ShortCount(s.t) == l
    requires Holds(s, x, n) && 1 <= d <= |x| && |x| + l <= n
    ensures Step(input, s) == Next(s')
    ensures s'.pc == MatchDone && s'.ip == s.ip + 1 && Holds(s', CopyBack(x, d, l), n)
  {
    var s0 := s.(ip := s.ip + 1, m := s.op - d, t := s.t / 32 - 1);
    MatchCopyAppends(s0, x, d, l, n);
    var tr := Step(input, s);
    s' := tr.s;
  }

  /** A two-byte record, distance up to 0x800 and length up to 8, read back. */
  lemma ShortRecordRead(input: seq<byte>, p: nat, d: nat, l: nat, k: nat)
    requires 1 <= d <= 0x800 && 3 <= l <= 8 && k < 4
    requires BytesAt(input, p, WithTrail(ShortMatch(d, l), k))
    ensures Decoded(input, p, d, l, k, p + |ShortMatch(d, l)|)
  {
    var r := WithTrail(ShortMatch(d, l), k);
    ShortRoundTrip(d, l, k);
    assert input[p] == r[0] && input[p + 1] == r[1];
  }

  /** Lines 359-366 with `t` the decoded length less two: the count is the length. */
  lemma CountedCopy(s: Machine, x: seq<byte>, d: nat, l: nat, n: nat) returns (s': Machine)
    requires Holds(s, x, n) && 1 <= d <= |x| && |x| + l <= n && s.m == s.op - d
    requires CopyCount(s.t, d) == l
    ensures MatchCopy(s) == Next(s')
    ensures s'.pc == MatchDone && s'.ip == s.ip && Holds(s', CopyBack(x, d, l), n)
  {
    var s0 := if s.t >= 6 && d >= 4 then s.(t := l) else s;
    MatchCopyAppends(s0, x, d, l, n);
    var tr := MatchCopy(s);
    s' := tr.s;
  }

  /** Lines 336-339: the ushort after a 32..63 length field. */
  lemma MediumTailCopies(input: seq<byte>, s: Machine, x: seq<byte>, d: nat, l: nat, n: nat) returns (s': Machine)
    requires s.ip + 1 < |input| && MediumDistance(UShort(input[s.ip], input[s.ip + 1])) == d
    requires Holds(s, x, n) && 1 <= d <= |x| && |x| + l <= n && CopyCount(s.t, d) == l
    ensures MediumTail(input, s) == Next(s')
    ensures s'.pc == MatchDone && s'.ip == s.ip + 2 && Holds(s', CopyBack(x, d, l), n)
  {
    var s2 := s.(m := s.op - d, ip := s.ip + 2);
    MediumTailIsCopy(input, s, d, s2);
    s' := CountedCopy(s2, x, d, l, n);
  }

  /** Lines 341-350: the ushort after a 16..31 length field, when it gives back offset
      d - 0x4000 (so not the end marker). */
  lemma FarTailCopies(input: seq<byte>, s: Machine, x: seq<byte>, d: nat, l: nat, n: nat) returns (s': Machine)
    requires s.ip + 1 < |input| && FarBackOffset(s.t, UShort(input[s.ip], input[s.ip + 1])) == d - 0x4000
    requires Holds(s, x, n) && 0x4000 < d <= |x| && |x| + l <= n && CopyCount(s.t, d) == l
    ensures FarTail(input, s) == Next(s')
    ensures s'.pc == MatchDone && s'.ip == s.ip + 2 && Holds(s', CopyBack(x, d, l), n)
  {
    var s2 := s.(m := s.op - d, ip := s.ip + 2);
    FarTailIsCopy(input, s, d, s2);
    s' := CountedCopy(s2, x, d, l, n);
  }

  /** Lines 336-337: the ushort gives the distance, and the copy starts past it. */
  lemma MediumTailIsCopy(input: seq<byte>, s: Machine, d: nat, s2: Machine)
    requires s.ip + 1 < |input| && MediumDistance(UShort(input[s.ip], input[s.ip + 1])) == d
    requires s2 == s.(m := s.op - d, ip := s.ip + 2)
    ensures MediumTail(input, s) == MatchCopy(s2)
  {
    var u := UShort(input[s.ip], input[s.ip + 1]);
    assert s.op - 1 - u / 4 == s.op - d;
  }

  /** Lines 341-349: a non-zero back offset gives the distance, and the copy starts past
      the ushort. */
  lemma FarTailIsCopy(input: seq<byte>, s: Machine, d: nat, s2: Machine)
    requires s.ip + 1 < |input| && FarBackOffset(s.t, UShort(input[s.ip], input[s.ip + 1])) == d - 0x4000
    requires 0x4000 < d && s2 == s.(m := s.op - d, ip := s.ip + 2)
    ensures FarTail(input, s) == MatchCopy(s2)
  {
  }

  /** Lines 328-335: a tag of 32..63 reads its length field and continues at the ushort. */
  lemma MediumDispatch(input: seq<byte>, s: Machine, f: LengthRead)
    requires s.pc == Match && s.ip <= |input| && 32 <= s.t < 64
    requires MatchLengthField(input, s.ip, s.t, 32) == Some(f)
    ensures StepMatch(input, s) == MediumTail(input, s.(ip := f.next, t := f.value))
  {
  }

  /** Lines 340-343: a tag of 16..31 reads its length field and continues at the ushort. */
  lemma FarDispatch(input: seq<byte>, s: Machine, f: LengthRead, s1: Machine)
    requires s.pc == Match && s.ip <= |input| && 16 <= s.t < 32
    requires MatchLengthField(input, s.ip, s.t, 8) == Some(f) && s1 == s.(ip := f.next, t := f.value)
    ensures StepMatch(input, s) == FarTail(input, s1)
  {
  }

  /** The decoder at a 32..63 tag whose length field ends at q and whose ushort gives
      distance d. */
  lemma MediumStepAt(input: seq<byte>, s: Machine, x: seq<byte>, d: nat, l: nat, q: nat, n: nat) returns (s': Machine)
    requires s.pc == Match && s.ip <= |input| && 32 <= s.t < 64 && q + 1 < |input| && 3 <= l
    requires MatchLengthField(input, s.ip, s.t, 32) == Some(LengthRead(l - 2, q))
    requires MediumDistance(UShort(input[q], input[q + 1])) == d
    requires 1 <= d <= |x| && CopyCount(l - 2, d) == l
    requires Holds(s, x, n) && |x| + l <= n
    ensures Step(input, s) == Next(s')
    ensures s'.pc == MatchDone && s'.ip == q + 2 && Holds(s', CopyBack(x, d, l), n)
  {
    var s1 := s.(ip := q, t := l - 2);
    MediumDispatch(input, s, LengthRead(l - 2, q));
    assert StepMatch(input, s) == MediumTail(input, s1);
    s' := MediumTailCopies(input, s1, x, d, l, n);
    assert Step(input, s) == StepMatch(input, s);
  }

  /** A 32..63 record, distance up to 0x4000, read back. */
  lemma MediumRecordRead(input: seq<byte>, p: nat, d: nat, l: nat, k: nat)
    requires 1 <= d <= 0x4000 && 3 <= l < MaxRun && k < 4
    requires BytesAt(input, p, WithTrail(MediumMatch(d, l), k))
    ensures Decoded(input, p, d, l, k, p + |MediumMatch(d, l)|)
  {
    MediumRoundTrip(input, p, d, l, k);
  }

  /** Where FarRoundTrips(d, l) holds, the back offset line 345 computes from the tag's
      length bits and the ushort is d - 0x4000. */
  lemma FarOffsetBack(d: nat, l: nat, u: nat)
    requires FarRoundTrips(d, l) && 3 <= l && u / 4 == (d - 0x4000) % 0x4000
    ensures FarBackOffset(l - 2, u) == d - 0x4000
  {
    FarRoundTripIff(d, l);
    var off := d - 0x4000;
    assert (off % 0x4000 * 4) / 4 == off % 0x4000;
  }

  /** The decoder at a 16..31 tag whose length field ends at q and whose ushort gives
      back offset d - 0x4000. */
  lemma FarStepAt(input: seq<byte>, s: Machine, x: seq<byte>, d: nat, l: nat, q: nat, n: nat) returns (s': Machine)
    requires s.pc == Match && s.ip <= |input| && 16 <= s.t < 32 && q + 1 < |input| && 3 <= l
    requires MatchLengthField(input, s.ip, s.t, 8) == Some(LengthRead(l - 2, q))
    requires FarBackOffset(l - 2, UShort(input[q], input[q + 1])) == d - 0x4000
    requires 0x4000 < d <= |x| && CopyCount(l - 2, d) == l
    requires Holds(s, x, n) && |x| + l <= n
    ensures Step(input, s) == Next(s')
    ensures s'.pc == MatchDone && s'.ip == q + 2 && Holds(s', CopyBack(x, d, l), n)
  {
    var s1 := s.(ip := q, t := l - 2);
    FarDispatch(input, s, LengthRead(l - 2, q), s1);
    s' := FarTailCopies(input, s1, x, d, l, n);
    assert Step(input, s) == StepMatch(input, s);
  }

  /** A 16..31 record whose distance the decoder, as written, reads back. */
  lemma FarRecordRead(input: seq<byte>, p: nat, d: nat, l: nat, k: nat)
    requires FarRoundTrips(d, l) && 3 <= l < MaxRun && k < 4
    requires BytesAt(input, p, WithTrail(FarMatch(d, l), k))
    ensures Decoded(input, p, d, l, k, p + |FarMatch(d, l)|)
  {
    FarRoundTrip(input, p, d, l, k);
    var q := p + |FarMatch(d, l)| - 2;
    FarOffsetBack(d, l, UShort(input[q], input[q + 1]));
  }

  /** The decoder reads back the record MatchRecord(d, l) picks, whatever count k of
      trailing literals is ORed into it. */
  lemma RecordDecodes(input: seq<byte>, p: nat, d: nat, l: nat, k: nat)
    requires 1 <= d && 3 <= l < MaxRun && k < 4 && LayoutDecodes(d, l)
    requires BytesAt(input, p, WithTrail(MatchRecord(d, l), k))
    ensures Decoded(input, p, d, l, k, p + |MatchRecord(d, l)|)
  {
    RecordLayouts(d, l);
    if l <= 8 && d <= 0x800 {
      ShortRecordRead(input, p, d, l, k);
    } else if d <= 0x4000 {
      MediumRecordRead(input, p, d, l, k);
    } else {
      FarRecordRead(input, p, d, l, k);
    }
  }

  /** Lines 319-366: from the tag of a record the decoder reads as (d, l), one step appends
      the copy and stops at the record's end. */
  lemma MatchStepAt(input: seq<byte>, s: Machine, x: seq<byte>, p: nat, d: nat, l: nat, k: nat, e: nat, n: nat) returns (s': Machine)
    requires AtTag(input, s) && s.ip == p + 1 && Decoded(input, p, d, l, k, e)
    requires Holds(s, x, n) && 1 <= d <= |x| && |x| + l <= n
    ensures Step(input, s) == Next(s')
    ensures s'.pc == MatchDone && s'.ip == e && Holds(s', CopyBack(x, d, l), n)
  {
    DecodedIs(input, p, d, l, k, e);
    if s.t >= 64 {
      s' := ShortStepAt(input, s, x, d, l, n);
    } else if s.t >= 32 {
      s' := MediumStepAt(input, s, x, d, l, e - 2, n);
    } else {
      s' := FarStepAt(input, s, x, d, l, e - 2, n);
    }
  }

  // ---- moving between records ----

  /** Lines 277-283 with a first byte of at most 17, and line 369 with no trailing
      literals: on to the loop top, nothing copied. */
  lemma ToLoopTop(input: seq<byte>, s: Machine) returns (s': Machine)
    requires s.ip < |input|
    requires (s.pc == Start && input[s.ip] as int <= 17) ||
             (s.pc == MatchDone && s.ip >= 2 && input[s.ip - 2] as int % 4 == 0)
    ensures Step(input, s) == Next(s')
    ensures s'.pc == LoopTop && s'.ip == s.ip && s'.op == s.op && s'.out == s.out
  {
    var tr := Step(input, s);
    s' := tr.s;
  }

  /** Lines 293-294 and 303-304: a byte of 16 or more is read as a match tag. */
  lemma ToTag(input: seq<byte>, s: Machine) returns (s': Machine)
    requires s.pc == LoopTop || s.pc == FirstLiteralRun
    requires s.ip < |input| && input[s.ip] as int >= 16
    ensures Step(input, s) == Next(s')
    ensures AtTag(input, s') && s'.ip == s.ip + 1 && s'.op == s.op && s'.out == s.out
  {
    var tr := Step(input, s);
    s' := tr.s;
  }

  /** Lines 368-375: one to three trailing literals are copied and the next byte is a tag. */
  lemma FlushTrail(input: seq<byte>, s: Machine, x: seq<byte>, tr: seq<byte>, n: nat) returns (s': Machine)
    requires s.ip + |tr| < |input| && BytesAt(input, s.ip, tr) && input[s.ip + |tr|] as int >= 16
    requires s.pc == MatchDone && s.ip >= 2 && 1 <= |tr| <= 3 && input[s.ip - 2] as int % 4 == |tr|
    requires Holds(s, x, n) && |x| + |tr| <= n
    ensures Step(input, s) == Next(s')
    ensures AtTag(input, s') && s'.ip == s.ip + |tr| + 1 && Holds(s', x + tr, n)
  {
    CopyInAppends(x, n, input, s.ip, |tr|);
    var t := Step(input, s);
    s' := t.s;
  }

  /** Lines 340-350 and 378: the end marker 17, 0, 0 read at its tag returns 0 when it ends
      the input. */
  lemma EndStep(input: seq<byte>, s: Machine)
    requires AtTag(input, s) && s.t == 17 && s.ip + 2 == |input| && input[s.ip] == 0 && input[s.ip + 1] == 0
    ensures Run(input, s) == Done(0, s.out)
  {
    EndMatch(input, s);
    assert EofCode(|input|, s.ip + 2) == 0;
    assert Step(input, s) == Halt(Done(0, s.out));
  }

  lemma EndMatch(input: seq<byte>, s: Machine)
    requires AtTag(input, s) && s.t == 17 && s.ip + 2 == |input| && input[s.ip] == 0 && input[s.ip + 1] == 0
    ensures StepMatch(input, s) == Halt(Done(EofCode(|input|, s.ip + 2), s.out))
  {
    var s1 := s.(t := 1);
    assert s1.ip == s.ip && s1.t == 1 && s1.out == s.out;
    assert MatchLengthField(input, s.ip, 17, 8) == Some(LengthRead(1, s.ip));
    FarDispatch(input, s, LengthRead(1, s.ip), s1);
    ZeroBackOffset(s1.t, input[s1.ip], input[s1.ip + 1]);
    EndMarkerTail(input, s1);
  }

  lemma ZeroBackOffset(t: nat, lo: byte, hi: byte)
    requires t == 1 && lo == 0 && hi == 0
    ensures FarBackOffset(t, UShort(lo, hi)) == 0
  {
  }

  /** Lines 345-346: a zero back offset is the end marker. */
  lemma EndMarkerTail(input: seq<byte>, s: Machine)
    requires s.ip + 1 < |input| && FarBackOffset(s.t, UShort(input[s.ip], input[s.ip + 1])) == 0
    ensures FarTail(input, s) == Halt(Done(EofCode(|input|, s.ip + 2), s.out))
  {
  }

  /** A step that does not halt leaves the outcome of the run unchanged. */
  lemma RunNext(input: seq<byte>, s: Machine, s': Machine)
    requires s.ip <= |input| && Step(input, s) == Next(s')
    ensures s'.ip <= |input| && Run(input, s) == Run(input, s')
  {
  }

  // ---- record boundaries ----

  /** The decoder state s is at program point pc after a record whose bytes end at pos: the
      cursor is at its pending trailing literals tr, which are still to be copied, and the
      output holds x, everything else produced so far. */
  predicate Boundary(input: seq<byte>, s: Machine, pc: Pc, pos: nat, tr: seq<byte>, x: seq<byte>, n: nat)
  {
    s.pc == pc && s.ip + |tr| == pos && BytesAt(input, s.ip, tr) && Holds(s, x, n) &&
    (pc == MatchDone ==> s.ip >= 2 && input[s.ip - 2] as int % 4 == |tr|)
  }

  /** The program points at which a record ends: the start, after a literal run (where no
      literals are pending), after a match. */
  predicate Resting(pc: Pc, tr: seq<byte>)
  {
    (pc == Start && tr == []) || (pc == FirstLiteralRun && tr == []) || (pc == MatchDone && |tr| <= 3)
  }

  /** From a boundary to the tag at pos that starts what follows (a match record or the end
      marker): the pending trailing literals are copied on the way. */
  lemma ReachTag(input: seq<byte>, s: Machine, pc: Pc, pos: nat, tr: seq<byte>, x: seq<byte>, n: nat) returns (s': Machine)
    requires Boundary(input, s, pc, pos, tr, x, n) && Resting(pc, tr) && |x| + |tr| <= n
    requires pos < |input| && input[pos] as int >= 16
    requires pc == Start ==> input[pos] as int <= 17
    ensures s'.ip <= |input| && Run(input, s) == Run(input, s')
    ensures AtTag(input, s') && s'.ip == pos + 1 && Holds(s', x + tr, n)
  {
    if tr == [] {
      assert x + tr == x;
      var s1 := s;
      if pc == Start || pc == MatchDone {
        s1 := ToLoopTop(input, s);
        RunNext(input, s, s1);
      }
      s' := ToTag(input, s1);
      RunNext(input, s1, s');
    } else {
      s' := FlushTrail(input, s, x, tr, n);
      RunNext(input, s, s');
    }
  }

  /** A literal-run record at pos, reached at the start or after a match with no trailing
      literals. */
  lemma LiteralRecord(input: seq<byte>, s: Machine, pc: Pc, pos: nat, x: seq<byte>, b: seq<byte>, n: nat) returns (s': Machine)
    requires Boundary(input, s, pc, pos, [], x, n) && (pc == Start || pc == MatchDone)
    requires 4 <= |b| < MaxRun && BytesAt(input, pos, LiteralHeader(|b|) + b) && |x| + |b| <= n
    ensures Boundary(input, s', FirstLiteralRun, pos + |LiteralHeader(|b|)| + |b|, [], x + b, n)
    ensures Run(input, s) == Run(input, s')
  {
    BytesAtSplit(input, pos, LiteralHeader(|b|), b);
    ReadLiteralHeader(input, pos, |b|);
    var s1 := ToLoopTop(input, s);
    RunNext(input, s, s1);
    s' := LiteralStep(input, s1, x, b, n);
    RunNext(input, s1, s');
  }

  /** The bytes w of a match record (d, l) with its trailing literals tr' at pos, reached at
      a boundary with pending literals tr: the output grows by tr and the copy, and tr' is
      pending. */
  lemma MatchRecordAt(input: seq<byte>, s: Machine, pc: Pc, pos: nat, tr: seq<byte>, x: seq<byte>, y: seq<byte>,
                      d: nat, l: nat, tr': seq<byte>, w: seq<byte>, n: nat) returns (s': Machine)
    requires Boundary(input, s, pc, pos, tr, x, n) && Resting(pc, tr) && pc != Start && y == x + tr
    requires 1 <= d <= |y| && 3 <= l < MaxRun && |tr'| <= 3 && LayoutDecodes(d, l) && |y| + l <= n
    requires w == WithTrail(MatchRecord(d, l), |tr'|) + tr' && BytesAt(input, pos, w)
    ensures Boundary(input, s', MatchDone, pos + |w|, tr', CopyBack(y, d, l), n)
    ensures Run(input, s) == Run(input, s')
  {
    var e := pos + |MatchRecord(d, l)|;
    CopyRecordRead(input, pos, d, l, tr');
    s' := DecodedMatchAt(input, s, pc, pos, tr, x, y, d, l, e, e + |tr'|, tr', n);
  }

  /** A match record read as (d, l) from pos to e, with its trailing literals tr' after it,
      reached at a boundary with pending literals tr. */
  lemma DecodedMatchAt(input: seq<byte>, s: Machine, pc: Pc, pos: nat, tr: seq<byte>, x: seq<byte>, y: seq<byte>,
                      d: nat, l: nat, e: nat, end: nat, tr': seq<byte>, n: nat) returns (s': Machine)
    requires Boundary(input, s, pc, pos, tr, x, n) && Resting(pc, tr) && pc != Start && y == x + tr
    requires Decoded(input, pos, d, l, |tr'|, e) && BytesAt(input, e, tr') && end == e + |tr'|
    requires 1 <= d <= |y| && |y| + l <= n
    ensures Boundary(input, s', MatchDone, end, tr', CopyBack(y, d, l), n)
    ensures Run(input, s) == Run(input, s')
  {
    DecodedEnd(input, pos, d, l, |tr'|, e);
    var s1 := ReachTag(input, s, pc, pos, tr, x, n);
    s' := MatchFrom(input, s1, y, pos, d, l, e, end, tr', n);
  }

  /** From the tag of a match record read as (d, l) to the boundary after it. */
  lemma MatchFrom(input: seq<byte>, s: Machine, y: seq<byte>, pos: nat, d: nat, l: nat, e: nat, end: nat,
                  tr': seq<byte>, n: nat) returns (s': Machine)
    requires AtTag(input, s) && s.ip == pos + 1 && Holds(s, y, n) && 1 <= d <= |y| && |y| + l <= n
    requires Decoded(input, pos, d, l, |tr'|, e) && BytesAt(input, e, tr') && end == e + |tr'|
    ensures Boundary(input, s', MatchDone, end, tr', CopyBack(y, d, l), n)
    ensures Run(input, s) == Run(input, s')
  {
    DecodedEnd(input, pos, d, l, |tr'|, e);
    s' := MatchStepAt(input, s, y, pos, d, l, |tr'|, e, n);
    RunNext(input, s, s');
  }

  /** Whatever its layout, a record read as (d, l) leaves the count k of trailing literals
      in the low two bits of the byte two before its end. */
  lemma DecodedEnd(input: seq<byte>, p: nat, d: nat, l: nat, k: nat, e: nat)
    requires Decoded(input, p, d, l, k, e)
    ensures p + 2 <= e <= |input| && input[p] as int >= 16 && input[e - 2] as int % 4 == k
  {
    DecodedIs(input, p, d, l, k, e);
  }

  // ---- the decoder over a sequence of records ----

  /** The trailing literals of the record before j, which the decoder copies only on
      reaching the next tag. */
  function Pending(items: seq<Item>, j: nat): seq<byte>
    requires j <= |items|
  {
    if j > 0 && items[j - 1].Copy? then items[j - 1].trail else []
  }

  /** What the output holds when the decoder has read the records before j, except for
      their pending trailing literals. */
  function Produced(items: seq<Item>, j: nat): seq<byte>
    requires j <= |items|
  {
    if j > 0 && items[j - 1].Copy? then
      CopyBack(Expand(items[..j - 1]), items[j - 1].dist, items[j - 1].len)
    else Expand(items[..j])
  }

  /** The program point the decoder is at after the records before j. */
  function Entry(items: seq<Item>, j: nat): Pc
    requires j <= |items|
  {
    if j == 0 then Start else if items[j - 1].Literal? then FirstLiteralRun else MatchDone
  }

  /** The decoder state s has read the records before j of input. */
  predicate Before(items: seq<Item>, input: seq<byte>, j: nat, s: Machine, n: nat)
  {
    j <= |items| && AllEncodable(items[..j]) &&
    Boundary(input, s, Entry(items, j), |Enc(items[..j])|, Pending(items, j), Produced(items, j), n)
  }

  /** The records before j end at a point where the decoder rests, and what they produce
      is their expansion. */
  lemma BeforeFacts(items: seq<Item>, j: nat)
    requires j <= |items| && AllEncodable(items[..j])
    ensures Resting(Entry(items, j), Pending(items, j))
    ensures Produced(items, j) + Pending(items, j) == Expand(items[..j])
  {
    if j > 0 {
      ExpandStep(items, j - 1);
      assert items[..j][j - 1] == items[j - 1];
    }
    if Pending(items, j) == [] {
      assert Produced(items, j) + [] == Produced(items, j);
    }
  }

  /** Record j's bytes lie in the stream right after those of the records before it, and
      its expansion extends theirs. */
  lemma ItemAt(items: seq<Item>, input: seq<byte>, j: nat)
    requires AllEncodable(items) && j < |items| && input == Enc(items) + EndMarker
    ensures Encodable(items[j]) && AllEncodable(items[..j]) && AllEncodable(items[..j + 1])
    ensures |Enc(items[..j + 1])| == |Enc(items[..j])| + |ItemBytes(items[j])|
    ensures BytesAt(input, |Enc(items[..j])|, ItemBytes(items[j]))
    ensures Expand(items[..j + 1]) == ExpandItem(Expand(items[..j]), items[j])
    ensures |Expand(items[..j + 1])| <= |Expand(items)|
  {
    EncPrefix(items, j + 1);
    EncStep(items, j);
    BytesAtPrefix(input, Enc(items[..j]), ItemBytes(items[j]), Enc(items));
    ExpandStep(items, j);
    ExpandPrefix(items, j + 1);
  }

  lemma BytesAtPrefix(input: seq<byte>, a: seq<byte>, b: seq<byte>, e: seq<byte>)
    requires a + b <= e && input == e + EndMarker
    ensures BytesAt(input, |a|, b) && |a| + |b| + 3 <= |input|
  {
    assert input[|a|..|a| + |b|] == (a + b)[|a|..];
  }

  /** The end marker follows the last record. */
  lemma EndAt(items: seq<Item>, input: seq<byte>)
    requires AllEncodable(items) && input == Enc(items) + EndMarker
    ensures AllEncodable(items[..|items|]) && Enc(items[..|items|]) == Enc(items)
    ensures Expand(items[..|items|]) == Expand(items)
    ensures |input| == |Enc(items)| + 3
    ensures input[|Enc(items)|] == 17 && input[|Enc(items)| + 1] == 0 && input[|Enc(items)| + 2] == 0
  {
    assert items[..|items|] == items;
  }

  /** The first record is a literal run: a match would reach back before the output. */
  lemma FirstIsLiteral(items: seq<Item>)
    requires InRange(items) && AllEncodable(items) && items != []
    ensures items[0].Literal?
  {
    assert items[..0] == [];
    assert Expand(items[..0]) == [];
  }

  /** A literal run follows the start or a match without trailing literals. */
  lemma LiteralEntry(items: seq<Item>, j: nat)
    requires Linked(items) && j < |items| && items[j].Literal?
    ensures Pending(items, j) == [] && Produced(items, j) == Expand(items[..j])
    ensures Entry(items, j) == Start || Entry(items, j) == MatchDone
    ensures Entry(items, j + 1) == FirstLiteralRun && Pending(items, j + 1) == []
  {
    if j > 0 {
      assert items[j - 1].Copy? && items[j - 1].trail == [];
      ExpandStep(items, j - 1);
      assert Produced(items, j) + [] == Produced(items, j);
    }
  }

  /** A literal-run record: the output grows by its literals. */
  lemma DecodeLiteral(items: seq<Item>, input: seq<byte>, j: nat, s: Machine, n: nat) returns (s': Machine)
    requires WellFormed(items) && input == Enc(items) + EndMarker && |Expand(items)| <= n
    requires j < |items| && items[j].Literal? && Before(items, input, j, s, n)
    ensures Before(items, input, j + 1, s', n) && Run(input, s) == Run(input, s')
  {
    var b := items[j].data;
    ItemAt(items, input, j);
    LiteralEntry(items, j);
    assert Produced(items, j + 1) == Expand(items[..j + 1]) == Expand(items[..j]) + b;
    s' := LiteralRecord(input, s, Entry(items, j), |Enc(items[..j])|, Expand(items[..j]), b, n);
  }

  /** A match record: the output grows by the copy, and its trailing literals are pending. */
  lemma DecodeCopy(items: seq<Item>, input: seq<byte>, j: nat, s: Machine, n: nat) returns (s': Machine)
    requires Before(items, input, j, s, n) && CopyFits(items, j, n)
    requires Encodable(items[j]) && LayoutDecodes(items[j].dist, items[j].len) && AllEncodable(items[..j + 1])
    requires BytesAt(input, |Enc(items[..j])|, ItemBytes(items[j]))
    requires |Enc(items[..j + 1])| == |Enc(items[..j])| + |ItemBytes(items[j])|
    ensures Before(items, input, j + 1, s', n) && Run(input, s) == Run(input, s')
  {
    var d, l, tr' := items[j].dist, items[j].len, items[j].trail;
    var pos := |Enc(items[..j])|;
    BeforeFacts(items, j);
    var x, tr, y, w := Produced(items, j), Pending(items, j), Expand(items[..j]), ItemBytes(items[j]);
    s' := MatchRecordAt(input, s, Entry(items, j), pos, tr, x, y, d, l, tr', w, n);
    CopyBoundary(items, input, j, s', n);
  }

  /** After match record j, the decoder rests where Before(j + 1) says. */
  lemma CopyBoundary(items: seq<Item>, input: seq<byte>, j: nat, s: Machine, n: nat)
    requires j < |items| && items[j].Copy? && AllEncodable(items[..j + 1])
    requires Boundary(input, s, MatchDone, |Enc(items[..j + 1])|, items[j].trail,
                      CopyBack(Expand(items[..j]), items[j].dist, items[j].len), n)
    ensures Before(items, input, j + 1, s, n)
  {
    assert Entry(items, j + 1) == MatchDone && Pending(items, j + 1) == items[j].trail;
    assert Produced(items, j + 1) == CopyBack(Expand(items[..j]), items[j].dist, items[j].len);
  }

  /** Record j is a match that reaches back into the expansion of the records before it,
      of which there is at least one, and what it adds fits in a buffer of n bytes. */
  predicate CopyFits(items: seq<Item>, j: nat, n: nat)
  {
    0 < j < |items| && items[j].Copy? &&
    1 <= items[j].dist <= |Expand(items[..j])| && |Expand(items[..j])| + items[j].len + |items[j].trail| <= n
  }

  /** A match record with trailing literals tr after it, read back. */
  lemma CopyRecordRead(input: seq<byte>, pos: nat, d: nat, l: nat, tr: seq<byte>)
    requires 1 <= d && 3 <= l < MaxRun && |tr| <= 3 && LayoutDecodes(d, l)
    requires BytesAt(input, pos, WithTrail(MatchRecord(d, l), |tr|) + tr)
    ensures var e := pos + |MatchRecord(d, l)|;
      Decoded(input, pos, d, l, |tr|, e) && BytesAt(input, e, tr)
  {
    BytesAtSplit(input, pos, WithTrail(MatchRecord(d, l), |tr|), tr);
    RecordDecodes(input, pos, d, l, |tr|);
  }

  /** In decodable records every match has a layout the decoder reads back and fits. */
  lemma CopyItemRange(items: seq<Item>, j: nat, n: nat)
    requires Decodable(items) && j < |items| && items[j].Copy? && |Expand(items)| <= n
    ensures CopyFits(items, j, n) && LayoutDecodes(items[j].dist, items[j].len)
  {
    FirstIsLiteral(items);
    assert Encodable(items[j]);
    ExpandStep(items, j);
    ExpandPrefix(items, j + 1);
  }

  /** After the last record, the end marker: the decoder returns 0 with the expansion at the
      front of the buffer. */
  lemma DecodeEnd(items: seq<Item>, input: seq<byte>, s: Machine, n: nat)
    requires AllEncodable(items) && input == Enc(items) + EndMarker && |Expand(items)| <= n
    requires Before(items, input, |items|, s, n)
    ensures Run(input, s) == Done(0, Expand(items) + Zeros(n - |Expand(items)|))
  {
    EndAt(items, input);
    BeforeFacts(items, |items|);
    var s1 := ReachTag(input, s, Entry(items, |items|), |Enc(items)|, Pending(items, |items|),
                       Produced(items, |items|), n);
    EndStep(input, s1);
  }

  lemma {:induction false} DecodeFrom(items: seq<Item>, input: seq<byte>, j: nat, s: Machine, n: nat)
    requires Decodable(items) && input == Enc(items) + EndMarker && |Expand(items)| <= n
    requires Before(items, input, j, s, n)
    ensures Run(input, s) == Done(0, Expand(items) + Zeros(n - |Expand(items)|))
    decreases |items| - j
  {
    if j == |items| {
      DecodeEnd(items, input, s, n);
    } else {
      var s' := s;
      if items[j].Literal? {
        s' := DecodeLiteral(items, input, j, s, n);
      } else {
        CopyItemRange(items, j, n);
        ItemAt(items, input, j);
        s' := DecodeCopy(items, input, j, s, n);
      }
      DecodeFrom(items, input, j + 1, s', n);
    }
  }

  /** Decompressing the records' bytes and the end marker into a buffer big enough for
      their expansion returns 0 with the expansion followed by the buffer's zeros. */
  lemma DecodesRecords(items: seq<Item>, n: nat)
    requires Decodable(items) && |Expand(items)| <= n
    ensures Decompress(Enc(items) + EndMarker, n) == Done(0, Expand(items) + Zeros(n - |Expand(items)|))
  {
    var input := Enc(items) + EndMarker;
    assert items[..0] == [];
    assert [] + Zeros(n) == Zeros(n);
    assert Before(items, input, 0, Initial(n), n);
    DecodeFrom(items, input, 0, Initial(n), n);
  }

  /** Lines 277-283: a first byte of 17 + t copies the t literals that follow it. */
  lemma ShortLiteralStep(input: seq<byte>, b: seq<byte>, n: nat) returns (s': Machine)
    requires 1 <= |b| <= 238 && |b| <= n && 1 <= |input| && input[0] as int == 17 + |b| && BytesAt(input, 1, b)
    ensures Step(input, Initial(n)) == Next(s')
    ensures (s'.pc == LoopTop || s'.pc == FirstLiteralRun) && s'.ip == 1 + |b| && Holds(s', b, n)
  {
    assert [] + Zeros(n) == Zeros(n);
    CopyInAppends([], n, input, 1, |b|);
    assert [] + b == b;
    var tr := Step(input, Initial(n));
    s' := tr.s;
  }

  /** The stream of a whole input written as one short literal run decompresses to it. */
  lemma DecodesShortLiteral(b: seq<byte>, n: nat)
    requires 1 <= |b| <= 238 && |b| <= n
    ensures Decompress([(17 + |b|) as byte] + b + EndMarker, n) == Done(0, b + Zeros(n - |b|))
  {
    var input := [(17 + |b|) as byte] + b + EndMarker;
    assert input[1..1 + |b|] == b;
    var s1 := ShortLiteralStep(input, b, n);
    RunNext(input, Initial(n), s1);
    assert input[1 + |b|] == 17 && input[2 + |b|] == 0 && input[3 + |b|] == 0;
    var s2 := ToTag(input, s1);
    RunNext(input, s1, s2);
    EndStep(input, s2);
  }

  /** Round trip of the decoder: every stream the record layer describes decompresses, into
      a buffer at least as long as its expansion, to that expansion with result 0. */
  lemma DecodesStream(items: seq<Item>, n: nat)
    requires SingleShortLiteral(items) || Decodable(items)
    requires |Expand(items)| <= n
    ensures Decompress(EncodeStream(items), n) == Done(0, Expand(items) + Zeros(n - |Expand(items)|))
  {
    if SingleShortLiteral(items) {
      DecodesSingle(items, n);
    } else {
      assert EncodeStream(items) == Enc(items) + EndMarker;
      DecodesRecords(items, n);
    }
  }

  /** The single short literal run expands to its bytes, which DecodesShortLiteral reads. */
  lemma DecodesSingle(items: seq<Item>, n: nat)
    requires SingleShortLiteral(items) && |Expand(items)| <= n
    ensures Decompress(EncodeStream(items), n) == Done(0, Expand(items) + Zeros(n - |Expand(items)|))
  {
    var b := SingleShape(items);
    DecodesShortLiteral(b, n);
  }

  /** The bytes of a single short literal run and its expansion. */
  lemma SingleShape(items: seq<Item>) returns (b: seq<byte>)
    requires SingleShortLiteral(items)
    ensures 1 <= |b| <= 238 && Expand(items) == b && EncodeStream(items) == [(17 + |b|) as byte] + b + EndMarker
  {
    b := items[0].data;
    assert items[..0] == [];
    assert Expand(items) == [] + b == b;
  }
}

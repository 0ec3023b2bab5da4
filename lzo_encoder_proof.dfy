/** The record layer's side of the compressor: how the records grow when Lzo1x1CompressCore
    and Compress emit a literal run, a match, or the trailing literals of the last match, and
    why the records stay well formed and expand to the input read so far. */
module LzoEncoderProof {
  import opened LzoFormat
  import opened LzoStream

  /** No records yet, or the last one is a match whose trailing-literal count is still zero,
      so that a run of one to three literals can be ORed into it (line 208). */
  predicate Open(items: seq<Item>)
  {
    items == [] || (items[|items| - 1].Copy? && items[|items| - 1].trail == [])
  }

  /** The records with the last one, a match, given the trailing literals tr. */
  function Trailed(items: seq<Item>, tr: seq<byte>): (r: seq<Item>)
    requires items != [] && items[|items| - 1].Copy?
    ensures |r| == |items| && r[..|items| - 1] == items[..|items| - 1]
    ensures r[|items| - 1] == items[|items| - 1].(trail := tr)
  {
    items[..|items| - 1] + [items[|items| - 1].(trail := tr)]
  }

  /** The records with the literals b appended the way lines 142-146 write them: nothing
      for no bytes, one to three as the trailing literals of the last match, more as a
      literal run of their own. */
  function WithLiterals(items: seq<Item>, b: seq<byte>): seq<Item>
    requires 1 <= |b| <= 3 ==> items != [] && items[|items| - 1].Copy?
  {
    if |b| == 0 then items
    else if |b| <= 3 then Trailed(items, b)
    else items + [Literal(b)]
  }

  /** ORing a value below 2^w into a multiple of 2^w adds it: the C# `|` of two bit fields
      that do not overlap. */
  lemma {:induction false} OrDisjoint(a: nat, b: nat, w: nat)
    requires b < Pow2(w)
    ensures OrNat(a * Pow2(w), b) == a * Pow2(w) + b
    decreases w
  {
    if w > 0 && a * Pow2(w) != 0 && b != 0 {
      var h := a * Pow2(w - 1);
      assert a * Pow2(w) == 2 * h;
      OrDisjoint(a, b / 2, w - 1);
    }
  }

  /** A zero count leaves a match record as it is. */
  lemma WithTrailZero(rec: seq<byte>)
    requires |rec| >= 2
    ensures WithTrail(rec, 0) == rec
  {
    assert Or(rec[|rec| - 2], 0) == rec[|rec| - 2];
  }

  /** Appending a record keeps the records well formed when it is encodable, follows a
      literal run only if it is a match, and reaches back only into what is produced. */
  lemma WellFormedAppend(items: seq<Item>, it: Item)
    requires WellFormed(items) && Encodable(it)
    requires items != [] && (items[|items| - 1].Literal? || items[|items| - 1].trail != []) ==> it.Copy?
    requires it.Copy? ==> it.dist <= |Expand(items)|
    ensures WellFormed(items + [it])
  {
    EncAppend(items, it);
    LinkedAppend(items, it);
    InRangeAppend(items, it);
  }

  lemma LinkedAppend(items: seq<Item>, it: Item)
    requires Linked(items)
    requires items != [] && (items[|items| - 1].Literal? || items[|items| - 1].trail != []) ==> it.Copy?
    ensures Linked(items + [it])
  {
    var r := items + [it];
    forall i, j | 0 <= i && j == i + 1 < |r|
      ensures (r[i].Literal? || r[i].trail != []) ==> r[j].Copy?
    {
      if j < |items| {
        assert r[i] == items[i] && r[j] == items[j];
      } else {
        assert r[i] == items[|items| - 1] && r[j] == it;
      }
    }
  }

  lemma InRangeAppend(items: seq<Item>, it: Item)
    requires InRange(items)
    requires it.Copy? ==> it.dist <= |Expand(items)|
    ensures InRange(items + [it])
  {
    var r := items + [it];
    forall i | 0 <= i < |r| && r[i].Copy?
      ensures r[i].dist <= |Expand(r[..i])|
    {
      if i < |items| {
        assert r[..i] == items[..i] && r[i] == items[i];
      } else {
        assert r[..i] == items;
      }
    }
  }

  /** A literal run of four or more bytes, appended where no literals are waiting. */
  lemma AppendLiteral(items: seq<Item>, b: seq<byte>)
    requires WellFormed(items) && Open(items) && 4 <= |b| < MaxRun
    ensures WellFormed(items + [Literal(b)])
    ensures Enc(items + [Literal(b)]) == (Enc(items) + LiteralHeader(|b|)) + b
    ensures Expand(items + [Literal(b)]) == Expand(items) + b
  {
    WellFormedAppend(items, Literal(b));
    EncAppend(items, Literal(b));
    ExpandAppend(items, Literal(b));
  }

  /** A match at distance d into what the records expand to, appended with no trailing
      literals: the output grows by the match record. */
  lemma AppendCopy(items: seq<Item>, d: nat, l: nat)
    requires WellFormed(items) && 1 <= d <= |Expand(items)| && 3 <= l < MaxRun
    ensures WellFormed(items + [Copy(d, l, [])]) && Open(items + [Copy(d, l, [])])
    ensures Enc(items + [Copy(d, l, [])]) == Enc(items) + MatchRecord(d, l)
    ensures Expand(items + [Copy(d, l, [])]) == CopyBack(Expand(items), d, l)
  {
    var it := Copy(d, l, []);
    WellFormedAppend(items, it);
    EncAppend(items, it);
    ExpandAppend(items, it);
    WithTrailZero(MatchRecord(d, l));
    assert ItemBytes(it) == MatchRecord(d, l) + [];
  }

  /** One to three literals after the last match: its record's byte two from the end gets
      their count ORed in, and the literals follow. */
  lemma SetTrail(items: seq<Item>, tr: seq<byte>)
    requires WellFormed(items) && items != [] && Open(items) && 1 <= |tr| <= 3
    ensures WellFormed(Trailed(items, tr))
    ensures |Enc(items)| >= 2
    ensures Enc(Trailed(items, tr)) ==
      WithTrail(Enc(items), |tr|) + tr
    ensures Expand(Trailed(items, tr)) == Expand(items) + tr
  {
    var n := |items|;
    var p, last := items[..n - 1], items[n - 1];
    assert items == p + [last];
    SetTrailWellFormed(items, p, last, tr);
    SetTrailBytes(items, p, last, tr);
    SetTrailExpand(items, p, last, tr);
  }

  lemma SetTrailExpand(items: seq<Item>, p: seq<Item>, last: Item, tr: seq<byte>)
    requires items == p + [last] && last.Copy? && last.trail == []
    ensures Expand(p + [last.(trail := tr)]) == Expand(items) + tr
  {
    ExpandAppend(p, last);
    ExpandAppend(p, last.(trail := tr));
  }

  lemma SetTrailWellFormed(items: seq<Item>, p: seq<Item>, last: Item, tr: seq<byte>)
    requires WellFormed(items) && items == p + [last] && last.Copy? && last.trail == [] && |tr| <= 3
    ensures WellFormed(p + [last.(trail := tr)])
  {
    var n := |items|;
    assert p == items[..n - 1] && last == items[n - 1];
    WellFormedPrefix(items, n - 1);
    if n > 1 {
      assert p[|p| - 1] == items[n - 2];
      assert items[n - 2] == items[n - 2 + 1 - 1];
    }
    ExpandPrefix(items, n - 1);
    WellFormedAppend(p, last.(trail := tr));
  }

  lemma SetTrailBytes(items: seq<Item>, p: seq<Item>, last: Item, tr: seq<byte>)
    requires AllEncodable(items) && items == p + [last] && last.Copy? && last.trail == [] && |tr| <= 3
    requires AllEncodable(p) && Encodable(last.(trail := tr))
    ensures |Enc(items)| >= 2
    ensures Enc(p + [last.(trail := tr)]) ==
      WithTrail(Enc(items), |tr|) + tr
  {
    var it := last.(trail := tr);
    var rec := MatchRecord(last.dist, last.len);
    var q := Enc(p);
    OpenBytes(items, p, last);
    EncAppend(p, it);
    assert ItemBytes(it) == WithTrail(rec, |tr|) + tr;
    assert Enc(p + [it]) == (q + WithTrail(rec, |tr|)) + tr;
    UpdateInRecord(q, rec, |tr|);
  }

  /** A copy without trailing literals is its bare match record. */
  lemma OpenBytes(items: seq<Item>, p: seq<Item>, last: Item)
    requires AllEncodable(items) && items == p + [last] && last.Copy? && last.trail == []
    ensures Encodable(last) && AllEncodable(p)
    ensures Enc(items) == Enc(p) + MatchRecord(last.dist, last.len)
    ensures |MatchRecord(last.dist, last.len)| >= 2
  {
    assert items[|p|] == last;
    assert items[..|p|] == p;
    AllEncodablePrefix(items, |p|);
    EncAppend(p, last);
    WithTrailZero(MatchRecord(last.dist, last.len));
    assert ItemBytes(last) == MatchRecord(last.dist, last.len) + [];
  }

  /** Updating the byte two from the end of q + rec updates it in rec. */
  lemma UpdateInRecord(q: seq<byte>, rec: seq<byte>, k: nat)
    requires |rec| >= 2 && k < 4
    ensures WithTrail(q + rec, k) == q + WithTrail(rec, k)
  {
    var o := q + rec;
    assert o[|o| - 2] == rec[|rec| - 2];
  }

  /** What WriteLength (lines 203-217) leaves written when o was written before: the tag
      17 + length for the last literals when nothing was written, a count up to 3 ORed into
      the byte two back, or the literal-run header. */
  function LengthWritten(o: seq<byte>, length: nat, isLastWrite: bool): seq<byte>
    requires length < MaxRun
    requires length <= 3 && !(isLastWrite && |o| == 0) ==> |o| >= 2
  {
    if isLastWrite && |o| == 0 && length <= 238 then [(17 + length) as byte]
    else if length <= 3 then WithTrail(o, length)
    else o + LiteralHeader(length)
  }

  /** One to three literals after a match become its trailing literals. */
  lemma TrailRecords(items: seq<Item>, b: seq<byte>, isLastWrite: bool) returns (r: seq<Item>)
    requires WellFormed(items) && items != [] && Open(items) && 1 <= |b| <= 3
    ensures |Enc(items)| >= 2 && r == Trailed(items, b)
    ensures WellFormed(r) && Enc(r) == LengthWritten(Enc(items), |b|, isLastWrite) + b
    ensures Expand(r) == Expand(items) + b && !SingleShortLiteral(r)
  {
    SetTrail(items, b);
    r := Trailed(items, b);
    OrWritten(Enc(items), |b|, isLastWrite);
    TrailedNotSingle(items, b);
  }

  lemma TrailedNotSingle(items: seq<Item>, tr: seq<byte>)
    requires items != [] && items[|items| - 1].Copy?
    ensures !SingleShortLiteral(Trailed(items, tr))
  {
    var r := Trailed(items, tr);
    assert r[|r| - 1].Copy?;
  }

  lemma OrWritten(o: seq<byte>, n: nat, isLastWrite: bool)
    requires |o| >= 2 && 1 <= n <= 3
    ensures LengthWritten(o, n, isLastWrite) == WithTrail(o, n)
  {
  }

  /** Four or more literals become a literal run of their own; as the last write it is not
      the single short literal run unless it is the first output and at most 238 bytes. */
  lemma RunRecords(items: seq<Item>, b: seq<byte>, isLastWrite: bool) returns (r: seq<Item>)
    requires WellFormed(items) && Open(items) && 4 <= |b| < MaxRun
    requires !(isLastWrite && items == [] && |b| <= 238)
    ensures r == items + [Literal(b)]
    ensures WellFormed(r) && Enc(r) == LengthWritten(Enc(items), |b|, isLastWrite) + b
    ensures Expand(r) == Expand(items) + b && (isLastWrite ==> !SingleShortLiteral(r))
  {
    AppendLiteral(items, b);
    r := items + [Literal(b)];
    var o := Enc(items);
    if items != [] {
      EncLength(items);
    }
    assert LengthWritten(o, |b|, isLastWrite) == o + LiteralHeader(|b|);
  }

  /** Records that end in a copy without trailing literals are not the single short literal
      run. */
  lemma OpenNotSingle(items: seq<Item>)
    requires Open(items)
    ensures !SingleShortLiteral(items)
  {
  }

  /** WriteLength(|b|) followed by the bytes b, the way lines 142-146 and 96-100 emit
      literals, writes the records r: the records with b appended as trailing literals of
      the last match or as a literal run of its own. The one exception, the whole input as
      a short literal run, is SingleLiteralStream. */
  lemma LiteralRecords(items: seq<Item>, b: seq<byte>, isLastWrite: bool) returns (r: seq<Item>)
    requires WellFormed(items) && Open(items) && 1 <= |b| < MaxRun
    requires |b| <= 3 ==> items != []
    requires !(isLastWrite && items == [] && |b| <= 238)
    ensures |b| <= 3 ==> |Enc(items)| >= 2
    ensures r == WithLiterals(items, b)
    ensures WellFormed(r) && Enc(r) == LengthWritten(Enc(items), |b|, isLastWrite) + b
    ensures Expand(r) == Expand(items) + b && (isLastWrite ==> !SingleShortLiteral(r))
  {
    if |b| <= 3 {
      r := TrailRecords(items, b, isLastWrite);
    } else {
      r := RunRecords(items, b, isLastWrite);
    }
  }

  /** LiteralRecords for the t bytes of s at from, when the records expand to the bytes
      before them: the new records expand to the first from + t bytes. */
  lemma InputLiteralRecords(s: seq<byte>, items: seq<Item>, from: nat, t: nat, isLastWrite: bool)
    returns (r: seq<Item>)
    requires 1 <= t < MaxRun && from + t <= |s|
    requires WellFormed(items) && Open(items) && Expand(items) == s[..from]
    requires t <= 3 ==> items != []
    requires !(isLastWrite && items == [] && t <= 238)
    ensures t <= 3 ==> |Enc(items)| >= 2
    ensures r == WithLiterals(items, s[from..from + t])
    ensures WellFormed(r) && Enc(r) == LengthWritten(Enc(items), t, isLastWrite) + s[from..from + t]
    ensures Expand(r) == s[..from + t] && (isLastWrite ==> !SingleShortLiteral(r))
  {
    var b := s[from..from + t];
    assert |b| == t;
    PrefixJoin(s, from, from + t);
    r := LiteralRecords(items, b, isLastWrite);
  }

  /** The last write with nothing written before it, of 1 to 238 bytes: the tag 17 + |b|,
      the bytes and the end marker are the stream of the single short literal run. */
  lemma SingleLiteralStream(b: seq<byte>)
    requires 1 <= |b| <= 238
    ensures SingleShortLiteral([Literal(b)]) && Expand([Literal(b)]) == b
    ensures EncodeStream([Literal(b)]) == LengthWritten([], |b|, true) + b + EndMarker
  {
    assert Expand([Literal(b)]) == Expand([]) + b;
  }

  /** A match of the l bytes of s at p with the l bytes d back, after records that expand
      to the bytes before p: with the copy appended they expand to the first p + l bytes. */
  lemma InputMatchRecords(s: seq<byte>, items: seq<Item>, p: nat, d: nat, l: nat) returns (r: seq<Item>)
    requires 1 <= d <= p && 3 <= l < MaxRun && p + l <= |s|
    requires WellFormed(items) && Expand(items) == s[..p] && Agree(s, p, p - d, l)
    ensures r == items + [Copy(d, l, [])] && WellFormed(r) && Open(r)
    ensures Enc(r) == Enc(items) + MatchRecord(d, l) && Expand(r) == s[..p + l]
  {
    CopyBackMatch(s, p, d, l);
    AppendCopy(items, d, l);
    r := items + [Copy(d, l, [])];
  }

  /** The bytes the match copies are the ones already at its source: copying l bytes from d
      back onto s[..p] gives s[..p + l], also when the copy overlaps itself (d < l). */
  lemma {:induction false} CopyBackMatch(s: seq<byte>, p: nat, d: nat, l: nat)
    requires 1 <= d <= p && p + l <= |s| && s[p..p + l] == s[p - d..p - d + l]
    ensures CopyBack(s[..p], d, l) == s[..p + l]
    decreases l
  {
    if l > 0 {
      assert s[p..p + l - 1] == s[p..p + l][..l - 1] == s[p - d..p - d + l][..l - 1] == s[p - d..p - d + l - 1];
      CopyBackMatch(s, p, d, l - 1);
      assert s[p + l - 1] == s[p..p + l][l - 1] == s[p - d..p - d + l][l - 1] == s[p - d + l - 1];
      assert s[..p + l] == s[..p + l - 1] + [s[p + l - 1]];
    }
  }

  /** A prefix is a shorter prefix followed by the bytes between. */
  lemma PrefixJoin(s: seq<byte>, i: nat, j: nat)
    requires i <= j <= |s|
    ensures s[..j] == s[..i] + s[i..j]
  {
  }

  /** The n bytes of s at p are the n bytes at q. */
  predicate Agree(s: seq<byte>, p: nat, q: nat, n: nat)
  {
    p + n <= |s| && q + n <= |s| && s[p..p + n] == s[q..q + n]
  }

  /** Two runs of agreeing bytes side by side make one. */
  lemma AgreeJoin(s: seq<byte>, p: nat, q: nat, a: nat, b: nat)
    requires Agree(s, p, q, a) && Agree(s, p + a, q + a, b)
    ensures Agree(s, p, q, a + b)
  {
    assert s[p..p + a + b] == s[p..p + a] + s[p + a..p + a + b];
    assert s[q..q + a + b] == s[q..q + a] + s[q + a..q + a + b];
  }

  /** No record is empty, so no output means no records. */
  lemma EncEmpty(items: seq<Item>)
    requires AllEncodable(items) && |Enc(items)| == 0
    ensures items == []
  {
    if items != [] {
      EncLength(items);
    }
  }

  /** Records that expand to at most 0x4000 bytes reach back at most 0x4000 bytes, which the
      32..63 layout covers: the decoder reads all of them back. */
  lemma SmallDecodable(items: seq<Item>)
    requires WellFormed(items) && |Expand(items)| <= 0x4000
    ensures Decodable(items)
  {
    forall i | 0 <= i < |items| && items[i].Copy?
      ensures LayoutDecodes(items[i].dist, items[i].len)
    {
      ExpandPrefix(items, i);
      assert items[i].dist <= |Expand(items[..i])|;
    }
  }

  /** Every record of a stream that expands to nothing is absent: it is the end marker alone. */
  lemma EmptyStream(items: seq<Item>)
    requires StreamItems(items) && Expand(items) == []
    ensures EncodeStream(items) == EndMarker
  {
    if SingleShortLiteral(items) {
      assert false;
    } else {
      ExpandEmpty(items);
    }
  }
}

/** A compressed stream as a sequence of records (items), what its bytes are, and what it
    expands to. The compressor is proved to emit Enc(items) for items that expand to its
    input; the decompressor is proved to turn those bytes back into Expand(items). */
module LzoStream {
  import opened LzoFormat

  /** One record: a run of at least four literals, or a back-reference (distance, length)
      followed by up to three literals whose count rides in the record's low bits. */
  datatype Item = Literal(data: seq<byte>) | Copy(dist: nat, len: nat, trail: seq<byte>)

  /** Lengths stay below 2^31 (a .NET array bound), so no `uint` length arithmetic wraps. */
  const MaxRun: nat := 0x8000_0000

  predicate Encodable(it: Item)
  {
    match it
    case Literal(b) => 4 <= |b| < MaxRun
    case Copy(d, l, tr) => 1 <= d && 3 <= l < MaxRun && |tr| <= 3
  }

  function ItemBytes(it: Item): seq<byte>
    requires Encodable(it)
  {
    match it
    case Literal(b) => LiteralHeader(|b|) + b
    case Copy(d, l, tr) => WithTrail(MatchRecord(d, l), |tr|) + tr
  }

  predicate AllEncodable(items: seq<Item>)
  {
    forall i :: 0 <= i < |items| ==> Encodable(items[i])
  }

  /** The bytes of the records, in order (without the end marker). */
  function Enc(items: seq<Item>): seq<byte>
    requires AllEncodable(items)
  {
    if items == [] then [] else Enc(items[..|items| - 1]) + ItemBytes(items[|items| - 1])
  }

  /** Appends n bytes, each copied from d bytes back in what has been produced so far, so a
      distance below n repeats the last d bytes (an overlapping copy). */
  function CopyBack(s: seq<byte>, d: nat, n: nat): (r: seq<byte>)
    ensures |r| == |s| + n && r[..|s|] == s
  {
    if n == 0 then s
    else
      var r := CopyBack(s, d, n - 1);
      r + [if 1 <= d <= |r| then r[|r| - d] else 0]
  }

  function ExpandItem(s: seq<byte>, it: Item): seq<byte>
  {
    match it
    case Literal(b) => s + b
    case Copy(d, l, tr) => CopyBack(s, d, l) + tr
  }

  /** What a sequence of records decompresses to. */
  function Expand(items: seq<Item>): seq<byte>
  {
    if items == [] then [] else ExpandItem(Expand(items[..|items| - 1]), items[|items| - 1])
  }

  /** A literal run, or a copy with trailing literals, is followed by a copy record: that is
      the only place the format lets the decoder read a literal run. */
  predicate Linked(items: seq<Item>)
  {
    forall i, j {:trigger items[i], items[j]} :: 0 <= i && j == i + 1 < |items| ==>
      (items[i].Literal? || items[i].trail != []) ==> items[j].Copy?
  }

  /** Every copy reaches back only into bytes already produced. */
  predicate InRange(items: seq<Item>)
  {
    forall i {:trigger Expand(items[..i])} :: 0 <= i < |items| ==>
      items[i].Copy? ==> items[i].dist <= |Expand(items[..i])|
  }

  predicate WellFormed(items: seq<Item>)
  {
    AllEncodable(items) && Linked(items) && InRange(items)
  }

  /** The record layout chosen for (d, l) is one the decoder reads back. */
  predicate LayoutDecodes(d: nat, l: nat)
  {
    (l <= 8 && d <= 0x800) || d <= 0x4000 || FarRoundTrips(d, l)
  }

  predicate Decodable(items: seq<Item>)
  {
    WellFormed(items) &&
    forall i :: 0 <= i < |items| ==> items[i].Copy? ==> LayoutDecodes(items[i].dist, items[i].len)
  }

  /** The whole input as one literal run of 1..238 bytes, written before any other output:
      the tag 17 + length replaces the literal header (line 206). */
  predicate SingleShortLiteral(items: seq<Item>)
  {
    |items| == 1 && items[0].Literal? && 1 <= |items[0].data| <= 238
  }

  predicate StreamItems(items: seq<Item>)
  {
    SingleShortLiteral(items) || WellFormed(items)
  }

  /** A complete compressed stream: the records and then the end marker 17, 0, 0. */
  function EncodeStream(items: seq<Item>): seq<byte>
    requires StreamItems(items)
  {
    if SingleShortLiteral(items) then [(17 + |items[0].data|) as byte] + items[0].data + EndMarker
    else Enc(items) + EndMarker
  }

  // ---- structure lemmas ----

  lemma AllEncodablePrefix(items: seq<Item>, k: nat)
    requires AllEncodable(items) && k <= |items|
    ensures AllEncodable(items[..k])
  {
    assert forall i :: 0 <= i < k ==> items[..k][i] == items[i];
  }

  lemma EncAppend(items: seq<Item>, it: Item)
    requires AllEncodable(items) && Encodable(it)
    ensures AllEncodable(items + [it])
    ensures Enc(items + [it]) == Enc(items) + ItemBytes(it)
  {
    assert (items + [it])[..|items|] == items;
  }

  lemma ExpandAppend(items: seq<Item>, it: Item)
    ensures Expand(items + [it]) == ExpandItem(Expand(items), it)
  {
    assert (items + [it])[..|items|] == items;
  }

  lemma EncStep(items: seq<Item>, k: nat)
    requires AllEncodable(items) && k < |items|
    ensures AllEncodable(items[..k]) && AllEncodable(items[..k + 1])
    ensures Enc(items[..k + 1]) == Enc(items[..k]) + ItemBytes(items[k])
  {
    AllEncodablePrefix(items, k);
    AllEncodablePrefix(items, k + 1);
    assert items[..k + 1][..k] == items[..k];
  }

  /** Enc of a prefix is a prefix of Enc. */
  lemma {:induction false} EncPrefix(items: seq<Item>, k: nat)
    requires AllEncodable(items) && k <= |items|
    ensures AllEncodable(items[..k])
    ensures Enc(items[..k]) <= Enc(items)
    decreases |items| - k
  {
    AllEncodablePrefix(items, k);
    if k < |items| {
      EncPrefix(items, k + 1);
      EncStep(items, k);
      PrefixAppend(Enc(items[..k]), ItemBytes(items[k]), Enc(items));
    } else {
      assert items[..k] == items;
    }
  }

  lemma PrefixAppend(a: seq<byte>, b: seq<byte>, c: seq<byte>)
    requires a + b <= c
    ensures a <= c
  {
    assert c[..|a|] == (a + b)[..|a|];
  }

  lemma ExpandStep(items: seq<Item>, k: nat)
    requires k < |items|
    ensures Expand(items[..k + 1]) == ExpandItem(Expand(items[..k]), items[k])
  {
    assert items[..k + 1][..k] == items[..k];
  }

  /** Expand only appends: a prefix's expansion is a prefix of the whole expansion. */
  lemma {:induction false} ExpandPrefix(items: seq<Item>, k: nat)
    requires k <= |items|
    ensures Expand(items[..k]) <= Expand(items)
    decreases |items| - k
  {
    if k < |items| {
      ExpandPrefix(items, k + 1);
      ExpandStep(items, k);
    } else {
      assert items[..k] == items;
    }
  }

  /** Each record is at least two bytes, so a non-empty Enc has a byte two from its end. */
  lemma EncLength(items: seq<Item>)
    requires AllEncodable(items) && items != []
    ensures |Enc(items)| >= 2
  {
    var last := items[|items| - 1];
    assert |ItemBytes(last)| >= 2;
  }

  lemma ExpandEmpty(items: seq<Item>)
    requires AllEncodable(items)
    ensures |Expand(items)| == 0 ==> items == []
  {
    if items != [] {
      var last := items[|items| - 1];
      assert Encodable(last);
      assert |ExpandItem(Expand(items[..|items| - 1]), last)| >= 3;
    }
  }

  lemma WellFormedPrefix(items: seq<Item>, k: nat)
    requires WellFormed(items) && k <= |items|
    ensures WellFormed(items[..k])
  {
    AllEncodablePrefix(items, k);
    var p := items[..k];
    forall i | 0 <= i < |p| && p[i].Copy?
      ensures p[i].dist <= |Expand(p[..i])|
    {
      assert p[..i] == items[..i];
    }
    assert forall i :: 0 <= i < |p| ==> p[i] == items[i];
  }
}

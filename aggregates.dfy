// Fixed-size aggregates (vectors, and matrices as vectors of columns): the
// closed set of layouts that the source selects at compile time through its
// `HasValueType` / `HasColType` traits, and their byte encoding.

module Aggregates {
  import opened Bytes

  /** A layout: an integer of `width` bytes, or `count` elements of one
      layout stored back to back. A vector of n scalars is
      Array(n, Scalar(w)); a matrix of c columns of r scalars is
      Array(c, Array(r, Scalar(w))). */
  datatype Shape = Scalar(width: Width) | Array(count: nat, elem: Shape)

  /** A decoded value: an integer, or the elements of an aggregate in index
      order. */
  datatype Value = Int(n: nat) | Elements(items: seq<Value>)

  /** The bytes taken by `count` elements of `size` bytes each, laid end to
      end: count * size, written as repeated addition (see SpanIsProduct). */
  function Span(count: nat, size: nat): nat {
    if count == 0 then 0 else Span(count - 1, size) + size
  }

  lemma {:induction false} SpanIsProduct(count: nat, size: nat)
    ensures Span(count, size) == count * size
  {
    if count > 0 {
      SpanIsProduct(count - 1, size);
    }
  }

  lemma {:induction false} SpanMonotone(i: nat, count: nat, size: nat)
    requires i <= count
    ensures Span(i, size) <= Span(count, size)
    decreases count
  {
    if i < count {
      SpanMonotone(i, count - 1, size);
    }
  }

  /** `sizeof` of the layout: elements have no padding between them. */
  function Size(s: Shape): nat {
    match s
    case Scalar(w) => w
    case Array(c, e) => Span(c, Size(e))
  }

  /** A value that has the given layout, each integer within its width. */
  predicate Fits(v: Value, s: Shape) {
    match s
    case Scalar(w) => v.Int? && v.n < Pow256(w)
    case Array(c, e) =>
      v.Elements? && |v.items| == c && forall i :: 0 <= i < c ==> Fits(v.items[i], e)
  }

  /** The value the reader decodes from `bs` for layout `s`. */
  function DecodeValue(bs: seq<Byte>, s: Shape, bigEndian: bool): Value
    requires |bs| == Size(s)
    decreases s, 0
  {
    match s
    case Scalar(_) => Int(Decode(bs, bigEndian))
    case Array(c, e) => Elements(DecodeItems(bs, c, e, bigEndian))
  }

  /** `count` elements of layout `e` decoded one after another; written as
      "the first count - 1 elements, then the last one". */
  function DecodeItems(bs: seq<Byte>, count: nat, e: Shape, bigEndian: bool): seq<Value>
    requires |bs| == Span(count, Size(e))
    decreases e, 1, count
  {
    if count == 0 then []
    else
      var k := Span(count - 1, Size(e));
      DecodeItems(bs[..k], count - 1, e, bigEndian) + [DecodeValue(bs[k..], e, bigEndian)]
  }

  /** The bytes the writer emits for a value: each integer little-endian
      (the host order), elements in index order. */
  function EncodeValue(v: Value, s: Shape): (bs: seq<Byte>)
    requires Fits(v, s)
    ensures |bs| == Size(s)
    decreases s, 0
  {
    match s
    case Scalar(w) => EncodeLE(v.n, w)
    case Array(_, e) => EncodeItems(v.items, e)
  }

  function EncodeItems(items: seq<Value>, e: Shape): (bs: seq<Byte>)
    requires forall i :: 0 <= i < |items| ==> Fits(items[i], e)
    ensures |bs| == Span(|items|, Size(e))
    decreases e, 1, |items|
  {
    if items == [] then []
    else EncodeItems(items[..|items| - 1], e) + EncodeValue(items[|items| - 1], e)
  }

  /** Encoding one more element appends its bytes: the step of the
      writer's element loop. */
  lemma EncodeItemsSnoc(items: seq<Value>, i: nat, e: Shape)
    requires i < |items| && forall j :: 0 <= j < |items| ==> Fits(items[j], e)
    ensures EncodeItems(items[..i + 1], e) == EncodeItems(items[..i], e) + EncodeValue(items[i], e)
  {
    assert items[..i + 1][..i] == items[..i];
  }

  /** Element i of an aggregate is decoded from its own slice,
      bytes [Span(i), Span(i + 1)): elements are laid out in index order
      with nothing between them. */
  lemma {:induction false} DecodeItemsAt(bs: seq<Byte>, count: nat, e: Shape, bigEndian: bool, i: nat)
    requires |bs| == Span(count, Size(e)) && i < count
    ensures |DecodeItems(bs, count, e, bigEndian)| == count
    ensures Span(i + 1, Size(e)) <= |bs|
    ensures DecodeItems(bs, count, e, bigEndian)[i]
         == DecodeValue(bs[Span(i, Size(e))..Span(i + 1, Size(e))], e, bigEndian)
    decreases count
  {
    DecodeItemsLength(bs, count, e, bigEndian);
    var k := Span(count - 1, Size(e));
    var lo, hi := Span(i, Size(e)), Span(i + 1, Size(e));
    assert k + Size(e) == |bs| && hi == lo + Size(e);
    if i < count - 1 {
      DecodeItemsLength(bs[..k], count - 1, e, bigEndian);
      DecodeItemsAt(bs[..k], count - 1, e, bigEndian, i);
      assert hi <= k;
      assert bs[..k][lo..hi] == bs[lo..hi];
    } else {
      assert bs[k..] == bs[lo..hi];
    }
  }

  /** Decoding one more element extends the decoded run by that element:
      the step of the reader's element loop, for the run of bytes that
      starts at `start`. */
  lemma DecodeItemsSnoc(data: seq<Byte>, start: nat, i: nat, e: Shape, bigEndian: bool,
                        items: seq<Value>, x: Value)
    requires start + Span(i, Size(e)) + Size(e) <= |data|
    requires items == DecodeItems(data[start..start + Span(i, Size(e))], i, e, bigEndian)
    requires x == DecodeValue(data[start + Span(i, Size(e))..start + Span(i, Size(e)) + Size(e)], e, bigEndian)
    ensures start + Span(i + 1, Size(e)) <= |data|
    ensures items + [x] == DecodeItems(data[start..start + Span(i + 1, Size(e))], i + 1, e, bigEndian)
  {
    var lo, hi := Span(i, Size(e)), Span(i + 1, Size(e));
    DecodeItemsAppend(data[start..start + lo], data[start + lo..start + hi], i + 1, e, bigEndian);
    assert data[start..start + lo] + data[start + lo..start + hi] == data[start..start + hi];
  }

  lemma {:induction false} DecodeItemsLength(bs: seq<Byte>, count: nat, e: Shape, bigEndian: bool)
    requires |bs| == Span(count, Size(e))
    ensures |DecodeItems(bs, count, e, bigEndian)| == count
    decreases count
  {
    if count > 0 {
      DecodeItemsLength(bs[..Span(count - 1, Size(e))], count - 1, e, bigEndian);
    }
  }

  /** Decoding what the writer encoded, with a little-endian reader, gives
      back the value, for every layout: the vector and matrix round trip. */
  lemma {:induction false} RoundTrip(v: Value, s: Shape)
    requires Fits(v, s)
    ensures DecodeValue(EncodeValue(v, s), s, false) == v
    decreases s, 0
  {
    match s
    case Scalar(w) =>
      DecodeEncode(v.n, w);
    case Array(c, e) =>
      RoundTripItems(v.items, e);
  }

  lemma {:induction false} RoundTripItems(items: seq<Value>, e: Shape)
    requires forall i :: 0 <= i < |items| ==> Fits(items[i], e)
    ensures DecodeItems(EncodeItems(items, e), |items|, e, false) == items
    decreases e, 1, |items|
  {
    if items != [] {
      var n := |items|;
      var init, last := items[..n - 1], items[n - 1];
      calc {
        DecodeItems(EncodeItems(items, e), n, e, false);
        { DecodeEncodedLast(items, e); }
        DecodeItems(EncodeItems(init, e), n - 1, e, false) + [DecodeValue(EncodeValue(last, e), e, false)];
        { RoundTripItems(init, e); RoundTrip(last, e); }
        init + [last];
        items;
      }
    }
  }

  /** Decoding the bytes of n elements splits, as their encoding does,
      into the first n - 1 and the last. */
  lemma DecodeEncodedLast(items: seq<Value>, e: Shape)
    requires items != [] && forall i :: 0 <= i < |items| ==> Fits(items[i], e)
    ensures DecodeItems(EncodeItems(items, e), |items|, e, false)
         == DecodeItems(EncodeItems(items[..|items| - 1], e), |items| - 1, e, false)
            + [DecodeValue(EncodeValue(items[|items| - 1], e), e, false)]
  {
    var n := |items|;
    var a, b := EncodeItems(items[..n - 1], e), EncodeValue(items[n - 1], e);
    assert EncodeItems(items, e) == a + b;
    DecodeItemsAppend(a, b, n, e, false);
  }

  /** The bytes of n elements are those of the first n - 1 followed by
      those of the last. */
  lemma DecodeItemsAppend(a: seq<Byte>, b: seq<Byte>, n: nat, e: Shape, bigEndian: bool)
    requires n > 0 && |a| == Span(n - 1, Size(e)) && |b| == Size(e)
    ensures DecodeItems(a + b, n, e, bigEndian) == DecodeItems(a, n - 1, e, bigEndian) + [DecodeValue(b, e, bigEndian)]
  {
    assert (a + b)[..|a|] == a;
    assert (a + b)[|a|..] == b;
  }
}

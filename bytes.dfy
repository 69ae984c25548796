// Base-256 integer codec: the value a run of bytes denotes in either byte
// order, and the little-endian bytes a value is stored as.

module Bytes {

  type Byte = b: int | 0 <= b < 256

  /** The integer widths `Read<T>` and `Write<T>` handle: `sizeof(T)` of the
      fixed-width integer types. Wider types do not fit the source's
      `uintmax_t` accumulator. */
  type Width = w: nat | w == 1 || w == 2 || w == 4 || w == 8 witness 1

  function Pow256(n: nat): (r: nat)
    ensures r >= 1
  {
    if n == 0 then 1 else 256 * Pow256(n - 1)
  }

  /** The value of `bs` read least significant byte first:
      the sum of bs[i] * 256^i. */
  function LittleEndian(bs: seq<Byte>): nat {
    if bs == [] then 0 else bs[0] + 256 * LittleEndian(bs[1..])
  }

  function Reverse(bs: seq<Byte>): (r: seq<Byte>)
    ensures |r| == |bs|
    ensures forall i :: 0 <= i < |bs| ==> r[i] == bs[|bs| - 1 - i]
  {
    if bs == [] then [] else Reverse(bs[1..]) + [bs[0]]
  }

  /** The value `Read<T>` assembles from the `sizeof(T)` bytes `bs`: in
      big-endian mode byte i of the result is bs[|bs| - 1 - i], so the value
      is the little-endian reading of the reversed slice. */
  function Decode(bs: seq<Byte>, bigEndian: bool): nat {
    if bigEndian then LittleEndian(Reverse(bs)) else LittleEndian(bs)
  }

  /** The `width` bytes of `value` least significant first: the in-memory
      layout of an unsigned integer on a little-endian host. */
  function EncodeLE(value: nat, width: nat): (bs: seq<Byte>)
    requires value < Pow256(width)
    ensures |bs| == width
  {
    if width == 0 then [] else [value % 256] + EncodeLE(value / 256, width - 1)
  }

  /** Every decoded value fits in the byte count it came from. */
  lemma {:induction false} LittleEndianBound(bs: seq<Byte>)
    ensures LittleEndian(bs) < Pow256(|bs|)
  {
    if bs != [] {
      LittleEndianBound(bs[1..]);
    }
  }

  lemma DecodeBound(bs: seq<Byte>, bigEndian: bool)
    ensures Decode(bs, bigEndian) < Pow256(|bs|)
  {
    LittleEndianBound(bs);
    LittleEndianBound(Reverse(bs));
  }

  /** Adding one more significant byte at the top: the step the reader's
      accumulation loop takes. */
  lemma {:induction false} LittleEndianSnoc(bs: seq<Byte>, b: Byte)
    ensures LittleEndian(bs + [b]) == LittleEndian(bs) + b * Pow256(|bs|)
  {
    if bs == [] {
      assert [b][1..] == [];
    } else {
      var t := bs[1..];
      assert (bs + [b])[1..] == t + [b];
      LittleEndianSnoc(t, b);
      var p := Pow256(|t|);
      calc {
        LittleEndian(bs + [b]);
        bs[0] + 256 * LittleEndian(t + [b]);
        bs[0] + 256 * (LittleEndian(t) + b * p);
        bs[0] + 256 * LittleEndian(t) + 256 * (b * p);
        { assert 256 * (b * p) == b * (256 * p); }
        LittleEndian(bs) + b * Pow256(|bs|);
      }
    }
  }

  /** Big-endian reading is Horner's rule, most significant byte first. */
  lemma BigEndianHorner(bs: seq<Byte>, b: Byte)
    ensures Decode(bs + [b], true) == 256 * Decode(bs, true) + b
  {
    assert Reverse(bs + [b]) == [b] + Reverse(bs);
  }

  /** A single byte reads the same in both byte orders. */
  lemma DecodeSingleByte(b: Byte)
    ensures Decode([b], true) == b && Decode([b], false) == b
  {
    assert [b][1..] == [];
    assert Reverse([b]) == [b];
    assert LittleEndian([b]) == b + 256 * LittleEndian([]);
  }

  /** Reading a value back from its little-endian bytes gives the value. */
  lemma {:induction false} DecodeEncode(value: nat, width: nat)
    requires value < Pow256(width)
    ensures LittleEndian(EncodeLE(value, width)) == value
  {
    if width > 0 {
      DecodeEncode(value / 256, width - 1);
    }
  }

  /** Encoding a decoded run of bytes gives the same bytes back. */
  lemma {:induction false} EncodeDecode(bs: seq<Byte>)
    ensures LittleEndian(bs) < Pow256(|bs|)
    ensures EncodeLE(LittleEndian(bs), |bs|) == bs
  {
    LittleEndianBound(bs);
    if bs != [] {
      EncodeDecode(bs[1..]);
      assert bs == [bs[0]] + bs[1..];
    }
  }

  /** The big-endian bytes of a value are its little-endian bytes reversed. */
  lemma BigEndianOfReversed(value: nat, width: nat)
    requires value < Pow256(width)
    ensures Decode(Reverse(EncodeLE(value, width)), true) == value
  {
    var bs := EncodeLE(value, width);
    assert Reverse(Reverse(bs)) == bs;
    DecodeEncode(value, width);
  }
}

// The read cursor over an immutable byte buffer (binaryreader.hpp,
// binaryreader.cpp).

module Reader {
  import opened Bytes
  import opened Aggregates
  import Util

  /** Where a pointer read or skip leaves the cursor: aligned to the pointer
      width, then past one pointer. */
  function PointerEnd(offset: nat, is64BitMode: bool): (r: nat)
    ensures var w := if is64BitMode then 8 else 4;
      r >= w && (r - w) % w == 0 && offset <= r - w < offset + w
  {
    var w := if is64BitMode then 8 else 4;
    Util.Align(offset, w) + w
  }

  /** The integer assembled from the `width` bytes at `start`, the loop of
      `Read<T>`: byte i of the result is data[start + i] in little-endian
      mode and data[start + width - 1 - i] in big-endian mode. The source
      ORs `data[..] << (i * 8)` into its accumulator; the bytes occupy
      disjoint bit ranges, so that is the sum taken here. The source shifts
      in `int`, which is undefined for i >= 4 or a byte with its high bit
      set at i == 3; the model takes the base-256 value that is meant. */
  method Assemble(data: seq<Byte>, start: nat, width: nat, bigEndian: bool) returns (v: nat)
    requires start + width <= |data|
    ensures v == Decode(data[start..start + width], bigEndian)
  {
    ghost var window := data[start..start + width];
    ghost var ordered := if bigEndian then Reverse(window) else window;
    v := 0;
    var i := 0;
    while i < width
      invariant 0 <= i <= width
      invariant v == LittleEndian(ordered[..i])
    {
      var b := if bigEndian then data[start + width - i - 1] else data[start + i];
      assert b == ordered[i];
      LittleEndianSnoc(ordered[..i], b);
      assert ordered[..i + 1] == ordered[..i] + [b];
      v := v + b * Pow256(i);
      i := i + 1;
    }
    assert ordered[..width] == ordered;
  }

  class BinaryReader {
    /** The buffer is borrowed and never written: a `const`. The source
        holds a raw pointer with no length; here every read requires its
        bytes to lie inside the sequence. */
    const buffer: seq<Byte>
    var bigEndian: bool
    var is64BitMode: bool
    /** An `off_t`: `Seek` may move it anywhere, even below zero; the reads
        require it to be in range. */
    var offset: int

    constructor (buffer: seq<Byte>, bigEndian: bool)
      ensures this.buffer == buffer && this.bigEndian == bigEndian
      ensures !is64BitMode && offset == 0
    {
      this.buffer := buffer;
      this.bigEndian := bigEndian;
      is64BitMode := false;
      offset := 0;
    }

    /** A second, independent cursor over the same buffer. */
    method Copy() returns (r: BinaryReader)
      ensures fresh(r)
      ensures r.buffer == buffer && r.bigEndian == bigEndian
      ensures r.is64BitMode == is64BitMode && r.offset == offset
    {
      r := new BinaryReader(buffer, bigEndian);
      r.Set64BitMode(is64BitMode);
      r.Seek(offset, Util.Beg);
    }

    method Set64BitMode(on: bool)
      modifies this`is64BitMode
      ensures is64BitMode == on
    {
      is64BitMode := on;
    }

    function GetBuffer(): seq<Byte> reads this { buffer }

    function IsBigEndian(): bool reads this { bigEndian }

    function GetOffset(): int reads this { offset }

    function PointerWidth(): nat reads this { if is64BitMode then 8 else 4 }

    /** `cur` moves relative to the offset; every other direction, `end`
        included, sets the offset absolutely (the reader does not know the
        buffer's length). */
    method Seek(to: int, dir: Util.SeekDir)
      modifies this`offset
      ensures offset == if dir == Util.Cur then old(offset) + to else to
    {
      if dir == Util.Cur {
        offset := offset + to;
      } else {
        offset := to;
      }
    }

    method Skip(width: nat)
      modifies this`offset
      ensures offset == old(offset) + width
    {
      Seek(width, Util.Cur);
    }

    /** `Read<T>` for an unsigned integer of `width` bytes. */
    method Read(width: Width) returns (v: nat)
      requires 0 <= offset && offset + width <= |buffer|
      modifies this`offset
      ensures v == Decode(buffer[old(offset)..old(offset) + width], bigEndian)
      ensures v < Pow256(width)
      ensures offset == old(offset) + width
    {
      v := Assemble(buffer, offset, width, bigEndian);
      DecodeBound(buffer[offset..offset + width], bigEndian);
      Skip(width);
    }

    /** `Read<T>` for a byte: the byte itself, in either byte order. */
    method ReadByte() returns (b: Byte)
      requires 0 <= offset < |buffer|
      modifies this`offset
      ensures b == buffer[old(offset)] && offset == old(offset) + 1
    {
      var v := Read(1);
      assert buffer[old(offset)..old(offset) + 1] == [buffer[old(offset)]];
      DecodeSingleByte(buffer[old(offset)]);
      b := v;
    }

    /** `Read<T>` for an aggregate: its elements, in index order, each read
        with the reader of its own layout. */
    method ReadValue(s: Shape) returns (v: Value)
      requires 0 <= offset && offset + Size(s) <= |buffer|
      modifies this`offset
      ensures v == DecodeValue(buffer[old(offset)..old(offset) + Size(s)], s, bigEndian)
      ensures offset == old(offset) + Size(s)
      decreases s, 1
    {
      match s
      case Scalar(w) =>
        var n := Read(w);
        v := Int(n);
      case Array(c, e) =>
        var items := ReadItems(c, e);
        v := Elements(items);
    }

    /** The element loop of `Read<T>` for an aggregate: `count` elements
        of layout `e`, in index order. */
    method ReadItems(count: nat, e: Shape) returns (items: seq<Value>)
      requires 0 <= offset && offset + Span(count, Size(e)) <= |buffer|
      modifies this`offset
      ensures items == DecodeItems(buffer[old(offset)..old(offset) + Span(count, Size(e))], count, e, bigEndian)
      ensures offset == old(offset) + Span(count, Size(e))
      decreases e, 3
    {
      ghost var start := offset;
      ghost var run: seq<Byte> := [];
      items := [];
      for i := 0 to count
        invariant Span(i, Size(e)) <= Span(count, Size(e))
        invariant offset == start + Span(i, Size(e))
        invariant run == buffer[start..offset]
        invariant items == DecodeItems(run, i, e, bigEndian)
      {
        SpanMonotone(i + 1, count, Size(e));
        items, run := ReadNext(start, i, e, items, run);
      }
    }

    /** One pass of the element loop: element i, read right after elements
        0 .. i - 1, which came from the bytes `run`. */
    method ReadNext(ghost start: nat, ghost i: nat, e: Shape, items: seq<Value>, ghost run: seq<Byte>)
      returns (more: seq<Value>, ghost longer: seq<Byte>)
      requires offset == start + Span(i, Size(e)) && start + Span(i + 1, Size(e)) <= |buffer|
      requires run == buffer[start..offset] && items == DecodeItems(run, i, e, bigEndian)
      modifies this`offset
      ensures offset == start + Span(i + 1, Size(e))
      ensures longer == buffer[start..offset] && more == DecodeItems(longer, i + 1, e, bigEndian)
      decreases e, 2
    {
      var x := ReadValue(e);
      DecodeItemsSnoc(buffer, start, i, e, bigEndian, items, x);
      more, longer := items + [x], buffer[start..offset];
    }

    /** `Align(n)`: round the offset up to a multiple of n. */
    method Align(n: nat)
      requires n > 0 && offset >= 0
      modifies this`offset
      ensures offset == Util.Align(old(offset), n)
    {
      offset := Util.Align(offset, n);
    }

    /** `Align()`: align to the pointer width, 8 bytes in 64-bit mode and 4
        otherwise. */
    method AlignToPointer()
      requires offset >= 0
      modifies this`offset
      ensures offset == Util.Align(old(offset), PointerWidth())
    {
      Align(if is64BitMode then 8 else 4);
    }

    method SkipPointer()
      requires offset >= 0
      modifies this`offset
      ensures offset == PointerEnd(old(offset), is64BitMode)
    {
      AlignToPointer();
      if is64BitMode {
        Skip(8);
        return;
      }
      Skip(4);
    }

    /** Align, then read a 4- or 8-byte pointer; a 4-byte pointer comes back
        zero-extended, so it stays below 2^32. */
    method ReadPointer() returns (p: nat)
      requires offset >= 0
      requires Util.Align(offset, PointerWidth()) + PointerWidth() <= |buffer|
      modifies this`offset
      ensures var at := Util.Align(old(offset), PointerWidth());
        p == Decode(buffer[at..at + PointerWidth()], bigEndian)
      ensures p < Pow256(PointerWidth())
      ensures offset == PointerEnd(old(offset), is64BitMode)
    {
      AlignToPointer();
      if is64BitMode {
        p := Read(8);
        return;
      }
      p := Read(4);
    }

    /** `ReadString()`: the bytes up to the first zero byte at or after the
        offset, then the offset aligned to the pointer width past that zero.
        The zero must lie inside the buffer. */
    method ReadString() returns (s: seq<Byte>)
      requires offset >= 0
      requires exists z :: offset <= z < |buffer| && buffer[z] == 0
      modifies this`offset
      ensures old(offset) + |s| < |buffer| && buffer[old(offset) + |s|] == 0
      ensures s == buffer[old(offset)..old(offset) + |s|]
      ensures forall i :: 0 <= i < |s| ==> s[i] != 0
      ensures offset == Util.Align(old(offset) + |s| + 1, PointerWidth())
    {
      ghost var z :| offset <= z < |buffer| && buffer[z] == 0;
      ghost var start := offset;
      s := [];
      var c := ReadByte();
      while c != 0
        invariant start + |s| <= z
        invariant offset == start + |s| + 1
        invariant c == buffer[start + |s|]
        invariant s == buffer[start..start + |s|]
        invariant forall i :: 0 <= i < |s| ==> s[i] != 0
        decreases z - |s|
      {
        s := s + [c];
        c := ReadByte();
      }
      AlignToPointer();
    }

    /** `ReadString(size)`: exactly `size` bytes, zero bytes included. */
    method ReadStringOfSize(size: nat) returns (s: seq<Byte>)
      requires 0 <= offset && offset + size <= |buffer|
      modifies this`offset
      ensures s == buffer[old(offset)..old(offset) + size]
      ensures offset == old(offset) + size
    {
      s := [];
      for i := 0 to size
        invariant offset == old(offset) + i
        invariant s == buffer[old(offset)..offset]
      {
        var c := ReadByte();
        s := s + [c];
      }
    }
  }
}

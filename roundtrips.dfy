// The two cursors used together: what the writer emits, a reader over the
// same bytes reads back. The writer stores integers in host order; these
// properties hold on a little-endian host, read with a little-endian reader.

module RoundTrips {
  import opened Bytes
  import opened Aggregates
  import opened Patches
  import Util
  import opened Reader
  import opened Writer

  /** An integer written with `Write<T>` reads back with `Read<T>`. */
  method IntegerRoundTrip(value: nat, width: Width) returns (read: nat)
    requires value < Pow256(width)
    ensures read == value
  {
    var w := new BinaryWriter();
    w.Write(value, width);
    var r := new BinaryReader(w.buf, false);
    OverwriteAtEnd([], EncodeLE(value, width));
    read := r.Read(width);
    DecodeEncode(value, width);
    assert w.buf[0..width] == EncodeLE(value, width);
  }

  /** A vector or matrix written element by element reads back element by
      element, in the same order. */
  method ValueRoundTrip(v: Value, s: Shape) returns (read: Value)
    requires Fits(v, s)
    ensures read == v
  {
    var w := new BinaryWriter();
    w.WriteValue(v, s);
    var r := new BinaryReader(w.buf, false);
    OverwriteAtEnd([], EncodeValue(v, s));
    read := r.ReadValue(s);
    assert w.buf[0..Size(s)] == EncodeValue(v, s);
    RoundTrip(v, s);
  }

  /** A string without zero bytes, written null-terminated, reads back with
      `ReadString()`, the empty string included (its 4 zero bytes end it at
      once); the reader then stands at the pointer-aligned end. */
  method TerminatedStringRoundTrip(s: seq<Byte>) returns (read: seq<Byte>, end: int)
    requires forall i :: 0 <= i < |s| ==> s[i] != 0
    ensures read == s
    ensures end == Util.Align(|s| + 1, 4)
  {
    var w := new BinaryWriter();
    w.WriteString(s, true);
    var bytes := w.buf;
    OverwriteAtEnd([], StringBytes(s, true));
    TerminatedBytes(s);
    assert bytes == StringBytes(s, true) && bytes[|s|] == 0;
    var r := new BinaryReader(bytes, false);
    read := r.ReadString();
    FirstZeroEndsString(bytes, s, read);
    assert r.PointerWidth() == 4 && |read| == |s|;
    end := r.GetOffset();
  }

  /** A string written without a terminator reads back with
      `ReadString(size)`, zero bytes included. */
  method FixedStringRoundTrip(s: seq<Byte>) returns (read: seq<Byte>)
    ensures read == s
  {
    var w := new BinaryWriter();
    w.WriteString(s, false);
    OverwriteAtEnd([], StringBytes(s, false));
    var r := new BinaryReader(w.buf, false);
    read := r.ReadStringOfSize(|s|);
  }

  /** A speculative read through `Copy` leaves the original cursor where it
      was: this method may not modify `r` at all. */
  method PeekThroughCopy(r: BinaryReader, width: Width) returns (v: nat)
    requires 0 <= r.offset && r.offset + width <= |r.buffer|
    ensures v == Decode(r.buffer[r.offset..r.offset + width], r.bigEndian)
  {
    var c := r.Copy();
    v := c.Read(width);
  }

  /** Forward reference resolution: reserve 4 bytes at offset 0, defer a
      patch that writes 0xAABBCCDD there, move on to offset 100, drain the
      queue. The patch is in place and the put position is still 100. */
  method DeferredPatchScenario() returns (patched: nat, end: nat)
    ensures patched == 0xAABBCCDD && end == 100
  {
    var w := new BinaryWriter();
    w.Seek(4, Util.Beg);
    var p := Patch(0, IntItem(0xAABBCCDD, 4), []);
    assert Pow256(4) == 0x1_0000_0000;
    w.Defer(p);
    w.Seek(100, Util.Beg);
    assert w.queue == [p];
    ghost var before := w.buf;
    w.ProcessDeferQueue();
    AppliedSingle(before, p, w.buf);
    var r := new BinaryReader(w.buf, false);
    patched := r.Read(4);
    DecodeEncode(0xAABBCCDD, 4);
    end := w.GetOffset();
  }

  /** The null-terminated bytes of a string start with the string and a
      zero byte, the empty string included. */
  lemma TerminatedBytes(s: seq<Byte>)
    ensures |s| < |StringBytes(s, true)|
    ensures StringBytes(s, true)[..|s|] == s && StringBytes(s, true)[|s|] == 0
  {
  }

  /** Two zero-free runs that each end at a zero byte of the same buffer
      are the same run. */
  lemma FirstZeroEndsString(bytes: seq<Byte>, s: seq<Byte>, read: seq<Byte>)
    requires |s| < |bytes| && bytes[..|s|] == s && bytes[|s|] == 0
    requires forall i :: 0 <= i < |s| ==> s[i] != 0
    requires |read| < |bytes| && read == bytes[..|read|] && bytes[|read|] == 0
    requires forall i :: 0 <= i < |read| ==> read[i] != 0
    ensures read == s
  {
    forall i | 0 <= i < |s|
      ensures bytes[i] != 0
    {
      assert bytes[i] == bytes[..|s|][i];
    }
    forall i | 0 <= i < |read|
      ensures bytes[i] != 0
    {
      assert bytes[i] == bytes[..|read|][i];
    }
  }
}

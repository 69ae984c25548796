// The write cursor: a growable byte buffer with a put position and a FIFO
// queue of deferred writes (binarywriter.hpp). Integers are written in the
// host's byte order, which this model takes to be little-endian.

module Writer {
  import opened Bytes
  import opened Aggregates
  import opened Patches
  import Util

  /** A filler for the bytes a seek past the end appends. The source takes
      them from a fresh `new char[]`, whose contents are indeterminate; no
      contract of this module says what they are. */
  function Filler(n: nat): (bs: seq<Byte>)
    ensures |bs| == n
  {
    seq(n, _ => 0)
  }

  /** The offset a seek resolves to: relative to the start, the put
      position or the end of the buffer. */
  function SeekTarget(to: int, dir: Util.SeekDir, pos: nat, size: nat): int {
    match dir
    case Beg => to
    case Cur => to + pos
    case End => to + size
  }

  /** The buffer after a seek to `target`: grown to exactly `target`
      bytes, the old ones kept, when the target lies past the end; the
      same otherwise. */
  predicate GrownTo(before: seq<Byte>, target: nat, after: seq<Byte>) {
    if target > |before| then |after| == target && after[..|before|] == before
    else after == before
  }

  class BinaryWriter {
    /** The contents of the string stream. */
    var buf: seq<Byte>
    /** The put position. */
    var pos: nat
    /** The deferred writes, front first. */
    var queue: seq<Patch>

    ghost predicate Valid()
      reads this
    {
      pos <= |buf|
    }

    constructor ()
      ensures Valid() && buf == [] && pos == 0 && queue == []
    {
      buf, pos, queue := [], 0, [];
    }

    /** The put position never lies past the end of the buffer. */
    function GetOffset(): (o: nat)
      reads this
      requires Valid()
      ensures o <= |buf|
    {
      pos
    }

    /** The buffer's length, never short of the put position. */
    function GetSize(): (n: nat)
      reads this
      requires Valid()
      ensures pos <= n
    {
      |buf|
    }

    /** `m_outStream.write`: overwrite at the put position, extending the
        buffer as needed, and advance the position. */
    method WriteBytes(data: seq<Byte>)
      requires Valid()
      modifies this`buf, this`pos
      ensures Valid()
      ensures buf == Overwrite(old(buf), old(pos), data)
      ensures pos == old(pos) + |data|
    {
      buf := Overwrite(buf, pos, data);
      pos := pos + |data|;
    }

    /** `Write<T>` for an unsigned integer of `width` bytes. */
    method Write(value: nat, width: Width)
      requires Valid() && value < Pow256(width)
      modifies this`buf, this`pos
      ensures Valid()
      ensures buf == Overwrite(old(buf), old(pos), EncodeLE(value, width))
      ensures pos == old(pos) + width
    {
      WriteBytes(EncodeLE(value, width));
    }

    /** `Write` for a vector or a matrix: the elements (columns) in index
        order, each with the writer of its own layout. */
    method WriteValue(v: Value, s: Shape)
      requires Valid()
      requires Fits(v, s)
      modifies this`buf, this`pos
      ensures Valid()
      ensures buf == Overwrite(old(buf), old(pos), EncodeValue(v, s))
      ensures pos == old(pos) + Size(s)
      decreases s, 1
    {
      match s
      case Scalar(w) =>
        Write(v.n, w);
      case Array(_, e) =>
        WriteItems(v.items, e);
    }

    /** The element loop of `Write` for an aggregate: each element (column)
        in index order. */
    method WriteItems(items: seq<Value>, e: Shape)
      requires Valid()
      requires forall i :: 0 <= i < |items| ==> Fits(items[i], e)
      modifies this`buf, this`pos
      ensures Valid()
      ensures buf == Overwrite(old(buf), old(pos), EncodeItems(items, e))
      ensures pos == old(pos) + |EncodeItems(items, e)|
      decreases e, 3
    {
      ghost var done: seq<Byte> := [];
      for i := 0 to |items|
        invariant Valid()
        invariant done == EncodeItems(items[..i], e)
        invariant buf == Overwrite(old(buf), old(pos), done) && pos == old(pos) + |done|
      {
        done := WriteNext(old(buf), old(pos), items, i, e, done);
      }
      assert items[..|items|] == items;
    }

    /** One pass of the element loop: element i, written right after the
        bytes `done` of elements 0 .. i - 1. */
    method WriteNext(ghost b0: seq<Byte>, ghost at: nat, items: seq<Value>, i: nat, e: Shape,
                     ghost done: seq<Byte>) returns (ghost more: seq<Byte>)
      requires Valid() && at <= |b0| && i < |items|
      requires forall j :: 0 <= j < |items| ==> Fits(items[j], e)
      requires done == EncodeItems(items[..i], e)
      requires buf == Overwrite(b0, at, done) && pos == at + |done|
      modifies this`buf, this`pos
      ensures Valid()
      ensures more == EncodeItems(items[..i + 1], e)
      ensures buf == Overwrite(b0, at, more) && pos == at + |more|
      decreases e, 2
    {
      ghost var b := buf;
      WriteValue(items[i], e);
      WriteItemsStep(b0, at, items, i, e, done, b, buf);
      more := done + EncodeValue(items[i], e);
    }

    /** `Write(value, nullTerminate)` for a string: an empty string as a
        4-byte zero, otherwise its characters and, when terminating, a zero
        byte. */
    method WriteString(s: seq<Byte>, nullTerminate: bool)
      requires Valid()
      modifies this`buf, this`pos
      ensures Valid()
      ensures buf == Overwrite(old(buf), old(pos), StringBytes(s, nullTerminate))
      ensures pos == old(pos) + |StringBytes(s, nullTerminate)|
    {
      if s == [] {
        Write(0, 4);
        return;
      }
      WriteBytes(s + if nullTerminate then [0] else []);
    }

    /** The write `VisitAndWrite` performs for one item. */
    method WriteItem(it: Item)
      requires Valid()
      modifies this`buf, this`pos
      ensures Valid()
      ensures buf == Overwrite(old(buf), old(pos), ItemBytes(it))
      ensures pos == old(pos) + |ItemBytes(it)|
    {
      match it
      case IntItem(v, w) =>
        Write(v % Pow256(w), w);
      case StrItem(chars) =>
        WriteString(chars, true);
    }

    /** `Seek`: resolve the direction to an absolute offset. Past the end,
        the buffer grows to exactly that offset (new bytes unspecified) and
        the position is left there; otherwise only the position moves. A
        negative absolute offset fails the stream, which the source asserts
        against. */
    method Seek(to: int, dir: Util.SeekDir)
      requires Valid()
      requires 0 <= SeekTarget(to, dir, pos, |buf|)
      modifies this`buf, this`pos
      ensures Valid()
      ensures pos == SeekTarget(to, dir, old(pos), |old(buf)|)
      ensures GrownTo(old(buf), pos, buf)
    {
      var target := to;
      if dir == Util.Cur {
        target := target + pos;
      } else if dir == Util.End {
        target := target + |buf|;
      }
      if target > |buf| {
        buf := buf + Filler(target - |buf|);
        pos := target;
      } else {
        pos := target;
      }
    }

    /** `Align(n)`: seek to the next multiple of n. */
    method Align(n: nat)
      requires Valid() && n > 0
      modifies this`buf, this`pos
      ensures Valid()
      ensures pos == Util.Align(old(pos), n)
      ensures GrownTo(old(buf), pos, buf)
    {
      Seek(Util.Align(pos, n), Util.Beg);
    }

    /** `VisitAndWrite(offset, value)`: write at `offset` (growing the
        buffer if it lies past the end), hand back the end of that write
        aligned to 4, and restore the put position. */
    method VisitAndWrite(offset: int, it: Item) returns (next: nat)
      requires Valid() && offset >= 0
      modifies this`buf, this`pos
      ensures Valid()
      ensures WrittenAt(old(buf), offset, ItemBytes(it), buf)
      ensures pos == old(pos)
      ensures next == Util.Align(offset + |ItemBytes(it)|, 4)
    {
      var prevPos := pos;
      ghost var b0 := buf;
      Seek(offset, Util.Beg);
      ghost var b1 := buf;
      WriteItem(it);
      SeekThenWrite(b0, b1, offset, ItemBytes(it), buf);
      next := Util.Align(pos, 4);
      Seek(prevPos, Util.Beg);
    }

    /** `Append(writer)`: nothing when the other buffer is empty; otherwise
        seek to the end and copy the other buffer there. */
    method Append(other: BinaryWriter)
      requires Valid() && other != this
      modifies this`buf, this`pos
      ensures Valid()
      ensures other.buf == [] ==> buf == old(buf) && pos == old(pos)
      ensures other.buf != [] ==> buf == old(buf) + other.buf && pos == |buf|
    {
      if |other.buf| == 0 {
        return;
      }
      Seek(0, Util.End);
      OverwriteAtEnd(buf, other.buf);
      WriteBytes(other.buf);
    }

    /** `Defer`: queue a write for later; nothing is written now. */
    method Defer(p: Patch)
      requires Valid()
      modifies this`queue
      ensures Valid()
      ensures queue == old(queue) + [p]
    {
      queue := queue + [p];
    }

    /** Calling a queued patch: its write, then its own deferrals. */
    method Run(p: Patch)
      requires Valid()
      modifies this
      ensures Valid()
      ensures WrittenAt(old(buf), p.at, ItemBytes(p.item), buf)
      ensures pos == old(pos)
      ensures queue == old(queue) + p.deferred
    {
      var _ := VisitAndWrite(p.at, p.item);
      ghost var written := buf;
      for i := 0 to |p.deferred|
        invariant Valid() && buf == written && pos == old(pos)
        invariant queue == old(queue) + p.deferred[..i]
      {
        Defer(p.deferred[i]);
        assert p.deferred[..i + 1] == p.deferred[..i] + [p.deferred[i]];
      }
      assert p.deferred[..|p.deferred|] == p.deferred;
    }

    /** The body of the drain loop: call the front patch, then pop it. */
    method RunFront()
      requires Valid() && queue != []
      modifies this
      ensures Valid() && pos == old(pos)
      ensures WrittenAt(old(buf), old(queue)[0].at, ItemBytes(old(queue)[0].item), buf)
      ensures queue == old(queue)[1..] + old(queue)[0].deferred
    {
      var p := queue[0];
      Run(p);
      queue := queue[1..];
    }

    /** The loop of `ProcessDeferQueue`: run the front patch and pop it
        while the loop index is below the (changing) queue length. The
        patches it runs, `done`, are the first ones of `Schedule` order. */
    method DrainPass() returns (ghost done: seq<Patch>)
      requires Valid()
      modifies this
      ensures Valid() && pos == old(pos)
      ensures Schedule(old(queue)) == done + Schedule(queue)
      ensures WeightSeq(queue) + |done| == WeightSeq(old(queue))
      ensures old(queue) == [] ==> queue == []
      ensures old(queue) != [] ==> done != []
      ensures AppliedInOrder(old(buf), done, buf)
    {
      ghost var q0, b0 := queue, buf;
      done := [];
      var i := 0;
      while i < |queue|
        invariant Valid() && pos == old(pos)
        invariant i == |done| && (i == 0 ==> queue == q0)
        invariant WeightSeq(queue) + |done| == WeightSeq(q0)
        invariant Schedule(q0) == done + Schedule(queue)
        invariant AppliedInOrder(b0, done, buf)
        decreases WeightSeq(queue)
      {
        ghost var q, b := queue, buf;
        RunFront();
        DrainStep(q0, done, q);
        AppliedSnoc(b0, done, b, q[0], buf);
        done := done + [q[0]];
        i := i + 1;
      }
    }

    /** `ProcessDeferQueue`: a drain pass, then start over while anything
        is left. The patches run in `Schedule` order, FIFO, including those
        deferred meanwhile; the queue ends empty and the put position where
        it was. */
    method ProcessDeferQueue()
      requires Valid()
      modifies this
      ensures Valid()
      ensures queue == [] && pos == old(pos)
      ensures AppliedInOrder(old(buf), Schedule(old(queue)), buf)
      decreases WeightSeq(queue)
    {
      ghost var q0 := queue;
      ghost var done := DrainPass();
      if |queue| != 0 {
        ghost var qMid, bMid := queue, buf;
        ProcessDeferQueue();
        AppliedConcat(old(buf), done, bMid, Schedule(qMid), buf);
      } else {
        assert Schedule(queue) == [] && done == Schedule(q0);
      }
    }
  }

  /** Writing element i right after the bytes of elements 0 .. i - 1 gives
      the bytes of elements 0 .. i. */
  lemma WriteItemsStep(b0: seq<Byte>, at: nat, items: seq<Value>, i: nat, e: Shape,
                       done: seq<Byte>, b1: seq<Byte>, b2: seq<Byte>)
    requires at <= |b0| && i < |items| && forall j :: 0 <= j < |items| ==> Fits(items[j], e)
    requires done == EncodeItems(items[..i], e)
    requires b1 == Overwrite(b0, at, done) && at + |done| <= |b1|
    requires b2 == Overwrite(b1, at + |done|, EncodeValue(items[i], e))
    ensures done + EncodeValue(items[i], e) == EncodeItems(items[..i + 1], e)
    ensures b2 == Overwrite(b0, at, done + EncodeValue(items[i], e))
  {
    OverwriteConcat(b0, at, done, EncodeValue(items[i], e));
    EncodeItemsSnoc(items, i, e);
  }

  /** A seek to `at` (which keeps the old bytes and may append unspecified
      ones) followed by an in-place write at `at` is a write at `at` into the
      original buffer. */
  lemma SeekThenWrite(b0: seq<Byte>, b1: seq<Byte>, at: nat, data: seq<Byte>, b2: seq<Byte>)
    requires GrownTo(b0, at, b1)
    requires at <= |b1| && b2 == Overwrite(b1, at, data)
    ensures WrittenAt(b0, at, data, b2)
  {
    OverwriteWrites(b1, at, data);
    forall k | 0 <= k < |b0| && !(at <= k < at + |data|)
      ensures b2[k] == b0[k]
    {
      assert b1[k] == b0[k] by {
        if at > |b0| {
          assert b1[..|b0|][k] == b1[k];
        }
      }
    }
  }
}

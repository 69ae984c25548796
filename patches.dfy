// What a write does to the writer's buffer, and the deferred writes the
// writer queues (binarywriter.hpp): the closures the source queues are
// modelled by a closed datatype of patch descriptions.

module Patches {
  import opened Bytes

  function Max(a: nat, b: nat): nat { if a < b then b else a }

  /** `after` is `before` once `data` is written at offset `at`: `data`
      sits at [at, at + |data|), the buffer is as long as the longer of the
      old buffer and the end of the write, and every other byte of the old
      buffer is unchanged. The bytes between the old end and `at`, which a
      seek past the end appends from an uninitialised allocation, are left
      unconstrained. */
  predicate WrittenAt(before: seq<Byte>, at: nat, data: seq<Byte>, after: seq<Byte>) {
    |after| == Max(|before|, at + |data|)
    && after[at..at + |data|] == data
    && forall k :: 0 <= k < |before| && !(at <= k < at + |data|) ==> after[k] == before[k]
  }

  /** A stream write at a put position inside the buffer: overwrite what is
      there and extend past the end as needed (OverwriteWrites says what
      that means byte by byte). */
  function Overwrite(before: seq<Byte>, at: nat, data: seq<Byte>): (after: seq<Byte>)
    requires at <= |before|
    ensures |after| == Max(|before|, at + |data|)
  {
    before[..at] + data + if at + |data| < |before| then before[at + |data|..] else []
  }

  /** Overwrite is a write at `at`: `data` in place, every other old byte
      kept. */
  lemma OverwriteWrites(before: seq<Byte>, at: nat, data: seq<Byte>)
    requires at <= |before|
    ensures WrittenAt(before, at, data, Overwrite(before, at, data))
  {
    var after := Overwrite(before, at, data);
    assert after[at..at + |data|] == data;
    forall k | 0 <= k < |before| && !(at <= k < at + |data|)
      ensures after[k] == before[k]
    {
      if k >= at + |data| {
        assert after[k] == before[at + |data|..][k - at - |data|];
      }
    }
  }

  /** When nothing is left unconstrained (the write starts inside the
      buffer), Overwrite is the only result WrittenAt admits. */
  lemma OverwriteUnique(before: seq<Byte>, at: nat, data: seq<Byte>, after: seq<Byte>)
    requires at <= |before| && WrittenAt(before, at, data, after)
    ensures after == Overwrite(before, at, data)
  {
    var o := Overwrite(before, at, data);
    OverwriteWrites(before, at, data);
    assert |after| == |o|;
    forall k | 0 <= k < |o|
      ensures after[k] == o[k]
    {
      if at <= k < at + |data| {
        assert after[k] == after[at..at + |data|][k - at];
        assert o[k] == o[at..at + |data|][k - at];
      }
    }
  }

  /** Two writes back to back are one write of the concatenation: what
      makes an aggregate's element-by-element writes one contiguous run. */
  lemma OverwriteConcat(before: seq<Byte>, at: nat, x: seq<Byte>, y: seq<Byte>)
    requires at <= |before|
    ensures at + |x| <= |Overwrite(before, at, x)|
    ensures Overwrite(Overwrite(before, at, x), at + |x|, y) == Overwrite(before, at, x + y)
  {
    var one := Overwrite(before, at, x);
    var two := Overwrite(one, at + |x|, y);
    var both := Overwrite(before, at, x + y);
    OverwriteWrites(before, at, x);
    OverwriteWrites(one, at + |x|, y);
    OverwriteWrites(before, at, x + y);
    assert |two| == |both|;
    forall k | 0 <= k < |two|
      ensures two[k] == both[k]
    {
      if k < at {
        assert two[k] == one[k] == before[k] == both[k];
      } else if k < at + |x| {
        assert two[k] == one[k] == one[at..at + |x|][k - at] == x[k - at];
        assert both[k] == both[at..at + |x| + |y|][k - at] == (x + y)[k - at];
      } else if k < at + |x| + |y| {
        assert two[k] == two[at + |x|..at + |x| + |y|][k - at - |x|] == y[k - at - |x|];
        assert both[k] == both[at..at + |x| + |y|][k - at] == (x + y)[k - at];
      } else {
        assert two[k] == one[k] == before[k] == both[k];
      }
    }
  }

  /** Writing at the end of the buffer appends. */
  lemma OverwriteAtEnd(before: seq<Byte>, data: seq<Byte>)
    ensures Overwrite(before, |before|, data) == before + data
  {
  }

  /** The bytes `Write(const std::string &, bool)` emits: an empty string
      as a 4-byte zero (`Write<uint32_t>(0)`), otherwise the characters and,
      when terminating, one zero byte. */
  function StringBytes(s: seq<Byte>, nullTerminate: bool): (bs: seq<Byte>)
    ensures s == [] ==> bs == [0, 0, 0, 0]
    ensures s != [] ==> |bs| == |s| + (if nullTerminate then 1 else 0) && bs[..|s|] == s
    ensures s != [] && nullTerminate ==> bs[|s|] == 0
  {
    if s == [] then EncodeLE(0, 4) else s + if nullTerminate then [0] else []
  }

  /** A value `VisitAndWrite` can write: an integer of `width` bytes or a
      string (written with its terminator, the default). */
  datatype Item = IntItem(value: nat, width: Width) | StrItem(chars: seq<Byte>)

  /** The bytes an item is written as; an integer is first converted to
      its width, as the conversion to `T` does, so this is total. */
  function ItemBytes(it: Item): seq<Byte> {
    match it
    case IntItem(v, w) => EncodeLE(v % Pow256(w), w)
    case StrItem(s) => StringBytes(s, true)
  }

  /** A deferred write: when run, it writes `item` at offset `at` (the way
      `VisitAndWrite` does, leaving the put position where it was) and then
      defers each of `deferred`, in order. */
  datatype Patch = Patch(at: nat, item: Item, deferred: seq<Patch>)

  /** The number of writes a patch stands for, its descendants included:
      the measure that makes draining terminate. */
  function Weight(p: Patch): nat {
    1 + WeightSeq(p.deferred)
  }

  function WeightSeq(q: seq<Patch>): nat {
    if q == [] then 0 else Weight(q[0]) + WeightSeq(q[1..])
  }

  lemma {:induction false} WeightSeqAppend(a: seq<Patch>, b: seq<Patch>)
    ensures WeightSeq(a + b) == WeightSeq(a) + WeightSeq(b)
  {
    if a != [] {
      assert (a + b)[0] == a[0] && (a + b)[1..] == a[1..] + b;
      WeightSeqAppend(a[1..], b);
    } else {
      assert a + b == b;
    }
  }

  /** The patches deferred directly by the patches of `q`, in queue order. */
  function Children(q: seq<Patch>): seq<Patch> {
    if q == [] then [] else q[0].deferred + Children(q[1..])
  }

  /** The order in which draining the queue `q` runs patches: always the
      front one, whose own deferred patches join the back of the queue. */
  function Schedule(q: seq<Patch>): seq<Patch>
    decreases WeightSeq(q)
  {
    if q == [] then []
    else
      WeightSeqAppend(q[1..], q[0].deferred);
      assert WeightSeq(q) == 1 + WeightSeq(q[0].deferred) + WeightSeq(q[1..]);
      [q[0]] + Schedule(q[1..] + q[0].deferred)
  }

  /** One step of draining: the front patch runs, its children join the
      back, and one write fewer remains. */
  lemma ScheduleStep(q: seq<Patch>)
    requires q != []
    ensures Schedule(q) == [q[0]] + Schedule(q[1..] + q[0].deferred)
    ensures WeightSeq(q[1..] + q[0].deferred) + 1 == WeightSeq(q)
  {
    WeightSeqAppend(q[1..], q[0].deferred);
  }

  /** The bookkeeping of one drain step: once the front patch of `q` has
      run, the run so far grows by it, the rest of the schedule is that of
      the new queue, and one write fewer remains. */
  lemma DrainStep(q0: seq<Patch>, done: seq<Patch>, q: seq<Patch>)
    requires q != [] && Schedule(q0) == done + Schedule(q)
    requires WeightSeq(q) + |done| == WeightSeq(q0)
    ensures Schedule(q0) == (done + [q[0]]) + Schedule(q[1..] + q[0].deferred)
    ensures WeightSeq(q[1..] + q[0].deferred) + |done + [q[0]]| == WeightSeq(q0)
  {
    ScheduleStep(q);
    var rest := Schedule(q[1..] + q[0].deferred);
    assert done + ([q[0]] + rest) == (done + [q[0]]) + rest;
  }

  /** FIFO draining is breadth-first: the patches already queued run first,
      in queue order, followed by everything they defer. Generalised form:
      running a prefix `a` of the queue moves its children behind `b`. */
  lemma {:induction false} ScheduleSplit(a: seq<Patch>, b: seq<Patch>)
    ensures Schedule(a + b) == a + Schedule(b + Children(a))
    decreases |a|
  {
    if a != [] {
      var p := a[0];
      assert (a + b)[0] == p && (a + b)[1..] == a[1..] + b;
      ScheduleSplit(a[1..], b + p.deferred);
      assert (a[1..] + b) + p.deferred == a[1..] + (b + p.deferred);
      assert b + p.deferred + Children(a[1..]) == b + Children(a);
      assert [p] + a[1..] == a;
    } else {
      assert a + b == b && b + Children(a) == b;
    }
  }

  /** The queued patches run first and in order, then their children,
      level by level. */
  lemma LevelOrder(q: seq<Patch>)
    ensures Schedule(q) == q + Schedule(Children(q))
  {
    ScheduleSplit(q, []);
    assert q + [] == q && [] + Children(q) == Children(q);
  }

  /** Every patch, and every patch it defers, runs exactly once. */
  lemma {:induction false} ScheduleLength(q: seq<Patch>)
    ensures |Schedule(q)| == WeightSeq(q)
    decreases WeightSeq(q)
  {
    if q != [] {
      WeightSeqAppend(q[1..], q[0].deferred);
      assert WeightSeq(q) == 1 + WeightSeq(q[0].deferred) + WeightSeq(q[1..]);
      ScheduleLength(q[1..] + q[0].deferred);
    }
  }

  /** `b` is `b0` after the patches `s` have run, one after another. */
  ghost predicate AppliedInOrder(b0: seq<Byte>, s: seq<Patch>, b: seq<Byte>)
    decreases |s|
  {
    if s == [] then b == b0
    else exists mid :: WrittenAt(b0, s[0].at, ItemBytes(s[0].item), mid)
                    && AppliedInOrder(mid, s[1..], b)
  }

  /** Draining a queue of one patch that defers nothing is that one
      write. */
  lemma AppliedSingle(b0: seq<Byte>, p: Patch, b: seq<Byte>)
    requires p.deferred == [] && AppliedInOrder(b0, Schedule([p]), b)
    ensures WrittenAt(b0, p.at, ItemBytes(p.item), b)
  {
    assert [p][1..] + p.deferred == [];
    assert Schedule([p]) == [p];
    var mid :| WrittenAt(b0, [p][0].at, ItemBytes([p][0].item), mid)
            && AppliedInOrder(mid, [p][1..], b);
    assert [p][1..] == [];
  }

  /** Running one more patch extends the run. */
  lemma {:induction false} AppliedSnoc(b0: seq<Byte>, s: seq<Patch>, b1: seq<Byte>, p: Patch, b2: seq<Byte>)
    requires AppliedInOrder(b0, s, b1)
    requires WrittenAt(b1, p.at, ItemBytes(p.item), b2)
    ensures AppliedInOrder(b0, s + [p], b2)
    decreases |s|
  {
    if s == [] {
      assert ([p])[1..] == [];
      assert AppliedInOrder(b2, [], b2);
    } else {
      var mid :| WrittenAt(b0, s[0].at, ItemBytes(s[0].item), mid) && AppliedInOrder(mid, s[1..], b1);
      AppliedSnoc(mid, s[1..], b1, p, b2);
      var t := s + [p];
      assert t[0] == s[0] && t[1..] == s[1..] + [p];
      assert WrittenAt(b0, t[0].at, ItemBytes(t[0].item), mid) && AppliedInOrder(mid, t[1..], b2);
    }
  }

  /** Two runs back to back are one run of the concatenated schedule. */
  lemma {:induction false} AppliedConcat(b0: seq<Byte>, s1: seq<Patch>, b1: seq<Byte>, s2: seq<Patch>, b2: seq<Byte>)
    requires AppliedInOrder(b0, s1, b1) && AppliedInOrder(b1, s2, b2)
    ensures AppliedInOrder(b0, s1 + s2, b2)
    decreases |s1|
  {
    if s1 == [] {
      assert s1 + s2 == s2;
    } else {
      var mid :| WrittenAt(b0, s1[0].at, ItemBytes(s1[0].item), mid) && AppliedInOrder(mid, s1[1..], b1);
      AppliedConcat(mid, s1[1..], b1, s2, b2);
      var t := s1 + s2;
      assert t[0] == s1[0] && t[1..] == s1[1..] + s2;
      assert WrittenAt(b0, t[0].at, ItemBytes(t[0].item), mid) && AppliedInOrder(mid, t[1..], b2);
    }
  }

  predicate Covers(p: Patch, k: nat) {
    p.at <= k < p.at + |ItemBytes(p.item)|
  }

  /** A run never shrinks the buffer, and the buffer ends up holding every
      write it made. */
  lemma {:induction false} AppliedLength(b0: seq<Byte>, s: seq<Patch>, b: seq<Byte>)
    requires AppliedInOrder(b0, s, b)
    ensures |b0| <= |b|
    ensures forall j :: 0 <= j < |s| ==> s[j].at + |ItemBytes(s[j].item)| <= |b|
    decreases |s|
  {
    if s != [] {
      var mid :| WrittenAt(b0, s[0].at, ItemBytes(s[0].item), mid) && AppliedInOrder(mid, s[1..], b);
      AppliedLength(mid, s[1..], b);
      forall j | 0 < j < |s|
        ensures s[j].at + |ItemBytes(s[j].item)| <= |b|
      {
        assert s[j] == s[1..][j - 1];
      }
    }
  }

  /** A byte of the old buffer that no patch of the run covers keeps its
      value. */
  lemma {:induction false} AppliedUntouched(b0: seq<Byte>, s: seq<Patch>, b: seq<Byte>, k: nat)
    requires AppliedInOrder(b0, s, b)
    requires k < |b0|
    requires forall j :: 0 <= j < |s| ==> !Covers(s[j], k)
    ensures k < |b| && b[k] == b0[k]
    decreases |s|
  {
    AppliedLength(b0, s, b);
    if s != [] {
      var mid :| WrittenAt(b0, s[0].at, ItemBytes(s[0].item), mid) && AppliedInOrder(mid, s[1..], b);
      assert !Covers(s[0], k);
      NoneCoversTail(s, 1, k);
      AppliedUntouched(mid, s[1..], b, k);
    }
  }

  /** FIFO order decides overlapping writes: a byte holds what the last
      patch covering it wrote. */
  lemma {:induction false} AppliedLastWins(b0: seq<Byte>, s: seq<Patch>, b: seq<Byte>, j: nat, k: nat)
    requires AppliedInOrder(b0, s, b)
    requires j < |s| && Covers(s[j], k)
    requires forall l :: j < l < |s| ==> !Covers(s[l], k)
    ensures k < |b| && b[k] == ItemBytes(s[j].item)[k - s[j].at]
    decreases |s|
  {
    var mid :| WrittenAt(b0, s[0].at, ItemBytes(s[0].item), mid) && AppliedInOrder(mid, s[1..], b);
    if j == 0 {
      FirstWriteSurvives(b0, s, mid, b, k);
    } else {
      NoneCoversTail(s, j + 1, k);
      assert s[1..][j - 1] == s[j];
      AppliedLastWins(mid, s[1..], b, j - 1, k);
    }
  }

  lemma FirstWriteSurvives(b0: seq<Byte>, s: seq<Patch>, mid: seq<Byte>, b: seq<Byte>, k: nat)
    requires s != [] && WrittenAt(b0, s[0].at, ItemBytes(s[0].item), mid)
    requires AppliedInOrder(mid, s[1..], b)
    requires Covers(s[0], k)
    requires forall l :: 0 < l < |s| ==> !Covers(s[l], k)
    ensures k < |b| && b[k] == ItemBytes(s[0].item)[k - s[0].at]
  {
    var p := s[0];
    var data := ItemBytes(p.item);
    assert mid[k] == mid[p.at..p.at + |data|][k - p.at] == data[k - p.at];
    NoneCoversTail(s, 1, k);
    AppliedUntouched(mid, s[1..], b, k);
  }

  /** The patches from index `from` on cover no byte k: said of the tail
      s[1..], from index from - 1 on. */
  lemma NoneCoversTail(s: seq<Patch>, from: nat, k: nat)
    requires 1 <= from && forall l :: from <= l < |s| ==> !Covers(s[l], k)
    ensures forall l :: from - 1 <= l < |s| - 1 ==> !Covers(s[1..][l], k)
  {
    forall l | from - 1 <= l < |s| - 1
      ensures !Covers(s[1..][l], k)
    {
      assert s[1..][l] == s[l + 1];
    }
  }
}

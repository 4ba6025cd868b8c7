/**
 * What `ReserveBuf` (cppexamples/StringPoolL.cpp:363-416) guarantees: the copy loop moves every
 * non-empty record, byte for byte, into the new buffer in handle order, without overlap, after
 * the empty record at offset 0; `DataSize` becomes exactly what the copied records need.
 */
module StringPoolLCompaction {
  import opened Common
  import opened StringPoolLRecords
  import opened StringPoolLOps

  /** Bytes the copy loop moves for handle `h`: its record, unless it is empty. */
  function Kept(p: Pool, h: nat): nat
  {
    if h < |p.offs| && p.offs[h] != 0 && LenAt(p.buf, p.offs[h]) != 0
    then Overhead + LenAt(p.buf, p.offs[h]) else 0
  }

  function KeptUpTo(p: Pool, k: nat): nat
  {
    if k == 0 then 0 else KeptUpTo(p, k - 1) + Kept(p, k - 1)
  }

  /** The highest handle below `k` whose record is copied, or -1. */
  function LastKept(p: Pool, k: nat): (l: int)
    ensures -1 <= l < k
  {
    if k == 0 then -1 else if Kept(p, k - 1) != 0 then k - 1 else LastKept(p, k - 1)
  }

  lemma {:induction false} KeptBelowLive(p: Pool, k: nat)
    ensures KeptUpTo(p, k) <= LiveUpTo(p, k)
  {
    if k > 0 {
      KeptBelowLive(p, k - 1);
    }
  }

  lemma {:induction false} KeptMono(p: Pool, j: nat, k: nat)
    requires j <= k
    ensures KeptUpTo(p, j) <= KeptUpTo(p, k)
  {
    if j < k {
      KeptMono(p, j, k - 1);
    }
  }

  /** Nothing is copied above the last copied handle. */
  lemma {:induction false} NoneKeptAbove(p: Pool, k: nat, h: nat)
    requires LastKept(p, k) < h < k
    ensures Kept(p, h) == 0
  {
    if h < k - 1 {
      NoneKeptAbove(p, k - 1, h);
    }
  }

  /** The state of the copy loop after the passes for the handles below `k`. */
  ghost predicate CopyInv(p: Pool, size: nat, c: Copy, k: nat)
  {
    && k <= |p.offs|
    && |c.buf| == size && |c.offs| == |p.offs|
    && c.size == Overhead + KeptUpTo(p, k) && c.size <= size
    && RecordBytes(c.buf, 0) == [0, 0, 0]
    && (forall m :: c.size <= m < size ==> c.buf[m] == 0)
    && (forall h :: k <= h < |p.offs| ==> c.offs[h] == p.offs[h])
    && (forall h :: 0 <= h < k ==> (c.offs[h] != 0 <==> Kept(p, h) != 0))
    && (forall h :: 0 <= h < k && c.offs[h] != 0 ==> MovedTo(p, c, h))
    && (forall h, g :: 0 <= h < g < k && c.offs[h] != 0 && c.offs[g] != 0 ==>
          End(c.buf, c.offs[h]) <= c.offs[g])
    && TopInv(p, c, k)
  }

  /** Handle `h`'s record sits unchanged in the new buffer, inside the copied part, below Top. */
  ghost predicate MovedTo(p: Pool, c: Copy, h: nat)
    requires h < |p.offs| && h < |c.offs|
  {
    && Overhead <= c.offs[h]
    && End(c.buf, c.offs[h]) <= c.size
    && RecordBytes(c.buf, c.offs[h]) == RecordBytes(p.buf, p.offs[h])
    && End(c.buf, c.offs[h]) - c.offs[h] == Kept(p, h)
    && c.offs[h] <= c.top
    && (c.offs[h] < c.top ==> End(c.buf, c.offs[h]) <= c.top)
  }

  /** `Top` is the offset of the last record copied, which ends at `DataSize2`. */
  ghost predicate TopInv(p: Pool, c: Copy, k: nat)
    requires k <= |c.offs|
  {
    var l := LastKept(p, k);
    && (l < 0 ==> c.size == Overhead && c.top == Overhead)
    && (l >= 0 ==> c.offs[l] == c.top && End(c.buf, c.top) == c.size)
  }

  /** The loop starts with the empty record at 0 in a zeroed buffer. */
  lemma CopyInvStart(p: Pool, newsize: nat)
    requires Shaped(p)
    ensures CopyInv(p, GrownSize(p, newsize) + Overhead, CompactStart(p, newsize), 0)
  {
    var c := CompactStart(p, newsize);
    assert RecordBytes(c.buf, 0) == c.buf[0..3];
  }

  /** One pass of the loop keeps the invariant, given room for the record it copies. */
  lemma CopyInvStep(p: Pool, size: nat, c: Copy, k: nat)
    requires Layout(p) && k < p.num
    requires CopyInv(p, size, c, k)
    requires c.size + Kept(p, k) <= size
    ensures CopyInv(p, size, CompactStep(p.buf, c, k), k + 1)
  {
    var o := c.offs[k];
    assert o == p.offs[k];
    var c' := CompactStep(p.buf, c, k);
    if o != 0 && LenAt(p.buf, o) != 0 {
      CopyStepMoves(p, size, c, k);
    } else {
      assert c'.buf == c.buf && c'.size == c.size && c'.top == c.top;
      assert Kept(p, k) == 0;
      assert LastKept(p, k + 1) == LastKept(p, k);
      forall h | 0 <= h < k && c'.offs[h] != 0
        ensures MovedTo(p, c', h)
      {
        assert c'.offs[h] == c.offs[h];
        assert MovedTo(p, c, h);
      }
    }
  }

  /** The pass that copies a non-empty record. */
  lemma CopyStepMoves(p: Pool, size: nat, c: Copy, k: nat)
    requires Layout(p) && k < p.num
    requires CopyInv(p, size, c, k)
    requires c.size + Kept(p, k) <= size
    requires p.offs[k] != 0 && LenAt(p.buf, p.offs[k]) != 0
    ensures CopyInv(p, size, CompactStep(p.buf, c, k), k + 1)
  {
    var c' := CompactStep(p.buf, c, k);
    StepNewRecord(p, size, c, k);
    StepOldRecords(p, size, c, k);
    StepOrder(p, c, c', k);
    assert LastKept(p, k + 1) == k;
  }

  lemma StepNewRecord(p: Pool, size: nat, c: Copy, k: nat)
    requires Layout(p) && k < p.num
    requires CopyInv(p, size, c, k)
    requires c.size + Kept(p, k) <= size
    requires p.offs[k] != 0 && LenAt(p.buf, p.offs[k]) != 0
    ensures var c' := CompactStep(p.buf, c, k);
      && c'.buf == Write(c.buf, c.size, RecordBytes(p.buf, p.offs[k]))
      && c'.offs == c.offs[k := c.size] && c'.top == c.size
      && c'.size == Overhead + KeptUpTo(p, k + 1) && c'.size <= size
      && MovedTo(p, c', k) && End(c'.buf, c'.top) == c'.size
      && RecordBytes(c'.buf, 0) == [0, 0, 0]
      && (forall m :: c'.size <= m < size ==> c'.buf[m] == 0)
  {
    var o := p.offs[k];
    assert c.offs[k] == o;
    assert Placed(p, o);
    var r := RecordBytes(p.buf, o);
    var c' := CompactStep(p.buf, c, k);
    assert |r| == Kept(p, k);
    WriteRecordCopy(p.buf, o, c.buf, c.size);
    WriteOutside(c.buf, c.size, r, 0);
    assert forall m :: c'.size <= m < size ==> c'.buf[m] == 0;
  }

  lemma StepOldRecords(p: Pool, size: nat, c: Copy, k: nat)
    requires Layout(p) && k < p.num
    requires CopyInv(p, size, c, k)
    requires c.size + Kept(p, k) <= size
    requires p.offs[k] != 0 && LenAt(p.buf, p.offs[k]) != 0
    ensures var c' := CompactStep(p.buf, c, k);
      && (forall h :: 0 <= h < k && c'.offs[h] != 0 ==> MovedTo(p, c', h))
      && (forall h :: 0 <= h < k && c.offs[h] != 0 ==> End(c'.buf, c'.offs[h]) <= c.size)
      && (forall h :: 0 <= h < k && c.offs[h] != 0 ==> End(c'.buf, c'.offs[h]) == End(c.buf, c.offs[h]))
  {
    var o := p.offs[k];
    assert c.offs[k] == o;
    assert Placed(p, o);
    var r := RecordBytes(p.buf, o);
    var c' := CompactStep(p.buf, c, k);
    assert |r| == Kept(p, k);
    forall h | 0 <= h < k && c'.offs[h] != 0
      ensures MovedTo(p, c', h) && End(c'.buf, c'.offs[h]) == End(c.buf, c.offs[h])
    {
      assert c'.offs[h] == c.offs[h];
      assert MovedTo(p, c, h);
      WriteOutside(c.buf, c.size, r, c.offs[h]);
    }
  }

  /** The record copied in the pass for `k` comes after all those copied before it. */
  lemma StepOrder(p: Pool, c: Copy, c': Copy, k: nat)
    requires k < |p.offs| && |c.offs| == |p.offs| && c'.offs == c.offs[k := c.size]
    requires forall h :: 0 <= h < k && c'.offs[h] != 0 ==> MovedTo(p, c', h)
    requires forall h :: 0 <= h < k && c.offs[h] != 0 ==> End(c'.buf, c'.offs[h]) <= c.size
    requires forall h, g :: 0 <= h < g < k && c.offs[h] != 0 && c.offs[g] != 0 ==>
          End(c.buf, c.offs[h]) <= c.offs[g]
    requires forall h :: 0 <= h < k && c.offs[h] != 0 ==> End(c'.buf, c'.offs[h]) == End(c.buf, c.offs[h])
    ensures forall h, g :: 0 <= h < g < k + 1 && c'.offs[h] != 0 && c'.offs[g] != 0 ==>
          End(c'.buf, c'.offs[h]) <= c'.offs[g]
  {
  }

  /** The whole loop, by induction over the handles. */
  lemma {:induction false} CopyInvLoop(p: Pool, newsize: nat, k: nat)
    requires Layout(p) && k <= p.num && Live(p) <= GrownSize(p, newsize)
    ensures CopyInv(p, GrownSize(p, newsize) + Overhead,
                    CompactUpTo(p.buf, CompactStart(p, newsize), k), k)
  {
    var size := GrownSize(p, newsize) + Overhead;
    if k == 0 {
      CopyInvStart(p, newsize);
    } else {
      CopyInvLoop(p, newsize, k - 1);
      var c := CompactUpTo(p.buf, CompactStart(p, newsize), k - 1);
      KeptMono(p, k, p.num);
      KeptBelowLive(p, p.num);
      assert c.size + Kept(p, k - 1) == Overhead + KeptUpTo(p, k);
      CopyInvStep(p, size, c, k - 1);
    }
  }

  // ---------------------------------------------------------------------------------------
  // The state ReserveBuf leaves

  /** After the copy loop the weight of each handle is what the loop copied for it. */
  lemma {:induction false} LiveIsKept(p: Pool, q: Pool, k: nat)
    requires forall h :: 0 <= h < k ==> Weight(q, h) == Kept(p, h)
    ensures LiveUpTo(q, k) == KeptUpTo(p, k)
  {
    if k > 0 {
      LiveIsKept(p, q, k - 1);
    }
  }

  /** The pool `ReserveBuf` builds from a finished copy loop. */
  lemma CompactedPool(p: Pool, newsize: nat)
    requires Layout(p) && |p.buf| > 0 && Live(p) <= GrownSize(p, newsize)
    ensures var c := CompactUpTo(p.buf, CompactStart(p, newsize), p.num);
      && CopyInv(p, GrownSize(p, newsize) + Overhead, c, p.num)
      && ReserveBuf(p, newsize) == p.(buf := c.buf, offs := c.offs, dataSize := c.size,
                                       garbageSize := 0, top := c.top)
  {
    CopyInvLoop(p, newsize, p.num);
  }

  /** A pool without a buffer has no records. */
  lemma NoBufferNoRecords(p: Pool)
    requires Layout(p) && |p.buf| == 0
    ensures forall h :: 0 <= h < |p.offs| ==> p.offs[h] == 0
    ensures Live(p) == 0
  {
    forall h | 0 <= h < |p.offs|
      ensures p.offs[h] == 0
    {
      if h < p.num {
        assert p.offs[h] == 0 || Placed(p, p.offs[h]);
      }
    }
    LiveIdleTail(p, 0, p.num);
  }

  /**
   * `ReserveBuf` gives a buffer of at least `max(newsize, 2 (DataSize - GarbageSize) + 4096) + 3`
   * bytes with the empty record at offset 0, no garbage, and `DataSize` exactly what the
   * records need; the layout invariant holds afterwards.
   */
  lemma ReserveBufValid(p: Pool, newsize: nat)
    requires Layout(p) && Live(p) <= GrownSize(p, newsize)
    ensures var q := ReserveBuf(p, newsize);
      && Valid(q) && Exact(q) && q.garbageSize == 0
      && |q.buf| == Max(newsize, (p.dataSize - p.garbageSize) * 2 + AllocateSpace1) + Overhead
      && q.num == p.num && |q.offs| == |p.offs|
      && LenAt(q.buf, 0) == 0 && Terminated(q.buf, 0)
  {
    var q := ReserveBuf(p, newsize);
    ReserveBufLive(p, newsize);
    ReserveBufLayout(p, newsize);
    if |p.buf| > 0 {
      CompactedPool(p, newsize);
      var c := CompactUpTo(p.buf, CompactStart(p, newsize), p.num);
      forall h | 0 <= h < q.num && q.offs[h] != 0 && q.offs[h] == q.top
        ensures q.garbageSize + Live(q) <= q.top + Weight(q, h)
      {
        assert MovedTo(p, c, h);
      }
    } else {
      NoBufferNoRecords(p);
    }
  }

  /** After `ReserveBuf` every record lies in the new buffer, in handle order, past record 0. */
  lemma ReserveBufLayout(p: Pool, newsize: nat)
    requires Layout(p) && Live(p) <= GrownSize(p, newsize)
    ensures var q := ReserveBuf(p, newsize);
      && Layout(q) && q.garbageSize == 0
      && |q.buf| == Max(newsize, (p.dataSize - p.garbageSize) * 2 + AllocateSpace1) + Overhead
      && q.num == p.num && |q.offs| == |p.offs|
      && LenAt(q.buf, 0) == 0 && Terminated(q.buf, 0)
  {
    var q := ReserveBuf(p, newsize);
    if |p.buf| > 0 {
      CompactedPool(p, newsize);
      var c := CompactUpTo(p.buf, CompactStart(p, newsize), p.num);
      RecordZero(q.buf);
      forall h | 0 <= h < q.num && q.offs[h] != 0
        ensures Placed(q, q.offs[h])
      {
        assert MovedTo(p, c, h);
      }
      assert Disjoint(q);
    } else {
      NoBufferNoRecords(p);
    }
  }

  /** The records `ReserveBuf` keeps need exactly the bytes after the empty record. */
  lemma ReserveBufLive(p: Pool, newsize: nat)
    requires Layout(p) && Live(p) <= GrownSize(p, newsize)
    ensures var q := ReserveBuf(p, newsize);
      q.dataSize == Overhead + Live(q) && Live(q) == KeptUpTo(p, p.num)
    ensures forall h :: 0 <= h < p.num ==> Weight(ReserveBuf(p, newsize), h) == Kept(p, h)
  {
    var q := ReserveBuf(p, newsize);
    if |p.buf| == 0 {
      NoBufferNoRecords(p);
      KeptBelowLive(p, p.num);
      assert q.offs == p.offs;
      LiveIdleTail(q, 0, q.num);
    } else {
      CompactedPool(p, newsize);
      var c := CompactUpTo(p.buf, CompactStart(p, newsize), p.num);
      forall h | 0 <= h < q.num
        ensures Weight(q, h) == Kept(p, h)
      {
        if q.offs[h] != 0 {
          assert MovedTo(p, c, h);
        }
      }
      LiveIsKept(p, q, q.num);
    }
  }

  lemma RecordZero(buf: seq<uint8>)
    requires RecordBytes(buf, 0) == [0, 0, 0]
    ensures LenAt(buf, 0) == 0 && End(buf, 0) == Overhead <= |buf| && Terminated(buf, 0)
  {
    assert buf[0..3] == [0, 0, 0];
    assert buf[0] == 0 && buf[1] == 0 && buf[2] == 0;
  }

  /**
   * Every string keeps its value across `ReserveBuf`; a handle at offset 0 reads as empty
   * afterwards, and non-empty records lie in handle order.
   */
  lemma ReserveBufContent(p: Pool, newsize: nat)
    requires Layout(p) && Live(p) <= GrownSize(p, newsize)
    ensures var q := ReserveBuf(p, newsize);
      && (forall h :: 0 <= h < p.num ==> Content(q, h) == if p.offs[h] == 0 then [] else Content(p, h))
      && (forall h :: 0 <= h < p.num ==> (q.offs[h] != 0 <==> Kept(p, h) != 0))
      && (forall h, g :: 0 <= h < g < q.num && q.offs[h] != 0 && q.offs[g] != 0 ==>
            End(q.buf, q.offs[h]) <= q.offs[g])
  {
    var q := ReserveBuf(p, newsize);
    if |p.buf| == 0 {
      NoBufferNoRecords(p);
    } else {
      CompactedPool(p, newsize);
      var c := CompactUpTo(p.buf, CompactStart(p, newsize), p.num);
      RecordZero(q.buf);
      forall h | 0 <= h < p.num
        ensures Content(q, h) == if p.offs[h] == 0 then [] else Content(p, h)
      {
        if q.offs[h] != 0 {
          assert MovedTo(p, c, h);
          RecordBytesAgree(p.buf, p.offs[h], q.buf, q.offs[h]);
        }
      }
    }
  }

  /** When every record is zero-terminated, `ReserveBuf` leaves a pool in the intended state. */
  lemma ReserveBufSound(p: Pool, newsize: nat)
    requires Layout(p) && Live(p) <= GrownSize(p, newsize)
    requires forall h :: 0 <= h < p.num && p.offs[h] != 0 ==> Terminated(p.buf, p.offs[h])
    ensures Sound(ReserveBuf(p, newsize))
  {
    ReserveBufValid(p, newsize);
    ReserveBufTerminated(p, newsize);
  }

  lemma ReserveBufTerminated(p: Pool, newsize: nat)
    requires Layout(p) && Live(p) <= GrownSize(p, newsize)
    requires forall h :: 0 <= h < p.num && p.offs[h] != 0 ==> Terminated(p.buf, p.offs[h])
    ensures var q := ReserveBuf(p, newsize);
      forall h :: 0 <= h < q.num && q.offs[h] != 0 ==>
        Terminated(q.buf, q.offs[h]) && (q.offs[h] == q.top ==> End(q.buf, q.offs[h]) == q.dataSize)
  {
    var q := ReserveBuf(p, newsize);
    if |p.buf| > 0 {
      CompactedPool(p, newsize);
      var c := CompactUpTo(p.buf, CompactStart(p, newsize), p.num);
      forall h | 0 <= h < q.num && q.offs[h] != 0
        ensures Terminated(q.buf, q.offs[h])
        ensures q.offs[h] == q.top ==> End(q.buf, q.offs[h]) == q.dataSize
      {
        assert MovedTo(p, c, h);
        RecordBytesAgree(p.buf, p.offs[h], q.buf, q.offs[h]);
        assert Terminated(p.buf, p.offs[h]);
      }
    } else {
      NoBufferNoRecords(p);
    }
  }

  /** After `ReserveBuf`, Top is the record of the highest-numbered non-empty handle. */
  lemma ReserveBufTop(p: Pool, newsize: nat)
    requires Layout(p) && |p.buf| > 0 && Live(p) <= GrownSize(p, newsize)
    ensures var q := ReserveBuf(p, newsize);
      var l := LastKept(p, p.num);
      && (l < 0 ==> q.top == Overhead && q.dataSize == Overhead)
      && (l >= 0 ==> q.top == q.offs[l] && End(q.buf, q.top) == q.dataSize)
      && (forall h :: l < h < p.num ==> q.offs[h] == 0)
  {
    CompactedPool(p, newsize);
    var l := LastKept(p, p.num);
    forall h | l < h < p.num
      ensures ReserveBuf(p, newsize).offs[h] == 0
    {
      NoneKeptAbove(p, p.num, h);
    }
  }
}

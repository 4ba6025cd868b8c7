/**
 * cppexamples/MixedPool.cpp: a growable byte buffer holding objects of mixed type and size,
 * identified by the offsets `Push` returns. `DataSize` bytes are in use; the buffer behind
 * them is `BufferSize` bytes long, always a multiple of 16.
 *
 * Objects are modelled as their bytes. The null `obj` of `Push` is `None`, which pushes
 * zeros. `(x + 15) & -16` is written `RoundUp16(x)`; `Bits.AlignUp16` proves the two equal.
 */
module MixedPools {
  import opened Common
  import opened Bits

  /** `Error(1, ...)` "Offset out of range", and a read past the end of the buffer. */
  datatype Fault = OffsetOutOfRange | Overrun

  /** `AllocateSpace`: the least number of bytes an automatic re-allocation adds. */
  const AllocateSpace := 1024

  /** `buffer` (its length is `BufferSize`; length 0 is the null buffer), `DataSize`, `NumEntries`. */
  datatype Pool = Pool(buf: seq<uint8>, dataSize: nat, numEntries: nat)

  /**
   * What every operation keeps: the data fit in the buffer, the buffer is a multiple of 16
   * bytes, and every byte past the data is zero.
   */
  ghost predicate Valid(p: Pool) {
    p.dataSize <= |p.buf| && |p.buf| % 16 == 0
    && forall k :: p.dataSize <= k < |p.buf| ==> p.buf[k] == 0
  }

  /** The bytes in use. */
  function Data(p: Pool): seq<uint8>
    requires p.dataSize <= |p.buf|
  {
    p.buf[..p.dataSize]
  }

  /** The pool the constructor makes. */
  function Empty(): (p: Pool)
    ensures Valid(p) && Data(p) == []
  {
    Pool([], 0, 0)
  }

  /** `new char[size]`, `memset` to zero, `memcpy` of the old buffer: old bytes, then zeros. */
  function Grown(buf: seq<uint8>, size: nat): (r: seq<uint8>)
    requires |buf| <= size
    ensures |r| == size && r[..|buf|] == buf
    ensures forall k :: |buf| <= k < size ==> r[k] == 0
  {
    buf + Zeros(size - |buf|)
  }

  /** The bytes of a valid pool from `n` on are still zero in a grown copy of its buffer. */
  lemma GrownValid(p: Pool, size: nat)
    requires Valid(p) && |p.buf| <= size && size % 16 == 0
    ensures var q := Pool(Grown(p.buf, size), p.dataSize, p.numEntries);
      Valid(q) && Data(q) == Data(p)
  {
    var g := Grown(p.buf, size);
    assert g[..p.dataSize] == g[..|p.buf|][..p.dataSize];
  }

  /** Past the data the buffer holds zeros, so a longer prefix is the data followed by zeros. */
  lemma DataExtends(p: Pool, m: nat)
    requires Valid(p) && p.dataSize <= m <= |p.buf|
    ensures p.buf[..m] == Data(p) + Zeros(m - p.dataSize)
  {
    var x, y := p.buf[..m], Data(p) + Zeros(m - p.dataSize);
    forall k | 0 <= k < m
      ensures x[k] == y[k]
    {
      if k < p.dataSize {
        assert y[k] == Data(p)[k];
      } else {
        assert y[k] == Zeros(m - p.dataSize)[k - p.dataSize];
      }
    }
  }

  /**
   * `ReserveSize(size)`: the buffer only grows, to `size` rounded up to a multiple of 16,
   * keeping the data; a smaller positive size is ignored; 0 discards everything; a negative
   * size is an error.
   */
  function ReserveSize(p: Pool, size: int): (r: Result<Pool, Fault>)
    requires Valid(p)
    ensures r.Err? <==> size < 0
    ensures r.Err? ==> r.error == OffsetOutOfRange
    ensures size == 0 ==> r == Ok(Empty())
    ensures size > 0 ==> r.Ok? && Valid(r.value) && Data(r.value) == Data(p)
    ensures size > 0 ==> r.Ok? && r.value.numEntries == p.numEntries
    ensures size > 0 ==> r.Ok? && |r.value.buf| == if size <= |p.buf| then |p.buf| else RoundUp16(size)
  {
    if size <= |p.buf| then
      if size <= 0 then
        if size < 0 then Err(OffsetOutOfRange) else Ok(Empty())
      else Ok(p)
    else
      GrownValid(p, RoundUp16(size));
      Ok(Pool(Grown(p.buf, RoundUp16(size)), p.dataSize, p.numEntries))
  }

  /**
   * `SetDataSize(size)`: a larger size extends the data with zeros (the buffer grows to
   * `(size + 1024 + 15) & -16` when too small); a smaller one overwrites the bytes past it with
   * zeros. A negative size is an error. `NumEntries` is left as it was.
   */
  function SetDataSize(p: Pool, size: int): (r: Result<Pool, Fault>)
    requires Valid(p)
    ensures r.Err? <==> size < 0
    ensures r.Err? ==> r.error == OffsetOutOfRange
    ensures r.Ok? ==> Valid(r.value) && r.value.dataSize == size
    ensures r.Ok? ==> r.value.numEntries == p.numEntries
    ensures r.Ok? && size <= p.dataSize ==> Data(r.value) == Data(p)[..size]
    ensures r.Ok? && size > p.dataSize ==> Data(r.value) == Data(p) + Zeros(size - p.dataSize)
    ensures r.Ok? ==>
      |r.value.buf| == if size > |p.buf| then RoundUp16(size + AllocateSpace) else |p.buf|
  {
    if size < 0 then Err(OffsetOutOfRange)
    else if size > |p.buf| then
      var q := ReserveSize(p, RoundUp16(size + AllocateSpace)).value;
      DataExtends(q, size);
      Ok(q.(dataSize := size))
    else if size < p.dataSize then
      var buf := Write(p.buf, size, Zeros(p.dataSize - size));
      assert buf[..size] == p.buf[..size] by {
        WriteFrame(p.buf, size, Zeros(p.dataSize - size), 0, size);
      }
      Ok(Pool(buf, size, p.numEntries))
    else
      DataExtends(p, size);
      Ok(p.(dataSize := size))
  }

  /** The size of the buffer `Push` allocates when the object does not fit. */
  function PushGrowth(newOffset: nat): (n: nat)
    ensures n % 16 == 0 && n >= 2 * newOffset + AllocateSpace
  {
    RoundUp16(newOffset * 2 + AllocateSpace)
  }

  /**
   * `Push(obj, size)`: the offset the object gets (the old `DataSize`) and the new pool. The
   * object's bytes follow the data (zeros for a null `obj`); a push of 0 bytes adds nothing
   * and does not count as an entry.
   */
  function Push(p: Pool, obj: Option<seq<uint8>>, size: nat): (r: (Pool, nat))
    requires Valid(p) && (obj.Some? ==> |obj.value| == size)
    ensures r.1 == p.dataSize && Valid(r.0)
    ensures Data(r.0) == Data(p) + if obj.Some? then obj.value else Zeros(size)
    ensures r.0.numEntries == if size > 0 then p.numEntries + 1 else p.numEntries
    ensures |r.0.buf| ==
      if p.dataSize + size > |p.buf| then PushGrowth(p.dataSize + size) else |p.buf|
  {
    var newOffset := p.dataSize + size;
    var buf1 := if newOffset > |p.buf| then Grown(p.buf, PushGrowth(newOffset)) else p.buf;
    assert buf1[..p.dataSize] == Data(p) by {
      if newOffset > |p.buf| {
        assert buf1[..p.dataSize] == buf1[..|p.buf|][..p.dataSize];
      }
    }
    var buf2 := if obj.Some? && size > 0 then Write(buf1, p.dataSize, obj.value) else buf1;
    assert buf2[..p.dataSize] == Data(p) by {
      if obj.Some? && size > 0 {
        WriteFrame(buf1, p.dataSize, obj.value, 0, p.dataSize);
      }
    }
    assert buf2[p.dataSize..newOffset] == if obj.Some? then obj.value else Zeros(size) by {
      if obj.Some? && size > 0 {
        WriteHit(buf1, p.dataSize, obj.value);
      }
    }
    assert buf2[..newOffset] == buf2[..p.dataSize] + buf2[p.dataSize..newOffset];
    if size > 0 then (Pool(buf2, newOffset, p.numEntries + 1), p.dataSize)
    else (Pool(buf2, p.dataSize, p.numEntries), p.dataSize)
  }

  /** The buffer `Push` leaves: grown when the object does not fit, then the object written. */
  function PushedBuffer(p: Pool, obj: Option<seq<uint8>>, size: nat): seq<uint8>
    requires Valid(p) && (obj.Some? ==> |obj.value| == size)
  {
    var buf1 := if p.dataSize + size > |p.buf| then Grown(p.buf, PushGrowth(p.dataSize + size)) else p.buf;
    if obj.Some? && size > 0 then Write(buf1, p.dataSize, obj.value) else buf1
  }

  lemma PushIs(p: Pool, obj: Option<seq<uint8>>, size: nat)
    requires Valid(p) && (obj.Some? ==> |obj.value| == size)
    ensures Push(p, obj, size) ==
      (if size > 0 then Pool(PushedBuffer(p, obj, size), p.dataSize + size, p.numEntries + 1)
       else p.(buf := PushedBuffer(p, obj, size)), p.dataSize)
  {
  }

  /** `PushString(s)`: the zero-terminated string `s` with its terminating zero. */
  function PushString(p: Pool, s: seq<uint8>): (r: (Pool, nat))
    requires Valid(p)
    ensures r.1 == p.dataSize && Valid(r.0) && r.0.numEntries == p.numEntries + 1
    ensures Data(r.0) == Data(p) + CStr(s, 0) + [0]
  {
    var t := CStr(s, 0) + [0];
    Push(p, Some(t), |t|)
  }

  /** The smallest multiple of `a` not below `n`: `(n + a - 1) / a * a`. */
  function AlignUp(n: nat, a: nat): nat
    requires a > 0
  {
    (n + a - 1) / a * a
  }

  lemma MulLe(i: nat, j: nat, a: nat)
    requires i <= j
    ensures i * a <= j * a
  {
  }

  /** `AlignUp` is a multiple of `a`, less than `a` above `n`, and no multiple of `a` from `n` on is smaller. */
  lemma AlignUpMeans(n: nat, a: nat)
    requires a > 0
    ensures exists q: nat :: AlignUp(n, a) == q * a
    ensures n <= AlignUp(n, a) < n + a
    ensures forall j: nat :: n <= j * a ==> AlignUp(n, a) <= j * a
  {
    var q := (n + a - 1) / a;
    var rem := (n + a - 1) % a;
    assert n + a - 1 == q * a + rem && 0 <= rem < a;
    assert AlignUp(n, a) == q * a;
    forall j: nat | n <= j * a
      ensures q * a <= j * a
    {
      if j < q {
        MulLe(j + 1, q, a);
        MulSucc(j, a);
      }
    }
  }

  lemma MulSucc(j: nat, a: nat)
    ensures (j + 1) * a == j * a + a
  {
  }

  /**
   * `Align(a)`: the data extended with zeros up to the next multiple of `a`; when that is
   * past the buffer, the buffer grows by `ReserveSize(NewOffset * 2 + 1024)` first.
   */
  function Align(p: Pool, a: nat): (r: Pool)
    requires Valid(p) && a > 0
    ensures Valid(r) && r.dataSize == AlignUp(p.dataSize, a) && r.numEntries == p.numEntries
    ensures Data(r) == Data(p) + Zeros(r.dataSize - p.dataSize)
  {
    AlignUpMeans(p.dataSize, a);
    Extend(p, AlignUp(p.dataSize, a))
  }

  /**
   * The second half of `Align`: `DataSize` moved up to `newOffset`, after growing the buffer
   * by `ReserveSize(newOffset * 2 + AllocateSpace)` when `newOffset` is past it.
   */
  function Extend(p: Pool, newOffset: nat): (r: Pool)
    requires Valid(p) && p.dataSize <= newOffset
    ensures Valid(r) && r.dataSize == newOffset && r.numEntries == p.numEntries
    ensures Data(r) == Data(p) + Zeros(newOffset - p.dataSize)
  {
    var q := if newOffset > |p.buf| then ReserveSize(p, newOffset * 2 + AllocateSpace).value else p;
    DataExtends(q, newOffset);
    q.(dataSize := newOffset)
  }

  /**
   * `Get<TX>(Offset)` for an object of `n` bytes, with the check the container needs: the
   * object must lie inside the data.
   */
  function Get(p: Pool, off: int, n: nat): (r: Result<seq<uint8>, Fault>)
    requires Valid(p)
    ensures r.Ok? <==> 0 <= off && off + n <= p.dataSize
    ensures r.Ok? ==> r.value == Data(p)[off..off + n]
    ensures r.Err? ==> r.error == OffsetOutOfRange
  {
    if off < 0 || off + n > p.dataSize then Err(OffsetOutOfRange)
    else
      PrefixSlice(p.buf, p.dataSize, off, off + n);
      Ok(p.buf[off..off + n])
  }

  /** An assignment through the reference `Get<TX>(Offset)` returns, with the same check. */
  function SetAt(p: Pool, off: int, bytes: seq<uint8>): (r: Result<Pool, Fault>)
    requires Valid(p)
    ensures r.Ok? <==> 0 <= off && off + |bytes| <= p.dataSize
    ensures r.Ok? ==> Valid(r.value) && r.value.dataSize == p.dataSize
    ensures r.Ok? ==> r.value.numEntries == p.numEntries
    ensures r.Ok? ==> Data(r.value) == Write(Data(p), off, bytes)
  {
    if off < 0 || off + |bytes| > p.dataSize then Err(OffsetOutOfRange)
    else
      var buf := Write(p.buf, off, bytes);
      assert buf[..p.dataSize] == Write(Data(p), off, bytes);
      Ok(Pool(buf, p.dataSize, p.numEntries))
  }

  /** What `Push` stored is read back at the offset it returned. */
  lemma PushThenGet(p: Pool, obj: seq<uint8>)
    requires Valid(p)
    ensures var (q, off) := Push(p, Some(obj), |obj|);
      Get(q, off, |obj|) == Ok(obj)
  {
    var (q, off) := Push(p, Some(obj), |obj|);
    assert Data(q)[off..off + |obj|] == obj;
  }

  /** `Push` leaves every object already in the pool as it was. */
  lemma PushKeeps(p: Pool, obj: Option<seq<uint8>>, size: nat, off: int, n: nat)
    requires Valid(p) && (obj.Some? ==> |obj.value| == size)
    requires 0 <= off && off + n <= p.dataSize
    ensures Get(Push(p, obj, size).0, off, n) == Get(p, off, n)
  {
    var q := Push(p, obj, size).0;
    assert Data(q)[off..off + n] == Data(p)[off..off + n];
  }

  /** What an assignment through `Get` wrote is read back. */
  lemma SetThenGet(p: Pool, off: int, bytes: seq<uint8>)
    requires Valid(p) && 0 <= off && off + |bytes| <= p.dataSize
    ensures Get(SetAt(p, off, bytes).value, off, |bytes|) == Ok(bytes)
  {
    WriteHit(Data(p), off, bytes);
  }

  /** Growing the data with `SetDataSize` is pushing zeros, except that no entry is counted. */
  lemma SetDataSizeIsPushZeros(p: Pool, k: nat)
    requires Valid(p) && k > 0
    ensures Data(SetDataSize(p, p.dataSize + k).value) == Data(Push(p, None, k).0)
    ensures SetDataSize(p, p.dataSize + k).value.numEntries + 1 == Push(p, None, k).0.numEntries
  {
  }

  /** Data cut off by `SetDataSize` are gone: growing again brings back zeros. */
  lemma TruncateErases(p: Pool, size: nat)
    requires Valid(p) && size <= p.dataSize
    ensures var q := SetDataSize(p, size).value;
      Data(SetDataSize(q, p.dataSize).value) == Data(p)[..size] + Zeros(p.dataSize - size)
  {
  }

  /**
   * `Get` as written: `Offset >= DataSize` is the only check, so a negative offset, or an
   * object that starts inside the data and runs past the end of the buffer, is read from
   * outside the buffer (`Overrun` here).
   */
  function GetAsWritten(p: Pool, off: int, n: nat): (r: Result<seq<uint8>, Fault>)
    requires Valid(p)
    ensures r.Err? && r.error == OffsetOutOfRange <==> off >= p.dataSize
    ensures r.Ok? ==> 0 <= off && off + n <= |p.buf| && r.value == p.buf[off..off + n]
  {
    if off >= p.dataSize then Err(OffsetOutOfRange)
    else if off < 0 || off + n > |p.buf| then Err(Overrun)
    else Ok(p.buf[off..off + n])
  }

  /** Where the object (of at least one byte) lies inside the data, the check as written gives what `Get` gives. */
  lemma GetAsWrittenInside(p: Pool, off: int, n: nat)
    requires Valid(p) && 0 <= off && off + n <= p.dataSize && n > 0
    ensures GetAsWritten(p, off, n) == Get(p, off, n)
  {
    PrefixSlice(p.buf, p.dataSize, off, off + n);
  }

  /**
   * A full pool of 16 bytes: reading an 8-byte object at offset 12 passes the check as
   * written and runs 4 bytes past the buffer; so does any read at offset -1.
   */
  lemma GetAsWrittenOverruns()
    ensures Valid(Pool(Zeros(16), 16, 1))
    ensures GetAsWritten(Pool(Zeros(16), 16, 1), 12, 8) == Err(Overrun)
    ensures GetAsWritten(Pool(Zeros(16), 16, 1), -1, 1) == Err(Overrun)
    ensures Get(Pool(Zeros(16), 16, 1), 12, 8) == Err(OffsetOutOfRange)
  {
  }
}

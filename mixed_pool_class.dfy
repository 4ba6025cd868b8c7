/**
 * `MixedPool` (cppexamples/MixedPool.cpp) as the object the source declares: a byte array that
 * `ReserveSize` and `Push` replace by a larger one, with `DataSize` and `NumEntries`. Each
 * method is proved to take the object from state `Abs()` to the state the matching function of
 * `MixedPools` computes.
 */
module MixedPoolClass {
  import opened Common
  import opened Bits
  import opened MixedPools

  class MixedPool {
    /** `buffer`; `BufferSize` is its length. */
    var buffer: array<uint8>
    var dataSize: nat
    var numEntries: nat

    function Abs(): Pool
      reads this, buffer
    {
      Pool(buffer[..], dataSize, numEntries)
    }

    ghost predicate Inv()
      reads this, buffer
    {
      Valid(Abs())
    }

    constructor ()
      ensures Inv() && Abs() == Empty() && fresh(buffer)
    {
      buffer := new uint8[0];
      dataSize, numEntries := 0, 0;
    }

    function GetDataSize(): (n: nat)
      reads this, buffer
      requires Inv()
      ensures n == |Data(Abs())|
    {
      dataSize
    }

    function GetBufferSize(): (n: nat)
      reads this, buffer
      requires Inv()
      ensures n == |Abs().buf| && n % 16 == 0 && n >= GetDataSize()
    {
      buffer.Length
    }

    function GetNumEntries(): (n: nat)
      reads this
    {
      numEntries
    }

    /** `new char[size]`, `memset(buffer2, 0, size)`, `memcpy(buffer2, buffer, BufferSize)`. */
    method NewBuffer(size: nat) returns (b: array<uint8>)
      requires buffer.Length <= size
      ensures fresh(b) && b[..] == Grown(buffer[..], size)
    {
      b := new uint8[size](_ => 0);
      CopyInto(b, 0, buffer[..]);
      assert b[..] == buffer[..] + Zeros(size - buffer.Length);
    }

    method ReserveSize(size: int) returns (r: Result<(), Fault>)
      requires Inv()
      modifies this
      ensures Inv() && (buffer == old(buffer) || fresh(buffer))
      ensures MixedPools.ReserveSize(old(Abs()), size) == if r.Ok? then Ok(Abs()) else Err(r.error)
      ensures r.Err? ==> Abs() == old(Abs())
    {
      if size <= buffer.Length {
        if size <= 0 {
          if size < 0 {
            return Err(OffsetOutOfRange);
          }
          buffer := new uint8[0];
          dataSize, numEntries := 0, 0;
          assert Abs() == Empty();
        }
        return Ok(());
      }
      var b := NewBuffer(RoundUp16(size));
      buffer := b;
      return Ok(());
    }

    method SetDataSize(size: int) returns (r: Result<(), Fault>)
      requires Inv()
      modifies this, buffer
      ensures Inv() && (buffer == old(buffer) || fresh(buffer))
      ensures MixedPools.SetDataSize(old(Abs()), size) == if r.Ok? then Ok(Abs()) else Err(r.error)
      ensures r.Err? ==> Abs() == old(Abs())
    {
      if size < 0 {
        return Err(OffsetOutOfRange);
      }
      ghost var p := Abs();
      if size > buffer.Length {
        var _ := ReserveSize(RoundUp16(size + AllocateSpace));
      } else if size < dataSize {
        CopyInto(buffer, size, Zeros(dataSize - size));
      }
      dataSize := size;
      return Ok(());
    }

    /**
     * `Push(obj, size)`. When the object does not fit, it is copied into the new buffer before
     * the old one is let go, as the source does.
     */
    method Push(obj: Option<seq<uint8>>, size: nat) returns (offset: nat)
      requires Inv() && (obj.Some? ==> |obj.value| == size)
      modifies this, buffer
      ensures Inv() && (buffer == old(buffer) || fresh(buffer))
      ensures (Abs(), offset) == MixedPools.Push(old(Abs()), obj, size)
    {
      ghost var p := Abs();
      PushIs(p, obj, size);
      offset := dataSize;
      PlaceObject(obj, size);
      if size > 0 {
        dataSize := dataSize + size;
        numEntries := numEntries + 1;
      }
    }

    /**
     * The buffer work of `Push`: a larger zeroed buffer holding the old contents when the
     * object does not fit, and the object copied in at `dataSize`, into the new buffer before
     * it replaces the old one.
     */
    method PlaceObject(obj: Option<seq<uint8>>, size: nat)
      requires Inv() && (obj.Some? ==> |obj.value| == size)
      modifies this, buffer
      ensures buffer == old(buffer) || fresh(buffer)
      ensures buffer[..] == PushedBuffer(old(Abs()), obj, size)
      ensures dataSize == old(dataSize) && numEntries == old(numEntries)
    {
      var newOffset := dataSize + size;
      var copied := false;
      if newOffset > buffer.Length {
        var buffer2 := NewBuffer(PushGrowth(newOffset));
        if obj.Some? && size > 0 {
          CopyInto(buffer2, dataSize, obj.value);
          copied := true;
        }
        buffer := buffer2;
      }
      if !copied && obj.Some? && size > 0 {
        CopyInto(buffer, dataSize, obj.value);
      }
    }

    /**
     * `Push(obj, size)` with `obj` pointing at `size` bytes of the pool's own data, at offset
     * `off`. The bytes are taken before anything is reallocated, which is what the source
     * gets by copying them into the new buffer before it deletes the old one; so the pushed
     * copy is what `obj` held.
     */
    method PushOwn(off: nat, size: nat) returns (offset: nat)
      requires Inv() && off + size <= dataSize
      modifies this, buffer
      ensures Inv() && (buffer == old(buffer) || fresh(buffer))
      ensures (Abs(), offset) == MixedPools.Push(old(Abs()), Some(old(Data(Abs()))[off..off + size]), size)
    {
      PrefixSlice(buffer[..], dataSize, off, off + size);
      assert buffer[off..off + size] == Data(Abs())[off..off + size];
      offset := Push(Some(buffer[off..off + size]), size);
    }

    /** `PushString(s)`: `Push(s, strlen(s) + 1)`. */
    method PushString(s: seq<uint8>) returns (offset: nat)
      requires Inv()
      modifies this, buffer
      ensures Inv() && (buffer == old(buffer) || fresh(buffer))
      ensures (Abs(), offset) == MixedPools.PushString(old(Abs()), s)
    {
      var t := CStr(s, 0) + [0];
      offset := Push(Some(t), |t|);
    }

    method Align(a: nat)
      requires Inv() && a > 0
      modifies this
      ensures Inv() && (buffer == old(buffer) || fresh(buffer))
      ensures Abs() == MixedPools.Align(old(Abs()), a)
    {
      ghost var p := Abs();
      var newOffset := AlignUp(dataSize, a);
      AlignUpMeans(dataSize, a);
      if newOffset > buffer.Length {
        var _ := ReserveSize(newOffset * 2 + AllocateSpace);
      }
      assert Abs() == if newOffset > |p.buf| then MixedPools.ReserveSize(p, newOffset * 2 + AllocateSpace).value else p;
      dataSize := newOffset;
    }

    /** `Get<TX>(Offset)` for an object of `n` bytes: its bytes. */
    method Get(off: int, n: nat) returns (r: Result<seq<uint8>, Fault>)
      requires Inv()
      ensures r == MixedPools.Get(Abs(), off, n)
    {
      if off < 0 || off + n > dataSize {
        return Err(OffsetOutOfRange);
      }
      return Ok(buffer[off..off + n]);
    }

    /** An assignment through the reference `Get<TX>(Offset)` returns. */
    method SetAt(off: int, bytes: seq<uint8>) returns (r: Result<(), Fault>)
      requires Inv()
      modifies buffer
      ensures Inv()
      ensures MixedPools.SetAt(old(Abs()), off, bytes) == if r.Ok? then Ok(Abs()) else Err(r.error)
      ensures r.Err? ==> Abs() == old(Abs())
    {
      if off < 0 || off + |bytes| > dataSize {
        return Err(OffsetOutOfRange);
      }
      CopyInto(buffer, off, bytes);
      return Ok(());
    }
  }
}

/**
 * `StringPoolL` (cppexamples/StringPoolL.cpp) as the object the source declares: the character
 * buffer and the offsets table are arrays the methods update in place or replace, and the
 * counters are fields. Each method is proved to take the object from state `Abs()` to the
 * state the matching function of `StringPoolLOps` computes, so every property proved about
 * those functions holds of the object.
 */
module StringPoolLClass {
  import opened Common
  import opened StringPoolLRecords
  import opened StringPoolLOps
  import opened StringPoolLCompaction
  import opened StringPoolLProofs
  import opened StringPoolLApi

  /** What a method that can fail reports: nothing, or the error the function returns. */
  ghost predicate Reports<T>(r: Result<T, Error>, e: Option<Error>)
  {
    (r.Ok? ==> e.None?) && (r.Err? ==> e == Some(r.error))
  }

  class StringPool {
    var buffer: array<uint8>     // Buffer; BufferSize is its length
    var offsets: array<nat>      // Offsets; OffsetsSize is its length
    var dataSize: nat            // DataSize
    var garbageSize: nat         // GarbageSize
    var top: nat                 // Top
    var num: nat                 // Num

    /** The state as a value. */
    function Abs(): Pool
      reads this, buffer, offsets
    {
      Pool(buffer[..], offsets[..], dataSize, garbageSize, top, num)
    }

    /** The constructor zeroes every field. */
    constructor ()
      ensures Abs() == Empty && Sound(Abs())
    {
      buffer := new uint8[0];
      offsets := new nat[0];
      dataSize, garbageSize, top, num := 0, 0, 0, 0;
    }

    /** Grows the offsets table to at least `newsize` entries, copying it and zeroing the rest. */
    method ReserveNum(newsize: nat)
      modifies this
      ensures Abs() == StringPoolLOps.ReserveNum(old(Abs()), newsize)
      ensures buffer == old(buffer) && (offsets == old(offsets) || fresh(offsets))
    {
      if newsize <= offsets.Length {
        return;
      }
      var size := Max(newsize, offsets.Length * 2 + AllocateSpace2);
      var offsets2 := new nat[size](_ => 0);
      CopyInto(offsets2, 0, offsets[..]);
      assert offsets2[..] == offsets[..] + seq(size - offsets.Length, _ => 0);
      offsets := offsets2;
    }

    /** The start of `Set`: a handle past `Num` raises `Num` and, if needed, the table size. */
    method Enter(i: nat)
      requires num <= offsets.Length
      modifies this
      ensures Abs() == StringPoolLOps.Enter(old(Abs()), i)
      ensures buffer == old(buffer) && (offsets == old(offsets) || fresh(offsets))
    {
      if i >= num {
        num := i + 1;
        if i >= offsets.Length {
          ReserveNum(i + 1);
        }
      }
    }

    /** Reads the length word at `o`. */
    method LengthAt(o: nat) returns (n: nat)
      requires o + 1 < buffer.Length
      ensures n == LenAt(buffer[..], o)
    {
      n := buffer[o] as nat + 0x100 * buffer[o + 1] as nat;
    }

    /**
     * Moves every non-empty record, in handle order, to a new zeroed buffer of at least
     * `newsize` bytes after a fresh empty record, dropping the garbage.
     */
    method ReserveBuf(newsize: nat)
      requires Layout(Abs()) && Live(Abs()) <= GrownSize(Abs(), newsize)
      modifies this, offsets
      ensures Abs() == StringPoolLOps.ReserveBuf(old(Abs()), newsize)
      ensures Valid(Abs()) && garbageSize == 0
      ensures var p := old(Abs());
        (forall h :: 0 <= h < p.num && p.offs[h] != 0 ==> Terminated(p.buf, p.offs[h])) ==> Sound(Abs())
      ensures offsets == old(offsets) && fresh(buffer)
    {
      ghost var p := Abs();
      ReserveBufKeeps(p, newsize);
      var size := newsize;
      if size < (dataSize - garbageSize) * 2 + AllocateSpace1 {
        size := (dataSize - garbageSize) * 2 + AllocateSpace1;
      }
      var buffer2 := new uint8[size + Overhead](_ => 0);
      var dataSize2: nat := Overhead;
      top := Overhead;
      assert buffer2[..] == Zeros(size + Overhead);
      if buffer.Length > 0 {
        dataSize2, top := CompactInto(p, newsize, num, buffer, buffer2, offsets);
      }
      ghost var q := StringPoolLOps.ReserveBuf(p, newsize);
      assert q == Pool(buffer2[..], offsets[..], dataSize2, 0, top, num);
      buffer := buffer2;
      dataSize := dataSize2;
      garbageSize := 0;
    }

    /**
     * Makes room for a string of `len` characters for handle `i` and returns where its record
     * goes: in place when the old record is the last one or is long enough, else at the end.
     */
    method Allocate(i: nat, len: nat) returns (slot: nat)
      requires Valid(Abs()) && i < num
      modifies this, offsets
      ensures Placement(Abs(), slot) == StringPoolLOps.Allocate(old(Abs()), i, len)
      ensures offsets == old(offsets) && (buffer == old(buffer) || fresh(buffer))
    {
      ghost var p := Abs();
      var o := offsets[i];
      if o != 0 {
        assert Placed(p, o);
        if o == top && top + Overhead + len <= buffer.Length {
          dataSize := top + Overhead + len;
          return top;
        }
        var oldLen := LengthAt(o);
        if oldLen >= len {
          garbageSize := garbageSize + (oldLen - len);
          return o;
        }
        garbageSize := garbageSize + oldLen + Overhead;
      }
      AbandonedKeeps(p, i);
      assert Abs() == Abandoned(p, i);
      slot := Append(i, len);
    }

    /** The branch of `Allocate` that puts the record after the used part, growing the buffer first if needed. */
    method Append(i: nat, len: nat) returns (slot: nat)
      requires Layout(Abs()) && i < num && Live(Abs()) <= dataSize
      modifies this, offsets
      ensures Placement(Abs(), slot) == StringPoolLOps.Append(old(Abs()), i, len)
      ensures offsets == old(offsets) && (buffer == old(buffer) || fresh(buffer))
    {
      ghost var p := Abs();
      var newsize := dataSize + Overhead + len;
      if newsize > buffer.Length {
        ReserveBuf(newsize);
      }
      AppendAfter(p, Abs(), i, len, newsize);
      offsets[i] := dataSize;
      top := dataSize;
      slot := dataSize;
      dataSize := dataSize + Overhead + len;
    }

    /** `Allocate` followed by writing the length word, the characters and the terminating zero. */
    method Store(i: nat, chars: seq<uint8>)
      requires Valid(Abs()) && i < num && |chars| > 0
      modifies this, offsets, buffer
      ensures StringPoolLOps.Store(old(Abs()), i, chars) == Ok(Abs())
      ensures Valid(Abs()) && (Sound(old(Abs())) && |chars| <= MaxLength ==> Sound(Abs()))
      ensures offsets == old(offsets) || fresh(offsets)
    {
      ghost var p := Abs();
      StoreReplaces(p, i, chars);
      var slot := Allocate(i, |chars|);
      CopyInto(buffer, slot, Encode(|chars|, chars));
    }

    /** The empty string for handle `i`: its old record, if any, becomes garbage. */
    method Erase(i: nat)
      requires Valid(Abs()) && i < num
      modifies this, offsets
      ensures Abs() == StringPoolLOps.Erase(old(Abs()), i)
      ensures Valid(Abs()) && (Sound(old(Abs())) ==> Sound(Abs()))
      ensures offsets == old(offsets) && buffer == old(buffer)
    {
      EraseKeeps(Abs(), i);
      if offsets[i] != 0 {
        assert Placed(Abs(), offsets[i]);
        var n := LengthAt(offsets[i]);
        garbageSize := garbageSize + n + Overhead;
        offsets[i] := 0;
      }
    }

    /** `Set(i, s)`: string `i` becomes the zero-terminated string at the start of `s`. */
    method Set(i: int, s: seq<uint8>) returns (e: Option<Error>)
      requires Sound(Abs())
      modifies this, offsets, buffer
      ensures var r := StringPoolLOps.Set(old(Abs()), i, s);
        Reports(r, e) && (r.Ok? ==> Abs() == r.value)
      ensures e.Some? ==> i < 0 || |CStr(s, 0)| > MaxLength
      ensures e.Some? ==> Abs() == if i < 0 then old(Abs()) else StringPoolLOps.Enter(old(Abs()), i)
      ensures Sound(Abs()) && (offsets == old(offsets) || fresh(offsets))
    {
      if i < 0 {
        return Some(InvalidHandle);
      }
      EnterKeeps(Abs(), i);
      Enter(i);
      var t := CStr(s, 0);
      if |t| == 0 {
        Erase(i);
        return None;
      }
      if |t| > MaxLength {
        return Some(StringTooLong);
      }
      Store(i, t);
      e := None;
    }

    /** `Set(i, s, len)` (as corrected): string `i` becomes the `len == |s|` bytes of `s`. */
    method SetN(i: int, s: seq<uint8>) returns (e: Option<Error>)
      requires Sound(Abs())
      modifies this, offsets, buffer
      ensures var r := StringPoolLOps.SetN(old(Abs()), i, s);
        Reports(r, e) && (r.Ok? ==> Abs() == r.value)
      ensures e.Some? ==> i < 0 || |s| > MaxLength
      ensures e.Some? ==> Abs() == if i < 0 then old(Abs()) else StringPoolLOps.Enter(old(Abs()), i)
      ensures Sound(Abs()) && (offsets == old(offsets) || fresh(offsets))
    {
      if i < 0 {
        return Some(InvalidHandle);
      }
      EnterKeeps(Abs(), i);
      Enter(i);
      if |s| == 0 {
        Erase(i);
        return None;
      }
      if |s| > MaxLength {
        return Some(StringTooLong);
      }
      Store(i, s);
      e := None;
    }

    /**
     * `Concatenate(i, s)` (as corrected): appends the C string of `s` to string `i`. The old
     * characters are taken before `Allocate` may move the records, as the source keeps the
     * old buffer alive for the copy.
     */
    method Concatenate(i: int, s: seq<uint8>) returns (e: Option<Error>)
      requires Sound(Abs())
      modifies this, offsets, buffer
      ensures var r := StringPoolLOps.Concatenate(old(Abs()), i, s);
        Reports(r, e) && (r.Ok? ==> Abs() == r.value)
      ensures e.Some? ==> Abs() == old(Abs())
      ensures Sound(Abs())
    {
      ghost var p := Abs();
      if i < 0 || i >= num {
        return Some(InvalidHandle);
      }
      if buffer.Length == 0 {
        return Some(NullBuffer);
      }
      var o := offsets[i];
      if o != 0 {
        assert Placed(p, o);
      }
      var len1 := LengthAt(o);
      var t := CStr(s, 0);
      if |t| == 0 {
        return None;
      }
      if |t| > MaxLength || len1 + |t| > MaxLength {
        return Some(StringTooLong);
      }
      if len1 == 0 {
        e := Set(i, s);
        return;
      }
      var string1 := buffer[o + LengthBytes .. o + LengthBytes + len1];
      assert string1 == Content(p, i);
      ConcatenateSound(p, i, s);
      Store(i, string1 + t);
      e := None;
    }

    /** `Clear()` (as corrected): every handle in use reads the empty string again. */
    method Clear()
      requires Sound(Abs())
      modifies this, offsets
      ensures Abs() == StringPoolLOps.Clear(old(Abs()))
      ensures Sound(Abs())
    {
      ghost var p := Abs();
      ClearSound(p);
      var k := 0;
      while k < num
        invariant k <= num == p.num <= offsets.Length == |p.offs| && offsets == old(offsets)
        invariant buffer[..] == p.buf && dataSize == p.dataSize && garbageSize == p.garbageSize && top == p.top
        invariant forall h :: 0 <= h < offsets.Length ==> offsets[h] == if h < k then 0 else p.offs[h]
      {
        offsets[k] := 0;
        k := k + 1;
      }
      dataSize := if buffer.Length > 0 then Overhead else 0;
      garbageSize := 0;
      assert offsets[..] == StringPoolLOps.Clear(p).offs;
    }

    /** `Len(i)`. */
    method Len(i: int) returns (r: Result<nat, Error>)
      ensures r == StringPoolLOps.Len(Abs(), i)
    {
      if i < 0 || i >= num || i >= offsets.Length {
        return Err(InvalidHandle);
      }
      if buffer.Length == 0 {
        return Err(NullBuffer);
      }
      var o := offsets[i];
      if o + 1 < buffer.Length {
        var n := LengthAt(o);
        return Ok(n);
      }
      return Ok(0);
    }

    /** `Get(i)`: where the characters of string `i` start in the buffer. */
    method Get(i: int) returns (r: Result<nat, Error>)
      ensures r == StringPoolLOps.Get(Abs(), i)
    {
      if i < 0 || i >= num || i >= offsets.Length {
        return Err(InvalidHandle);
      }
      return Ok(offsets[i] + LengthBytes);
    }

    /** `strings[index][k]`: reading one character, within the string's length. */
    method CharAt(index: int, k: int) returns (r: Result<uint8, Error>)
      ensures r == StringPoolLOps.CharAt(Abs(), index, k)
    {
      var n := Len(index);
      if n.Err? {
        return Err(n.error);
      }
      if k < 0 || k >= n.value {
        return Err(OutOfBounds);
      }
      var at := offsets[index] + LengthBytes + k;
      if at >= buffer.Length {
        return Err(Overrun);
      }
      return Ok(buffer[at]);
    }

    /** `strings[index][k] = c`: writing one character, within the string's length. */
    method SetCharAt(index: int, k: int, c: uint8) returns (e: Option<Error>)
      requires Sound(Abs())
      modifies buffer
      ensures var r := StringPoolLOps.SetCharAt(old(Abs()), index, k, c);
        Reports(r, e) && (r.Ok? ==> Abs() == r.value) && (r.Err? ==> Abs() == old(Abs()))
      ensures Sound(Abs())
    {
      ghost var p := Abs();
      var n := Len(index);
      if n.Err? {
        return Some(n.error);
      }
      if k < 0 || k >= n.value {
        return Some(OutOfBounds);
      }
      var at := offsets[index] + LengthBytes + k;
      if at >= buffer.Length {
        return Some(Overrun);
      }
      LenIsContent(p, index);
      SetCharAtWrites(p, index, k, c);
      buffer[at] := c;
      e := None;
    }

    /** `strings[index].SearchForSubstring(s)`: where the C string `s` first occurs, or -1. */
    method SearchForSubstring(index: int, s: seq<uint8>) returns (r: Result<int, Error>)
      ensures r == StringPoolLOps.SearchForSubstring(Abs(), index, s)
    {
      var g := Get(index);
      if g.Err? {
        return Err(g.error);
      }
      if buffer.Length == 0 {
        return Err(NullBuffer);
      }
      var text := if g.value <= buffer.Length then CStr(buffer[g.value..], 0) else [];
      return Ok(IndexOf(text, CStr(s, 0), 0));
    }

    /** `strings[index] = strings[source]`: `Set(index, Get(source), Len(source))`. */
    method Assign(index: int, source: int) returns (e: Option<Error>)
      requires Sound(Abs())
      modifies this, offsets, buffer
      ensures var r := StringPoolLOps.Assign(old(Abs()), index, source);
        Reports(r, e) && (r.Ok? ==> Abs() == r.value)
      ensures e.Some? ==> Abs() == old(Abs())
      ensures Sound(Abs())
    {
      ghost var p := Abs();
      var n := Len(source);
      if n.Err? {
        return Some(n.error);
      }
      var o := offsets[source];
      if o != 0 {
        assert Placed(p, o);
      }
      var chars := buffer[o + LengthBytes .. o + LengthBytes + n.value];
      assert chars == Content(p, source);
      e := SetN(index, chars);
    }

    /** `strings[index].SetToSubstring(s, start, len)`: characters [start, start+len) of `s`. */
    method SetToSubstring(index: int, s: seq<uint8>, start: nat, len: nat) returns (e: Option<Error>)
      requires Sound(Abs())
      modifies this, offsets, buffer
      ensures var r := StringPoolLOps.SetToSubstring(old(Abs()), index, s, start, len);
        Reports(r, e) && (r.Ok? ==> Abs() == r.value)
      ensures e.Some? ==> Abs() == if index < 0 || start + len > |CStr(s, 0)| then old(Abs()) else StringPoolLOps.Enter(old(Abs()), index)
      ensures Sound(Abs())
    {
      var t := CStr(s, 0);
      if start + len > |t| {
        return Some(OutOfBounds);
      }
      e := SetN(index, t[start .. start + len]);
    }
  }

  /** `ReserveBuf` leaves a valid pool without garbage, and a sound one when every record was terminated. */
  lemma ReserveBufKeeps(p: Pool, newsize: nat)
    requires Layout(p) && Live(p) <= GrownSize(p, newsize)
    ensures Valid(ReserveBuf(p, newsize)) && ReserveBuf(p, newsize).garbageSize == 0
    ensures (forall h :: 0 <= h < p.num && p.offs[h] != 0 ==> Terminated(p.buf, p.offs[h])) ==>
      Sound(ReserveBuf(p, newsize))
  {
    ReserveBufValid(p, newsize);
    if forall h :: 0 <= h < p.num && p.offs[h] != 0 ==> Terminated(p.buf, p.offs[h]) {
      ReserveBufSound(p, newsize);
    }
  }

  /**
   * The copy loop of `ReserveBuf` (cppexamples/StringPoolL.cpp:381-400), over handles below
   * `Num`. The source also adds 3 to `GarbageSize` for each empty record it drops and then sets
   * `GarbageSize` to 0; only that net effect is kept.
   */
  method CompactInto(ghost p: Pool, newsize: nat, num: nat, src: array<uint8>, dst: array<uint8>, offs: array<nat>)
    returns (size: nat, top: nat)
    requires Layout(p) && Live(p) <= GrownSize(p, newsize)
    requires num == p.num && src != dst && src[..] == p.buf && offs[..] == p.offs
    requires dst[..] == Zeros(GrownSize(p, newsize) + Overhead)
    modifies dst, offs
    ensures Copy(dst[..], offs[..], size, top) == CompactUpTo(p.buf, CompactStart(p, newsize), p.num)
  {
    ghost var c0 := CompactStart(p, newsize);
    size, top := Overhead, Overhead;
    var k := 0;
    while k < num
      invariant k <= num && src[..] == p.buf
      invariant Copy(dst[..], offs[..], size, top) == CompactUpTo(p.buf, c0, k)
    {
      size, top := CompactPass(p, newsize, c0, k, src, dst, offs, size, top);
      k := k + 1;
    }
  }

  /** The pass of the copy loop for handle `k`, taking the loop from `k` handles to `k + 1`. */
  method CompactPass(ghost p: Pool, ghost newsize: nat, ghost c0: Copy, k: nat,
                     src: array<uint8>, dst: array<uint8>, offs: array<nat>, size: nat, top: nat)
    returns (size': nat, top': nat)
    requires Layout(p) && k < p.num && Live(p) <= GrownSize(p, newsize) && c0 == CompactStart(p, newsize)
    requires src != dst && src[..] == p.buf
    requires Copy(dst[..], offs[..], size, top) == CompactUpTo(p.buf, c0, k)
    modifies dst, offs
    ensures Copy(dst[..], offs[..], size', top') == CompactUpTo(p.buf, c0, k + 1)
  {
    ghost var c := Copy(dst[..], offs[..], size, top);
    StepFits(p, newsize, c0, k, c.buf, c.offs, size, top);
    size', top' := CopyStep(src, dst, offs, size, top, k);
    assert Copy(dst[..], offs[..], size', top') == CompactStep(p.buf, c, k);
  }

  /** `Append` places the record at the end of the used part of the pool it has grown, or not. */
  lemma AppendAfter(p: Pool, q: Pool, i: nat, len: nat, newsize: nat)
    requires Shaped(p) && i < |p.offs| && newsize == p.dataSize + Overhead + len
    requires q == if newsize > |p.buf| then ReserveBuf(p, newsize) else p
    ensures i < |q.offs|
    ensures StringPoolLOps.Append(p, i, len) ==
      Placement(q.(offs := q.offs[i := q.dataSize], top := q.dataSize,
                   dataSize := q.dataSize + Overhead + len), q.dataSize)
  {
  }

  /** The copy loop's pass for handle `k` finds its record inside the old buffer and room for it. */
  lemma StepFits(p: Pool, newsize: nat, c0: Copy, k: nat, buf: seq<uint8>, offs: seq<nat>, size: nat, top: nat)
    requires Layout(p) && k < p.num && Live(p) <= GrownSize(p, newsize) && c0 == CompactStart(p, newsize)
    requires Copy(buf, offs, size, top) == CompactUpTo(p.buf, c0, k)
    ensures k < |offs| && offs[k] == p.offs[k]
    ensures p.offs[k] != 0 ==> End(p.buf, p.offs[k]) <= |p.buf|
    ensures p.offs[k] != 0 && LenAt(p.buf, p.offs[k]) != 0 ==>
              size + LenAt(p.buf, p.offs[k]) + Overhead <= |buf|
  {
    CopyInvLoop(p, newsize, k);
    CopyInvAt(p, GrownSize(p, newsize) + Overhead, Copy(buf, offs, size, top), k);
    KeptMono(p, k + 1, p.num);
    KeptBelowLive(p, p.num);
    if p.offs[k] != 0 {
      assert Placed(p, p.offs[k]);
    }
  }

  /** What the copy loop's pass for handle `k` needs of the invariant before it. */
  lemma CopyInvAt(p: Pool, size: nat, c: Copy, k: nat)
    requires CopyInv(p, size, c, k) && k < |p.offs|
    ensures c.offs[k] == p.offs[k] && c.size == Overhead + KeptUpTo(p, k) && |c.buf| == size
  {
  }

  /**
   * One pass of the copy loop of `ReserveBuf` (cppexamples/StringPoolL.cpp:384-399): the record
   * of handle `k` is copied to `size` and becomes the new top, or an empty one is dropped.
   */
  method CopyStep(src: array<uint8>, dst: array<uint8>, offs: array<nat>, size: nat, top: nat, k: nat)
    returns (size': nat, top': nat)
    requires src != dst && k < offs.Length
    requires offs[k] != 0 ==> End(src[..], offs[k]) <= src.Length
    requires offs[k] != 0 && LenAt(src[..], offs[k]) != 0 ==>
               size + Overhead + LenAt(src[..], offs[k]) <= dst.Length
    modifies dst, offs
    ensures Copy(dst[..], offs[..], size', top')
            == CompactStep(src[..], old(Copy(dst[..], offs[..], size, top)), k)
  {
    size', top' := size, top;
    var o := offs[k];
    if o != 0 {
      var len := src[o] as nat + 0x100 * src[o + 1] as nat;
      if len != 0 {
        assert src[o .. o + Overhead + len] == RecordBytes(src[..], o);
        CopyInto(dst, size, src[o .. o + Overhead + len]);
        offs[k] := size;
        top' := size;
        size' := size + Overhead + len;
      } else {
        offs[k] := 0;
      }
    }
  }
}

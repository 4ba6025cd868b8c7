/**
 * `StringPoolW` (cppexamples/StringPoolW.cpp) as the object the source declares: the buffer
 * of wide characters and the offsets table are arrays the methods update in place or replace,
 * and the counters are fields. Each method is proved to take the object from state `Abs()` to
 * the state the matching function of `StringPoolWOps` computes, so every property proved
 * about those functions holds of the object.
 */
module StringPoolWClass {
  import opened Common
  import opened StringPoolWRecords
  import opened StringPoolWOps
  import opened StringPoolWCompaction
  import opened StringPoolWProofs
  import opened StringPoolWApi

  /** What a method that can fail reports: nothing, or the error the function returns. */
  ghost predicate Reports<T>(r: Result<T, Error>, e: Option<Error>)
  {
    (r.Ok? ==> e.None?) && (r.Err? ==> e == Some(r.error))
  }

  /** `wcslen(a + o)`: the characters before the first zero at or after `o`. */
  method StrLen(a: array<wchar>, o: nat) returns (n: nat)
    ensures n == LenAt(a[..], o)
  {
    n := 0;
    while o + n < a.Length && a[o + n] != 0
      invariant Scan(a[..], o) == Scan(a[..], o + n)
      decreases a.Length - (o + n)
    {
      n := n + 1;
    }
  }

  class StringPool {
    var buffer: array<wchar>     // Buffer; BufferSize is its length
    var offsets: array<nat>      // Offsets; OffsetsSize is its length
    var dataSize: nat            // DataSize
    var garbageSize: nat         // GarbageSize
    var top: nat                 // Top
    var num: nat                 // Num

    /** The state as a value. */
    function Abs(): Pool
      reads this, buffer, offsets
    {
      Pool(buffer[..], offsets[..], dataSize, garbageSize, top, num)
    }

    /** The constructor zeroes every field. */
    constructor ()
      ensures Abs() == Empty && Sound(Abs())
    {
      buffer := new wchar[0];
      offsets := new nat[0];
      dataSize, garbageSize, top, num := 0, 0, 0, 0;
    }

    /** Grows the offsets table to at least `newsize` entries, copying it and zeroing the rest. */
    method ResizeNum(newsize: nat)
      modifies this
      ensures Abs() == StringPoolWOps.ResizeNum(old(Abs()), newsize)
      ensures buffer == old(buffer) && (offsets == old(offsets) || fresh(offsets))
    {
      if newsize <= offsets.Length {
        return;
      }
      var size := Max(newsize, offsets.Length * 2 + AllocateSpace2);
      var offsets2 := new nat[size](_ => 0);
      CopyInto(offsets2, 0, offsets[..]);
      assert offsets2[..] == offsets[..] + seq(size - offsets.Length, _ => 0);
      offsets := offsets2;
    }

    /** The start of both `Set`s: a handle past `Num` raises `Num` and, if needed, the table size. */
    method Enter(i: nat)
      requires num <= offsets.Length
      modifies this
      ensures Abs() == StringPoolWOps.Enter(old(Abs()), i)
      ensures buffer == old(buffer) && (offsets == old(offsets) || fresh(offsets))
    {
      if i >= num {
        num := i + 1;
        if i >= offsets.Length {
          ResizeNum(i + 1);
        }
      }
    }

    /** The characters of the string at `o`, read up to its zero. */
    method ReadString(o: nat) returns (chars: seq<wchar>)
      ensures chars == Payload(buffer[..], o)
    {
      var n := StrLen(buffer, o);
      chars := if o <= buffer.Length then buffer[o .. o + n] else [];
    }

    /**
     * Moves every non-empty string, in handle order, to a new zeroed buffer of at least
     * `newsize + 1` units after a fresh empty string, dropping the garbage.
     */
    method ResizeBuf(newsize: nat)
      requires Layout(Abs()) && Live(Abs()) <= GrownSize(Abs(), newsize)
      modifies this, offsets
      ensures Abs() == StringPoolWOps.ResizeBuf(old(Abs()), newsize)
      ensures Sound(Abs()) && garbageSize == 0
      ensures offsets == old(offsets) && fresh(buffer)
    {
      ghost var p := Abs();
      var size := newsize;
      if size < (dataSize - garbageSize) * 2 + AllocateSpace1 {
        size := (dataSize - garbageSize) * 2 + AllocateSpace1;
      }
      var buffer2 := new wchar[size + Overhead](_ => 0);
      var dataSize2: nat := Overhead;
      top := Overhead;
      assert buffer2[..] == Blank(size + Overhead);
      if buffer.Length > 0 {
        dataSize2, top := CompactInto(p, newsize, num, buffer, buffer2, offsets);
      }
      ghost var q := StringPoolWOps.ResizeBuf(p, newsize);
      assert q == Pool(buffer2[..], offsets[..], dataSize2, 0, top, num);
      buffer := buffer2;
      dataSize := dataSize2;
      garbageSize := 0;
      ResizeBufSound(p, newsize);
    }

    /**
     * Makes room for a string of `len` characters for handle `i` and returns where it goes:
     * in place when the old string is the last one and fits or is long enough, else at the end.
     */
    method Allocate(i: nat, len: nat) returns (slot: nat)
      requires Valid(Abs()) && i < num
      modifies this, offsets
      ensures Placement(Abs(), slot) == StringPoolWOps.Allocate(old(Abs()), i, len)
      ensures offsets == old(offsets) && (buffer == old(buffer) || fresh(buffer))
    {
      ghost var p := Abs();
      var o := offsets[i];
      if o != 0 {
        if o == top && top + len + Overhead <= buffer.Length {
          dataSize := top + len + Overhead;
          return top;
        }
        var oldLen := StrLen(buffer, o);
        if oldLen >= len {
          garbageSize := garbageSize + (oldLen - len);
          return o;
        }
        garbageSize := garbageSize + oldLen + Overhead;
      }
      AbandonedKeeps(p, i);
      assert Abs() == Abandoned(p, i);
      slot := Append(i, len);
    }

    /** The branch of `Allocate` that puts the string after the used part, growing the buffer first if needed. */
    method Append(i: nat, len: nat) returns (slot: nat)
      requires Layout(Abs()) && i < num && Live(Abs()) <= dataSize
      modifies this, offsets
      ensures Placement(Abs(), slot) == StringPoolWOps.Append(old(Abs()), i, len)
      ensures offsets == old(offsets) && (buffer == old(buffer) || fresh(buffer))
    {
      ghost var p := Abs();
      var newsize := dataSize + len + Overhead;
      if newsize > buffer.Length {
        ResizeBuf(newsize);
      }
      AppendAfter(p, Abs(), i, len, newsize);
      offsets[i] := dataSize;
      top := dataSize;
      slot := dataSize;
      dataSize := dataSize + len + Overhead;
    }

    /** `Allocate` followed by copying the characters and the terminating zero. */
    method Store(i: nat, chars: seq<wchar>)
      requires Valid(Abs()) && i < num && |chars| > 0
      modifies this, offsets, buffer
      ensures StringPoolWOps.Store(old(Abs()), i, chars) == Ok(Abs())
      ensures Valid(Abs()) && (Sound(old(Abs())) ==> Sound(Abs()))
      ensures offsets == old(offsets) || fresh(offsets)
    {
      ghost var p := Abs();
      StoreReplaces(p, i, chars);
      var slot := Allocate(i, |chars|);
      CopyInto(buffer, slot, Encode(chars));
    }

    /** The empty string for handle `i`: its old string, if any, becomes garbage. */
    method Erase(i: nat)
      requires Valid(Abs()) && i < num
      modifies this, offsets
      ensures Abs() == StringPoolWOps.Erase(old(Abs()), i)
      ensures Valid(Abs()) && (Sound(old(Abs())) ==> Sound(Abs()))
      ensures offsets == old(offsets) && buffer == old(buffer)
    {
      EraseKeeps(Abs(), i);
      if offsets[i] != 0 {
        var n := StrLen(buffer, offsets[i]);
        garbageSize := garbageSize + n + Overhead;
        offsets[i] := 0;
      }
    }

    /** `Set(i, s)`: string `i` becomes the zero-terminated string at the start of `s`. */
    method Set(i: int, s: seq<wchar>) returns (e: Option<Error>)
      requires Sound(Abs())
      modifies this, offsets, buffer
      ensures var r := StringPoolWOps.Set(old(Abs()), i, s);
        Reports(r, e) && (r.Ok? ==> Abs() == r.value)
      ensures e.Some? ==> Abs() == old(Abs())
      ensures Sound(Abs()) && (offsets == old(offsets) || fresh(offsets))
    {
      if i < 0 {
        return Some(InvalidHandle);
      }
      EnterKeeps(Abs(), i);
      Enter(i);
      var t := CStr(s, 0);
      if |t| == 0 {
        Erase(i);
        return None;
      }
      Store(i, t);
      e := None;
    }

    /** `Set(i, s, len)` for `len == |s|`: string `i` becomes the units of `s`. */
    method SetN(i: int, s: seq<wchar>) returns (e: Option<Error>)
      requires Sound(Abs())
      modifies this, offsets, buffer
      ensures var r := StringPoolWOps.SetN(old(Abs()), i, s);
        Reports(r, e) && (r.Ok? ==> Abs() == r.value)
      ensures e.Some? ==> Abs() == old(Abs())
      ensures Sound(Abs()) && (offsets == old(offsets) || fresh(offsets))
    {
      if i < 0 {
        return Some(InvalidHandle);
      }
      EnterKeeps(Abs(), i);
      Enter(i);
      if |s| == 0 {
        Erase(i);
        return None;
      }
      Store(i, s);
      e := None;
    }

    /**
     * `Concatenate(i, s)`: appends the C string of `s` to string `i`. The old characters are
     * taken before `Allocate` may move the strings, as the source keeps the old buffer alive
     * for the copy.
     */
    method Concatenate(i: int, s: seq<wchar>) returns (e: Option<Error>)
      requires Sound(Abs())
      modifies this, offsets, buffer
      ensures var r := StringPoolWOps.Concatenate(old(Abs()), i, s);
        Reports(r, e) && (r.Ok? ==> Abs() == r.value)
      ensures e.Some? ==> Abs() == old(Abs())
      ensures Sound(Abs())
    {
      ghost var p := Abs();
      var t := CStr(s, 0);
      if |t| == 0 {
        return None;
      }
      if i < 0 || i >= num {
        return Some(InvalidHandle);
      }
      if offsets[i] == 0 {
        e := Set(i, s);
        return;
      }
      var string1 := ReadString(offsets[i]);
      ConcatenateSound(p, i, s);
      Store(i, string1 + t);
      e := None;
    }

    /** `Clear()` (as corrected): every handle in use reads the empty string again. */
    method Clear()
      requires Sound(Abs())
      modifies this, offsets
      ensures Abs() == StringPoolWOps.Clear(old(Abs()))
      ensures Sound(Abs())
    {
      ghost var p := Abs();
      ClearSound(p);
      var k := 0;
      while k < num
        invariant k <= num == p.num <= offsets.Length == |p.offs| && offsets == old(offsets)
        invariant buffer[..] == p.buf && dataSize == p.dataSize && garbageSize == p.garbageSize && top == p.top
        invariant forall h :: 0 <= h < offsets.Length ==> offsets[h] == if h < k then 0 else p.offs[h]
      {
        offsets[k] := 0;
        k := k + 1;
      }
      dataSize := if buffer.Length > 0 then Overhead else 0;
      garbageSize := 0;
      assert offsets[..] == StringPoolWOps.Clear(p).offs;
    }

    /** `Get(i)`: where string `i` starts in the buffer. */
    method Get(i: int) returns (r: Result<nat, Error>)
      ensures r == StringPoolWOps.Get(Abs(), i)
    {
      if i < 0 || i >= num || i >= offsets.Length {
        return Err(InvalidHandle);
      }
      return Ok(offsets[i]);
    }

    /** `strings[i].Len()`: `wcslen(Get(i))`. */
    method Len(i: int) returns (r: Result<nat, Error>)
      ensures r == StringPoolWOps.Len(Abs(), i)
    {
      var g := Get(i);
      if g.Err? {
        return Err(g.error);
      }
      if buffer.Length == 0 {
        return Err(NullBuffer);
      }
      var n := StrLen(buffer, g.value);
      return Ok(n);
    }

    /** `strings[index][k]`: reading one character, within the string's length. */
    method CharAt(index: int, k: int) returns (r: Result<wchar, Error>)
      ensures r == StringPoolWOps.CharAt(Abs(), index, k)
    {
      var n := Len(index);
      if n.Err? {
        return Err(n.error);
      }
      if k < 0 || k >= n.value {
        return Err(OutOfBounds);
      }
      return Ok(buffer[offsets[index] + k]);
    }

    /** `strings[index][k] = c`: writing one character, within the string's length. */
    method SetCharAt(index: int, k: int, c: wchar) returns (e: Option<Error>)
      requires Sound(Abs())
      modifies buffer
      ensures var r := StringPoolWOps.SetCharAt(old(Abs()), index, k, c);
        Reports(r, e) && (r.Ok? ==> Abs() == r.value) && (r.Err? ==> Abs() == old(Abs()))
      ensures Sound(Abs())
    {
      ghost var p := Abs();
      var n := Len(index);
      if n.Err? {
        return Some(n.error);
      }
      if k < 0 || k >= n.value {
        return Some(OutOfBounds);
      }
      SetCharAtWrites(p, index, k, c);
      buffer[offsets[index] + k] := c;
      e := None;
    }

    /** `strings[index].SearchForSubstring(s)`: where the C string `s` first occurs, or -1. */
    method SearchForSubstring(index: int, s: seq<wchar>) returns (r: Result<int, Error>)
      ensures r == StringPoolWOps.SearchForSubstring(Abs(), index, s)
    {
      var g := Get(index);
      if g.Err? {
        return Err(g.error);
      }
      if buffer.Length == 0 {
        return Err(NullBuffer);
      }
      var text := ReadString(g.value);
      return Ok(IndexOf(text, CStr(s, 0), 0));
    }

    /** `strings[index] = strings[source]`: `Set(index, Get(source))`. */
    method Assign(index: int, source: int) returns (e: Option<Error>)
      requires Sound(Abs())
      modifies this, offsets, buffer
      ensures var r := StringPoolWOps.Assign(old(Abs()), index, source);
        Reports(r, e) && (r.Ok? ==> Abs() == r.value)
      ensures e.Some? ==> Abs() == old(Abs())
      ensures Sound(Abs())
    {
      var g := Get(source);
      if g.Err? {
        return Some(g.error);
      }
      var chars := ReadString(g.value);
      e := Set(index, chars);
    }

    /** `strings[index].SetToSubstring(s, start, len)`: characters [start, start+len) of `s`. */
    method SetToSubstring(index: int, s: seq<wchar>, start: int, len: int) returns (e: Option<Error>)
      requires Sound(Abs())
      modifies this, offsets, buffer
      ensures var r := StringPoolWOps.SetToSubstring(old(Abs()), index, s, start, len);
        Reports(r, e) && (r.Ok? ==> Abs() == r.value)
      ensures e.Some? ==> Abs() == old(Abs())
      ensures Sound(Abs())
    {
      var t := CStr(s, 0);
      if start + len > |t| || start < 0 || len < 0 {
        return Some(OutOfBounds);
      }
      e := SetN(index, t[start .. start + len]);
    }
  }

  /**
   * The copy loop of `ResizeBuf` (cppexamples/StringPoolW.cpp:322-338), over handles below
   * `Num`. The source also adds 1 to `GarbageSize` for each empty string it drops and then
   * sets `GarbageSize` to 0; only that net effect is kept.
   */
  method CompactInto(ghost p: Pool, newsize: nat, num: nat, src: array<wchar>, dst: array<wchar>, offs: array<nat>)
    returns (size: nat, top: nat)
    requires Layout(p) && Live(p) <= GrownSize(p, newsize)
    requires num == p.num && src != dst && src[..] == p.buf && offs[..] == p.offs
    requires dst[..] == Blank(GrownSize(p, newsize) + Overhead)
    modifies dst, offs
    ensures Copy(dst[..], offs[..], size, top) == CompactUpTo(p.buf, CompactStart(p, newsize), p.num)
  {
    ghost var c0 := CompactStart(p, newsize);
    size, top := Overhead, Overhead;
    var k := 0;
    while k < num
      invariant k <= num && src[..] == p.buf
      invariant Copy(dst[..], offs[..], size, top) == CompactUpTo(p.buf, c0, k)
    {
      size, top := CompactPass(p, newsize, c0, k, src, dst, offs, size, top);
      k := k + 1;
    }
  }

  /** The pass of the copy loop for handle `k`, taking the loop from `k` handles to `k + 1`. */
  method CompactPass(ghost p: Pool, ghost newsize: nat, ghost c0: Copy, k: nat,
                     src: array<wchar>, dst: array<wchar>, offs: array<nat>, size: nat, top: nat)
    returns (size': nat, top': nat)
    requires Layout(p) && k < p.num && Live(p) <= GrownSize(p, newsize) && c0 == CompactStart(p, newsize)
    requires src != dst && src[..] == p.buf
    requires Copy(dst[..], offs[..], size, top) == CompactUpTo(p.buf, c0, k)
    modifies dst, offs
    ensures Copy(dst[..], offs[..], size', top') == CompactUpTo(p.buf, c0, k + 1)
  {
    ghost var c := Copy(dst[..], offs[..], size, top);
    StepFits(p, newsize, c0, k, c.buf, c.offs, size, top);
    size', top' := CopyStep(src, dst, offs, size, top, k);
    assert Copy(dst[..], offs[..], size', top') == CompactStep(p.buf, c, k);
  }

  /** `Append` places the string at the end of the used part of the pool it has grown, or not. */
  lemma AppendAfter(p: Pool, q: Pool, i: nat, len: nat, newsize: nat)
    requires Shaped(p) && i < |p.offs| && newsize == p.dataSize + len + Overhead
    requires q == if newsize > |p.buf| then ResizeBuf(p, newsize) else p
    ensures i < |q.offs|
    ensures StringPoolWOps.Append(p, i, len) ==
      Placement(q.(offs := q.offs[i := q.dataSize], top := q.dataSize,
                   dataSize := q.dataSize + len + Overhead), q.dataSize)
  {
  }

  /** The copy loop's pass for handle `k` finds its string inside the old buffer and room for it. */
  lemma StepFits(p: Pool, newsize: nat, c0: Copy, k: nat, buf: seq<wchar>, offs: seq<nat>, size: nat, top: nat)
    requires Layout(p) && k < p.num && Live(p) <= GrownSize(p, newsize) && c0 == CompactStart(p, newsize)
    requires Copy(buf, offs, size, top) == CompactUpTo(p.buf, c0, k)
    ensures k < |offs| && offs[k] == p.offs[k]
    ensures p.offs[k] != 0 ==> End(p.buf, p.offs[k]) <= |p.buf|
    ensures p.offs[k] != 0 && LenAt(p.buf, p.offs[k]) != 0 ==>
              size + LenAt(p.buf, p.offs[k]) + Overhead <= |buf|
  {
    CopyInvLoop(p, newsize, k);
    CopyInvAt(p, GrownSize(p, newsize) + Overhead, Copy(buf, offs, size, top), k);
    KeptMono(p, k + 1, p.num);
    KeptBelowLive(p, p.num);
    if p.offs[k] != 0 {
      assert Placed(p, p.offs[k]);
    }
  }

  /** What the copy loop's pass for handle `k` needs of the invariant before it. */
  lemma CopyInvAt(p: Pool, size: nat, c: Copy, k: nat)
    requires CopyInv(p, size, c, k) && k < |p.offs|
    ensures c.offs[k] == p.offs[k] && c.size == Overhead + KeptUpTo(p, k) && |c.buf| == size
  {
  }

  /**
   * One pass of the copy loop of `ResizeBuf` (cppexamples/StringPoolW.cpp:324-336): the string
   * of handle `k` and its zero are copied to `size` and become the new top, or an empty
   * string is dropped.
   */
  method CopyStep(src: array<wchar>, dst: array<wchar>, offs: array<nat>, size: nat, top: nat, k: nat)
    returns (size': nat, top': nat)
    requires src != dst && k < offs.Length
    requires offs[k] != 0 ==> End(src[..], offs[k]) <= src.Length
    requires offs[k] != 0 && LenAt(src[..], offs[k]) != 0 ==>
               size + LenAt(src[..], offs[k]) + Overhead <= dst.Length
    modifies dst, offs
    ensures Copy(dst[..], offs[..], size', top')
            == CompactStep(src[..], old(Copy(dst[..], offs[..], size, top)), k)
  {
    size', top' := size, top;
    var o := offs[k];
    if o != 0 {
      var len := StrLen(src, o);
      if len != 0 {
        assert src[o .. o + len + Overhead] == RecordUnits(src[..], o);
        CopyInto(dst, size, src[o .. o + len + Overhead]);
        offs[k] := size;
        top' := size;
        size' := size + len + Overhead;
      } else {
        offs[k] := 0;
      }
    }
  }
}

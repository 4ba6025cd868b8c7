/**
 * The operations of `StringPoolW` (cppexamples/StringPoolW.cpp) as functions on the pool
 * state. At the two places where the source breaks the design's own promises, the function
 * named `...AsWritten` performs what the source performs and the plain name is the corrected
 * operation, which the rest of the model uses (see `StringPoolWFindings`).
 */
module StringPoolWOps {
  import opened Common
  import opened StringPoolWRecords

  /** The conditions on which the source calls `Error()` and exits, and one it does not catch. */
  datatype Error =
    | InvalidHandle   // Error(1): index out of range
    | OutOfBounds     // Error(2): going beyond the end of a string
    | NullBuffer      // reading a string before any buffer exists (a null dereference)
    | Overrun         // a record placed past the end of the buffer (a heap overflow)

  /** The offsets table and the handle count are in the shape every operation relies on. */
  predicate Shaped(p: Pool)
  {
    p.num <= |p.offs|
  }

  // ---------------------------------------------------------------------------------------
  // ResizeNum

  /** `ResizeNum(newsize)`: grow the offsets table, copying it and zeroing the new entries. */
  function ResizeNum(p: Pool, newsize: nat): (q: Pool)
    ensures |q.offs| >= newsize && |q.offs| >= |p.offs|
    ensures newsize > |p.offs| ==> |q.offs| >= |p.offs| * 2 + AllocateSpace2
    ensures newsize <= |p.offs| ==> q == p
    ensures q.offs[..|p.offs|] == p.offs
    ensures forall h :: |p.offs| <= h < |q.offs| ==> q.offs[h] == 0
    ensures q == p.(offs := q.offs)
  {
    if newsize <= |p.offs| then p
    else
      var size := Max(newsize, |p.offs| * 2 + AllocateSpace2);
      p.(offs := p.offs + seq(size - |p.offs|, _ => 0))
  }

  /** The prologue of both `Set`s: a handle at or above `Num` raises `Num`, growing the table. */
  function Enter(p: Pool, i: nat): (q: Pool)
    ensures i < q.num && i < |q.offs|
    ensures q.num == Max(p.num, i + 1)
  {
    if i < p.num && i < |p.offs| then p
    else if i < p.num then ResizeNum(p, i + 1)
    else
      var q := p.(num := i + 1);
      if i >= |q.offs| then ResizeNum(q, i + 1) else q
  }

  // ---------------------------------------------------------------------------------------
  // ResizeBuf: allocate a larger buffer and copy the non-empty strings into it

  /** The state of the copy loop: new buffer, offsets so far, `DataSize2` and `Top`. */
  datatype Copy = Copy(buf: seq<wchar>, offs: seq<nat>, size: nat, top: nat)

  /** One pass of the copy loop, for handle `h` (whose offset the loop has not rewritten yet). */
  function CompactStep(src: seq<wchar>, c: Copy, h: nat): Copy
    requires h < |c.offs|
  {
    var o := c.offs[h];
    if o == 0 then c
    else if LenAt(src, o) != 0 then
      Copy(Write(c.buf, c.size, RecordUnits(src, o)), c.offs[h := c.size],
           c.size + LenAt(src, o) + Overhead, c.size)
    else c.(offs := c.offs[h := 0])
  }

  /** The copy loop after its passes for the handles below `k`. */
  function CompactUpTo(src: seq<wchar>, c0: Copy, k: nat): (c: Copy)
    requires k <= |c0.offs|
    ensures |c.buf| == |c0.buf| && |c.offs| == |c0.offs|
  {
    if k == 0 then c0 else CompactStep(src, CompactUpTo(src, c0, k - 1), k - 1)
  }

  /** The size `ResizeBuf(newsize)` settles on before adding room for the empty string. */
  function GrownSize(p: Pool, newsize: nat): (size: nat)
    ensures size >= newsize
  {
    Max(newsize, (p.dataSize - p.garbageSize) * 2 + AllocateSpace1)
  }

  /** The new buffer with the empty string at offset 0 and the copy loop about to start. */
  function CompactStart(p: Pool, newsize: nat): Copy
  {
    Copy(Blank(GrownSize(p, newsize) + Overhead), p.offs, Overhead, Overhead)
  }

  /** `ResizeBuf(newsize)`. */
  function ResizeBuf(p: Pool, newsize: nat): (q: Pool)
    requires Shaped(p)
    ensures |q.offs| == |p.offs| && q.num == p.num
  {
    var c0 := CompactStart(p, newsize);
    if |p.buf| == 0 then
      p.(buf := c0.buf, dataSize := c0.size, garbageSize := 0, top := c0.top)
    else
      var c := CompactUpTo(p.buf, c0, p.num);
      p.(buf := c.buf, offs := c.offs, dataSize := c.size, garbageSize := 0, top := c.top)
  }

  // ---------------------------------------------------------------------------------------
  // Allocate

  /** The pool after `Allocate(i, len)` and the offset of the room it returns. */
  datatype Placement = Placement(pool: Pool, slot: nat)

  /** The branch of `Allocate` that puts the string at the end of the used part. */
  function Append(p: Pool, i: nat, len: nat): Placement
    requires Shaped(p) && i < |p.offs|
  {
    var q := if p.dataSize + len + Overhead > |p.buf| then ResizeBuf(p, p.dataSize + len + Overhead) else p;
    Placement(q.(offs := q.offs[i := q.dataSize], top := q.dataSize,
                 dataSize := q.dataSize + len + Overhead),
              q.dataSize)
  }

  /**
   * `Allocate(i, len)` as the source has it: a handle whose string is at Top grows in place,
   * after a `ResizeBuf` when the buffer is too small, at whatever string Top names once the
   * copy has moved the strings.
   */
  function AllocateAsWritten(p: Pool, i: nat, len: nat): Placement
    requires Shaped(p) && i < |p.offs|
  {
    var o := p.offs[i];
    if o != 0 && o == p.top then
      var q := if p.top + len + Overhead > |p.buf| then ResizeBuf(p, p.top + len + Overhead) else p;
      Placement(q.(dataSize := q.top + len + Overhead), q.top)
    else Allocate(p, i, len)
  }

  /**
   * `Allocate(i, len)`, corrected: the string at Top grows in place only when it fits the
   * buffer; otherwise it is treated like any string too short for the new one.
   */
  function Allocate(p: Pool, i: nat, len: nat): Placement
    requires Shaped(p) && i < |p.offs|
  {
    var o := p.offs[i];
    if o != 0 && o == p.top && p.top + len + Overhead <= |p.buf| then
      // the last string grows or shrinks where it is
      Placement(p.(dataSize := p.top + len + Overhead), p.top)
    else if o != 0 && LenAt(p.buf, o) >= len then
      // the new string fits the old one's space
      Placement(p.(garbageSize := p.garbageSize + (LenAt(p.buf, o) - len)), o)
    else
      // the old string, if any, becomes garbage
      var q := if o != 0 then p.(garbageSize := p.garbageSize + LenAt(p.buf, o) + Overhead) else p;
      Append(q, i, len)
  }

  /** The pool after the characters of `chars` and a zero are written into the room `a` stands for. */
  function Written(a: Placement, chars: seq<wchar>): Pool
  {
    a.pool.(buf := Write(a.pool.buf, a.slot, Encode(chars)))
  }

  /** Writing the characters and the zero; past the buffer's end, an overrun. */
  function Place(a: Placement, chars: seq<wchar>): Result<Pool, Error>
  {
    if a.slot + |chars| + Overhead > |a.pool.buf| then Err(Overrun) else Ok(Written(a, chars))
  }

  /** `Allocate` followed by the copy of the characters, as the source does it. */
  function StoreAsWritten(p: Pool, i: nat, chars: seq<wchar>): Result<Pool, Error>
    requires Shaped(p) && i < |p.offs|
  {
    Place(AllocateAsWritten(p, i, |chars|), chars)
  }

  /** `Allocate` followed by the copy of the characters. */
  function Store(p: Pool, i: nat, chars: seq<wchar>): Result<Pool, Error>
    requires Shaped(p) && i < |p.offs|
  {
    Place(Allocate(p, i, |chars|), chars)
  }

  /** Assigning the empty string: the old string, if any, becomes garbage. */
  function Erase(p: Pool, i: nat): Pool
    requires i < |p.offs|
  {
    if p.offs[i] != 0 then
      p.(garbageSize := p.garbageSize + LenAt(p.buf, p.offs[i]) + Overhead, offs := p.offs[i := 0])
    else p
  }

  // ---------------------------------------------------------------------------------------
  // The public operations

  /** `Set(i, s)` for the zero-terminated string at the start of `s` (a null `s` is `[]`). */
  function Set(p: Pool, i: int, s: seq<wchar>): Result<Pool, Error>
    requires Shaped(p)
  {
    if i < 0 then Err(InvalidHandle)
    else
      var q := Enter(p, i);
      var t := CStr(s, 0);
      if |t| == 0 then Ok(Erase(q, i)) else Store(q, i, t)
  }

  /** `Set(i, s, len)` for the `len == |s|` units `s`, copied as they are and followed by a zero. */
  function SetN(p: Pool, i: int, s: seq<wchar>): Result<Pool, Error>
    requires Shaped(p)
  {
    if i < 0 then Err(InvalidHandle)
    else
      var q := Enter(p, i);
      if |s| == 0 then Ok(Erase(q, i)) else Store(q, i, s)
  }

  /**
   * `Concatenate(i, s)`: an empty `s` changes nothing, even for a bad handle; a handle without
   * a string is simply set to `s`.
   */
  function Concatenate(p: Pool, i: int, s: seq<wchar>): Result<Pool, Error>
    requires Shaped(p)
  {
    var t := CStr(s, 0);
    if |t| == 0 then Ok(p)
    else if i < 0 || i >= p.num then Err(InvalidHandle)
    else if p.offs[i] == 0 then Set(p, i, s)
    else Store(p, i, Content(p, i) + t)
  }

  /**
   * `Clear()` as the source has it: every handle in use goes back to offset 0 and `DataSize`
   * to 0, so the next string is written over the shared empty string at offset 0.
   */
  function ClearAsWritten(p: Pool): Pool
  {
    p.(offs := seq(|p.offs|, h requires 0 <= h < |p.offs| => if h < p.num then 0 else p.offs[h]),
       dataSize := 0, garbageSize := 0)
  }

  /** `Clear()`, corrected: `DataSize` goes back to just past the empty string when there is a buffer. */
  function Clear(p: Pool): Pool
  {
    p.(offs := seq(|p.offs|, h requires 0 <= h < |p.offs| => if h < p.num then 0 else p.offs[h]),
       dataSize := if |p.buf| > 0 then Overhead else 0, garbageSize := 0)
  }

  /** `Get(i)`: the position of string `i` in the buffer. */
  function Get(p: Pool, i: int): Result<nat, Error>
  {
    if i < 0 || i >= p.num || i >= |p.offs| then Err(InvalidHandle)
    else Ok(p.offs[i])
  }

  // ---------------------------------------------------------------------------------------
  // StringElementW: the operations on one handle

  /** `strings[i].Len()`: `wcslen(Get(i))`, which needs a buffer to read. */
  function Len(p: Pool, i: int): Result<nat, Error>
  {
    match Get(p, i)
    case Err(e) => Err(e)
    case Ok(o) => if |p.buf| == 0 then Err(NullBuffer) else Ok(LenAt(p.buf, o))
  }

  /**
   * `strings[index] = strings[source]`: `Set(index, Get(source))`; without a buffer `Get`
   * yields the null pointer, which `Set` takes for the empty string.
   */
  function Assign(p: Pool, index: int, source: int): Result<Pool, Error>
    requires Shaped(p)
  {
    match Get(p, source)
    case Err(e) => Err(e)
    case Ok(_) => Set(p, index, Content(p, source))
  }

  /** `SetToSubstring(s, start, len)`: store characters [start, start+len) of the C string `s`. */
  function SetToSubstring(p: Pool, index: int, s: seq<wchar>, start: int, len: int): Result<Pool, Error>
    requires Shaped(p)
  {
    var t := CStr(s, 0);
    if start + len > |t| || start < 0 || len < 0 then Err(OutOfBounds)
    else SetN(p, index, t[start .. start + len])
  }

  /** `SearchForSubstring(s)`: where the C string `s` first occurs in string `index`, or -1. */
  function SearchForSubstring(p: Pool, index: int, s: seq<wchar>): Result<int, Error>
  {
    match Get(p, index)
    case Err(e) => Err(e)
    case Ok(_) => if |p.buf| == 0 then Err(NullBuffer) else Ok(IndexOf(Content(p, index), CStr(s, 0), 0))
  }

  /** Reading `strings[index][k]`. */
  function CharAt(p: Pool, index: int, k: int): Result<wchar, Error>
  {
    match Len(p, index)
    case Err(e) => Err(e)
    case Ok(n) =>
      if k < 0 || k >= n then Err(OutOfBounds)
      else Ok(p.buf[p.offs[index] + k])
  }

  /** Writing `strings[index][k] = c` through the reference `operator[]` returns. */
  function SetCharAt(p: Pool, index: int, k: int, c: wchar): Result<Pool, Error>
  {
    match Len(p, index)
    case Err(e) => Err(e)
    case Ok(n) =>
      if k < 0 || k >= n then Err(OutOfBounds)
      else Ok(p.(buf := p.buf[p.offs[index] + k := c]))
  }
}

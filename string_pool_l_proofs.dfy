/**
 * What the operations of `StringPoolL` (cppexamples/StringPoolL.cpp) guarantee, branch by
 * branch: the invariants they keep, the string each handle reads afterwards, and the exact
 * effect on the accounting.
 */
module StringPoolLProofs {
  import opened Common
  import opened StringPoolLRecords
  import opened StringPoolLOps
  import opened StringPoolLCompaction

  /** What a record written for `chars` reads back: the characters, cut to 16 bits of length. */
  function Cut(chars: seq<uint8>): seq<uint8>
  {
    chars[..|chars| % 0x10000]
  }

  /** A string the length word can state reads back whole. */
  lemma CutShort(chars: seq<uint8>)
    requires |chars| <= MaxLength
    ensures Cut(chars) == chars
  {
    assert |chars| % 0x10000 == |chars|;
  }

  /**
   * `q` is `p` with the string of handle `j` replaced by `chars` (as the record reads back);
   * every other handle that has a record keeps its string.
   */
  ghost predicate Replaced(p: Pool, q: Pool, j: nat, chars: seq<uint8>)
  {
    && j < p.num && q.num == p.num && |q.offs| == |p.offs|
    && Valid(q)
    && Content(q, j) == Cut(chars)
    && (forall h :: 0 <= h < p.num && h != j && p.offs[h] != 0 ==> Content(q, h) == Content(p, h))
  }

  // ---------------------------------------------------------------------------------------
  // Entering a handle, erasing a string

  /**
   * Raising `Num` for a new handle keeps every invariant and every string; the handles added
   * read the record at offset 0.
   */
  lemma EnterKeeps(p: Pool, i: nat)
    requires Valid(p)
    ensures var q := Enter(p, i);
      && Valid(q) && (Sound(p) ==> Sound(q))
      && q == p.(offs := q.offs, num := q.num) && Live(q) == Live(p)
      && (forall h :: 0 <= h < |p.offs| ==> Content(q, h) == Content(p, h))
      && (forall h :: |p.offs| <= h < |q.offs| ==> Content(q, h) == Payload(p.buf, 0))
  {
    EnterLive(p, i);
    EnterValid(p, i);
    if Sound(p) {
      EnterSound(p, i);
    }
  }

  lemma EnterValid(p: Pool, i: nat)
    requires Valid(p)
    ensures Valid(Enter(p, i))
  {
    var q := Enter(p, i);
    EnterLive(p, i);
    assert forall h :: 0 <= h < q.num && q.offs[h] != 0 ==> h < p.num && q.offs[h] == p.offs[h];
    assert forall h :: q.num <= h < |q.offs| ==> q.offs[h] == 0;
    RenumberedValid(p, q);
  }

  /**
   * A pool that differs from a valid one only in its offsets table and `Num`, whose handles
   * in use are the old handles with the same offsets, is valid.
   */
  lemma RenumberedValid(p: Pool, q: Pool)
    requires Valid(p)
    requires q == p.(offs := q.offs, num := q.num) && Live(q) == Live(p) && q.num <= |q.offs|
    requires forall h :: q.num <= h < |q.offs| ==> q.offs[h] == 0
    requires forall h :: 0 <= h < q.num && q.offs[h] != 0 ==> h < p.num && q.offs[h] == p.offs[h]
    ensures Valid(q)
  {
  }

  lemma EnterSound(p: Pool, i: nat)
    requires Sound(p)
    ensures Sound(Enter(p, i))
  {
    var q := Enter(p, i);
    EnterLive(p, i);
    EnterValid(p, i);
    assert forall h :: 0 <= h < q.num && q.offs[h] != 0 ==> h < p.num && q.offs[h] == p.offs[h];
  }

  lemma EnterLive(p: Pool, i: nat)
    requires Valid(p)
    ensures var q := Enter(p, i);
      && q == p.(offs := q.offs, num := q.num) && Live(q) == Live(p)
      && |q.offs| >= |p.offs| && (forall h :: 0 <= h < |p.offs| ==> q.offs[h] == p.offs[h])
      && (forall h :: |p.offs| <= h < |q.offs| ==> q.offs[h] == 0)
  {
    var q := Enter(p, i);
    assert forall h :: 0 <= h < |p.offs| ==> q.offs[h] == p.offs[h] by {
      assert q.offs[..|p.offs|] == p.offs;
    }
    assert forall h :: 0 <= h < p.num ==> Weight(q, h) == Weight(p, h);
    LiveFrame(p, q, p.num);
    LiveIdleTail(q, p.num, q.num);
  }

  /**
   * Assigning the empty string to handle `i` puts it at offset 0, counts its old record as
   * garbage, and touches no other handle.
   */
  lemma EraseKeeps(p: Pool, i: nat)
    requires Valid(p) && i < p.num
    ensures var q := Erase(p, i);
      && Valid(q) && (Sound(p) ==> Sound(q))
      && q.offs == p.offs[i := 0]
      && q.garbageSize == p.garbageSize + Weight(p, i)
      && q == p.(offs := q.offs, garbageSize := q.garbageSize)
      && Live(q) + Weight(p, i) == Live(p)
      && Content(q, i) == Payload(p.buf, 0)
      && (forall h :: h != i ==> Content(q, h) == Content(p, h))
  {
    EraseLive(p, i);
    EraseValid(p, i);
  }

  lemma EraseLive(p: Pool, i: nat)
    requires i < p.num <= |p.offs|
    ensures var q := Erase(p, i);
      && q.offs == p.offs[i := 0]
      && q.garbageSize == p.garbageSize + Weight(p, i)
      && q == p.(offs := q.offs, garbageSize := q.garbageSize)
      && Live(q) + Weight(p, i) == Live(p)
  {
    LivePoint(p, Erase(p, i), p.num, i);
  }

  lemma EraseValid(p: Pool, i: nat)
    requires Valid(p) && i < p.num
    ensures Valid(Erase(p, i)) && (Sound(p) ==> Sound(Erase(p, i)))
  {
    EraseLive(p, i);
    ErasedValid(p, Erase(p, i), i);
    if Sound(p) {
      ErasedSound(p, Erase(p, i), i);
    }
  }

  /** A pool that has handle `i` at offset 0 and counts its record as garbage is valid. */
  lemma ErasedValid(p: Pool, q: Pool, i: nat)
    requires Valid(p) && i < p.num
    requires q == p.(offs := p.offs[i := 0], garbageSize := p.garbageSize + Weight(p, i))
    requires Live(q) + Weight(p, i) == Live(p)
    ensures Valid(q)
  {
    assert forall h :: 0 <= h < q.num && q.offs[h] != 0 ==>
      h != i && q.offs[h] == p.offs[h] && Weight(q, h) == Weight(p, h);
  }

  /** ... and is in the intended state when the original pool is. */
  lemma ErasedSound(p: Pool, q: Pool, i: nat)
    requires Sound(p) && i < p.num
    requires q == p.(offs := p.offs[i := 0], garbageSize := p.garbageSize + Weight(p, i))
    requires Live(q) + Weight(p, i) == Live(p)
    requires Valid(q)
    ensures Sound(q)
  {
  }

  /** Erasing keeps `DataSize - GarbageSize` equal to what the records need. */
  lemma EraseExact(p: Pool, i: nat)
    requires Valid(p) && Exact(p) && i < p.num
    ensures Exact(Erase(p, i))
  {
    EraseLive(p, i);
  }

  // ---------------------------------------------------------------------------------------
  // Writing a record

  /** A record written at `s` away from the record at `o` leaves that record's string alone. */
  lemma WriteAway(buf: seq<uint8>, s: nat, chars: seq<uint8>, o: nat)
    requires s + Overhead + |chars| <= |buf| && End(buf, o) <= |buf|
    requires End(buf, o) <= s || s + Overhead + |chars| <= o
    ensures var b := Write(buf, s, Encode(|chars|, chars));
      && Payload(b, o) == Payload(buf, o) && LenAt(b, o) == LenAt(buf, o)
      && Terminated(b, o) == Terminated(buf, o)
  {
    WriteOutside(buf, s, Encode(|chars|, chars), o);
  }

  /**
   * The tail branch without growth: the record at Top grows or shrinks in place, which is handle
   * `i`'s, and `DataSize` becomes `Top + 3 + len`.
   */
  lemma TailInPlace(p: Pool, i: nat, chars: seq<uint8>)
    requires Valid(p) && i < p.num && |chars| > 0
    requires p.offs[i] != 0 && p.offs[i] == p.top
    requires p.top + Overhead + |chars| <= |p.buf|
    ensures var a := Allocate(p, i, |chars|);
      && a.slot == p.top && a.pool == p.(dataSize := p.top + Overhead + |chars|)
      && Replaced(p, Written(a, chars), i, chars)
      && (Sound(p) && |chars| <= MaxLength ==> Sound(Written(a, chars)))
      && Live(Written(a, chars)) + Weight(p, i) == Live(p) + Overhead + |chars| % 0x10000
  {
    var b := p.(buf := Write(p.buf, p.top, Encode(|chars|, chars)),
                dataSize := p.top + Overhead + |chars|);
    assert Written(Allocate(p, i, |chars|), chars) == b;
    TailWrite(p, b, i, chars);
    DecodeEncode(p.buf, p.top, chars);
    TailInPlaceValid(p, b, i, |chars|);
  }

  /** What the in-place tail write does to each handle. */
  lemma TailWrite(p: Pool, b: Pool, i: nat, chars: seq<uint8>)
    requires Valid(p) && i < p.num && |chars| > 0
    requires p.offs[i] != 0 && p.offs[i] == p.top
    requires p.top + Overhead + |chars| <= |p.buf|
    requires b == p.(buf := Write(p.buf, p.top, Encode(|chars|, chars)),
                     dataSize := p.top + Overhead + |chars|)
    ensures
      && |b.buf| == |p.buf|
      && End(b.buf, 0) == End(p.buf, 0) && LenAt(b.buf, 0) == LenAt(p.buf, 0)
      && Terminated(b.buf, 0) == Terminated(p.buf, 0)
      && LenAt(b.buf, p.top) == |chars| % 0x10000 && Content(b, i) == Cut(chars)
      && (forall h :: 0 <= h < p.num && h != i && p.offs[h] != 0 ==>
            p.offs[h] < p.top && End(p.buf, p.offs[h]) <= p.top
            && LenAt(b.buf, p.offs[h]) == LenAt(p.buf, p.offs[h])
            && Content(b, h) == Content(p, h)
            && Terminated(b.buf, b.offs[h]) == Terminated(p.buf, p.offs[h]))
      && Live(b) + Weight(p, i) == Live(p) + Weight(b, i)
      && Weight(b, i) == Overhead + |chars| % 0x10000
  {
    var o := p.top;
    assert Placed(p, o);
    DecodeEncode(p.buf, o, chars);
    forall h | 0 <= h < p.num && h != i && p.offs[h] != 0
      ensures p.offs[h] < o && End(p.buf, p.offs[h]) <= o
      ensures LenAt(b.buf, p.offs[h]) == LenAt(p.buf, p.offs[h])
      ensures Content(b, h) == Content(p, h)
      ensures Terminated(b.buf, b.offs[h]) == Terminated(p.buf, p.offs[h])
    {
      assert Placed(p, p.offs[h]);
      WriteAway(p.buf, o, chars, p.offs[h]);
    }
    WriteAway(p.buf, o, chars, 0);
    assert forall h :: 0 <= h < p.num && h != i ==> Weight(b, h) == Weight(p, h);
    LivePoint(p, b, p.num, i);
  }

  /** The invariant after the in-place tail write, from the facts `TailWrite` collects. */
  lemma TailInPlaceValid(p: Pool, b: Pool, i: nat, n: nat)
    requires Valid(p) && i < p.num && p.offs[i] != 0 && p.offs[i] == p.top && n > 0
    requires b == p.(buf := b.buf, dataSize := p.top + Overhead + n) && |b.buf| == |p.buf|
    requires p.top + Overhead + n <= |p.buf|
    requires End(b.buf, 0) == End(p.buf, 0) && LenAt(b.buf, 0) == LenAt(p.buf, 0)
    requires Terminated(b.buf, 0) == Terminated(p.buf, 0)
    requires LenAt(b.buf, p.top) == n % 0x10000
    requires forall h :: 0 <= h < p.num && h != i && p.offs[h] != 0 ==>
      p.offs[h] < p.top && End(p.buf, p.offs[h]) <= p.top
      && LenAt(b.buf, p.offs[h]) == LenAt(p.buf, p.offs[h])
      && Terminated(b.buf, b.offs[h]) == Terminated(p.buf, p.offs[h])
    requires Live(b) + Weight(p, i) == Live(p) + Weight(b, i)
    requires Weight(b, i) == Overhead + n % 0x10000
    ensures Valid(b)
    ensures Sound(p) && Terminated(b.buf, p.top) ==> Sound(b)
  {
    TailInPlaceLayout(p, b, i, n);
    assert forall h :: 0 <= h < b.num && b.offs[h] != 0 && b.offs[h] == b.top ==> h == i;
    if Sound(p) && Terminated(b.buf, p.top) {
      TailInPlaceSound(p, b, i, n);
    }
  }

  /** The records after the in-place tail write still lie apart, inside the used part. */
  lemma TailInPlaceLayout(p: Pool, b: Pool, i: nat, n: nat)
    requires Valid(p) && i < p.num && p.offs[i] != 0 && p.offs[i] == p.top && n > 0
    requires b == p.(buf := b.buf, dataSize := p.top + Overhead + n) && |b.buf| == |p.buf|
    requires p.top + Overhead + n <= |p.buf|
    requires End(b.buf, 0) == End(p.buf, 0) && LenAt(b.buf, 0) == LenAt(p.buf, 0)
    requires LenAt(b.buf, p.top) == n % 0x10000
    requires forall h :: 0 <= h < p.num && h != i && p.offs[h] != 0 ==>
      p.offs[h] < p.top && End(p.buf, p.offs[h]) <= p.top
      && LenAt(b.buf, p.offs[h]) == LenAt(p.buf, p.offs[h])
      && Terminated(b.buf, b.offs[h]) == Terminated(p.buf, p.offs[h])
    ensures Layout(b)
  {
    assert Placed(p, p.offs[i]);
    forall h | 0 <= h < b.num && b.offs[h] != 0
      ensures Placed(b, b.offs[h])
    {
      if h != i {
        assert Placed(p, p.offs[h]);
      }
    }
    assert Disjoint(b);
  }

  /** The tail write keeps every string terminated, given that the rewritten one is. */
  lemma TailInPlaceSound(p: Pool, b: Pool, i: nat, n: nat)
    requires Valid(p) && i < p.num && p.offs[i] != 0 && p.offs[i] == p.top && n > 0
    requires b == p.(buf := b.buf, dataSize := p.top + Overhead + n) && |b.buf| == |p.buf|
    requires p.top + Overhead + n <= |p.buf|
    requires End(b.buf, 0) == End(p.buf, 0) && LenAt(b.buf, 0) == LenAt(p.buf, 0)
    requires Terminated(b.buf, 0) == Terminated(p.buf, 0)
    requires LenAt(b.buf, p.top) == n % 0x10000
    requires forall h :: 0 <= h < p.num && h != i && p.offs[h] != 0 ==>
      p.offs[h] < p.top && End(p.buf, p.offs[h]) <= p.top
      && LenAt(b.buf, p.offs[h]) == LenAt(p.buf, p.offs[h])
      && Terminated(b.buf, b.offs[h]) == Terminated(p.buf, p.offs[h])
    requires Live(b) + Weight(p, i) == Live(p) + Weight(b, i)
    requires Weight(b, i) == Overhead + n % 0x10000
    requires Valid(b) && Sound(p) && Terminated(b.buf, p.top)
    ensures Sound(b)
  {
  }

  // ---------------------------------------------------------------------------------------
  // Reusing the old record

  /**
   * The reuse branch: a string no longer than the old one is written over the old record, and
   * the bytes it leaves unused count as garbage, so `GarbageSize` plus the live bytes is unchanged.
   */
  lemma ReuseInPlace(p: Pool, i: nat, chars: seq<uint8>)
    requires Valid(p) && i < p.num && |chars| > 0
    requires p.offs[i] != 0 && LenAt(p.buf, p.offs[i]) >= |chars|
    ensures var a := Allocate(p, i, |chars|);
      && (p.offs[i] != p.top ==>
            && a.slot == p.offs[i]
            && a.pool == p.(garbageSize := p.garbageSize + LenAt(p.buf, p.offs[i]) - |chars|)
            && Replaced(p, Written(a, chars), i, chars)
            && (Sound(p) ==> Sound(Written(a, chars)))
            && (Exact(p) ==> Exact(Written(a, chars))))
  {
    var o := p.offs[i];
    if o != p.top {
      var n := |chars|;
      var b := p.(buf := Write(p.buf, o, Encode(n, chars)),
                  garbageSize := p.garbageSize + LenAt(p.buf, o) - n);
      AllocateReuse(p, i, n);
      assert Written(Allocate(p, i, n), chars) == b;
      ReuseWrite(p, b, i, chars);
      ReuseValid(p, b, i, n);
    }
  }

  /** A record not at Top with room for the new string is reused where it is. */
  lemma AllocateReuse(p: Pool, i: nat, n: nat)
    requires Shaped(p) && i < |p.offs| && p.offs[i] != 0 && p.offs[i] != p.top
    requires LenAt(p.buf, p.offs[i]) >= n
    ensures Allocate(p, i, n) ==
      Placement(p.(garbageSize := p.garbageSize + (LenAt(p.buf, p.offs[i]) - n)), p.offs[i])
  {
  }

  /** What writing over the old record does to each handle. */
  lemma ReuseWrite(p: Pool, b: Pool, i: nat, chars: seq<uint8>)
    requires Valid(p) && i < p.num && |chars| > 0
    requires p.offs[i] != 0 && p.offs[i] != p.top && LenAt(p.buf, p.offs[i]) >= |chars|
    requires b == p.(buf := Write(p.buf, p.offs[i], Encode(|chars|, chars)),
                     garbageSize := p.garbageSize + LenAt(p.buf, p.offs[i]) - |chars|)
    ensures
      && |b.buf| == |p.buf|
      && End(b.buf, 0) == End(p.buf, 0) && LenAt(b.buf, 0) == LenAt(p.buf, 0)
      && Terminated(b.buf, 0) == Terminated(p.buf, 0)
      && LenAt(b.buf, p.offs[i]) == |chars| && Content(b, i) == Cut(chars)
      && Terminated(b.buf, p.offs[i])
      && (forall h :: 0 <= h < p.num && h != i && p.offs[h] != 0 ==>
            && LenAt(b.buf, p.offs[h]) == LenAt(p.buf, p.offs[h])
            && Content(b, h) == Content(p, h)
            && Terminated(b.buf, b.offs[h]) == Terminated(p.buf, p.offs[h]))
      && Live(b) + Weight(p, i) == Live(p) + Weight(b, i)
      && Weight(b, i) == Overhead + |chars|
  {
    var o := p.offs[i];
    assert Placed(p, o);
    DecodeEncode(p.buf, o, chars);
    forall h | 0 <= h < p.num && h != i && p.offs[h] != 0
      ensures LenAt(b.buf, p.offs[h]) == LenAt(p.buf, p.offs[h])
      ensures Content(b, h) == Content(p, h)
      ensures Terminated(b.buf, b.offs[h]) == Terminated(p.buf, p.offs[h])
    {
      assert Placed(p, p.offs[h]);
      WriteAway(p.buf, o, chars, p.offs[h]);
    }
    WriteAway(p.buf, o, chars, 0);
    assert forall h :: 0 <= h < p.num && h != i ==> Weight(b, h) == Weight(p, h);
    LivePoint(p, b, p.num, i);
  }

  /** The invariants after writing over the old record, from the facts `ReuseWrite` collects. */
  lemma ReuseValid(p: Pool, b: Pool, i: nat, n: nat)
    requires Valid(p) && i < p.num && p.offs[i] != 0 && p.offs[i] != p.top && n > 0
    requires LenAt(p.buf, p.offs[i]) >= n
    requires b == p.(buf := b.buf, garbageSize := p.garbageSize + LenAt(p.buf, p.offs[i]) - n)
    requires |b.buf| == |p.buf|
    requires End(b.buf, 0) == End(p.buf, 0) && LenAt(b.buf, 0) == LenAt(p.buf, 0)
    requires Terminated(b.buf, 0) == Terminated(p.buf, 0)
    requires LenAt(b.buf, p.offs[i]) == n && Terminated(b.buf, p.offs[i])
    requires forall h :: 0 <= h < p.num && h != i && p.offs[h] != 0 ==>
      && LenAt(b.buf, p.offs[h]) == LenAt(p.buf, p.offs[h])
      && Terminated(b.buf, b.offs[h]) == Terminated(p.buf, p.offs[h])
    requires Live(b) + Weight(p, i) == Live(p) + Weight(b, i)
    requires Weight(b, i) == Overhead + n
    ensures Valid(b) && b.garbageSize + Live(b) == p.garbageSize + Live(p)
    ensures Sound(p) ==> Sound(b)
  {
    ReuseLayout(p, b, i, n);
  }

  lemma ReuseLayout(p: Pool, b: Pool, i: nat, n: nat)
    requires Layout(p) && i < p.num && p.offs[i] != 0
    requires LenAt(p.buf, p.offs[i]) >= n
    requires b.offs == p.offs && b.num == p.num && b.dataSize == p.dataSize && b.top == p.top
    requires |b.buf| == |p.buf| && End(b.buf, 0) == End(p.buf, 0)
    requires LenAt(b.buf, p.offs[i]) == n
    requires forall h :: 0 <= h < p.num && h != i && p.offs[h] != 0 ==>
      LenAt(b.buf, p.offs[h]) == LenAt(p.buf, p.offs[h])
    ensures Layout(b)
  {
    assert Placed(p, p.offs[i]);
    forall h | 0 <= h < b.num && b.offs[h] != 0
      ensures Placed(b, b.offs[h])
    {
      assert Placed(p, p.offs[h]);
    }
    assert forall h :: 0 <= h < b.num && b.offs[h] != 0 ==> End(b.buf, b.offs[h]) <= End(p.buf, p.offs[h]);
    assert Disjoint(b);
  }

  // ---------------------------------------------------------------------------------------
  // Appending a record at DataSize

  /** The pool after the record for `chars` is appended to `r` for handle `i`. */
  function Appended(r: Pool, i: nat, chars: seq<uint8>): Pool
    requires i < |r.offs|
  {
    var s := r.dataSize;
    r.(buf := Write(r.buf, s, Encode(|chars|, chars)), offs := r.offs[i := s], top := s,
       dataSize := s + Overhead + |chars|)
  }

  /** What appending does to each handle. */
  lemma AppendWrite(r: Pool, i: nat, chars: seq<uint8>)
    requires Layout(r) && i < r.num && |chars| > 0
    requires r.dataSize + Overhead + |chars| <= |r.buf|
    ensures var b := Appended(r, i, chars); var s := r.dataSize;
      && |b.buf| == |r.buf|
      && (s > 0 ==> End(b.buf, 0) == End(r.buf, 0) && LenAt(b.buf, 0) == LenAt(r.buf, 0)
                    && Terminated(b.buf, 0) == Terminated(r.buf, 0)
                    && Payload(b.buf, 0) == Payload(r.buf, 0))
      && LenAt(b.buf, s) == |chars| % 0x10000 && Content(b, i) == Cut(chars)
      && (|chars| <= MaxLength ==> Terminated(b.buf, s))
      && (forall h :: 0 <= h < r.num && h != i && r.offs[h] != 0 ==>
            && End(r.buf, r.offs[h]) <= s
            && LenAt(b.buf, r.offs[h]) == LenAt(r.buf, r.offs[h])
            && Content(b, h) == Content(r, h)
            && Terminated(b.buf, b.offs[h]) == Terminated(r.buf, r.offs[h]))
      && Live(b) + Weight(r, i) == Live(r) + Weight(b, i)
      && Weight(b, i) == (if s == 0 then 0 else Overhead + |chars| % 0x10000)
  {
    var b := Appended(r, i, chars);
    var s := r.dataSize;
    DecodeEncode(r.buf, s, chars);
    AppendOthers(r, b, i, chars);
    assert forall h :: 0 <= h < r.num && h != i ==> Weight(b, h) == Weight(r, h);
    LivePoint(r, b, r.num, i);
  }

  /** Appending leaves the other handles' records, and the empty record, as they were. */
  lemma AppendOthers(r: Pool, b: Pool, i: nat, chars: seq<uint8>)
    requires Layout(r) && i < r.num && |chars| > 0
    requires r.dataSize + Overhead + |chars| <= |r.buf|
    requires b == Appended(r, i, chars)
    ensures forall h :: 0 <= h < r.num && h != i && r.offs[h] != 0 ==>
      End(r.buf, r.offs[h]) <= r.dataSize
      && LenAt(b.buf, r.offs[h]) == LenAt(r.buf, r.offs[h])
      && Content(b, h) == Content(r, h)
      && Terminated(b.buf, b.offs[h]) == Terminated(r.buf, r.offs[h])
    ensures r.dataSize > 0 ==>
      End(b.buf, 0) == End(r.buf, 0)
      && LenAt(b.buf, 0) == LenAt(r.buf, 0)
      && Terminated(b.buf, 0) == Terminated(r.buf, 0)
      && Payload(b.buf, 0) == Payload(r.buf, 0)
  {
    var s := r.dataSize;
    forall h | 0 <= h < r.num && h != i && r.offs[h] != 0
      ensures End(r.buf, r.offs[h]) <= s
      ensures LenAt(b.buf, r.offs[h]) == LenAt(r.buf, r.offs[h])
      ensures Content(b, h) == Content(r, h)
      ensures Terminated(b.buf, b.offs[h]) == Terminated(r.buf, r.offs[h])
    {
      assert Placed(r, r.offs[h]);
      WriteAway(r.buf, s, chars, r.offs[h]);
    }
    if s > 0 {
      WriteAway(r.buf, s, chars, 0);
    }
  }

  /** The layout after appending, from the facts `AppendWrite` collects. */
  lemma AppendLayout(r: Pool, b: Pool, i: nat, n: nat)
    requires Layout(r) && i < r.num && n > 0
    requires r.dataSize + Overhead + n <= |r.buf|
    requires b.offs == r.offs[i := r.dataSize] && b.num == r.num && b.top == r.dataSize
    requires b.dataSize == r.dataSize + Overhead + n && |b.buf| == |r.buf|
    requires r.dataSize > 0 ==> End(b.buf, 0) == End(r.buf, 0)
    requires r.dataSize == 0 ==> End(b.buf, 0) == Overhead + n % 0x10000
    requires LenAt(b.buf, r.dataSize) == n % 0x10000
    requires forall h :: 0 <= h < r.num && h != i && r.offs[h] != 0 ==>
      End(r.buf, r.offs[h]) <= r.dataSize && LenAt(b.buf, r.offs[h]) == LenAt(r.buf, r.offs[h])
    ensures Layout(b)
  {
    forall h | 0 <= h < b.num && b.offs[h] != 0
      ensures Placed(b, b.offs[h])
    {
      if h != i {
        assert Placed(r, r.offs[h]);
      }
    }
    assert Disjoint(b);
  }

  /**
   * Appending for handle `i` to a pool with the layout, room for the record, and accounting
   * that holds once `i`'s old record is no longer counted, leaves a valid pool.
   */
  lemma AppendValid(r: Pool, i: nat, chars: seq<uint8>)
    requires Layout(r) && i < r.num && |chars| > 0
    requires r.dataSize + Overhead + |chars| <= |r.buf|
    requires r.garbageSize + Live(r) <= r.dataSize + Weight(r, i)
    ensures var b := Appended(r, i, chars);
      && Valid(b) && Content(b, i) == Cut(chars)
      && (forall h :: 0 <= h < r.num && h != i && (r.offs[h] != 0 || r.dataSize > 0) ==>
            Content(b, h) == Content(r, h))
  {
    var b := Appended(r, i, chars);
    var n := |chars|;
    AppendWrite(r, i, chars);
    if r.dataSize == 0 {
      DecodeEncode(r.buf, 0, chars);
    }
    AppendLayout(r, b, i, n);
    assert forall h :: 0 <= h < b.num && b.offs[h] != 0 && b.offs[h] == b.top ==> h == i;
  }

  /** Appending keeps the intended state when `r` has it apart from `i`'s old record. */
  lemma AppendSound(r: Pool, i: nat, chars: seq<uint8>)
    requires Layout(r) && i < r.num && 0 < |chars| <= MaxLength && r.dataSize > 0
    requires r.dataSize + Overhead + |chars| <= |r.buf|
    requires Overhead + r.garbageSize + Live(r) <= r.dataSize + Weight(r, i)
    requires LenAt(r.buf, 0) == 0 && Terminated(r.buf, 0)
    requires forall h :: 0 <= h < r.num && r.offs[h] != 0 ==> Terminated(r.buf, r.offs[h])
    ensures Sound(Appended(r, i, chars))
  {
    var b := Appended(r, i, chars);
    AppendWrite(r, i, chars);
    AppendValid(r, i, chars);
    assert forall h :: 0 <= h < b.num && b.offs[h] != 0 && b.offs[h] == b.top ==> h == i;
  }

  /** The old record of `i`, if any, counted as garbage: the first step of the append branch. */
  function Abandoned(p: Pool, i: nat): Pool
    requires i < |p.offs|
  {
    if p.offs[i] != 0 then p.(garbageSize := p.garbageSize + LenAt(p.buf, p.offs[i]) + Overhead) else p
  }

  /** Counting the old record as garbage keeps the layout and the live bytes. */
  lemma AbandonedKeeps(p: Pool, i: nat)
    requires Layout(p) && i < p.num
    ensures var q := Abandoned(p, i);
      && Layout(q) && Live(q) == Live(p) && q.garbageSize == p.garbageSize + Weight(p, i)
      && q == p.(garbageSize := q.garbageSize)
  {
    LiveFrame(p, Abandoned(p, i), p.num);
  }

  /** The pool the append branch writes into: `Abandoned`, then grown if the record does not fit. */
  function AppendBase(p: Pool, i: nat, n: nat): Pool
    requires Shaped(p) && i < |p.offs|
  {
    var q := Abandoned(p, i);
    if q.dataSize + Overhead + n > |q.buf| then ReserveBuf(q, q.dataSize + Overhead + n) else q
  }

  /**
   * The append branch: the string goes to `DataSize`, after a `ReserveBuf` when the buffer is
   * too small, and handle `i` is the record at Top afterwards.
   */
  lemma AppendBranch(p: Pool, i: nat, chars: seq<uint8>)
    requires Valid(p) && i < p.num && |chars| > 0
    requires !(p.offs[i] != 0 && p.offs[i] == p.top && p.top + Overhead + |chars| <= |p.buf|)
    requires !(p.offs[i] != 0 && LenAt(p.buf, p.offs[i]) >= |chars|)
    ensures Store(p, i, chars).Ok?
    ensures var b := Store(p, i, chars).value;
      && Replaced(p, b, i, chars)
      && b.offs[i] == b.top && b.dataSize == b.top + Overhead + |chars|
      && (Sound(p) && |chars| <= MaxLength ==> Sound(b))
      && (forall h :: 0 <= h < p.num && h != i && p.offs[h] == 0 ==> b.offs[h] == 0)
  {
    AppendReady(p, i, chars);
    AllocateAppends(p, i, chars);
    AppendIdle(p, i, |chars|);
  }

  /** Outside the tail and reuse branches, `Store` appends to `AppendBase`. */
  lemma AllocateAppends(p: Pool, i: nat, chars: seq<uint8>)
    requires Shaped(p) && i < |p.offs|
    requires !(p.offs[i] != 0 && p.offs[i] == p.top && p.top + Overhead + |chars| <= |p.buf|)
    requires !(p.offs[i] != 0 && LenAt(p.buf, p.offs[i]) >= |chars|)
    requires AppendBase(p, i, |chars|).dataSize + Overhead + |chars| <= |AppendBase(p, i, |chars|).buf|
    ensures Store(p, i, chars) == Ok(Appended(AppendBase(p, i, |chars|), i, chars))
  {
  }

  /** The pool the append branch writes into has room, and appending to it does what it should. */
  lemma AppendReady(p: Pool, i: nat, chars: seq<uint8>)
    requires Valid(p) && i < p.num && |chars| > 0
    ensures var r := AppendBase(p, i, |chars|);
      && r.dataSize + Overhead + |chars| <= |r.buf|
      && Replaced(p, Appended(r, i, chars), i, chars)
      && (Sound(p) && |chars| <= MaxLength ==> Sound(Appended(r, i, chars)))
  {
    AppendReadyValid(p, i, chars);
    if Sound(p) && |chars| <= MaxLength {
      AppendReadySound(p, i, chars);
    }
  }

  lemma AppendReadyValid(p: Pool, i: nat, chars: seq<uint8>)
    requires Valid(p) && i < p.num && |chars| > 0
    ensures var r := AppendBase(p, i, |chars|);
      && r.dataSize + Overhead + |chars| <= |r.buf|
      && Replaced(p, Appended(r, i, chars), i, chars)
  {
    var q := Abandoned(p, i);
    if q.dataSize + Overhead + |chars| > |q.buf| {
      AppendGrowReady(p, i, chars);
    } else {
      AppendKeepReady(p, i, chars);
    }
  }

  /** `AppendReadyValid` when the buffer has to grow first. */
  lemma AppendGrowReady(p: Pool, i: nat, chars: seq<uint8>)
    requires Valid(p) && i < p.num && |chars| > 0
    requires Abandoned(p, i).dataSize + Overhead + |chars| > |Abandoned(p, i).buf|
    ensures var r := AppendBase(p, i, |chars|);
      && r.dataSize + Overhead + |chars| <= |r.buf|
      && Replaced(p, Appended(r, i, chars), i, chars)
  {
    var q := Abandoned(p, i);
    AbandonedKeeps(p, i);
    AppendGrowReplaces(p, q, AppendBase(p, i, |chars|), i, chars, q.dataSize + Overhead + |chars|);
  }

  /** `AppendReadyValid` when the record fits behind `DataSize`. */
  lemma AppendKeepReady(p: Pool, i: nat, chars: seq<uint8>)
    requires Valid(p) && i < p.num && |chars| > 0
    requires Abandoned(p, i).dataSize + Overhead + |chars| <= |Abandoned(p, i).buf|
    ensures var r := AppendBase(p, i, |chars|);
      && r.dataSize + Overhead + |chars| <= |r.buf|
      && Replaced(p, Appended(r, i, chars), i, chars)
  {
    AbandonedKeeps(p, i);
    AppendKeepReplaces(p, Abandoned(p, i), i, chars);
  }

  /** The append branch without growing: the pool with the old record abandoned. */
  lemma AppendKeepReplaces(p: Pool, q: Pool, i: nat, chars: seq<uint8>)
    requires Valid(p) && i < p.num && |chars| > 0
    requires Layout(q) && Live(q) == Live(p) && q == p.(garbageSize := q.garbageSize)
    requires q.garbageSize == p.garbageSize + Weight(p, i)
    requires q.dataSize + Overhead + |chars| <= |q.buf|
    ensures Replaced(p, Appended(q, i, chars), i, chars)
  {
    assert Weight(q, i) == Weight(p, i);
    AppendReplaces(p, q, i, chars);
  }

  lemma AppendGrowReplaces(p: Pool, q: Pool, r: Pool, i: nat, chars: seq<uint8>, newsize: nat)
    requires Valid(p) && i < p.num && |chars| > 0 && newsize == q.dataSize + Overhead + |chars|
    requires Layout(q) && Live(q) == Live(p) && q == p.(garbageSize := q.garbageSize)
    requires r == ReserveBuf(q, newsize)
    ensures r.dataSize + Overhead + |chars| <= |r.buf|
      && Replaced(p, Appended(r, i, chars), i, chars)
  {
    GrowReady(p, q, i, |chars|, newsize);
    AppendReplaces(p, r, i, chars);
  }

  /** After the `ReserveBuf` of the append branch, `AppendReplaces` applies. */
  lemma GrowReady(p: Pool, q: Pool, i: nat, n: nat, newsize: nat)
    requires Valid(p) && i < p.num && newsize == q.dataSize + Overhead + n
    requires Layout(q) && Live(q) == Live(p) && q == p.(garbageSize := q.garbageSize)
    ensures var r := ReserveBuf(q, newsize);
      && Layout(r) && i < r.num && r.num == p.num && |r.offs| == |p.offs|
      && r.dataSize + Overhead + n <= |r.buf|
      && r.garbageSize + Live(r) <= r.dataSize + Weight(r, i)
      && forall h :: 0 <= h < p.num && h != i && p.offs[h] != 0 ==>
        (r.offs[h] != 0 || r.dataSize > 0) && Content(r, h) == Content(p, h)
  {
    GrowForAppend(q, n, newsize);
    assert forall h :: 0 <= h < p.num && p.offs[h] != 0 ==> Content(q, h) == Content(p, h);
  }

  lemma AppendReadySound(p: Pool, i: nat, chars: seq<uint8>)
    requires Sound(p) && i < p.num && 0 < |chars| <= MaxLength
    ensures Sound(Appended(AppendBase(p, i, |chars|), i, chars))
  {
    var q := Abandoned(p, i);
    if q.dataSize + Overhead + |chars| > |q.buf| {
      AppendGrowReadySound(p, i, chars);
    } else {
      AbandonedKeeps(p, i);
      AppendSound(q, i, chars);
    }
  }

  /** `AppendReadySound` when the buffer has to grow first. */
  lemma AppendGrowReadySound(p: Pool, i: nat, chars: seq<uint8>)
    requires Sound(p) && i < p.num && 0 < |chars| <= MaxLength
    requires Abandoned(p, i).dataSize + Overhead + |chars| > |Abandoned(p, i).buf|
    ensures Sound(Appended(AppendBase(p, i, |chars|), i, chars))
  {
    var q := Abandoned(p, i);
    AbandonedKeeps(p, i);
    AppendGrowSound(q, AppendBase(p, i, |chars|), i, chars, q.dataSize + Overhead + |chars|);
  }

  /** The growing branch of `AppendReadySound`. */
  lemma AppendGrowSound(q: Pool, r: Pool, i: nat, chars: seq<uint8>, newsize: nat)
    requires Layout(q) && Live(q) <= q.dataSize && i < q.num && 0 < |chars| <= MaxLength
    requires newsize == q.dataSize + Overhead + |chars|
    requires forall h :: 0 <= h < q.num && q.offs[h] != 0 ==> Terminated(q.buf, q.offs[h])
    requires r == ReserveBuf(q, newsize)
    ensures Sound(Appended(r, i, chars))
  {
    GrowForAppend(q, |chars|, newsize);
    GrowForAppendSound(q, |chars|, newsize);
    AppendSound(r, i, chars);
  }

  /** Appending to `r` replaces `i`'s string, given that `r` holds `p`'s other strings. */
  lemma AppendReplaces(p: Pool, r: Pool, i: nat, chars: seq<uint8>)
    requires Layout(r) && i < r.num && r.num == p.num && |r.offs| == |p.offs| && |chars| > 0
    requires r.dataSize + Overhead + |chars| <= |r.buf|
    requires r.garbageSize + Live(r) <= r.dataSize + Weight(r, i)
    requires forall h :: 0 <= h < p.num && h != i && p.offs[h] != 0 ==>
      (r.offs[h] != 0 || r.dataSize > 0) && Content(r, h) == Content(p, h)
    ensures Replaced(p, Appended(r, i, chars), i, chars)
  {
    AppendValid(r, i, chars);
  }

  /** `ReserveBuf` before an append leaves room for the record and keeps every string. */
  lemma GrowForAppend(q: Pool, n: nat, newsize: nat)
    requires Layout(q) && Live(q) <= q.dataSize && newsize == q.dataSize + Overhead + n
    ensures var r := ReserveBuf(q, newsize);
      && Layout(r) && r.num == q.num && |r.offs| == |q.offs| && r.dataSize > 0
      && r.dataSize + Overhead + n <= |r.buf|
      && r.garbageSize + Live(r) <= r.dataSize
      && (forall h :: 0 <= h < q.num && q.offs[h] != 0 ==> Content(ReserveBuf(q, newsize), h) == Content(q, h))
      && (forall h :: 0 <= h < q.num && q.offs[h] == 0 ==> ReserveBuf(q, newsize).offs[h] == 0)
  {
    GrowForAppendSize(q, n, newsize);
    GrowForAppendContent(q, n, newsize);
  }

  /** The sizes half of `GrowForAppend`. */
  lemma GrowForAppendSize(q: Pool, n: nat, newsize: nat)
    requires Layout(q) && Live(q) <= q.dataSize && newsize == q.dataSize + Overhead + n
    ensures var r := ReserveBuf(q, newsize);
      && Layout(r) && r.num == q.num && |r.offs| == |q.offs| && r.dataSize > 0
      && r.dataSize + Overhead + n <= |r.buf|
      && r.garbageSize + Live(r) <= r.dataSize
  {
    assert Live(q) <= newsize <= GrownSize(q, newsize);
    ReserveBufValid(q, newsize);
    ReserveBufLive(q, newsize);
    KeptBelowLive(q, q.num);
  }

  /** The strings half of `GrowForAppend`. */
  lemma GrowForAppendContent(q: Pool, n: nat, newsize: nat)
    requires Layout(q) && Live(q) <= q.dataSize && newsize == q.dataSize + Overhead + n
    ensures forall h :: 0 <= h < q.num && q.offs[h] != 0 ==> Content(ReserveBuf(q, newsize), h) == Content(q, h)
    ensures forall h :: 0 <= h < q.num && q.offs[h] == 0 ==> ReserveBuf(q, newsize).offs[h] == 0
  {
    var r := ReserveBuf(q, newsize);
    assert Live(q) <= newsize <= GrownSize(q, newsize);
    ReserveBufContent(q, newsize);
    KeptZeros(q, r);
  }

  /** A handle with offset 0 keeps nothing, so a compacted copy leaves it at offset 0. */
  lemma KeptZeros(q: Pool, r: Pool)
    requires q.num <= |q.offs| && q.num <= |r.offs|
    requires forall h :: 0 <= h < q.num ==> (r.offs[h] != 0 <==> Kept(q, h) != 0)
    ensures forall h :: 0 <= h < q.num && q.offs[h] == 0 ==> r.offs[h] == 0
  {
    forall h | 0 <= h < q.num && q.offs[h] == 0
      ensures r.offs[h] == 0
    {
      assert Kept(q, h) == 0;
    }
  }

  /** ... and, when every record of `q` is zero-terminated, leaves the intended state. */
  lemma GrowForAppendSound(q: Pool, n: nat, newsize: nat)
    requires Layout(q) && Live(q) <= q.dataSize && newsize == q.dataSize + Overhead + n
    requires forall h :: 0 <= h < q.num && q.offs[h] != 0 ==> Terminated(q.buf, q.offs[h])
    ensures var r := ReserveBuf(q, newsize);
      && LenAt(r.buf, 0) == 0 && Terminated(r.buf, 0)
      && (forall h :: 0 <= h < r.num && r.offs[h] != 0 ==> Terminated(r.buf, r.offs[h]))
      && Overhead + r.garbageSize + Live(r) <= r.dataSize
  {
    assert Live(q) <= newsize <= GrownSize(q, newsize);
    ReserveBufValid(q, newsize);
    ReserveBufLive(q, newsize);
    GrowForAppendTerminated(q, n, newsize);
  }

  /** The terminators half of `GrowForAppendSound`. */
  lemma GrowForAppendTerminated(q: Pool, n: nat, newsize: nat)
    requires Layout(q) && Live(q) <= q.dataSize && newsize == q.dataSize + Overhead + n
    requires forall h :: 0 <= h < q.num && q.offs[h] != 0 ==> Terminated(q.buf, q.offs[h])
    ensures var r := ReserveBuf(q, newsize);
      forall h :: 0 <= h < r.num && r.offs[h] != 0 ==> Terminated(r.buf, r.offs[h])
  {
    assert Live(q) <= newsize <= GrownSize(q, newsize);
    ReserveBufTerminated(q, newsize);
  }

  // ---------------------------------------------------------------------------------------
  // Store: the three branches together

  /**
   * Writing a non-empty string for handle `i` of a valid pool never overruns the buffer,
   * replaces `i`'s string, keeps every other string, and gives no record to a handle that
   * had none; when the pool is in the intended state and the length fits the length word,
   * it stays in the intended state.
   */
  lemma StoreReplaces(p: Pool, i: nat, chars: seq<uint8>)
    requires Valid(p) && i < p.num && |chars| > 0
    ensures Store(p, i, chars).Ok?
    ensures Replaced(p, Store(p, i, chars).value, i, chars)
    ensures forall h :: 0 <= h < p.num && h != i && p.offs[h] == 0 ==> Store(p, i, chars).value.offs[h] == 0
    ensures Sound(p) && |chars| <= MaxLength ==> Sound(Store(p, i, chars).value)
  {
    StoreValid(p, i, chars);
    StoreIdle(p, i, chars);
    if Sound(p) && |chars| <= MaxLength {
      StoreSound(p, i, chars);
    }
  }

  lemma StoreValid(p: Pool, i: nat, chars: seq<uint8>)
    requires Valid(p) && i < p.num && |chars| > 0
    ensures Store(p, i, chars).Ok? && Replaced(p, Store(p, i, chars).value, i, chars)
  {
    var o := p.offs[i];
    var n := |chars|;
    if o != 0 && o == p.top && p.top + Overhead + n <= |p.buf| {
      TailInPlace(p, i, chars);
    } else if o != 0 && LenAt(p.buf, o) >= n {
      assert o != p.top by {
        assert Placed(p, o);
      }
      ReuseInPlace(p, i, chars);
    } else {
      AppendBranch(p, i, chars);
    }
  }

  lemma StoreSound(p: Pool, i: nat, chars: seq<uint8>)
    requires Sound(p) && i < p.num && 0 < |chars| <= MaxLength
    ensures Store(p, i, chars).Ok? && Sound(Store(p, i, chars).value)
  {
    var o := p.offs[i];
    var n := |chars|;
    if o != 0 && o == p.top && p.top + Overhead + n <= |p.buf| {
      TailInPlace(p, i, chars);
    } else if o != 0 && LenAt(p.buf, o) >= n {
      assert o != p.top by {
        assert Placed(p, o);
      }
      ReuseInPlace(p, i, chars);
    } else {
      AppendBranch(p, i, chars);
    }
  }

  lemma StoreIdle(p: Pool, i: nat, chars: seq<uint8>)
    requires Valid(p) && i < p.num && |chars| > 0
    ensures Store(p, i, chars).Ok? ==>
      forall h :: 0 <= h < p.num && h != i && p.offs[h] == 0 ==> Store(p, i, chars).value.offs[h] == 0
  {
    var o := p.offs[i];
    var n := |chars|;
    if o != 0 && o == p.top && p.top + Overhead + n <= |p.buf| {
      TailInPlace(p, i, chars);
    } else if o != 0 && LenAt(p.buf, o) >= n {
      assert o != p.top by {
        assert Placed(p, o);
      }
      ReuseInPlace(p, i, chars);
    } else {
      AppendBranch(p, i, chars);
    }
  }

  // ---------------------------------------------------------------------------------------
  // Store: the accounting

  /** The in-place tail write keeps `DataSize - GarbageSize` equal to what the records need. */
  lemma TailInPlaceExact(p: Pool, i: nat, chars: seq<uint8>)
    requires Sound(p) && Exact(p) && i < p.num && 0 < |chars| <= MaxLength
    requires p.offs[i] != 0 && p.offs[i] == p.top
    requires p.top + Overhead + |chars| <= |p.buf|
    ensures Store(p, i, chars).Ok? && Exact(Store(p, i, chars).value)
  {
    TailInPlace(p, i, chars);
    assert Placed(p, p.top);
    assert p.dataSize == p.top + Weight(p, i);
  }

  /**
   * The append branch into room behind `DataSize`: the old record, counted as garbage, and the
   * new record together keep `DataSize - GarbageSize` equal to what the records need.
   */
  lemma AppendKeepExact(p: Pool, i: nat, chars: seq<uint8>)
    requires Sound(p) && Exact(p) && i < p.num && 0 < |chars| <= MaxLength
    requires !(p.offs[i] != 0 && p.offs[i] == p.top && p.top + Overhead + |chars| <= |p.buf|)
    requires !(p.offs[i] != 0 && LenAt(p.buf, p.offs[i]) >= |chars|)
    requires p.dataSize + Overhead + |chars| <= |p.buf|
    ensures Store(p, i, chars).Ok? && Exact(Store(p, i, chars).value)
  {
    var q := Abandoned(p, i);
    AbandonedKeeps(p, i);
    AllocateAppends(p, i, chars);
    AppendAccount(q, i, chars);
    assert Weight(q, i) == Weight(p, i);
  }

  /**
   * The append branch that grows the buffer: `ReserveBuf` runs while handle `i` still points at
   * its old record, so that record is copied as live and `GarbageSize` is then set to 0.
   * Afterwards `DataSize - GarbageSize` exceeds what the records need by exactly the old
   * record's size, and is exact only when handle `i` had no record to copy.
   */
  lemma AppendGrowExcess(p: Pool, i: nat, chars: seq<uint8>)
    requires Sound(p) && i < p.num && 0 < |chars| <= MaxLength
    requires !(p.offs[i] != 0 && p.offs[i] == p.top && p.top + Overhead + |chars| <= |p.buf|)
    requires !(p.offs[i] != 0 && LenAt(p.buf, p.offs[i]) >= |chars|)
    requires p.dataSize + Overhead + |chars| > |p.buf|
    ensures Store(p, i, chars).Ok?
    ensures var b := Store(p, i, chars).value;
      && b.garbageSize == 0 && b.dataSize == Overhead + Live(b) + Kept(p, i)
      && (Exact(b) <==> Kept(p, i) == 0)
  {
    var n := |chars|;
    var q := Abandoned(p, i);
    AbandonedKeeps(p, i);
    GrowAccount(q, AppendBase(p, i, n), i, chars, q.dataSize + Overhead + n);
    AllocateAppends(p, i, chars);
    assert Kept(q, i) == Kept(p, i);
  }

  /** The accounting of `AppendGrowExcess`, for the pool `r` that `ReserveBuf` makes of `q`. */
  lemma GrowAccount(q: Pool, r: Pool, i: nat, chars: seq<uint8>, newsize: nat)
    requires Layout(q) && Live(q) <= q.dataSize && i < q.num && 0 < |chars| <= MaxLength
    requires newsize == q.dataSize + Overhead + |chars| && r == ReserveBuf(q, newsize)
    ensures r.dataSize + Overhead + |chars| <= |r.buf|
    ensures var b := Appended(r, i, chars);
      b.garbageSize == 0 && b.dataSize == Overhead + Live(b) + Kept(q, i)
  {
    GrowForAppendSize(q, |chars|, newsize);
    assert Live(q) <= newsize <= GrownSize(q, newsize);
    ReserveBufValid(q, newsize);
    ReserveBufLive(q, newsize);
    AppendAccount(r, i, chars);
  }

  /** Appending adds the new record's bytes to `DataSize` and swaps `i`'s weight for them. */
  lemma AppendAccount(r: Pool, i: nat, chars: seq<uint8>)
    requires Layout(r) && i < r.num && 0 < |chars| <= MaxLength && r.dataSize > 0
    requires r.dataSize + Overhead + |chars| <= |r.buf|
    ensures var b := Appended(r, i, chars);
      && b.garbageSize == r.garbageSize && b.dataSize == r.dataSize + Overhead + |chars|
      && Live(b) + Weight(r, i) == Live(r) + Overhead + |chars|
  {
    AppendWrite(r, i, chars);
  }

  /** The append branch gives no record to a handle other than `i` that had none. */
  lemma AppendIdle(p: Pool, i: nat, n: nat)
    requires Valid(p) && i < p.num
    ensures forall h :: 0 <= h < p.num && h != i && p.offs[h] == 0 ==> AppendBase(p, i, n).offs[h] == 0
  {
    var q := Abandoned(p, i);
    AbandonedKeeps(p, i);
    if q.dataSize + Overhead + n > |q.buf| {
      GrowForAppend(q, n, q.dataSize + Overhead + n);
    }
  }
}

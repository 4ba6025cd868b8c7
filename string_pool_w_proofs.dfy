/**
 * What the operations of `StringPoolW` (cppexamples/StringPoolW.cpp) guarantee, branch by
 * branch: the invariants they keep, the string each handle reads afterwards, and the effect
 * on the accounting.
 */
module StringPoolWProofs {
  import opened Common
  import opened StringPoolWRecords
  import opened StringPoolWOps
  import opened StringPoolWCompaction

  /** What a record written for `chars` reads back: the characters before the first zero. */
  function Cut(chars: seq<wchar>): seq<wchar>
  {
    CStr(chars, 0)
  }

  /**
   * `q` is `p` with the string of handle `j` replaced by `chars` (as the record reads back);
   * every other handle that has a record keeps its string.
   */
  ghost predicate Replaced(p: Pool, q: Pool, j: nat, chars: seq<wchar>)
  {
    && j < p.num && q.num == p.num && |q.offs| == |p.offs|
    && Valid(q)
    && Content(q, j) == Cut(chars)
    && (forall h :: 0 <= h < p.num && h != j && p.offs[h] != 0 ==> Content(q, h) == Content(p, h))
  }

  // ---------------------------------------------------------------------------------------
  // Entering a handle, erasing a string

  /**
   * Raising `Num` for a new handle keeps every invariant and every string; the handles added
   * read the string at offset 0.
   */
  lemma EnterKeeps(p: Pool, i: nat)
    requires Valid(p)
    ensures var q := Enter(p, i);
      && Valid(q) && (Sound(p) ==> Sound(q))
      && q == p.(offs := q.offs, num := q.num) && Live(q) == Live(p)
      && (forall h :: 0 <= h < |p.offs| ==> Content(q, h) == Content(p, h))
      && (forall h :: |p.offs| <= h < |q.offs| ==> Content(q, h) == Payload(p.buf, 0))
  {
    EnterLive(p, i);
    EnterValid(p, i);
    if Sound(p) {
      EnterSound(p, i);
    }
  }

  lemma EnterValid(p: Pool, i: nat)
    requires Valid(p)
    ensures Valid(Enter(p, i))
  {
    var q := Enter(p, i);
    EnterLive(p, i);
    forall h | 0 <= h < q.num && q.offs[h] != 0
      ensures h < p.num && q.offs[h] == p.offs[h] && Placed(q, q.offs[h])
    {
      assert h < p.num;
      assert Placed(p, p.offs[h]);
    }
    assert Disjoint(q);
  }

  lemma EnterSound(p: Pool, i: nat)
    requires Sound(p)
    ensures Sound(Enter(p, i))
  {
    var q := Enter(p, i);
    EnterLive(p, i);
    EnterValid(p, i);
    assert forall h :: 0 <= h < q.num && q.offs[h] != 0 ==> h < p.num && q.offs[h] == p.offs[h];
  }

  lemma EnterLive(p: Pool, i: nat)
    requires Valid(p)
    ensures var q := Enter(p, i);
      && q == p.(offs := q.offs, num := q.num) && Live(q) == Live(p)
      && |q.offs| >= |p.offs| && (forall h :: 0 <= h < |p.offs| ==> q.offs[h] == p.offs[h])
      && (forall h :: |p.offs| <= h < |q.offs| ==> q.offs[h] == 0)
  {
    var q := Enter(p, i);
    assert forall h :: 0 <= h < |p.offs| ==> q.offs[h] == p.offs[h] by {
      assert q.offs[..|p.offs|] == p.offs;
    }
    assert forall h :: 0 <= h < p.num ==> Weight(q, h) == Weight(p, h);
    LiveFrame(p, q, p.num);
    LiveIdleTail(q, p.num, q.num);
  }

  /**
   * Assigning the empty string to handle `i` puts it at offset 0, counts its old string as
   * garbage, and touches no other handle.
   */
  lemma EraseKeeps(p: Pool, i: nat)
    requires Valid(p) && i < p.num
    ensures var q := Erase(p, i);
      && Valid(q) && (Sound(p) ==> Sound(q))
      && q.offs == p.offs[i := 0]
      && q.garbageSize == p.garbageSize + Weight(p, i)
      && q == p.(offs := q.offs, garbageSize := q.garbageSize)
      && Live(q) + Weight(p, i) == Live(p)
      && Content(q, i) == Payload(p.buf, 0)
      && (forall h :: h != i ==> Content(q, h) == Content(p, h))
  {
    EraseLive(p, i);
    EraseValid(p, i);
  }

  lemma EraseLive(p: Pool, i: nat)
    requires i < p.num <= |p.offs|
    ensures var q := Erase(p, i);
      && q.offs == p.offs[i := 0]
      && q.garbageSize == p.garbageSize + Weight(p, i)
      && q == p.(offs := q.offs, garbageSize := q.garbageSize)
      && Live(q) + Weight(p, i) == Live(p)
  {
    LivePoint(p, Erase(p, i), p.num, i);
  }

  lemma EraseValid(p: Pool, i: nat)
    requires Valid(p) && i < p.num
    ensures Valid(Erase(p, i)) && (Sound(p) ==> Sound(Erase(p, i)))
  {
    EraseLive(p, i);
  }

  /** Erasing keeps `DataSize - GarbageSize` equal to what the strings need. */
  lemma EraseExact(p: Pool, i: nat)
    requires Valid(p) && Exact(p) && i < p.num
    ensures Exact(Erase(p, i))
  {
    EraseLive(p, i);
  }

  // ---------------------------------------------------------------------------------------
  // Writing a string

  /** A string written at `s` away from the record at `o` leaves that record's string alone. */
  lemma WriteAway(buf: seq<wchar>, s: nat, chars: seq<wchar>, o: nat)
    requires s + |chars| + Overhead <= |buf| && End(buf, o) <= |buf|
    requires End(buf, o) <= s || s + |chars| + Overhead <= o
    ensures var b := Write(buf, s, Encode(chars));
      && Payload(b, o) == Payload(buf, o) && LenAt(b, o) == LenAt(buf, o)
  {
    WriteOutside(buf, s, Encode(chars), o);
  }

  /**
   * The tail branch without growth: the string at Top, which is handle `i`'s, grows or shrinks
   * in place, and `DataSize` becomes `Top + len + 1`.
   */
  lemma TailInPlace(p: Pool, i: nat, chars: seq<wchar>)
    requires Valid(p) && i < p.num && |chars| > 0
    requires p.offs[i] != 0 && p.offs[i] == p.top
    requires p.top + |chars| + Overhead <= |p.buf|
    ensures var a := Allocate(p, i, |chars|);
      && a.slot == p.top && a.pool == p.(dataSize := p.top + |chars| + Overhead)
      && Replaced(p, Written(a, chars), i, chars)
      && (Sound(p) ==> Sound(Written(a, chars)))
      && Live(Written(a, chars)) + Weight(p, i) == Live(p) + |Cut(chars)| + Overhead
  {
    var b := p.(buf := Write(p.buf, p.top, Encode(chars)),
                dataSize := p.top + |chars| + Overhead);
    assert Written(Allocate(p, i, |chars|), chars) == b;
    TailWrite(p, b, i, chars);
    DecodeEncode(p.buf, p.top, chars);
    TailInPlaceValid(p, b, i, |chars|);
  }

  /** What the in-place tail write does to each handle. */
  lemma TailWrite(p: Pool, b: Pool, i: nat, chars: seq<wchar>)
    requires Valid(p) && i < p.num && |chars| > 0
    requires p.offs[i] != 0 && p.offs[i] == p.top
    requires p.top + |chars| + Overhead <= |p.buf|
    requires b == p.(buf := Write(p.buf, p.top, Encode(chars)),
                     dataSize := p.top + |chars| + Overhead)
    ensures
      && |b.buf| == |p.buf|
      && End(b.buf, 0) == End(p.buf, 0) && LenAt(b.buf, 0) == LenAt(p.buf, 0)
      && LenAt(b.buf, p.top) == |Cut(chars)| <= |chars| && Content(b, i) == Cut(chars)
      && (forall h :: 0 <= h < p.num && h != i && p.offs[h] != 0 ==>
            p.offs[h] < p.top && End(p.buf, p.offs[h]) <= p.top
            && LenAt(b.buf, p.offs[h]) == LenAt(p.buf, p.offs[h])
            && Content(b, h) == Content(p, h))
      && Live(b) + Weight(p, i) == Live(p) + Weight(b, i)
      && Weight(b, i) == |Cut(chars)| + Overhead
  {
    var o := p.top;
    assert Placed(p, o);
    DecodeEncode(p.buf, o, chars);
    forall h | 0 <= h < p.num && h != i && p.offs[h] != 0
      ensures p.offs[h] < o && End(p.buf, p.offs[h]) <= o
      ensures LenAt(b.buf, p.offs[h]) == LenAt(p.buf, p.offs[h])
      ensures Content(b, h) == Content(p, h)
    {
      assert Placed(p, p.offs[h]);
      WriteAway(p.buf, o, chars, p.offs[h]);
    }
    WriteAway(p.buf, o, chars, 0);
    assert forall h :: 0 <= h < p.num && h != i ==> Weight(b, h) == Weight(p, h);
    LivePoint(p, b, p.num, i);
  }

  /** The invariant after the in-place tail write, from the facts `TailWrite` collects. */
  lemma TailInPlaceValid(p: Pool, b: Pool, i: nat, n: nat)
    requires Valid(p) && i < p.num && p.offs[i] != 0 && p.offs[i] == p.top && n > 0
    requires b == p.(buf := b.buf, dataSize := p.top + n + Overhead) && |b.buf| == |p.buf|
    requires p.top + n + Overhead <= |p.buf|
    requires End(b.buf, 0) == End(p.buf, 0) && LenAt(b.buf, 0) == LenAt(p.buf, 0)
    requires LenAt(b.buf, p.top) <= n
    requires forall h :: 0 <= h < p.num && h != i && p.offs[h] != 0 ==>
      p.offs[h] < p.top && End(p.buf, p.offs[h]) <= p.top
      && LenAt(b.buf, p.offs[h]) == LenAt(p.buf, p.offs[h])
    requires Live(b) + Weight(p, i) == Live(p) + Weight(b, i)
    ensures Valid(b)
    ensures Sound(p) ==> Sound(b)
  {
    TailInPlaceLayout(p, b, i, n);
    assert forall h :: 0 <= h < b.num && b.offs[h] != 0 && b.offs[h] == b.top ==> h == i;
    if Sound(p) {
      TailInPlaceSound(p, b, i, n);
    }
  }

  /** The records after the in-place tail write still lie apart, inside the used part. */
  lemma TailInPlaceLayout(p: Pool, b: Pool, i: nat, n: nat)
    requires Valid(p) && i < p.num && p.offs[i] != 0 && p.offs[i] == p.top && n > 0
    requires b == p.(buf := b.buf, dataSize := p.top + n + Overhead) && |b.buf| == |p.buf|
    requires p.top + n + Overhead <= |p.buf|
    requires End(b.buf, 0) == End(p.buf, 0) && LenAt(b.buf, 0) == LenAt(p.buf, 0)
    requires LenAt(b.buf, p.top) <= n
    requires forall h :: 0 <= h < p.num && h != i && p.offs[h] != 0 ==>
      p.offs[h] < p.top && End(p.buf, p.offs[h]) <= p.top
      && LenAt(b.buf, p.offs[h]) == LenAt(p.buf, p.offs[h])
    ensures Layout(b)
  {
    assert Placed(p, p.offs[i]);
    forall h | 0 <= h < b.num && b.offs[h] != 0
      ensures Placed(b, b.offs[h])
    {
      if h != i {
        assert Placed(p, p.offs[h]);
      }
    }
    assert Disjoint(b);
  }

  /** The tail write keeps every string terminated, given that the rewritten one is. */
  lemma TailInPlaceSound(p: Pool, b: Pool, i: nat, n: nat)
    requires Valid(p) && i < p.num && p.offs[i] != 0 && p.offs[i] == p.top && n > 0
    requires b == p.(buf := b.buf, dataSize := p.top + n + Overhead) && |b.buf| == |p.buf|
    requires p.top + n + Overhead <= |p.buf|
    requires End(b.buf, 0) == End(p.buf, 0) && LenAt(b.buf, 0) == LenAt(p.buf, 0)
    requires LenAt(b.buf, p.top) <= n
    requires forall h :: 0 <= h < p.num && h != i && p.offs[h] != 0 ==>
      p.offs[h] < p.top && End(p.buf, p.offs[h]) <= p.top
      && LenAt(b.buf, p.offs[h]) == LenAt(p.buf, p.offs[h])
    requires Live(b) + Weight(p, i) == Live(p) + Weight(b, i)
    requires Valid(b) && Sound(p)
    ensures Sound(b)
  {
  }

  // ---------------------------------------------------------------------------------------
  // Reusing the old string's space

  /**
   * The reuse branch: a string no longer than the old one is written over it, and the units it
   * leaves unused count as garbage, so `GarbageSize` plus the live units does not grow (and
   * stays the same when the characters hold no zero).
   */
  lemma ReuseInPlace(p: Pool, i: nat, chars: seq<wchar>)
    requires Valid(p) && i < p.num && |chars| > 0
    requires p.offs[i] != 0 && LenAt(p.buf, p.offs[i]) >= |chars|
    ensures var a := Allocate(p, i, |chars|);
      && (p.offs[i] != p.top ==>
            && a.slot == p.offs[i]
            && a.pool == p.(garbageSize := p.garbageSize + LenAt(p.buf, p.offs[i]) - |chars|)
            && Replaced(p, Written(a, chars), i, chars)
            && (Sound(p) ==> Sound(Written(a, chars)))
            && Written(a, chars).garbageSize + Live(Written(a, chars)) <= p.garbageSize + Live(p)
            && (Exact(p) && Cut(chars) == chars ==> Exact(Written(a, chars))))
  {
    var o := p.offs[i];
    if o != p.top {
      var n := |chars|;
      var b := p.(buf := Write(p.buf, o, Encode(chars)),
                  garbageSize := p.garbageSize + LenAt(p.buf, o) - n);
      assert Written(Allocate(p, i, n), chars) == b;
      ReuseWrite(p, b, i, chars);
      ReuseValid(p, b, i, n);
    }
  }

  /** What writing over the old string does to each handle. */
  lemma ReuseWrite(p: Pool, b: Pool, i: nat, chars: seq<wchar>)
    requires Valid(p) && i < p.num && |chars| > 0
    requires p.offs[i] != 0 && p.offs[i] != p.top && LenAt(p.buf, p.offs[i]) >= |chars|
    requires b == p.(buf := Write(p.buf, p.offs[i], Encode(chars)),
                     garbageSize := p.garbageSize + LenAt(p.buf, p.offs[i]) - |chars|)
    ensures
      && |b.buf| == |p.buf|
      && End(b.buf, 0) == End(p.buf, 0) && LenAt(b.buf, 0) == LenAt(p.buf, 0)
      && LenAt(b.buf, p.offs[i]) == |Cut(chars)| <= |chars| && Content(b, i) == Cut(chars)
      && (forall h :: 0 <= h < p.num && h != i && p.offs[h] != 0 ==>
            && LenAt(b.buf, p.offs[h]) == LenAt(p.buf, p.offs[h])
            && Content(b, h) == Content(p, h))
      && Live(b) + Weight(p, i) == Live(p) + Weight(b, i)
      && Weight(b, i) == |Cut(chars)| + Overhead
  {
    var o := p.offs[i];
    assert Placed(p, o);
    DecodeEncode(p.buf, o, chars);
    forall h | 0 <= h < p.num && h != i && p.offs[h] != 0
      ensures LenAt(b.buf, p.offs[h]) == LenAt(p.buf, p.offs[h])
      ensures Content(b, h) == Content(p, h)
    {
      assert Placed(p, p.offs[h]);
      WriteAway(p.buf, o, chars, p.offs[h]);
    }
    WriteAway(p.buf, o, chars, 0);
    assert forall h :: 0 <= h < p.num && h != i ==> Weight(b, h) == Weight(p, h);
    LivePoint(p, b, p.num, i);
  }

  /** The invariants after writing over the old string, from the facts `ReuseWrite` collects. */
  lemma ReuseValid(p: Pool, b: Pool, i: nat, n: nat)
    requires Valid(p) && i < p.num && p.offs[i] != 0 && p.offs[i] != p.top && n > 0
    requires LenAt(p.buf, p.offs[i]) >= n
    requires b == p.(buf := b.buf, garbageSize := p.garbageSize + LenAt(p.buf, p.offs[i]) - n)
    requires |b.buf| == |p.buf|
    requires End(b.buf, 0) == End(p.buf, 0) && LenAt(b.buf, 0) == LenAt(p.buf, 0)
    requires LenAt(b.buf, p.offs[i]) <= n
    requires forall h :: 0 <= h < p.num && h != i && p.offs[h] != 0 ==>
      LenAt(b.buf, p.offs[h]) == LenAt(p.buf, p.offs[h])
    requires Live(b) + Weight(p, i) == Live(p) + Weight(b, i)
    ensures Valid(b) && b.garbageSize + Live(b) <= p.garbageSize + Live(p)
    ensures LenAt(b.buf, p.offs[i]) == n ==> b.garbageSize + Live(b) == p.garbageSize + Live(p)
    ensures Sound(p) ==> Sound(b)
  {
    ReuseLayout(p, b, i, n);
  }

  lemma ReuseLayout(p: Pool, b: Pool, i: nat, n: nat)
    requires Layout(p) && i < p.num && p.offs[i] != 0
    requires LenAt(p.buf, p.offs[i]) >= n
    requires b.offs == p.offs && b.num == p.num && b.dataSize == p.dataSize && b.top == p.top
    requires |b.buf| == |p.buf| && End(b.buf, 0) == End(p.buf, 0)
    requires LenAt(b.buf, p.offs[i]) <= n
    requires forall h :: 0 <= h < p.num && h != i && p.offs[h] != 0 ==>
      LenAt(b.buf, p.offs[h]) == LenAt(p.buf, p.offs[h])
    ensures Layout(b)
  {
    assert Placed(p, p.offs[i]);
    forall h | 0 <= h < b.num && b.offs[h] != 0
      ensures Placed(b, b.offs[h])
    {
      assert Placed(p, p.offs[h]);
    }
    assert forall h :: 0 <= h < b.num && b.offs[h] != 0 ==> End(b.buf, b.offs[h]) <= End(p.buf, p.offs[h]);
    assert Disjoint(b);
  }

  // ---------------------------------------------------------------------------------------
  // Appending a string at DataSize

  /** The pool after the string `chars` is appended to `r` for handle `i`. */
  function Appended(r: Pool, i: nat, chars: seq<wchar>): Pool
    requires i < |r.offs|
  {
    var s := r.dataSize;
    r.(buf := Write(r.buf, s, Encode(chars)), offs := r.offs[i := s], top := s,
       dataSize := s + |chars| + Overhead)
  }

  /** What appending does to each handle. */
  lemma AppendWrite(r: Pool, i: nat, chars: seq<wchar>)
    requires Layout(r) && i < r.num && |chars| > 0
    requires r.dataSize + |chars| + Overhead <= |r.buf|
    ensures var b := Appended(r, i, chars); var s := r.dataSize;
      && |b.buf| == |r.buf|
      && (s > 0 ==> End(b.buf, 0) == End(r.buf, 0) && LenAt(b.buf, 0) == LenAt(r.buf, 0)
                    && Payload(b.buf, 0) == Payload(r.buf, 0))
      && LenAt(b.buf, s) == |Cut(chars)| <= |chars| && Content(b, i) == Cut(chars)
      && (forall h :: 0 <= h < r.num && h != i && r.offs[h] != 0 ==>
            && End(r.buf, r.offs[h]) <= s
            && LenAt(b.buf, r.offs[h]) == LenAt(r.buf, r.offs[h])
            && Content(b, h) == Content(r, h))
      && Live(b) + Weight(r, i) == Live(r) + Weight(b, i)
      && Weight(b, i) == (if s == 0 then 0 else |Cut(chars)| + Overhead)
  {
    var b := Appended(r, i, chars);
    var s := r.dataSize;
    DecodeEncode(r.buf, s, chars);
    AppendOthers(r, b, i, chars);
    assert forall h :: 0 <= h < r.num && h != i ==> Weight(b, h) == Weight(r, h);
    LivePoint(r, b, r.num, i);
  }

  /** Appending leaves the other handles' records, and the empty record, as they were. */
  lemma AppendOthers(r: Pool, b: Pool, i: nat, chars: seq<wchar>)
    requires Layout(r) && i < r.num && |chars| > 0
    requires r.dataSize + |chars| + Overhead <= |r.buf|
    requires b == Appended(r, i, chars)
    ensures forall h :: 0 <= h < r.num && h != i && r.offs[h] != 0 ==>
      End(r.buf, r.offs[h]) <= r.dataSize
      && LenAt(b.buf, r.offs[h]) == LenAt(r.buf, r.offs[h])
      && Content(b, h) == Content(r, h)
    ensures r.dataSize > 0 ==>
      End(b.buf, 0) == End(r.buf, 0)
      && LenAt(b.buf, 0) == LenAt(r.buf, 0)
      && Payload(b.buf, 0) == Payload(r.buf, 0)
  {
    var s := r.dataSize;
    forall h | 0 <= h < r.num && h != i && r.offs[h] != 0
      ensures End(r.buf, r.offs[h]) <= s
      ensures LenAt(b.buf, r.offs[h]) == LenAt(r.buf, r.offs[h])
      ensures Content(b, h) == Content(r, h)
    {
      assert Placed(r, r.offs[h]);
      WriteAway(r.buf, s, chars, r.offs[h]);
    }
    if s > 0 {
      WriteAway(r.buf, s, chars, 0);
    }
  }

  /** The layout after appending, from the facts `AppendWrite` collects. */
  lemma AppendLayout(r: Pool, b: Pool, i: nat, n: nat)
    requires Layout(r) && i < r.num && n > 0
    requires r.dataSize + n + Overhead <= |r.buf|
    requires b.offs == r.offs[i := r.dataSize] && b.num == r.num && b.top == r.dataSize
    requires b.dataSize == r.dataSize + n + Overhead && |b.buf| == |r.buf|
    requires r.dataSize > 0 ==> End(b.buf, 0) == End(r.buf, 0)
    requires r.dataSize == 0 ==> End(b.buf, 0) <= n + Overhead
    requires LenAt(b.buf, r.dataSize) <= n
    requires forall h :: 0 <= h < r.num && h != i && r.offs[h] != 0 ==>
      End(r.buf, r.offs[h]) <= r.dataSize && LenAt(b.buf, r.offs[h]) == LenAt(r.buf, r.offs[h])
    ensures Layout(b)
  {
    forall h | 0 <= h < b.num && b.offs[h] != 0
      ensures Placed(b, b.offs[h])
    {
      if h != i {
        assert Placed(r, r.offs[h]);
      }
    }
    assert Disjoint(b);
  }

  /**
   * Appending for handle `i` to a pool with the layout, room for the string, and accounting
   * that holds once `i`'s old string is no longer counted, leaves a valid pool.
   */
  lemma AppendValid(r: Pool, i: nat, chars: seq<wchar>)
    requires Layout(r) && i < r.num && |chars| > 0
    requires r.dataSize + |chars| + Overhead <= |r.buf|
    requires r.garbageSize + Live(r) <= r.dataSize + Weight(r, i)
    ensures var b := Appended(r, i, chars);
      && Valid(b) && Content(b, i) == Cut(chars)
      && (forall h :: 0 <= h < r.num && h != i && (r.offs[h] != 0 || r.dataSize > 0) ==>
            Content(b, h) == Content(r, h))
  {
    var b := Appended(r, i, chars);
    var n := |chars|;
    AppendWrite(r, i, chars);
    if r.dataSize == 0 {
      DecodeEncode(r.buf, 0, chars);
    }
    AppendLayout(r, b, i, n);
    assert forall h :: 0 <= h < b.num && b.offs[h] != 0 && b.offs[h] == b.top ==> h == i;
  }

  /** Appending keeps the intended state when `r` has it apart from `i`'s old string. */
  lemma AppendSound(r: Pool, i: nat, chars: seq<wchar>)
    requires Layout(r) && i < r.num && |chars| > 0 && r.dataSize > 0
    requires r.dataSize + |chars| + Overhead <= |r.buf|
    requires Overhead + r.garbageSize + Live(r) <= r.dataSize + Weight(r, i)
    requires LenAt(r.buf, 0) == 0
    ensures Sound(Appended(r, i, chars))
  {
    var b := Appended(r, i, chars);
    AppendWrite(r, i, chars);
    AppendValid(r, i, chars);
    assert forall h :: 0 <= h < b.num && b.offs[h] != 0 && b.offs[h] == b.top ==> h == i;
  }

  /** The old string of `i`, if any, counted as garbage: the first step of the append branch. */
  function Abandoned(p: Pool, i: nat): Pool
    requires i < |p.offs|
  {
    if p.offs[i] != 0 then p.(garbageSize := p.garbageSize + LenAt(p.buf, p.offs[i]) + Overhead) else p
  }

  /** Counting the old string as garbage keeps the layout and the live units. */
  lemma AbandonedKeeps(p: Pool, i: nat)
    requires Layout(p) && i < p.num
    ensures var q := Abandoned(p, i);
      && Layout(q) && Live(q) == Live(p) && q.garbageSize == p.garbageSize + Weight(p, i)
      && q == p.(garbageSize := q.garbageSize)
  {
    LiveFrame(p, Abandoned(p, i), p.num);
  }

  /** The pool the append branch writes into: `Abandoned`, then grown if the string does not fit. */
  function AppendBase(p: Pool, i: nat, n: nat): Pool
    requires Shaped(p) && i < |p.offs|
  {
    var q := Abandoned(p, i);
    if q.dataSize + n + Overhead > |q.buf| then ResizeBuf(q, q.dataSize + n + Overhead) else q
  }

  /**
   * The append branch: the string goes to `DataSize`, after a `ResizeBuf` when the buffer is
   * too small, and handle `i` is the string at Top afterwards.
   */
  lemma AppendBranch(p: Pool, i: nat, chars: seq<wchar>)
    requires Valid(p) && i < p.num && |chars| > 0
    requires !(p.offs[i] != 0 && p.offs[i] == p.top && p.top + |chars| + Overhead <= |p.buf|)
    requires !(p.offs[i] != 0 && LenAt(p.buf, p.offs[i]) >= |chars|)
    ensures Store(p, i, chars).Ok?
    ensures var b := Store(p, i, chars).value;
      && Replaced(p, b, i, chars)
      && b.offs[i] == b.top && b.dataSize == b.top + |chars| + Overhead
      && (Sound(p) ==> Sound(b))
      && (forall h :: 0 <= h < p.num && h != i && p.offs[h] == 0 ==> b.offs[h] == 0)
  {
    AppendReady(p, i, chars);
    AllocateAppends(p, i, chars);
    AppendIdle(p, i, |chars|);
  }

  /** Outside the tail and reuse branches, `Store` appends to `AppendBase`. */
  lemma AllocateAppends(p: Pool, i: nat, chars: seq<wchar>)
    requires Shaped(p) && i < |p.offs|
    requires !(p.offs[i] != 0 && p.offs[i] == p.top && p.top + |chars| + Overhead <= |p.buf|)
    requires !(p.offs[i] != 0 && LenAt(p.buf, p.offs[i]) >= |chars|)
    requires AppendBase(p, i, |chars|).dataSize + |chars| + Overhead <= |AppendBase(p, i, |chars|).buf|
    ensures Store(p, i, chars) == Ok(Appended(AppendBase(p, i, |chars|), i, chars))
  {
  }

  /** The pool the append branch writes into has room, and appending to it does what it should. */
  lemma AppendReady(p: Pool, i: nat, chars: seq<wchar>)
    requires Valid(p) && i < p.num && |chars| > 0
    ensures var r := AppendBase(p, i, |chars|);
      && r.dataSize + |chars| + Overhead <= |r.buf|
      && Replaced(p, Appended(r, i, chars), i, chars)
      && (Sound(p) ==> Sound(Appended(r, i, chars)))
  {
    AppendReadyValid(p, i, chars);
    if Sound(p) {
      AppendReadySound(p, i, chars);
    }
  }

  lemma AppendReadyValid(p: Pool, i: nat, chars: seq<wchar>)
    requires Valid(p) && i < p.num && |chars| > 0
    ensures var r := AppendBase(p, i, |chars|);
      && r.dataSize + |chars| + Overhead <= |r.buf|
      && Replaced(p, Appended(r, i, chars), i, chars)
  {
    var q := Abandoned(p, i);
    if q.dataSize + |chars| + Overhead > |q.buf| {
      AppendGrowReady(p, i, chars);
    } else {
      AppendKeepReady(p, i, chars);
    }
  }

  /** `AppendReadyValid` when the buffer has to grow first. */
  lemma AppendGrowReady(p: Pool, i: nat, chars: seq<wchar>)
    requires Valid(p) && i < p.num && |chars| > 0
    requires Abandoned(p, i).dataSize + |chars| + Overhead > |Abandoned(p, i).buf|
    ensures var r := AppendBase(p, i, |chars|);
      && r.dataSize + |chars| + Overhead <= |r.buf|
      && Replaced(p, Appended(r, i, chars), i, chars)
  {
    var q := Abandoned(p, i);
    AbandonedKeeps(p, i);
    AppendGrowReplaces(p, q, AppendBase(p, i, |chars|), i, chars, q.dataSize + |chars| + Overhead);
  }

  /** `AppendReadyValid` when the string fits behind `DataSize`. */
  lemma AppendKeepReady(p: Pool, i: nat, chars: seq<wchar>)
    requires Valid(p) && i < p.num && |chars| > 0
    requires Abandoned(p, i).dataSize + |chars| + Overhead <= |Abandoned(p, i).buf|
    ensures var r := AppendBase(p, i, |chars|);
      && r.dataSize + |chars| + Overhead <= |r.buf|
      && Replaced(p, Appended(r, i, chars), i, chars)
  {
    AbandonedKeeps(p, i);
    AppendReplaces(p, Abandoned(p, i), i, chars);
  }

  lemma AppendGrowReplaces(p: Pool, q: Pool, r: Pool, i: nat, chars: seq<wchar>, newsize: nat)
    requires Valid(p) && i < p.num && |chars| > 0 && newsize == q.dataSize + |chars| + Overhead
    requires Layout(q) && Live(q) == Live(p) && q == p.(garbageSize := q.garbageSize)
    requires r == ResizeBuf(q, newsize)
    ensures r.dataSize + |chars| + Overhead <= |r.buf|
      && Replaced(p, Appended(r, i, chars), i, chars)
  {
    GrowReady(p, q, i, |chars|, newsize);
    AppendReplaces(p, r, i, chars);
  }

  /** After the `ResizeBuf` of the append branch, `AppendReplaces` applies. */
  lemma GrowReady(p: Pool, q: Pool, i: nat, n: nat, newsize: nat)
    requires Valid(p) && i < p.num && newsize == q.dataSize + n + Overhead
    requires Layout(q) && Live(q) == Live(p) && q == p.(garbageSize := q.garbageSize)
    ensures var r := ResizeBuf(q, newsize);
      && Layout(r) && i < r.num && r.num == p.num && |r.offs| == |p.offs|
      && r.dataSize + n + Overhead <= |r.buf|
      && r.garbageSize + Live(r) <= r.dataSize + Weight(r, i)
      && forall h :: 0 <= h < p.num && h != i && p.offs[h] != 0 ==>
        (r.offs[h] != 0 || r.dataSize > 0) && Content(r, h) == Content(p, h)
  {
    GrowForAppend(q, n, newsize);
    assert forall h :: 0 <= h < p.num && p.offs[h] != 0 ==> Content(q, h) == Content(p, h);
  }

  lemma AppendReadySound(p: Pool, i: nat, chars: seq<wchar>)
    requires Sound(p) && i < p.num && |chars| > 0
    ensures Sound(Appended(AppendBase(p, i, |chars|), i, chars))
  {
    var q := Abandoned(p, i);
    if q.dataSize + |chars| + Overhead > |q.buf| {
      AppendGrowReadySound(p, i, chars);
    } else {
      AbandonedKeeps(p, i);
      AppendSound(q, i, chars);
    }
  }

  /** `AppendReadySound` when the buffer has to grow first. */
  lemma AppendGrowReadySound(p: Pool, i: nat, chars: seq<wchar>)
    requires Sound(p) && i < p.num && |chars| > 0
    requires Abandoned(p, i).dataSize + |chars| + Overhead > |Abandoned(p, i).buf|
    ensures Sound(Appended(AppendBase(p, i, |chars|), i, chars))
  {
    var q := Abandoned(p, i);
    AbandonedKeeps(p, i);
    AppendGrowSound(q, AppendBase(p, i, |chars|), i, chars, q.dataSize + |chars| + Overhead);
  }

  /** The growing branch of `AppendReadySound`. */
  lemma AppendGrowSound(q: Pool, r: Pool, i: nat, chars: seq<wchar>, newsize: nat)
    requires Layout(q) && Live(q) <= q.dataSize && i < q.num && |chars| > 0
    requires newsize == q.dataSize + |chars| + Overhead
    requires r == ResizeBuf(q, newsize)
    ensures Sound(Appended(r, i, chars))
  {
    GrowForAppend(q, |chars|, newsize);
    GrowForAppendSound(q, |chars|, newsize);
    AppendSound(r, i, chars);
  }

  /** Appending to `r` replaces `i`'s string, given that `r` holds `p`'s other strings. */
  lemma AppendReplaces(p: Pool, r: Pool, i: nat, chars: seq<wchar>)
    requires Layout(r) && i < r.num && r.num == p.num && |r.offs| == |p.offs| && |chars| > 0
    requires r.dataSize + |chars| + Overhead <= |r.buf|
    requires r.garbageSize + Live(r) <= r.dataSize + Weight(r, i)
    requires forall h :: 0 <= h < p.num && h != i && p.offs[h] != 0 ==>
      (r.offs[h] != 0 || r.dataSize > 0) && Content(r, h) == Content(p, h)
    ensures Replaced(p, Appended(r, i, chars), i, chars)
  {
    AppendValid(r, i, chars);
  }

  /** `ResizeBuf` before an append leaves room for the string and keeps every string. */
  lemma GrowForAppend(q: Pool, n: nat, newsize: nat)
    requires Layout(q) && Live(q) <= q.dataSize && newsize == q.dataSize + n + Overhead
    ensures var r := ResizeBuf(q, newsize);
      && Layout(r) && r.num == q.num && |r.offs| == |q.offs| && r.dataSize > 0
      && r.dataSize + n + Overhead <= |r.buf|
      && r.garbageSize + Live(r) <= r.dataSize
      && (forall h :: 0 <= h < q.num && q.offs[h] != 0 ==> Content(ResizeBuf(q, newsize), h) == Content(q, h))
      && (forall h :: 0 <= h < q.num && q.offs[h] == 0 ==> ResizeBuf(q, newsize).offs[h] == 0)
  {
    GrowForAppendSize(q, n, newsize);
    GrowForAppendContent(q, n, newsize);
  }

  /** The sizes half of `GrowForAppend`. */
  lemma GrowForAppendSize(q: Pool, n: nat, newsize: nat)
    requires Layout(q) && Live(q) <= q.dataSize && newsize == q.dataSize + n + Overhead
    ensures var r := ResizeBuf(q, newsize);
      && Layout(r) && r.num == q.num && |r.offs| == |q.offs| && r.dataSize > 0
      && r.dataSize + n + Overhead <= |r.buf|
      && r.garbageSize + Live(r) <= r.dataSize
  {
    assert Live(q) <= newsize <= GrownSize(q, newsize);
    ResizeBufValid(q, newsize);
    ResizeBufLive(q, newsize);
    KeptBelowLive(q, q.num);
  }

  /** The strings half of `GrowForAppend`. */
  lemma GrowForAppendContent(q: Pool, n: nat, newsize: nat)
    requires Layout(q) && Live(q) <= q.dataSize && newsize == q.dataSize + n + Overhead
    ensures forall h :: 0 <= h < q.num && q.offs[h] != 0 ==> Content(ResizeBuf(q, newsize), h) == Content(q, h)
    ensures forall h :: 0 <= h < q.num && q.offs[h] == 0 ==> ResizeBuf(q, newsize).offs[h] == 0
  {
    assert Live(q) <= newsize <= GrownSize(q, newsize);
    ResizeBufContent(q, newsize);
    KeptZeros(q, ResizeBuf(q, newsize));
  }

  /** A handle with offset 0 keeps nothing, so a compacted copy leaves it at offset 0. */
  lemma KeptZeros(q: Pool, r: Pool)
    requires q.num <= |q.offs| && q.num <= |r.offs|
    requires forall h :: 0 <= h < q.num ==> (r.offs[h] != 0 <==> Kept(q, h) != 0)
    ensures forall h :: 0 <= h < q.num && q.offs[h] == 0 ==> r.offs[h] == 0
  {
    forall h | 0 <= h < q.num && q.offs[h] == 0
      ensures r.offs[h] == 0
    {
      assert Kept(q, h) == 0;
    }
  }

  /** ... and leaves the empty string at offset 0, with room for it in the accounting. */
  lemma GrowForAppendSound(q: Pool, n: nat, newsize: nat)
    requires Layout(q) && Live(q) <= q.dataSize && newsize == q.dataSize + n + Overhead
    ensures var r := ResizeBuf(q, newsize);
      && LenAt(r.buf, 0) == 0
      && Overhead + r.garbageSize + Live(r) <= r.dataSize
  {
    assert Live(q) <= newsize <= GrownSize(q, newsize);
    ResizeBufValid(q, newsize);
    ResizeBufLive(q, newsize);
  }

  // ---------------------------------------------------------------------------------------
  // Store: the three branches together

  /**
   * Writing a non-empty string for handle `i` of a valid pool never overruns the buffer,
   * replaces `i`'s string, keeps every other string, and gives no string to a handle that had
   * none; a pool in the intended state stays in it.
   */
  lemma StoreReplaces(p: Pool, i: nat, chars: seq<wchar>)
    requires Valid(p) && i < p.num && |chars| > 0
    ensures Store(p, i, chars).Ok?
    ensures Replaced(p, Store(p, i, chars).value, i, chars)
    ensures forall h :: 0 <= h < p.num && h != i && p.offs[h] == 0 ==> Store(p, i, chars).value.offs[h] == 0
    ensures Sound(p) ==> Sound(Store(p, i, chars).value)
  {
    StoreValid(p, i, chars);
    StoreIdle(p, i, chars);
    if Sound(p) {
      StoreSound(p, i, chars);
    }
  }

  lemma StoreValid(p: Pool, i: nat, chars: seq<wchar>)
    requires Valid(p) && i < p.num && |chars| > 0
    ensures Store(p, i, chars).Ok? && Replaced(p, Store(p, i, chars).value, i, chars)
  {
    var o := p.offs[i];
    var n := |chars|;
    if o != 0 && o == p.top && p.top + n + Overhead <= |p.buf| {
      TailInPlace(p, i, chars);
    } else if o != 0 && LenAt(p.buf, o) >= n {
      assert o != p.top by {
        assert Placed(p, o);
      }
      ReuseInPlace(p, i, chars);
    } else {
      AppendBranch(p, i, chars);
    }
  }

  lemma StoreSound(p: Pool, i: nat, chars: seq<wchar>)
    requires Sound(p) && i < p.num && |chars| > 0
    ensures Store(p, i, chars).Ok? && Sound(Store(p, i, chars).value)
  {
    var o := p.offs[i];
    var n := |chars|;
    if o != 0 && o == p.top && p.top + n + Overhead <= |p.buf| {
      TailInPlace(p, i, chars);
    } else if o != 0 && LenAt(p.buf, o) >= n {
      assert o != p.top by {
        assert Placed(p, o);
      }
      ReuseInPlace(p, i, chars);
    } else {
      AppendBranch(p, i, chars);
    }
  }

  lemma StoreIdle(p: Pool, i: nat, chars: seq<wchar>)
    requires Valid(p) && i < p.num && |chars| > 0
    ensures Store(p, i, chars).Ok? ==>
      forall h :: 0 <= h < p.num && h != i && p.offs[h] == 0 ==> Store(p, i, chars).value.offs[h] == 0
  {
    var o := p.offs[i];
    var n := |chars|;
    if o != 0 && o == p.top && p.top + n + Overhead <= |p.buf| {
      TailInPlace(p, i, chars);
    } else if o != 0 && LenAt(p.buf, o) >= n {
      assert o != p.top by {
        assert Placed(p, o);
      }
      ReuseInPlace(p, i, chars);
    } else {
      AppendBranch(p, i, chars);
    }
  }

  // ---------------------------------------------------------------------------------------
  // Store: the accounting

  /**
   * The in-place tail write of a string without an embedded zero keeps `DataSize - GarbageSize`
   * equal to what the strings need.
   */
  lemma TailInPlaceExact(p: Pool, i: nat, chars: seq<wchar>)
    requires Sound(p) && Exact(p) && i < p.num && |chars| > 0 && Cut(chars) == chars
    requires p.offs[i] != 0 && p.offs[i] == p.top
    requires p.top + |chars| + Overhead <= |p.buf|
    ensures Store(p, i, chars).Ok? && Exact(Store(p, i, chars).value)
  {
    TailInPlace(p, i, chars);
    assert Placed(p, p.top);
    assert p.dataSize == p.top + Weight(p, i);
  }

  /**
   * The append branch into room behind `DataSize`: the old string, counted as garbage, and the
   * new string together keep `DataSize - GarbageSize` equal to what the strings need.
   */
  lemma AppendKeepExact(p: Pool, i: nat, chars: seq<wchar>)
    requires Sound(p) && Exact(p) && i < p.num && |chars| > 0 && Cut(chars) == chars
    requires !(p.offs[i] != 0 && p.offs[i] == p.top && p.top + |chars| + Overhead <= |p.buf|)
    requires !(p.offs[i] != 0 && LenAt(p.buf, p.offs[i]) >= |chars|)
    requires p.dataSize + |chars| + Overhead <= |p.buf|
    ensures Store(p, i, chars).Ok? && Exact(Store(p, i, chars).value)
  {
    var q := Abandoned(p, i);
    AbandonedKeeps(p, i);
    AllocateAppends(p, i, chars);
    AppendAccount(q, i, chars);
    assert Weight(q, i) == Weight(p, i);
  }

  /**
   * The append branch that grows the buffer: `ResizeBuf` runs while handle `i` still points at
   * its old string, so that string is copied as live and `GarbageSize` is then set to 0.
   * Afterwards `DataSize - GarbageSize` exceeds what the strings need by exactly the old
   * string's size, and is exact only when handle `i` had no string to copy.
   */
  lemma AppendGrowExcess(p: Pool, i: nat, chars: seq<wchar>)
    requires Sound(p) && i < p.num && |chars| > 0 && Cut(chars) == chars
    requires !(p.offs[i] != 0 && p.offs[i] == p.top && p.top + |chars| + Overhead <= |p.buf|)
    requires !(p.offs[i] != 0 && LenAt(p.buf, p.offs[i]) >= |chars|)
    requires p.dataSize + |chars| + Overhead > |p.buf|
    ensures Store(p, i, chars).Ok?
    ensures var b := Store(p, i, chars).value;
      && b.garbageSize == 0 && b.dataSize == Overhead + Live(b) + Kept(p, i)
      && (Exact(b) <==> Kept(p, i) == 0)
  {
    var n := |chars|;
    var q := Abandoned(p, i);
    AbandonedKeeps(p, i);
    GrowAccount(q, AppendBase(p, i, n), i, chars, q.dataSize + n + Overhead);
    AllocateAppends(p, i, chars);
    assert Kept(q, i) == Kept(p, i);
  }

  /** The accounting of `AppendGrowExcess`, for the pool `r` that `ResizeBuf` makes of `q`. */
  lemma GrowAccount(q: Pool, r: Pool, i: nat, chars: seq<wchar>, newsize: nat)
    requires Layout(q) && Live(q) <= q.dataSize && i < q.num && |chars| > 0 && Cut(chars) == chars
    requires newsize == q.dataSize + |chars| + Overhead && r == ResizeBuf(q, newsize)
    ensures r.dataSize + |chars| + Overhead <= |r.buf|
    ensures var b := Appended(r, i, chars);
      b.garbageSize == 0 && b.dataSize == Overhead + Live(b) + Kept(q, i)
  {
    GrowForAppendSize(q, |chars|, newsize);
    assert Live(q) <= newsize <= GrownSize(q, newsize);
    ResizeBufValid(q, newsize);
    ResizeBufLive(q, newsize);
    AppendAccount(r, i, chars);
  }

  /** Appending adds the new string's units to `DataSize` and swaps `i`'s weight for them. */
  lemma AppendAccount(r: Pool, i: nat, chars: seq<wchar>)
    requires Layout(r) && i < r.num && |chars| > 0 && Cut(chars) == chars && r.dataSize > 0
    requires r.dataSize + |chars| + Overhead <= |r.buf|
    ensures var b := Appended(r, i, chars);
      && b.garbageSize == r.garbageSize && b.dataSize == r.dataSize + |chars| + Overhead
      && Live(b) + Weight(r, i) == Live(r) + |chars| + Overhead
  {
    AppendWrite(r, i, chars);
  }

  /** The append branch gives no string to a handle other than `i` that had none. */
  lemma AppendIdle(p: Pool, i: nat, n: nat)
    requires Valid(p) && i < p.num
    ensures forall h :: 0 <= h < p.num && h != i && p.offs[h] == 0 ==> AppendBase(p, i, n).offs[h] == 0
  {
    var q := Abandoned(p, i);
    AbandonedKeeps(p, i);
    if q.dataSize + n + Overhead > |q.buf| {
      GrowForAppend(q, n, q.dataSize + n + Overhead);
    }
  }
}

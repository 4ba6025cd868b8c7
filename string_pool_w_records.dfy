/**
 * The record layout of `StringPoolW` (cppexamples/StringPoolW.cpp) and the invariants of the
 * pool state.
 *
 * The string pool for wide characters keeps every string in one `wchar_t` buffer as its
 * characters followed by a 0, with no length word: a length is what `wcslen` finds. A handle is
 * an index into the `Offsets` table; offset 0 holds a single 0, the shared empty string.
 */
module StringPoolWRecords {
  import opened Common

  /** One `wchar_t` code unit (32 bits wide here; only zero versus non-zero matters). */
  newtype wchar = x: int | 0 <= x < 0x1_0000_0000

  /** Units a record needs besides its characters: the terminating zero. */
  const Overhead: nat := 1
  /** Minimum growth of the string buffer. */
  const AllocateSpace1: nat := 8192
  /** Minimum growth of the offsets table. */
  const AllocateSpace2: nat := 1024

  /**
   * The fields of a `StringPoolW` object. `BufferSize` is `|buf|` and `OffsetsSize` is `|offs|`;
   * a pool without a buffer (the null pointer) has `|buf| == 0`.
   */
  datatype Pool = Pool(buf: seq<wchar>, offs: seq<nat>, dataSize: nat, garbageSize: nat,
                       top: nat, num: nat)

  /** The state the constructor leaves: every field zero, no buffers. */
  const Empty: Pool := Pool([], [], 0, 0, 0, 0)

  /** A zero-filled block of code units. */
  function Blank(n: nat): (z: seq<wchar>)
    ensures |z| == n && forall k :: 0 <= k < n ==> z[k] == 0
  {
    seq(n, _ => 0)
  }

  // ---------------------------------------------------------------------------------------
  // Decoding and encoding one record

  /** Where `wcslen(Buffer + o)` stops: the first zero at or after `o`, or the end of the buffer. */
  function Scan(buf: seq<wchar>, o: nat): (e: nat)
    ensures o <= e && (o <= |buf| ==> e <= |buf|)
    decreases |buf| - o
  {
    if o >= |buf| || buf[o] == 0 then o else Scan(buf, o + 1)
  }

  /** The scan passes only non-zero units and stops at a zero, if it stops inside the buffer. */
  lemma {:induction false} ScanStops(buf: seq<wchar>, o: nat)
    ensures forall k :: o <= k < Scan(buf, o) ==> buf[k] != 0
    ensures Scan(buf, o) < |buf| ==> buf[Scan(buf, o)] == 0
    decreases |buf| - o
  {
    if o < |buf| && buf[o] != 0 {
      ScanStops(buf, o + 1);
    }
  }

  /** A zero at `m` preceded only by non-zero units since `o` is where the scan stops. */
  lemma {:induction false} ScanAt(buf: seq<wchar>, o: nat, m: nat)
    requires o <= m < |buf| && buf[m] == 0
    requires forall k :: o <= k < m ==> buf[k] != 0
    ensures Scan(buf, o) == m
    decreases m - o
  {
    if o < m {
      ScanAt(buf, o + 1, m);
    }
  }

  /** `wcslen(Buffer + o)`. */
  function LenAt(buf: seq<wchar>, o: nat): nat
  {
    Scan(buf, o) - o
  }

  /** The characters of the string at `o`, as far as the buffer goes. */
  function Payload(buf: seq<wchar>, o: nat): (s: seq<wchar>)
    ensures |s| == LenAt(buf, o)
  {
    if o <= |buf| then buf[o .. Scan(buf, o)] else []
  }

  /** One past the terminating zero of the record at `o`. */
  function End(buf: seq<wchar>, o: nat): nat
  {
    Scan(buf, o) + Overhead
  }

  /** The record at `o` ends with a zero inside the buffer. */
  predicate Terminated(buf: seq<wchar>, o: nat)
  {
    End(buf, o) <= |buf|
  }

  /** All units of the record at `o`, terminator included. */
  function RecordUnits(buf: seq<wchar>, o: nat): seq<wchar>
  {
    if End(buf, o) <= |buf| then buf[o .. End(buf, o)] else []
  }

  /** The characters of a string hold no zero. */
  lemma PayloadPlain(buf: seq<wchar>, o: nat)
    ensures forall k :: 0 <= k < |Payload(buf, o)| ==> Payload(buf, o)[k] != 0
  {
    ScanStops(buf, o);
    if o <= |buf| {
      assert forall k :: 0 <= k < |Payload(buf, o)| ==> Payload(buf, o)[k] == buf[o + k];
    }
  }

  /** The zero that ends a terminated record. */
  lemma TerminatorAt(buf: seq<wchar>, o: nat)
    requires Terminated(buf, o)
    ensures buf[End(buf, o) - 1] == 0
  {
    ScanStops(buf, o);
  }

  /** The units `Set` writes for the characters `chars`: the characters and a zero. */
  function Encode(chars: seq<wchar>): (e: seq<wchar>)
    ensures |e| == |chars| + Overhead
  {
    chars + [0]
  }

  /**
   * Decoding a record just written gives back its characters up to the first zero among them,
   * and the record always ends inside what was written; characters without a zero come back
   * whole, in a record of exactly the units written.
   */
  lemma DecodeEncode(buf: seq<wchar>, o: nat, chars: seq<wchar>)
    requires o + |chars| + Overhead <= |buf|
    ensures var b := Write(buf, o, Encode(chars));
      && Payload(b, o) == CStr(chars, 0)
      && End(b, o) <= o + |chars| + Overhead && Terminated(b, o)
      && ((forall k :: 0 <= k < |chars| ==> chars[k] != 0) ==>
            Payload(b, o) == chars && RecordUnits(b, o) == Encode(chars))
  {
    DecodeWritten(buf, o, chars);
    if forall k :: 0 <= k < |chars| ==> chars[k] != 0 {
      CStrOfPlain(chars, 0);
      WriteHit(buf, o, Encode(chars));
    }
  }

  lemma DecodeWritten(buf: seq<wchar>, o: nat, chars: seq<wchar>)
    requires o + |chars| + Overhead <= |buf|
    ensures var b := Write(buf, o, Encode(chars));
      Scan(b, o) == o + |CStr(chars, 0)| && Payload(b, o) == CStr(chars, 0)
  {
    var e := Encode(chars);
    var b := Write(buf, o, e);
    var t := CStr(chars, 0);
    var m := o + |t|;
    assert b[m] == e[|t|] == 0;
    forall k | o <= k < m
      ensures b[k] != 0
    {
      assert b[k] == e[k - o] == chars[k - o] == t[k - o];
    }
    ScanAt(b, o, m);
    assert Payload(b, o) == t by {
      assert forall k :: 0 <= k < |t| ==> Payload(b, o)[k] == b[o + k] == t[k];
    }
  }

  /** The scan over equal units stops after the same count. */
  lemma {:induction false} ScanSame(buf: seq<wchar>, o: nat, buf': seq<wchar>, o': nat)
    requires Scan(buf, o) < |buf| && o' + (Scan(buf, o) - o) < |buf'|
    requires buf'[o' .. o' + (Scan(buf, o) - o) + 1] == buf[o .. Scan(buf, o) + 1]
    ensures Scan(buf', o') - o' == Scan(buf, o) - o
    decreases Scan(buf, o) - o
  {
    var n := Scan(buf, o) - o;
    assert buf'[o'] == buf'[o' .. o' + n + 1][0] == buf[o .. o + n + 1][0] == buf[o];
    if buf[o] != 0 {
      assert buf'[o' + 1 .. o' + n + 1] == buf'[o' .. o' + n + 1][1..];
      assert buf[o + 1 .. o + n + 1] == buf[o .. o + n + 1][1..];
      ScanSame(buf, o + 1, buf', o' + 1);
    }
  }

  /** Two buffers holding the same units for a terminated record decode them alike. */
  lemma SameRecord(buf: seq<wchar>, o: nat, buf': seq<wchar>, o': nat)
    requires End(buf, o) <= |buf| && o' + (End(buf, o) - o) <= |buf'|
    requires buf'[o' .. o' + (End(buf, o) - o)] == buf[o .. End(buf, o)]
    ensures LenAt(buf', o') == LenAt(buf, o)
    ensures End(buf', o') - o' == End(buf, o) - o
    ensures Payload(buf', o') == Payload(buf, o)
    ensures RecordUnits(buf', o') == RecordUnits(buf, o)
    ensures Terminated(buf', o')
  {
    var n := LenAt(buf, o);
    ScanSame(buf, o, buf', o');
    assert Payload(buf', o') == buf'[o' .. o' + n + 1][..n];
    assert Payload(buf, o) == buf[o .. o + n + 1][..n];
  }

  /** Records with the same (non-empty) units decode alike, wherever they are. */
  lemma RecordUnitsAgree(buf: seq<wchar>, o: nat, buf': seq<wchar>, o': nat)
    requires RecordUnits(buf', o') == RecordUnits(buf, o) != []
    ensures End(buf, o) <= |buf| && End(buf', o') <= |buf'|
    ensures LenAt(buf', o') == LenAt(buf, o)
    ensures End(buf', o') - o' == End(buf, o) - o
    ensures Payload(buf', o') == Payload(buf, o)
  {
    assert End(buf', o') <= |buf'|;
    assert |RecordUnits(buf', o')| == End(buf', o') - o';
    assert buf'[o' .. o' + (End(buf, o) - o)] == RecordUnits(buf', o');
    SameRecord(buf, o, buf', o');
  }

  /** A write outside a terminated record at `o` leaves that record as it was. */
  lemma WriteOutside(buf: seq<wchar>, at: nat, data: seq<wchar>, o: nat)
    requires at + |data| <= |buf| && End(buf, o) <= |buf|
    requires End(buf, o) <= at || at + |data| <= o
    ensures RecordUnits(Write(buf, at, data), o) == RecordUnits(buf, o)
    ensures Payload(Write(buf, at, data), o) == Payload(buf, o)
    ensures LenAt(Write(buf, at, data), o) == LenAt(buf, o)
    ensures Terminated(Write(buf, at, data), o)
  {
    WriteFrame(buf, at, data, o, End(buf, o));
    SameRecord(buf, o, Write(buf, at, data), o);
  }

  /** Copying a whole terminated record elsewhere gives a record that decodes alike. */
  lemma WriteRecordCopy(src: seq<wchar>, o: nat, buf: seq<wchar>, at: nat)
    requires End(src, o) <= |src| && at + (End(src, o) - o) <= |buf|
    ensures var b := Write(buf, at, RecordUnits(src, o));
      && LenAt(b, at) == LenAt(src, o) && End(b, at) == at + (End(src, o) - o)
      && Payload(b, at) == Payload(src, o) && Terminated(b, at)
      && RecordUnits(b, at) == RecordUnits(src, o)
  {
    var r := RecordUnits(src, o);
    WriteHit(buf, at, r);
    SameRecord(src, o, Write(buf, at, r), at);
  }

  // ---------------------------------------------------------------------------------------
  // Handles

  /** The string handle `h` reads: what `wcslen` finds at its offset. */
  function Content(p: Pool, h: nat): seq<wchar>
  {
    if h < |p.offs| then Payload(p.buf, p.offs[h]) else []
  }

  /** Units of buffer that handle `h` keeps alive: its record, or nothing for offset 0. */
  function Weight(p: Pool, h: nat): nat
  {
    if h < |p.offs| && p.offs[h] != 0 then LenAt(p.buf, p.offs[h]) + Overhead else 0
  }

  /** Total weight of the handles below `k`. */
  function LiveUpTo(p: Pool, k: nat): nat
  {
    if k == 0 then 0 else LiveUpTo(p, k - 1) + Weight(p, k - 1)
  }

  /** Units held by the records of all handles in use. */
  function Live(p: Pool): nat
  {
    LiveUpTo(p, p.num)
  }

  lemma {:induction false} LiveFrame(p: Pool, q: Pool, k: nat)
    requires forall h :: 0 <= h < k ==> Weight(p, h) == Weight(q, h)
    ensures LiveUpTo(p, k) == LiveUpTo(q, k)
  {
    if k > 0 {
      LiveFrame(p, q, k - 1);
    }
  }

  /** Changing the weight of one handle changes the total by the difference. */
  lemma {:induction false} LivePoint(p: Pool, q: Pool, k: nat, i: nat)
    requires i < k
    requires forall h :: 0 <= h < k && h != i ==> Weight(p, h) == Weight(q, h)
    ensures LiveUpTo(q, k) + Weight(p, i) == LiveUpTo(p, k) + Weight(q, i)
  {
    if k - 1 == i {
      LiveFrame(p, q, k - 1);
    } else {
      LivePoint(p, q, k - 1, i);
    }
  }

  /** The total over a prefix, plus any one later handle, is at most the larger total. */
  lemma {:induction false} LiveSplit(p: Pool, j: nat, i: nat, k: nat)
    requires j <= i < k
    ensures LiveUpTo(p, j) + Weight(p, i) <= LiveUpTo(p, k)
  {
    if k - 1 == i {
      LiveMono(p, j, k - 1);
    } else {
      LiveSplit(p, j, i, k - 1);
    }
  }

  lemma {:induction false} LiveMono(p: Pool, j: nat, k: nat)
    requires j <= k
    ensures LiveUpTo(p, j) <= LiveUpTo(p, k)
  {
    if j < k {
      LiveMono(p, j, k - 1);
    }
  }

  /** Handles with no record add nothing to the total. */
  lemma {:induction false} LiveIdleTail(p: Pool, j: nat, k: nat)
    requires j <= k
    requires forall h :: j <= h < k ==> Weight(p, h) == 0
    ensures LiveUpTo(p, k) == LiveUpTo(p, j)
  {
    if j < k {
      LiveIdleTail(p, j, k - 1);
    }
  }

  // ---------------------------------------------------------------------------------------
  // Invariants

  /** A live record at `o` lies after the record at offset 0, inside the used part, and below Top. */
  ghost predicate Placed(p: Pool, o: nat)
  {
    && End(p.buf, 0) <= o
    && End(p.buf, o) <= p.dataSize
    && o <= p.top
    && (o < p.top ==> End(p.buf, o) <= p.top)
  }

  /** Live records of different handles do not overlap. */
  ghost predicate Disjoint(p: Pool)
    requires p.num <= |p.offs|
  {
    forall h, g :: 0 <= h < p.num && 0 <= g < p.num && h != g && p.offs[h] != 0 && p.offs[g] != 0 ==>
      End(p.buf, p.offs[h]) <= p.offs[g] || End(p.buf, p.offs[g]) <= p.offs[h]
  }

  /** The layout every reachable state has: records inside the used part, apart, below Top. */
  ghost predicate Layout(p: Pool)
  {
    && p.num <= |p.offs|
    && (forall h :: p.num <= h < |p.offs| ==> p.offs[h] == 0)
    && p.dataSize <= |p.buf|
    && (|p.buf| > 0 ==> End(p.buf, 0) <= |p.buf|)
    && (p.dataSize > 0 ==> End(p.buf, 0) <= p.dataSize)
    && (forall h :: 0 <= h < p.num && p.offs[h] != 0 ==> Placed(p, p.offs[h]))
    && Disjoint(p)
  }

  /**
   * What holds in every state the source can reach, including after `Clear`: the layout, and
   * `GarbageSize` plus the live records fit both in `DataSize` and, leaving out the record at
   * Top, below Top.
   */
  ghost predicate Valid(p: Pool)
  {
    && Layout(p)
    && p.garbageSize + Live(p) <= p.dataSize
    && (forall h :: 0 <= h < p.num && p.offs[h] != 0 && p.offs[h] == p.top ==>
          p.garbageSize + Live(p) <= p.top + Weight(p, h))
  }

  /**
   * What the design intends in addition: the record at offset 0 is the empty string, and the
   * accounting also covers it.
   */
  ghost predicate Sound(p: Pool)
  {
    && Valid(p)
    && (|p.buf| > 0 ==> LenAt(p.buf, 0) == 0 && Overhead + p.garbageSize + Live(p) <= p.dataSize)
    && (forall h :: 0 <= h < p.num && p.offs[h] != 0 && p.offs[h] == p.top ==>
          Overhead + p.garbageSize + Live(p) <= p.top + Weight(p, h))
  }

  /** `DataSize - GarbageSize` equals the units the records in use actually need. */
  ghost predicate Exact(p: Pool)
  {
    p.garbageSize + Overhead + Live(p) == p.dataSize
  }

  /** The empty pool satisfies both invariants. */
  lemma EmptySound()
    ensures Sound(Empty)
  {
  }

  /** In a sound pool every handle without a record reads as the empty string. */
  lemma IdleIsEmpty(p: Pool, h: nat)
    requires Sound(p) && h < |p.offs| && p.offs[h] == 0
    ensures Content(p, h) == []
  {
  }
}

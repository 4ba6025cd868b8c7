/**
 * The record layout of `StringPoolL` (cppexamples/StringPoolL.cpp) and the invariants of the
 * pool state.
 *
 * Every string lives in one byte buffer as a record
 *     [length: unsigned short, little endian] [characters] [0]
 * and a handle is an index into the `Offsets` table, which holds the record's offset. Offset 0
 * holds a shared empty record that every empty handle points at.
 */
module StringPoolLRecords {
  import opened Common

  /** sizeof(LengthType): the length word is an `unsigned short`. */
  const LengthBytes: nat := 2
  /** Bytes a record needs besides its characters: the length word and the terminating zero. */
  const Overhead: nat := 3
  /** Minimum growth of the string buffer. */
  const AllocateSpace1: nat := 4096
  /** Minimum growth of the offsets table. */
  const AllocateSpace2: nat := 1024
  /** `(LengthType)(-1)`, the longest length a record can state. */
  const MaxLength: nat := 0xFFFF

  /**
   * The fields of a `StringPoolL` object. `BufferSize` is `|buf|` and `OffsetsSize` is `|offs|`;
   * a pool without a buffer (the null pointer) has `|buf| == 0`.
   */
  datatype Pool = Pool(buf: seq<uint8>, offs: seq<nat>, dataSize: nat, garbageSize: nat,
                       top: nat, num: nat)

  /** The state the constructor leaves: every field zero, no buffers. */
  const Empty: Pool := Pool([], [], 0, 0, 0, 0)

  // ---------------------------------------------------------------------------------------
  // Decoding and encoding one record

  /** The length word at offset `o`, read as an unsigned short (0 outside the buffer). */
  function LenAt(buf: seq<uint8>, o: nat): (n: nat)
    ensures n <= MaxLength
  {
    if o + 1 < |buf| then buf[o] as nat + 0x100 * buf[o + 1] as nat else 0
  }

  /** One past the last byte (the terminator) of the record at `o`. */
  function End(buf: seq<uint8>, o: nat): nat
  {
    o + Overhead + LenAt(buf, o)
  }

  /** The characters of the record at `o` (empty when the record does not fit the buffer). */
  function Payload(buf: seq<uint8>, o: nat): seq<uint8>
  {
    if End(buf, o) <= |buf| then buf[o + LengthBytes .. o + LengthBytes + LenAt(buf, o)] else []
  }

  /** All bytes of the record at `o`. */
  function RecordBytes(buf: seq<uint8>, o: nat): seq<uint8>
  {
    if End(buf, o) <= |buf| then buf[o .. End(buf, o)] else []
  }

  /** The record at `o` fits the buffer and ends with its zero byte, so it reads as a C string. */
  predicate Terminated(buf: seq<uint8>, o: nat)
  {
    End(buf, o) <= |buf| && buf[End(buf, o) - 1] == 0
  }

  /** `*(LengthType*)p = (LengthType)n`: the low 16 bits of `n`, little endian. */
  function LengthWord(n: nat): (w: seq<uint8>)
    ensures |w| == LengthBytes
    ensures w[0] as nat + 0x100 * w[1] as nat == n % 0x10000
  {
    LowWord(n);
    [(n % 0x100) as uint8, (n / 0x100 % 0x100) as uint8]
  }

  /** The low 16 bits of `n` are its low byte and 0x100 times its next byte. */
  lemma LowWord(n: nat)
    ensures n % 0x10000 == n % 0x100 + 0x100 * (n / 0x100 % 0x100)
  {
    var h := n / 0x100;
    var g := h / 0x100;
    var w := n % 0x100 + 0x100 * (h % 0x100);
    assert n == 0x100 * h + n % 0x100;
    assert h == 0x100 * g + h % 0x100;
    LowWordUnique(n, g, w);
  }

  /** Division by 0x10000 has one quotient and remainder. */
  lemma LowWordUnique(n: nat, g: nat, w: nat)
    requires w < 0x10000 && n == 0x10000 * g + w
    ensures n % 0x10000 == w
  {
  }

  /** Where `Encode` puts the length word, the characters and the terminating zero. */
  lemma EncodeParts(n: nat, chars: seq<uint8>)
    ensures var e := Encode(n, chars);
      && e[0] as nat + 0x100 * e[1] as nat == n % 0x10000
      && e[LengthBytes .. LengthBytes + |chars|] == chars
      && e[|e| - 1] == 0
  {
    var e := Encode(n, chars);
    var w := LengthWord(n);
    assert e[0] == w[0] && e[1] == w[1];
    assert e[LengthBytes .. LengthBytes + |chars|] == chars;
  }

  /** The bytes `Set` writes for a record that states length `n` and holds `chars`. */
  function Encode(n: nat, chars: seq<uint8>): (e: seq<uint8>)
    ensures |e| == Overhead + |chars|
  {
    LengthWord(n) + chars + [0]
  }

  /**
   * Decoding a record just written gives back its characters, cut to the 16-bit length the
   * length word can hold; the record is a proper C string only when nothing was cut.
   */
  lemma DecodeEncode(buf: seq<uint8>, o: nat, chars: seq<uint8>)
    requires o + Overhead + |chars| <= |buf|
    ensures var b := Write(buf, o, Encode(|chars|, chars));
      && LenAt(b, o) == |chars| % 0x10000
      && Payload(b, o) == chars[..|chars| % 0x10000]
      && (|chars| <= MaxLength ==> Terminated(b, o) && RecordBytes(b, o) == Encode(|chars|, chars))
  {
    WriteHit(buf, o, Encode(|chars|, chars));
    EncodedAt(Write(buf, o, Encode(|chars|, chars)), o, chars);
  }

  /** A buffer holding the bytes `Encode(|chars|, chars)` at `o` decodes there as `DecodeEncode` says. */
  lemma EncodedAt(b: seq<uint8>, o: nat, chars: seq<uint8>)
    requires o + Overhead + |chars| <= |b| && b[o .. o + Overhead + |chars|] == Encode(|chars|, chars)
    ensures LenAt(b, o) == |chars| % 0x10000
    ensures Payload(b, o) == chars[..|chars| % 0x10000]
    ensures |chars| <= MaxLength ==> Terminated(b, o) && RecordBytes(b, o) == Encode(|chars|, chars)
  {
    EncodeParts(|chars|, chars);
    EncodedLength(b, o, Encode(|chars|, chars), |chars|);
    EncodedPayload(b, o, Encode(|chars|, chars), chars);
    if |chars| <= MaxLength {
      EncodedEnd(b, o, Encode(|chars|, chars));
    }
  }

  /** The length word of the written record is the one `Encode` made. */
  lemma EncodedLength(b: seq<uint8>, o: nat, e: seq<uint8>, n: nat)
    requires o + |e| <= |b| && b[o .. o + |e|] == e && |e| >= Overhead
    requires e[0] as nat + 0x100 * e[1] as nat == n % 0x10000
    ensures LenAt(b, o) == n % 0x10000
  {
    assert b[o] == e[0] && b[o + 1] == e[1];
  }

  /** The characters of the written record are the ones `Encode` put after the length word. */
  lemma EncodedPayload(b: seq<uint8>, o: nat, e: seq<uint8>, chars: seq<uint8>)
    requires o + |e| <= |b| && b[o .. o + |e|] == e && |e| == Overhead + |chars|
    requires e[LengthBytes .. LengthBytes + |chars|] == chars
    requires LenAt(b, o) == |chars| % 0x10000
    ensures Payload(b, o) == chars[..|chars| % 0x10000]
  {
    var n := |chars| % 0x10000;
    SameSliceOf(b, o, e, LengthBytes, LengthBytes + n);
    assert e[LengthBytes .. LengthBytes + n] == e[LengthBytes .. LengthBytes + |chars|][..n];
  }

  /** A written record whose length word is exact ends with the zero `Encode` put last. */
  lemma EncodedEnd(b: seq<uint8>, o: nat, e: seq<uint8>)
    requires o + |e| <= |b| && b[o .. o + |e|] == e && |e| >= Overhead
    requires End(b, o) == o + |e| && e[|e| - 1] == 0
    ensures Terminated(b, o) && RecordBytes(b, o) == e
  {
    assert b[End(b, o) - 1] == e[|e| - 1];
  }

  /** A sub-range of a range equal to `e` is the matching part of `e`. */
  lemma SameSliceOf(b: seq<uint8>, o: nat, e: seq<uint8>, x: nat, y: nat)
    requires o + |e| <= |b| && b[o .. o + |e|] == e && x <= y <= |e|
    ensures b[o + x .. o + y] == e[x..y]
  {
    var l := b[o + x .. o + y];
    forall j | 0 <= j < |l|
      ensures l[j] == e[x + j]
    {
      assert l[j] == b[o .. o + |e|][x + j];
    }
  }

  /** Two buffers holding the same record bytes decode them alike. */
  lemma SameRecord(buf: seq<uint8>, o: nat, buf': seq<uint8>, o': nat)
    requires End(buf, o) <= |buf| && o' + (End(buf, o) - o) <= |buf'|
    requires buf'[o' .. o' + (End(buf, o) - o)] == buf[o .. End(buf, o)]
    ensures LenAt(buf', o') == LenAt(buf, o)
    ensures End(buf', o') - o' == End(buf, o) - o
    ensures Payload(buf', o') == Payload(buf, o)
    ensures RecordBytes(buf', o') == RecordBytes(buf, o)
    ensures Terminated(buf', o') == Terminated(buf, o)
  {
    SameLength(buf, o, buf', o', End(buf, o) - o);
    SamePayload(buf, o, buf', o');
    SameBytes(buf, o, buf', o');
    SameTerminated(buf, o, buf', o');
  }

  lemma SamePayload(buf: seq<uint8>, o: nat, buf': seq<uint8>, o': nat)
    requires End(buf, o) <= |buf| && o' + (End(buf, o) - o) <= |buf'|
    requires buf'[o' .. o' + (End(buf, o) - o)] == buf[o .. End(buf, o)]
    ensures Payload(buf', o') == Payload(buf, o)
  {
    var n := End(buf, o) - o;
    var l := LenAt(buf, o);
    SameLength(buf, o, buf', o', n);
    PayloadOf(buf, o, l);
    PayloadOf(buf', o', l);
    SameSlice(buf, o, buf', o', n, LengthBytes, LengthBytes + l);
  }

  /** The characters of a record of length `l` that fits the buffer. */
  lemma PayloadOf(b: seq<uint8>, o: nat, l: nat)
    requires LenAt(b, o) == l && o + Overhead + l <= |b|
    ensures Payload(b, o) == b[o + LengthBytes .. o + LengthBytes + l]
  {
  }

  lemma SameBytes(buf: seq<uint8>, o: nat, buf': seq<uint8>, o': nat)
    requires End(buf, o) <= |buf| && o' + (End(buf, o) - o) <= |buf'|
    requires buf'[o' .. o' + (End(buf, o) - o)] == buf[o .. End(buf, o)]
    ensures RecordBytes(buf', o') == RecordBytes(buf, o)
  {
    SameLength(buf, o, buf', o', End(buf, o) - o);
  }

  lemma SameTerminated(buf: seq<uint8>, o: nat, buf': seq<uint8>, o': nat)
    requires End(buf, o) <= |buf| && o' + (End(buf, o) - o) <= |buf'|
    requires buf'[o' .. o' + (End(buf, o) - o)] == buf[o .. End(buf, o)]
    ensures Terminated(buf', o') == Terminated(buf, o)
  {
    SameLength(buf, o, buf', o', End(buf, o) - o);
    SameTerminator(buf, o, buf', o', End(buf, o) - o);
  }

  /** Equal record ranges start with the same length word. */
  lemma SameLength(buf: seq<uint8>, o: nat, buf': seq<uint8>, o': nat, n: nat)
    requires Overhead <= n && o + n <= |buf| && o' + n <= |buf'| && buf'[o' .. o' + n] == buf[o .. o + n]
    ensures LenAt(buf', o') == LenAt(buf, o)
  {
    var r := buf[o .. o + n];
    assert buf'[o'] == r[0] == buf[o];
    assert buf'[o' + 1] == r[1] == buf[o + 1];
  }

  /** Equal record ranges end with the same byte. */
  lemma SameTerminator(buf: seq<uint8>, o: nat, buf': seq<uint8>, o': nat, n: nat)
    requires 0 < n && o + n <= |buf| && o' + n <= |buf'| && buf'[o' .. o' + n] == buf[o .. o + n]
    ensures buf'[o' + n - 1] == buf[o + n - 1]
  {
    var r := buf[o .. o + n];
    assert buf'[o' + n - 1] == r[n - 1];
  }

  /** Equal ranges have equal sub-ranges. */
  lemma SameSlice(buf: seq<uint8>, o: nat, buf': seq<uint8>, o': nat, n: nat, a: nat, b: nat)
    requires o + n <= |buf| && o' + n <= |buf'| && a <= b <= n
    requires buf'[o' .. o' + n] == buf[o .. o + n]
    ensures buf'[o' + a .. o' + b] == buf[o + a .. o + b]
  {
    var r := buf[o .. o + n];
    var x := buf'[o' + a .. o' + b];
    var y := buf[o + a .. o + b];
    forall j | 0 <= j < |x|
      ensures x[j] == y[j]
    {
      assert x[j] == r[a + j];
    }
  }

  /** Records with the same (non-empty) bytes decode alike, wherever they are. */
  lemma RecordBytesAgree(buf: seq<uint8>, o: nat, buf': seq<uint8>, o': nat)
    requires RecordBytes(buf', o') == RecordBytes(buf, o) != []
    ensures End(buf, o) <= |buf| && End(buf', o') <= |buf'|
    ensures LenAt(buf', o') == LenAt(buf, o)
    ensures End(buf', o') - o' == End(buf, o) - o
    ensures Payload(buf', o') == Payload(buf, o)
    ensures Terminated(buf', o') == Terminated(buf, o)
  {
    assert End(buf', o') <= |buf'|;
    assert buf'[o' .. o' + (End(buf, o) - o)] == RecordBytes(buf', o');
    SameRecord(buf, o, buf', o');
  }

  /** A write outside the record at `o` leaves that record as it was. */
  lemma WriteOutside(buf: seq<uint8>, at: nat, data: seq<uint8>, o: nat)
    requires at + |data| <= |buf| && End(buf, o) <= |buf|
    requires End(buf, o) <= at || at + |data| <= o
    ensures RecordBytes(Write(buf, at, data), o) == RecordBytes(buf, o)
    ensures Payload(Write(buf, at, data), o) == Payload(buf, o)
    ensures LenAt(Write(buf, at, data), o) == LenAt(buf, o)
    ensures Terminated(Write(buf, at, data), o) == Terminated(buf, o)
  {
    WriteFrame(buf, at, data, o, End(buf, o));
    SameRecord(buf, o, Write(buf, at, data), o);
  }

  /** Copying a whole record elsewhere gives a record that decodes alike. */
  lemma WriteRecordCopy(src: seq<uint8>, o: nat, buf: seq<uint8>, at: nat)
    requires End(src, o) <= |src| && at + (End(src, o) - o) <= |buf|
    ensures var b := Write(buf, at, RecordBytes(src, o));
      && LenAt(b, at) == LenAt(src, o) && End(b, at) == at + (End(src, o) - o)
      && Payload(b, at) == Payload(src, o) && Terminated(b, at) == Terminated(src, o)
      && RecordBytes(b, at) == RecordBytes(src, o)
  {
    var r := RecordBytes(src, o);
    WriteHit(buf, at, r);
    SameRecord(src, o, Write(buf, at, r), at);
  }

  // ---------------------------------------------------------------------------------------
  // Handles

  /** The string handle `h` reads: the record its offset points at. */
  function Content(p: Pool, h: nat): seq<uint8>
  {
    if h < |p.offs| then Payload(p.buf, p.offs[h]) else []
  }

  /** Bytes of buffer that handle `h` keeps alive: its record, or nothing for offset 0. */
  function Weight(p: Pool, h: nat): nat
  {
    if h < |p.offs| && p.offs[h] != 0 then Overhead + LenAt(p.buf, p.offs[h]) else 0
  }

  /** Total weight of the handles below `k`. */
  function LiveUpTo(p: Pool, k: nat): nat
  {
    if k == 0 then 0 else LiveUpTo(p, k - 1) + Weight(p, k - 1)
  }

  /** Bytes held by the records of all handles in use. */
  function Live(p: Pool): nat
  {
    LiveUpTo(p, p.num)
  }

  lemma {:induction false} LiveFrame(p: Pool, q: Pool, k: nat)
    requires forall h :: 0 <= h < k ==> Weight(p, h) == Weight(q, h)
    ensures LiveUpTo(p, k) == LiveUpTo(q, k)
  {
    if k > 0 {
      LiveFrame(p, q, k - 1);
    }
  }

  /** Changing the weight of one handle changes the total by the difference. */
  lemma {:induction false} LivePoint(p: Pool, q: Pool, k: nat, i: nat)
    requires i < k
    requires forall h :: 0 <= h < k && h != i ==> Weight(p, h) == Weight(q, h)
    ensures LiveUpTo(q, k) + Weight(p, i) == LiveUpTo(p, k) + Weight(q, i)
  {
    if k - 1 == i {
      LiveFrame(p, q, k - 1);
    } else {
      LivePoint(p, q, k - 1, i);
    }
  }

  /** The total over a prefix, plus any one later handle, is at most the larger total. */
  lemma {:induction false} LiveSplit(p: Pool, j: nat, i: nat, k: nat)
    requires j <= i < k
    ensures LiveUpTo(p, j) + Weight(p, i) <= LiveUpTo(p, k)
  {
    if k - 1 == i {
      LiveMono(p, j, k - 1);
    } else {
      LiveSplit(p, j, i, k - 1);
    }
  }

  lemma {:induction false} LiveMono(p: Pool, j: nat, k: nat)
    requires j <= k
    ensures LiveUpTo(p, j) <= LiveUpTo(p, k)
  {
    if j < k {
      LiveMono(p, j, k - 1);
    }
  }

  /** Handles with no record add nothing to the total. */
  lemma {:induction false} LiveIdleTail(p: Pool, j: nat, k: nat)
    requires j <= k
    requires forall h :: j <= h < k ==> Weight(p, h) == 0
    ensures LiveUpTo(p, k) == LiveUpTo(p, j)
  {
    if j < k {
      LiveIdleTail(p, j, k - 1);
    }
  }

  // ---------------------------------------------------------------------------------------
  // Invariants

  /** A live record at `o` lies after the record at offset 0, inside the used part, and below Top. */
  ghost predicate Placed(p: Pool, o: nat)
  {
    && End(p.buf, 0) <= o
    && End(p.buf, o) <= p.dataSize
    && o <= p.top
    && (o < p.top ==> End(p.buf, o) <= p.top)
  }

  /** Live records of different handles do not overlap. */
  ghost predicate Disjoint(p: Pool)
    requires p.num <= |p.offs|
  {
    forall h, g :: 0 <= h < p.num && 0 <= g < p.num && h != g && p.offs[h] != 0 && p.offs[g] != 0 ==>
      End(p.buf, p.offs[h]) <= p.offs[g] || End(p.buf, p.offs[g]) <= p.offs[h]
  }

  /** The layout every reachable state has: records inside the used part, apart, below Top. */
  ghost predicate Layout(p: Pool)
  {
    && p.num <= |p.offs|
    && (forall h :: p.num <= h < |p.offs| ==> p.offs[h] == 0)
    && p.dataSize <= |p.buf|
    && (|p.buf| > 0 ==> End(p.buf, 0) <= |p.buf|)
    && (p.dataSize > 0 ==> End(p.buf, 0) <= p.dataSize)
    && (forall h :: 0 <= h < p.num && p.offs[h] != 0 ==> Placed(p, p.offs[h]))
    && Disjoint(p)
  }

  /**
   * What holds in every state the source can reach, including after `Clear` and after a
   * length word has wrapped: the layout, and `GarbageSize` plus the live records fit both in
   * `DataSize` and, leaving out the record at Top, below Top.
   */
  ghost predicate Valid(p: Pool)
  {
    && Layout(p)
    && p.garbageSize + Live(p) <= p.dataSize
    && (forall h :: 0 <= h < p.num && p.offs[h] != 0 && p.offs[h] == p.top ==>
          p.garbageSize + Live(p) <= p.top + Weight(p, h))
  }

  /**
   * What the design intends in addition: the record at offset 0 is the empty string, every
   * referenced record is zero-terminated, and the accounting also covers the empty record.
   */
  ghost predicate Sound(p: Pool)
  {
    && Valid(p)
    && (|p.buf| > 0 ==>
          LenAt(p.buf, 0) == 0 && Terminated(p.buf, 0)
          && Overhead + p.garbageSize + Live(p) <= p.dataSize)
    && (forall h :: 0 <= h < p.num && p.offs[h] != 0 ==>
          Terminated(p.buf, p.offs[h])
          && (p.offs[h] == p.top ==> Overhead + p.garbageSize + Live(p) <= p.top + Weight(p, h)))
  }

  /** `DataSize - GarbageSize` equals the bytes the records in use actually need. */
  ghost predicate Exact(p: Pool)
  {
    p.garbageSize + Overhead + Live(p) == p.dataSize
  }

  /** The empty pool satisfies both invariants. */
  lemma EmptySound()
    ensures Sound(Empty)
  {
  }

  /** In a sound pool every handle without a record reads as the empty string. */
  lemma IdleIsEmpty(p: Pool, h: nat)
    requires Sound(p) && h < |p.offs| && p.offs[h] == 0
    ensures Content(p, h) == []
  {
  }
}

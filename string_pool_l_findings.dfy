/**
 * Three places where `StringPoolL` (cppexamples/StringPoolL.cpp) breaks its own promises. For
 * each, a lemma about the operation as written shows the input that breaks it; the corrected
 * operation, which the rest of the model uses, is proved to keep the promise.
 */
module StringPoolLFindings {
  import opened Common
  import opened StringPoolLRecords
  import opened StringPoolLOps
  import opened StringPoolLCompaction
  import opened StringPoolLProofs
  import opened StringPoolLApi

  // ---------------------------------------------------------------------------------------
  // 1. Growing the last record when the buffer is too small

  /** The handle `LastKept` names is one whose record the compaction copies. */
  lemma {:induction false} LastKeptIsKept(p: Pool, k: nat)
    requires LastKept(p, k) >= 0
    ensures Kept(p, LastKept(p, k)) != 0
  {
    if Kept(p, k - 1) == 0 {
      LastKeptIsKept(p, k - 1);
    }
  }

  /**
   * `Allocate` as written: when the record of handle `i` is at Top but the longer string does
   * not fit, `ReserveBuf` compacts the buffer, which moves Top to the record of the last
   * handle copied; the new string is then written there. If that is another handle `l`, the
   * string lands in `l`'s record and handle `i` still reads its old string.
   */
  lemma TailGrowMisplaces(p: Pool, i: nat, chars: seq<uint8>)
    requires Valid(p) && i < p.num && p.offs[i] != 0 && p.offs[i] == p.top
    requires p.top + Overhead + |chars| > |p.buf|
    requires LastKept(p, p.num) != i
    ensures Sound(p) && |chars| <= AllocateSpace1 ==> StoreAsWritten(p, i, chars).Ok?
    ensures StoreAsWritten(p, i, chars).Ok? ==>
      var q := StoreAsWritten(p, i, chars).value;
      var l := LastKept(p, p.num);
      && Content(q, i) == Content(p, i)
      && (l >= 0 ==> Content(q, l) == Cut(chars))
  {
    var r := TailGrowCompacts(p, i, chars);
    StoreAsWrittenAtTop(p, i, chars);
    if Sound(p) && |chars| <= AllocateSpace1 {
      CompactedFits(p, p.top + Overhead + |chars|, |chars|);
    }
    if StoreAsWritten(p, i, chars).Ok? {
      var q := StoreAsWritten(p, i, chars).value;
      WrittenAtTop(r, q, i, LastKept(p, p.num), chars);
    }
  }

  /** The compacted pool `r` the source then writes into. */
  lemma TailGrowCompacts(p: Pool, i: nat, chars: seq<uint8>) returns (r: Pool)
    requires Valid(p) && i < p.num && p.offs[i] != 0 && p.offs[i] == p.top
    requires p.top + Overhead + |chars| > |p.buf|
    requires LastKept(p, p.num) != i
    ensures var l := LastKept(p, p.num);
      && i < |r.offs| && l < |r.offs| && Overhead <= r.top && LenAt(r.buf, 0) == 0
      && (l >= 0 ==> r.offs[l] != 0 && r.top == r.offs[l])
      && (r.offs[i] != 0 ==> End(r.buf, r.offs[i]) <= r.top)
      && Content(r, i) == Content(p, i)
    ensures r == ReserveBuf(p, p.top + Overhead + |chars|)
  {
    var newsize := p.top + Overhead + |chars|;
    r := ReserveBuf(p, newsize);
    assert Placed(p, p.offs[i]);
    TopAfterCompaction(p, newsize);
    EarlierBelowTop(p, newsize, i);
    CompactedContent(p, newsize, i);
  }

  /** In that case the source writes the new record at the Top the compaction left. */
  lemma StoreAsWrittenAtTop(p: Pool, i: nat, chars: seq<uint8>)
    requires Shaped(p) && i < p.num && p.offs[i] != 0 && p.offs[i] == p.top
    requires p.top + Overhead + |chars| > |p.buf|
    ensures var r := ReserveBuf(p, p.top + Overhead + |chars|);
      StoreAsWritten(p, i, chars).Ok? <==> r.top + Overhead + |chars| <= |r.buf|
    ensures var r := ReserveBuf(p, p.top + Overhead + |chars|);
      StoreAsWritten(p, i, chars).Ok? ==>
        var q := StoreAsWritten(p, i, chars).value;
        && r.top + Overhead + |chars| <= |r.buf|
        && q.buf == Write(r.buf, r.top, Encode(|chars|, chars)) && q.offs == r.offs
  {
    var n := |chars|;
    var r := ReserveBuf(p, p.top + Overhead + n);
    assert AllocateAsWritten(p, i, n) == Placement(r.(dataSize := r.top + Overhead + n), r.top);
  }

  /** The compaction puts a copied handle other than the last one copied below Top. */
  lemma EarlierBelowTop(p: Pool, newsize: nat, i: nat)
    requires Layout(p) && |p.buf| > 0 && Live(p) <= GrownSize(p, newsize)
    requires i < p.num && LastKept(p, p.num) != i
    ensures var r := ReserveBuf(p, newsize);
      r.offs[i] != 0 ==> End(r.buf, r.offs[i]) <= r.top
  {
    var r := ReserveBuf(p, newsize);
    var l := LastKept(p, p.num);
    ReserveBufContent(p, newsize);
    ReserveBufTop(p, newsize);
    if r.offs[i] != 0 {
      KeptBeforeLast(p, i);
      LastKeptIsKept(p, p.num);
      assert End(r.buf, r.offs[i]) <= r.offs[l];
    }
  }

  /** A copied handle other than the last one copied comes before it. */
  lemma KeptBeforeLast(p: Pool, i: nat)
    requires i < p.num && Kept(p, i) != 0 && LastKept(p, p.num) != i
    ensures i < LastKept(p, p.num)
  {
    if LastKept(p, p.num) < i {
      NoneKeptAbove(p, p.num, i);
    }
  }

  /** The compaction keeps what a handle with a record reads. */
  lemma CompactedContent(p: Pool, newsize: nat, i: nat)
    requires Layout(p) && Live(p) <= GrownSize(p, newsize) && i < p.num && p.offs[i] != 0
    ensures Content(ReserveBuf(p, newsize), i) == Content(p, i)
  {
    ReserveBufContent(p, newsize);
  }

  /** In a sound pool the compacted buffer has room for 4096 more bytes after Top. */
  lemma CompactedFits(p: Pool, newsize: nat, n: nat)
    requires Sound(p) && |p.buf| > 0 && n <= AllocateSpace1
    ensures var r := ReserveBuf(p, newsize);
      r.top + Overhead + n <= |r.buf|
  {
    var r := ReserveBuf(p, newsize);
    ReserveBufLayout(p, newsize);
    ReserveBufLive(p, newsize);
    KeptBelowLive(p, p.num);
    ReserveBufTop(p, newsize);
  }

  /**
   * After a compaction the record at offset 0 is empty and Top is past it: at the record of
   * the last handle copied, if there is one.
   */
  lemma TopAfterCompaction(p: Pool, newsize: nat)
    requires Layout(p) && |p.buf| > 0 && Live(p) <= GrownSize(p, newsize)
    ensures var r := ReserveBuf(p, newsize);
      var l := LastKept(p, p.num);
      && LenAt(r.buf, 0) == 0 && Overhead <= r.top && |r.offs| == |p.offs|
      && (l >= 0 ==> r.offs[l] != 0 && r.top == r.offs[l])
  {
    var r := ReserveBuf(p, newsize);
    var l := LastKept(p, p.num);
    ReserveBufLayout(p, newsize);
    ReserveBufTop(p, newsize);
    if l >= 0 {
      LastKeptIsKept(p, p.num);
      ReserveBufContent(p, newsize);
      assert Placed(r, r.offs[l]);
    }
  }

  /** Writing a record at Top, over the record of handle `l` there, leaves an earlier record alone. */
  lemma WrittenAtTop(r: Pool, q: Pool, i: nat, l: int, chars: seq<uint8>)
    requires i < |r.offs| && l < |r.offs| && Overhead <= r.top && LenAt(r.buf, 0) == 0
    requires l >= 0 ==> r.offs[l] != 0 && r.top == r.offs[l]
    requires r.offs[i] != 0 ==> End(r.buf, r.offs[i]) <= r.top
    requires r.top + Overhead + |chars| <= |r.buf|
    requires q.buf == Write(r.buf, r.top, Encode(|chars|, chars)) && q.offs == r.offs
    ensures Content(q, i) == Content(r, i)
    ensures l >= 0 ==> Content(q, l) == Cut(chars)
  {
    var e := Encode(|chars|, chars);
    if l >= 0 {
      DecodeEncode(r.buf, r.top, chars);
      assert Content(q, l) == Payload(q.buf, r.top);
    }
    WriteOutside(r.buf, r.top, e, r.offs[i]);
    assert Content(q, i) == Payload(q.buf, r.offs[i]);
  }

  /** The pool after `Set(1, "B")` on a new pool (see `ReachOneString`). */
  function OneString(): Pool
  {
    Pool([0, 0, 0, 1, 0, 66, 0] + Zeros(AllocateSpace1 - 4),
         [0, 3] + seq(AllocateSpace2 - 2, _ => 0), 7, 0, 3, 2)
  }

  /** The pool after `Set(0, "A")` on that: handle 1 reads "B" at offset 3, handle 0 "A" at Top 7. */
  function TwoStrings(): Pool
  {
    Pool([0, 0, 0, 1, 0, 66, 0, 1, 0, 65, 0] + Zeros(AllocateSpace1 - 8),
         [7, 3] + seq(AllocateSpace2 - 2, _ => 0), 11, 0, 7, 2)
  }

  lemma ReachOneString()
    ensures Set(Empty, 1, [66]) == Ok(OneString())
  {
    var e := Enter(Empty, 1);
    var offs: seq<nat> := seq(AllocateSpace2, _ => 0);
    assert e == Pool([], offs, 0, 0, 0, 2);
    assert CStr([66 as uint8], 0) == [66];
    var r := ReserveBuf(e, 4);
    assert r == e.(buf := Zeros(AllocateSpace1 + Overhead), dataSize := 3, top := 3);
    assert Allocate(e, 1, 1) == Placement(r.(offs := offs[1 := 3], top := 3, dataSize := 7), 3);
    assert Encode(1, [66]) == [1, 0, 66, 0];
    assert Write(Zeros(AllocateSpace1 + Overhead), 3, [1, 0, 66, 0]) == OneString().buf;
    assert offs[1 := 3] == OneString().offs;
  }

  lemma ReachTwoStrings()
    ensures Set(OneString(), 0, [65]) == Ok(TwoStrings())
  {
    var p := OneString();
    assert Enter(p, 0) == p;
    assert CStr([65 as uint8], 0) == [65];
    assert Allocate(p, 0, 1) == Placement(p.(offs := p.offs[0 := 7], top := 7, dataSize := 11), 7);
    assert Encode(1, [65]) == [1, 0, 65, 0];
    assert Write(p.buf, 7, [1, 0, 65, 0]) == TwoStrings().buf;
    assert p.offs[0 := 7] == TwoStrings().offs;
  }

  /**
   * In that state, storing a string of 4096 characters in handle 0 (what `Set(0, s)` does
   * there once it has measured `s`) leaves handle 0 reading "A" and overwrites handle 1
   * instead; the corrected `Store` gives handle 0 the new string and keeps handle 1.
   */
  lemma TailGrowExample(chars: seq<uint8>)
    requires |chars| == AllocateSpace1
    ensures Sound(TwoStrings())
    ensures StoreAsWritten(TwoStrings(), 0, chars).Ok?
    ensures && Content(StoreAsWritten(TwoStrings(), 0, chars).value, 0) == [65]
      && Content(StoreAsWritten(TwoStrings(), 0, chars).value, 1) == chars
    ensures Store(TwoStrings(), 0, chars).Ok?
    ensures Content(Store(TwoStrings(), 0, chars).value, 0) == chars
    ensures Content(Store(TwoStrings(), 0, chars).value, 1) == [66]
  {
    var p := TwoStrings();
    TwoStringsSound();
    assert LastKept(p, 2) == 1;
    TailGrowMisplaces(p, 0, chars);
    CutShort(chars);
    StoreSoundContent(p, 0, chars);
  }

  lemma TwoStringsSound()
    ensures Sound(TwoStrings())
    ensures Content(TwoStrings(), 0) == [65] && Content(TwoStrings(), 1) == [66]
  {
    EmptySound();
    ReachOneString();
    assert CStr([66 as uint8], 0) == [66];
    SetSound(Empty, 1, [66]);
    ReachTwoStrings();
    assert CStr([65 as uint8], 0) == [65];
    SetSound(OneString(), 0, [65]);
  }

  // ---------------------------------------------------------------------------------------
  // 2. Concatenating past 65535 characters

  lemma ModOnce(x: nat)
    requires 0x10000 <= x < 0x20000
    ensures x % 0x10000 == x - 0x10000
  {
  }

  /**
   * `Concatenate` as written checks only the length of the added string, so a combined
   * length above 65535 is stored with its length word wrapped: the handle then reads only
   * the first `|c| + |t| - 65536` characters (none at all for exactly 65536).
   */
  lemma ConcatenateWraps(p: Pool, i: nat, s: seq<uint8>)
    requires Sound(p) && i < p.num && |p.buf| > 0
    requires var c := Content(p, i); var t := CStr(s, 0);
      0 < |c| && 0 < |t| <= MaxLength && |c| + |t| > MaxLength
    ensures ConcatenateAsWritten(p, i, s).Ok?
    ensures var q := ConcatenateAsWritten(p, i, s).value;
      var c := Content(p, i); var t := CStr(s, 0);
      && Valid(q)
      && Content(q, i) == (c + t)[.. |c| + |t| - 0x10000]
      && |Content(q, i)| < |c| + |t|
  {
    var c := Content(p, i);
    var t := CStr(s, 0);
    LenIsContent(p, i);
    ContentShort(p, i);
    StoreReplaces(p, i, c + t);
    ModOnce(|c + t|);
  }

  /** Appending one character to a string of 65535 leaves the handle reading the empty string. */
  lemma ConcatenateWrapsToEmpty(p: Pool, i: nat, s: seq<uint8>)
    requires Sound(p) && i < p.num && |p.buf| > 0
    requires |Content(p, i)| == MaxLength && |CStr(s, 0)| == 1
    ensures ConcatenateAsWritten(p, i, s).Ok?
    ensures Content(ConcatenateAsWritten(p, i, s).value, i) == []
  {
    ConcatenateWraps(p, i, s);
  }

  // ---------------------------------------------------------------------------------------
  // 3. Clear sets DataSize to 0

  /**
   * `Clear` as written sets `DataSize` to 0, so the next string stored is appended at offset
   * 0, over the shared empty record that every idle handle reads: after `Set(j, s)` every
   * handle below `Num` reads the C string of `s`.
   */
  lemma ClearThenSetOverwrites(p: Pool, j: nat, s: seq<uint8>)
    requires Valid(p) && 0 < |CStr(s, 0)| <= MaxLength && Overhead + |CStr(s, 0)| <= |p.buf|
    ensures Set(ClearAsWritten(p), j, s).Ok?
    ensures var q := Set(ClearAsWritten(p), j, s).value;
      && q.num == Max(p.num, j + 1)
      && forall h :: 0 <= h < q.num ==> Content(q, h) == CStr(s, 0)
  {
    var t := CStr(s, 0);
    var q := ClearThenSetWrites(p, j, s);
    DecodeEncode(q.buf, 0, t);
    WriteHit(p.buf, 0, Encode(|t|, t));
    CutShort(t);
  }

  /** What `Set(j, s)` after the source's `Clear` does: one record at offset 0, every offset 0. */
  lemma ClearThenSetWrites(p: Pool, j: nat, s: seq<uint8>) returns (q: Pool)
    requires Valid(p) && 0 < |CStr(s, 0)| <= MaxLength && Overhead + |CStr(s, 0)| <= |p.buf|
    ensures Set(ClearAsWritten(p), j, s) == Ok(q)
    ensures q.buf == Write(p.buf, 0, Encode(|CStr(s, 0)|, CStr(s, 0)))
    ensures q.num == Max(p.num, j + 1) && q.num <= |q.offs|
    ensures forall h :: 0 <= h < q.num ==> q.offs[h] == 0
  {
    var c := ClearAsWritten(p);
    var t := CStr(s, 0);
    var n := |t|;
    var e := Enter(c, j);
    ClearEnterIdle(p, j);
    var a := Placement(e.(offs := e.offs[j := 0], top := 0, dataSize := Overhead + n), 0);
    assert Allocate(e, j, n) == a;
    assert Set(c, j, s) == Store(e, j, t);
    q := Written(a, t);
  }

  /** After the source's `Clear`, every handle up to a newly entered one has offset 0. */
  lemma ClearEnterIdle(p: Pool, j: nat)
    requires Valid(p)
    ensures var e := Enter(ClearAsWritten(p), j);
      forall h :: 0 <= h < e.num ==> e.offs[h] == 0
  {
  }

  /**
   * The corrected `Clear` keeps `DataSize` at the empty record's end, so after `Clear` and
   * `Set(j, s)` handle `j` reads `s` and every other handle the empty string.
   */
  lemma ClearThenSet(p: Pool, j: nat, s: seq<uint8>)
    requires Sound(p) && |CStr(s, 0)| <= MaxLength
    ensures Set(Clear(p), j, s).Ok?
    ensures var q := Set(Clear(p), j, s).value;
      && Sound(q) && q.num == Max(p.num, j + 1)
      && Content(q, j) == CStr(s, 0)
      && forall h :: 0 <= h < q.num && h != j ==> Content(q, h) == []
  {
    var c := Clear(p);
    ClearSound(p);
    SetSound(c, j, s);
    EmptyRecord(c);
    ClearedReads(c, Set(c, j, s).value, j, CStr(s, 0));
  }

  /** Setting one handle of a pool whose handles all read the empty string. */
  lemma ClearedReads(c: Pool, q: Pool, j: nat, t: seq<uint8>)
    requires Layout(c) && Payload(c.buf, 0) == [] && j < q.num
    requires forall h :: 0 <= h < c.num ==> Content(c, h) == []
    requires ReadsAs(c, q, j, t, q.num)
    ensures Content(q, j) == t && forall h :: 0 <= h < q.num && h != j ==> Content(q, h) == []
  {
    forall h | 0 <= h < q.num && h != j
      ensures Content(q, h) == []
    {
      assert Content(q, h) == Content(c, h);
    }
  }

  // ---------------------------------------------------------------------------------------
  // The explicit-length Set stores any length modulo 65536

  /**
   * `Set(i, s, len)` as written has no length check: the pool stays valid, but a string of
   * more than 65535 characters reads back cut to the low 16 bits of its length, so it is
   * never the string stored.
   */
  lemma SetNWraps(p: Pool, i: nat, s: seq<uint8>)
    requires Valid(p)
    ensures SetNAsWritten(p, i, s).Ok?
    ensures SetOutcome(p, SetNAsWritten(p, i, s).value, i, s, s[..|s| % 0x10000])
    ensures |s| > MaxLength ==> Content(SetNAsWritten(p, i, s).value, i) != s
  {
    var e := Enter(p, i);
    EnterKeeps(p, i);
    EnterLive(p, i);
    if |s| == 0 {
      EraseKeeps(e, i);
    } else {
      StoreReplaces(e, i, s);
      if |s| > MaxLength {
        ModUpper(|s|);
      }
    }
  }

  lemma ModUpper(n: nat)
    requires n > MaxLength
    ensures n % 0x10000 < n
  {
  }
}

/**
 * Two places where `StringPoolW` (cppexamples/StringPoolW.cpp) breaks its own promises. For
 * each, a lemma about the operation as written shows the input that breaks it; the corrected
 * operation, which the rest of the model uses, is proved to keep the promise.
 */
module StringPoolWFindings {
  import opened Common
  import opened StringPoolWRecords
  import opened StringPoolWOps
  import opened StringPoolWCompaction
  import opened StringPoolWProofs
  import opened StringPoolWApi

  // ---------------------------------------------------------------------------------------
  // 1. Growing the last record when the buffer is too small

  /** The handle `LastKept` names is one whose record the compaction copies. */
  lemma {:induction false} LastKeptIsKept(p: Pool, k: nat)
    requires LastKept(p, k) >= 0
    ensures Kept(p, LastKept(p, k)) != 0
  {
    if Kept(p, k - 1) == 0 {
      LastKeptIsKept(p, k - 1);
    }
  }

  /**
   * `Allocate` as written: when the record of handle `i` is at Top but the longer string does
   * not fit, `ResizeBuf` compacts the buffer, which moves Top to the record of the last
   * handle copied; the new string is then written there. If that is another handle `l`, the
   * string lands in `l`'s record and handle `i` still reads its old string.
   */
  lemma TailGrowMisplaces(p: Pool, i: nat, chars: seq<wchar>)
    requires Valid(p) && i < p.num && p.offs[i] != 0 && p.offs[i] == p.top
    requires p.top + |chars| + Overhead > |p.buf|
    requires LastKept(p, p.num) != i
    ensures Sound(p) && |chars| <= AllocateSpace1 ==> StoreAsWritten(p, i, chars).Ok?
    ensures StoreAsWritten(p, i, chars).Ok? ==>
      var q := StoreAsWritten(p, i, chars).value;
      var l := LastKept(p, p.num);
      && Content(q, i) == Content(p, i)
      && (l >= 0 ==> Content(q, l) == Cut(chars))
  {
    var r := TailGrowCompacts(p, i, chars);
    StoreAsWrittenAtTop(p, i, chars);
    if Sound(p) && |chars| <= AllocateSpace1 {
      CompactedFits(p, p.top + |chars| + Overhead, |chars|);
    }
    if StoreAsWritten(p, i, chars).Ok? {
      var q := StoreAsWritten(p, i, chars).value;
      WrittenAtTop(r, q, i, LastKept(p, p.num), chars);
    }
  }

  /** The compacted pool `r` the source then writes into. */
  lemma TailGrowCompacts(p: Pool, i: nat, chars: seq<wchar>) returns (r: Pool)
    requires Valid(p) && i < p.num && p.offs[i] != 0 && p.offs[i] == p.top
    requires p.top + |chars| + Overhead > |p.buf|
    requires LastKept(p, p.num) != i
    ensures var l := LastKept(p, p.num);
      && i < |r.offs| && l < |r.offs| && Overhead <= r.top && LenAt(r.buf, 0) == 0
      && (l >= 0 ==> r.offs[l] != 0 && r.top == r.offs[l])
      && (r.offs[i] != 0 ==> End(r.buf, r.offs[i]) <= r.top)
      && Content(r, i) == Content(p, i)
    ensures r == ResizeBuf(p, p.top + |chars| + Overhead)
  {
    var newsize := p.top + |chars| + Overhead;
    r := ResizeBuf(p, newsize);
    assert Placed(p, p.offs[i]);
    TopAfterCompaction(p, newsize);
    EarlierBelowTop(p, newsize, i);
    CompactedContent(p, newsize, i);
  }

  /** In that case the source writes the new record at the Top the compaction left. */
  lemma StoreAsWrittenAtTop(p: Pool, i: nat, chars: seq<wchar>)
    requires Shaped(p) && i < p.num && p.offs[i] != 0 && p.offs[i] == p.top
    requires p.top + |chars| + Overhead > |p.buf|
    ensures var r := ResizeBuf(p, p.top + |chars| + Overhead);
      StoreAsWritten(p, i, chars).Ok? <==> r.top + |chars| + Overhead <= |r.buf|
    ensures var r := ResizeBuf(p, p.top + |chars| + Overhead);
      StoreAsWritten(p, i, chars).Ok? ==>
        var q := StoreAsWritten(p, i, chars).value;
        && r.top + |chars| + Overhead <= |r.buf|
        && q.buf == Write(r.buf, r.top, Encode(chars)) && q.offs == r.offs
  {
    var n := |chars|;
    var r := ResizeBuf(p, p.top + n + Overhead);
    assert AllocateAsWritten(p, i, n) == Placement(r.(dataSize := r.top + n + Overhead), r.top);
  }

  /** The compaction puts a copied handle other than the last one copied below Top. */
  lemma EarlierBelowTop(p: Pool, newsize: nat, i: nat)
    requires Layout(p) && |p.buf| > 0 && Live(p) <= GrownSize(p, newsize)
    requires i < p.num && LastKept(p, p.num) != i
    ensures var r := ResizeBuf(p, newsize);
      r.offs[i] != 0 ==> End(r.buf, r.offs[i]) <= r.top
  {
    var r := ResizeBuf(p, newsize);
    var l := LastKept(p, p.num);
    ResizeBufContent(p, newsize);
    ResizeBufTop(p, newsize);
    if r.offs[i] != 0 {
      KeptBeforeLast(p, i);
      LastKeptIsKept(p, p.num);
      assert End(r.buf, r.offs[i]) <= r.offs[l];
    }
  }

  /** A copied handle other than the last one copied comes before it. */
  lemma KeptBeforeLast(p: Pool, i: nat)
    requires i < p.num && Kept(p, i) != 0 && LastKept(p, p.num) != i
    ensures i < LastKept(p, p.num)
  {
    if LastKept(p, p.num) < i {
      NoneKeptAbove(p, p.num, i);
    }
  }

  /** The compaction keeps what a handle with a record reads. */
  lemma CompactedContent(p: Pool, newsize: nat, i: nat)
    requires Layout(p) && Live(p) <= GrownSize(p, newsize) && i < p.num && p.offs[i] != 0
    ensures Content(ResizeBuf(p, newsize), i) == Content(p, i)
  {
    ResizeBufContent(p, newsize);
  }

  /** In a sound pool the compacted buffer has room for 8192 more characters after Top. */
  lemma CompactedFits(p: Pool, newsize: nat, n: nat)
    requires Sound(p) && |p.buf| > 0 && n <= AllocateSpace1
    ensures var r := ResizeBuf(p, newsize);
      r.top + n + Overhead <= |r.buf|
  {
    var r := ResizeBuf(p, newsize);
    ResizeBufLayout(p, newsize);
    ResizeBufLive(p, newsize);
    KeptBelowLive(p, p.num);
    ResizeBufTop(p, newsize);
  }

  /**
   * After a compaction the record at offset 0 is empty and Top is past it: at the record of
   * the last handle copied, if there is one.
   */
  lemma TopAfterCompaction(p: Pool, newsize: nat)
    requires Layout(p) && |p.buf| > 0 && Live(p) <= GrownSize(p, newsize)
    ensures var r := ResizeBuf(p, newsize);
      var l := LastKept(p, p.num);
      && LenAt(r.buf, 0) == 0 && Overhead <= r.top && |r.offs| == |p.offs|
      && (l >= 0 ==> r.offs[l] != 0 && r.top == r.offs[l])
  {
    var r := ResizeBuf(p, newsize);
    var l := LastKept(p, p.num);
    ResizeBufLayout(p, newsize);
    ResizeBufTop(p, newsize);
    if l >= 0 {
      LastKeptIsKept(p, p.num);
      ResizeBufContent(p, newsize);
      assert Placed(r, r.offs[l]);
    }
  }

  /** Writing a record at Top, over the record of handle `l` there, leaves an earlier record alone. */
  lemma WrittenAtTop(r: Pool, q: Pool, i: nat, l: int, chars: seq<wchar>)
    requires i < |r.offs| && l < |r.offs| && Overhead <= r.top && LenAt(r.buf, 0) == 0
    requires l >= 0 ==> r.offs[l] != 0 && r.top == r.offs[l]
    requires r.offs[i] != 0 ==> End(r.buf, r.offs[i]) <= r.top
    requires r.top + |chars| + Overhead <= |r.buf|
    requires q.buf == Write(r.buf, r.top, Encode(chars)) && q.offs == r.offs
    ensures Content(q, i) == Content(r, i)
    ensures l >= 0 ==> Content(q, l) == Cut(chars)
  {
    var e := Encode(chars);
    if l >= 0 {
      DecodeEncode(r.buf, r.top, chars);
      WriteHit(r.buf, r.top, e);
    }
    WriteOutside(r.buf, r.top, e, r.offs[i]);
  }

  /** The pool after `Set(1, [b])` on a new pool, for a character `b` (see `ReachOneString`). */
  function OneString(b: wchar): Pool
  {
    Pool([0, b, 0] + Blank(AllocateSpace1 + Overhead - 3),
         [0, 1] + seq(AllocateSpace2 - 2, _ => 0), 3, 0, 1, 2)
  }

  /** The pool after `Set(0, [a])` on that: handle 1 reads `[b]` at offset 1, handle 0 `[a]` at Top 3. */
  function TwoStrings(a: wchar, b: wchar): Pool
  {
    Pool([0, b, 0, a, 0] + Blank(AllocateSpace1 + Overhead - 5),
         [3, 1] + seq(AllocateSpace2 - 2, _ => 0), 5, 0, 3, 2)
  }

  lemma ReachOneString(b: wchar)
    requires b != 0
    ensures Set(Empty, 1, [b]) == Ok(OneString(b))
  {
    var e := Enter(Empty, 1);
    var offs: seq<nat> := seq(AllocateSpace2, _ => 0);
    assert e == Pool([], offs, 0, 0, 0, 2);
    OneChar(b);
    var r := ResizeBuf(e, 2);
    assert r == e.(buf := Blank(AllocateSpace1 + Overhead), dataSize := 1, top := 1);
    assert Allocate(e, 1, 1) == Placement(r.(offs := offs[1 := 1], top := 1, dataSize := 3), 1);
    assert Encode([b]) == [b, 0];
    assert Write(Blank(AllocateSpace1 + Overhead), 1, [b, 0]) == OneString(b).buf;
    assert offs[1 := 1] == OneString(b).offs;
  }

  lemma ReachTwoStrings(a: wchar, b: wchar)
    requires a != 0
    ensures Set(OneString(b), 0, [a]) == Ok(TwoStrings(a, b))
  {
    var p := OneString(b);
    assert Enter(p, 0) == p;
    OneChar(a);
    assert Allocate(p, 0, 1) == Placement(p.(offs := p.offs[0 := 3], top := 3, dataSize := 5), 3);
    assert Encode([a]) == [a, 0];
    assert Write(p.buf, 3, [a, 0]) == TwoStrings(a, b).buf;
    assert p.offs[0 := 3] == TwoStrings(a, b).offs;
  }

  /**
   * In that state, storing a string of 8192 nonzero characters in handle 0 (what `Set(0, s)`
   * does there once it has measured `s`) leaves handle 0 reading `[a]` and overwrites handle 1
   * instead; the corrected `Store` gives handle 0 the new string and keeps handle 1's `[b]`.
   */
  lemma TailGrowExample(a: wchar, b: wchar, chars: seq<wchar>)
    requires a != 0 && b != 0
    requires |chars| == AllocateSpace1 && forall k :: 0 <= k < |chars| ==> chars[k] != 0
    ensures Sound(TwoStrings(a, b))
    ensures StoreAsWritten(TwoStrings(a, b), 0, chars).Ok?
    ensures var q := StoreAsWritten(TwoStrings(a, b), 0, chars).value;
      Content(q, 0) == [a] && Content(q, 1) == chars
    ensures Store(TwoStrings(a, b), 0, chars).Ok?
    ensures var q := Store(TwoStrings(a, b), 0, chars).value;
      Content(q, 0) == chars && Content(q, 1) == [b]
  {
    TwoStringsShape(a, b);
    TwoStringsSound(a, b);
    TailGrowCase(TwoStrings(a, b), chars);
  }

  /** The facts about `TwoStrings` that `TailGrowExample` needs. */
  lemma TwoStringsShape(a: wchar, b: wchar)
    requires b != 0
    ensures var p := TwoStrings(a, b);
      && p.num == 2 && p.offs[0] == p.top == 3 && |p.buf| == AllocateSpace1 + Overhead
      && LastKept(p, 2) == 1
  {
    var p := TwoStrings(a, b);
    assert p.buf[1] == b && p.buf[2] == 0;
    assert Scan(p.buf, 1) == 2;
  }

  /** Growing the string at Top of a pool of two strings, the other one copied last. */
  lemma TailGrowCase(p: Pool, chars: seq<wchar>)
    requires Sound(p) && p.num == 2 && p.offs[0] != 0 && p.offs[0] == p.top
    requires p.top + |chars| + Overhead > |p.buf| && LastKept(p, 2) == 1
    requires 0 < |chars| <= AllocateSpace1 && forall k :: 0 <= k < |chars| ==> chars[k] != 0
    ensures StoreAsWritten(p, 0, chars).Ok?
    ensures var q := StoreAsWritten(p, 0, chars).value;
      Content(q, 0) == Content(p, 0) && Content(q, 1) == chars
    ensures Store(p, 0, chars).Ok?
    ensures var q := Store(p, 0, chars).value;
      Content(q, 0) == chars && Content(q, 1) == Content(p, 1)
  {
    TailGrowMisplaces(p, 0, chars);
    PlainCut(chars);
    StoreSoundContent(p, 0, chars);
  }

  /** One `Set` of a sound pool, as the states above use it. */
  lemma SetStep(p: Pool, q: Pool, i: nat, s: seq<wchar>, h: nat)
    requires Sound(p) && Set(p, i, s) == Ok(q) && h != i
    ensures Sound(q) && Content(q, i) == CStr(s, 0)
    ensures h < p.num ==> Content(q, h) == Content(p, h)
  {
    SetSound(p, i, s);
  }

  /** A one-character C string. */
  lemma OneChar(c: wchar)
    requires c != 0
    ensures CStr([c], 0) == [c]
  {
    CStrOfPlain([c], 0);
  }

  lemma OneStringSound(b: wchar)
    requires b != 0
    ensures Sound(OneString(b)) && Content(OneString(b), 1) == [b]
  {
    ReachOneString(b);
    OneChar(b);
    EmptySound();
    SetStep(Empty, OneString(b), 1, [b], 0);
  }

  lemma TwoStringsSound(a: wchar, b: wchar)
    requires a != 0 && b != 0
    ensures Sound(TwoStrings(a, b))
    ensures Content(TwoStrings(a, b), 0) == [a] && Content(TwoStrings(a, b), 1) == [b]
  {
    ReachTwoStrings(a, b);
    OneChar(a);
    OneStringSound(b);
    SetStep(OneString(b), TwoStrings(a, b), 0, [a], 1);
  }

  // ---------------------------------------------------------------------------------------
  // 2. Clear sets DataSize to 0

  /**
   * `Clear` as written sets `DataSize` to 0, so the next string stored is appended at offset
   * 0, over the shared empty record that every idle handle reads: after `Set(j, s)` every
   * handle below `Num` reads the C string of `s`.
   */
  lemma ClearThenSetOverwrites(p: Pool, j: nat, s: seq<wchar>)
    requires Valid(p) && 0 < |CStr(s, 0)| && |CStr(s, 0)| + Overhead <= |p.buf|
    ensures Set(ClearAsWritten(p), j, s).Ok?
    ensures var q := Set(ClearAsWritten(p), j, s).value;
      && q.num == Max(p.num, j + 1)
      && forall h :: 0 <= h < q.num ==> Content(q, h) == CStr(s, 0)
  {
    var t := CStr(s, 0);
    var q := ClearThenSetWrites(p, j, s);
    DecodeEncode(q.buf, 0, t);
    WriteHit(p.buf, 0, Encode(t));
    CStrCut(s);
  }

  /** What `Set(j, s)` after the source's `Clear` does: one record at offset 0, every offset 0. */
  lemma ClearThenSetWrites(p: Pool, j: nat, s: seq<wchar>) returns (q: Pool)
    requires Valid(p) && 0 < |CStr(s, 0)| && |CStr(s, 0)| + Overhead <= |p.buf|
    ensures Set(ClearAsWritten(p), j, s) == Ok(q)
    ensures q.buf == Write(p.buf, 0, Encode(CStr(s, 0)))
    ensures q.num == Max(p.num, j + 1) && q.num <= |q.offs|
    ensures forall h :: 0 <= h < q.num ==> q.offs[h] == 0
  {
    var c := ClearAsWritten(p);
    var t := CStr(s, 0);
    var n := |t|;
    var e := Enter(c, j);
    ClearEnterIdle(p, j);
    var a := Placement(e.(offs := e.offs[j := 0], top := 0, dataSize := n + Overhead), 0);
    assert Allocate(e, j, n) == a;
    assert Set(c, j, s) == Store(e, j, t);
    q := Written(a, t);
  }

  /** After the source's `Clear`, every handle up to a newly entered one has offset 0. */
  lemma ClearEnterIdle(p: Pool, j: nat)
    requires Valid(p)
    ensures var e := Enter(ClearAsWritten(p), j);
      forall h :: 0 <= h < e.num ==> e.offs[h] == 0
  {
  }

  /**
   * The corrected `Clear` keeps `DataSize` at the empty record's end, so after `Clear` and
   * `Set(j, s)` handle `j` reads `s` and every other handle the empty string.
   */
  lemma ClearThenSet(p: Pool, j: nat, s: seq<wchar>)
    requires Sound(p)
    ensures Set(Clear(p), j, s).Ok?
    ensures var q := Set(Clear(p), j, s).value;
      && Sound(q) && q.num == Max(p.num, j + 1)
      && Content(q, j) == CStr(s, 0)
      && forall h :: 0 <= h < q.num && h != j ==> Content(q, h) == []
  {
    ClearSound(p);
    SetSound(Clear(p), j, s);
  }

}

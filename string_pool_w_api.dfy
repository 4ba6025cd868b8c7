/**
 * What the public operations of `StringPoolW` (cppexamples/StringPoolW.cpp) promise in terms of
 * the string each handle reads: `Set`, the explicit-length `Set`, `Concatenate`, `Clear`, `Get`
 * and the `StringElementW` operations built on them.
 */
module StringPoolWApi {
  import opened Common
  import opened StringPoolWRecords
  import opened StringPoolWOps
  import opened StringPoolWCompaction
  import opened StringPoolWProofs

  /** Handles below `k` of `q` read as in `p`, except handle `i`, which reads `s`. */
  ghost predicate ReadsAs(p: Pool, q: Pool, i: nat, s: seq<wchar>, k: nat)
  {
    forall h :: 0 <= h < k ==> Content(q, h) == if h == i then s else Content(p, h)
  }

  /** In a sound pool the shared string at offset 0 is empty. */
  lemma EmptyRecord(p: Pool)
    requires Sound(p)
    ensures Payload(p.buf, 0) == []
  {
  }

  /** Characters without a zero read back whole. */
  lemma PlainCut(chars: seq<wchar>)
    requires forall k :: 0 <= k < |chars| ==> chars[k] != 0
    ensures Cut(chars) == chars
  {
    CStrOfPlain(chars, 0);
  }

  /** The C string of `s` reads back whole. */
  lemma CStrCut(s: seq<wchar>)
    ensures Cut(CStr(s, 0)) == CStr(s, 0)
  {
    PlainCut(CStr(s, 0));
  }

  // ---------------------------------------------------------------------------------------
  // The building blocks, in a sound pool

  lemma EnterSoundContent(p: Pool, i: nat)
    requires Sound(p)
    ensures var q := Enter(p, i);
      Sound(q) && forall h :: 0 <= h < q.num ==> Content(q, h) == Content(p, h)
  {
    EnterKeeps(p, i);
    EmptyRecord(p);
  }

  lemma EraseSoundContent(p: Pool, i: nat)
    requires Sound(p) && i < p.num
    ensures var q := Erase(p, i);
      Sound(q) && q.num == p.num && ReadsAs(p, q, i, [], p.num)
  {
    EraseKeeps(p, i);
    EmptyRecord(p);
  }

  lemma StoreSoundContent(p: Pool, i: nat, chars: seq<wchar>)
    requires Sound(p) && i < p.num && |chars| > 0
    ensures Store(p, i, chars).Ok?
    ensures var q := Store(p, i, chars).value;
      Sound(q) && q.num == p.num && ReadsAs(p, q, i, Cut(chars), p.num)
  {
    StoreReplaces(p, i, chars);
    ReplacedReadsAs(p, Store(p, i, chars).value, i, chars);
  }

  /** A replacement between sound pools that gives no record to an idle handle changes only `i`. */
  lemma ReplacedReadsAs(p: Pool, q: Pool, i: nat, chars: seq<wchar>)
    requires Sound(p) && Sound(q)
    requires Replaced(p, q, i, chars)
    requires forall h :: 0 <= h < p.num && h != i && p.offs[h] == 0 ==> q.offs[h] == 0
    ensures q.num == p.num && ReadsAs(p, q, i, Cut(chars), p.num)
  {
    forall h | 0 <= h < p.num
      ensures Content(q, h) == if h == i then Cut(chars) else Content(p, h)
    {
      if h != i && p.offs[h] == 0 {
        IdleIsEmpty(p, h);
        IdleIsEmpty(q, h);
      }
    }
  }

  // ---------------------------------------------------------------------------------------
  // Set

  /** `Set(i, s)` stores the C string of `s` exactly as the explicit-length `Set` stores it. */
  lemma SetIsSetN(p: Pool, i: int, s: seq<wchar>)
    requires Shaped(p)
    ensures Set(p, i, s) == SetN(p, i, CStr(s, 0))
  {
  }

  /**
   * `Set(i, s)` in a sound pool: a negative handle is an error; otherwise `Num` becomes at
   * least `i + 1`, handle `i` reads the C string of `s` (the empty string when `s` starts
   * with 0) and every other handle reads what it read before.
   */
  lemma SetSound(p: Pool, i: int, s: seq<wchar>)
    requires Sound(p)
    ensures i < 0 ==> Set(p, i, s) == Err(InvalidHandle)
    ensures i >= 0 ==>
      && Set(p, i, s).Ok?
      && var q := Set(p, i, s).value;
      && Sound(q) && q.num == Max(p.num, i + 1) && ReadsAs(p, q, i, CStr(s, 0), q.num)
  {
    SetIsSetN(p, i, s);
    SetNSound(p, i, CStr(s, 0));
    CStrCut(s);
  }

  /**
   * What the explicit-length `Set` promises in every reachable state: the invariant holds,
   * `Num` is at least `i + 1`, handle `i` reads `r` unless the string was empty, and every
   * other handle that has a string keeps it.
   */
  ghost predicate SetOutcome(p: Pool, q: Pool, i: nat, s: seq<wchar>, r: seq<wchar>)
    requires p.num <= |p.offs|
  {
    && Valid(q) && q.num == Max(p.num, i + 1)
    && (|s| > 0 ==> Content(q, i) == r)
    && (forall h :: 0 <= h < p.num && h != i && p.offs[h] != 0 ==> Content(q, h) == Content(p, h))
  }

  /**
   * `Set(i, s)` keeps the invariant of every reachable state, replaces handle `i`'s string by
   * a non-empty C string of `s`, and keeps the strings of all other handles that have one.
   */
  lemma SetValid(p: Pool, i: nat, s: seq<wchar>)
    requires Valid(p)
    ensures Set(p, i, s).Ok? && SetOutcome(p, Set(p, i, s).value, i, CStr(s, 0), CStr(s, 0))
  {
    SetIsSetN(p, i, s);
    SetNValid(p, i, CStr(s, 0));
    CStrCut(s);
  }

  /**
   * The explicit-length `Set(i, s, len)` with `len == |s|` keeps the invariant, stores `s` for
   * handle `i` (as far as its first zero) and keeps the other handles' strings.
   */
  lemma SetNValid(p: Pool, i: nat, s: seq<wchar>)
    requires Valid(p)
    ensures SetN(p, i, s).Ok? && SetOutcome(p, SetN(p, i, s).value, i, s, Cut(s))
  {
    var e := Enter(p, i);
    EnterKeeps(p, i);
    EnterLive(p, i);
    if |s| == 0 {
      EraseKeeps(e, i);
    } else {
      StoreReplaces(e, i, s);
    }
  }

  /**
   * The explicit-length `Set` in a sound pool: a negative handle is an error; otherwise handle
   * `i` reads `s` up to its first zero and every other handle what it read.
   */
  lemma SetNSound(p: Pool, i: int, s: seq<wchar>)
    requires Sound(p)
    ensures i < 0 ==> SetN(p, i, s) == Err(InvalidHandle)
    ensures i >= 0 ==>
      && SetN(p, i, s).Ok?
      && var q := SetN(p, i, s).value;
      && Sound(q) && q.num == Max(p.num, i + 1) && ReadsAs(p, q, i, Cut(s), q.num)
  {
    if i >= 0 {
      var e := Enter(p, i);
      EnterSoundContent(p, i);
      if |s| == 0 {
        EraseSoundContent(e, i);
      } else {
        StoreSoundContent(e, i, s);
      }
    }
  }

  // ---------------------------------------------------------------------------------------
  // Reading a string

  /**
   * `strings[i].Len()`: a handle outside `[0, Num)` is an error, and so is reading before any
   * buffer exists; otherwise it is the length of the string handle `i` reads.
   */
  lemma LenReads(p: Pool, i: int)
    requires Valid(p)
    ensures (i < 0 || i >= p.num) ==> Len(p, i) == Err(InvalidHandle)
    ensures 0 <= i < p.num && |p.buf| == 0 ==> Len(p, i) == Err(NullBuffer)
    ensures 0 <= i < p.num && |p.buf| > 0 ==> Len(p, i) == Ok(|Content(p, i)|)
  {
  }

  /**
   * `Get(i)` in a valid pool points at the characters of handle `i`'s string, which hold no
   * zero and are followed by one inside the buffer.
   */
  lemma GetReads(p: Pool, i: int)
    requires Valid(p) && |p.buf| > 0
    ensures (i < 0 || i >= p.num) ==> Get(p, i) == Err(InvalidHandle)
    ensures 0 <= i < p.num ==>
      && Get(p, i).Ok?
      && var g := Get(p, i).value; var c := Content(p, i);
      && g + |c| < |p.buf| && p.buf[g .. g + |c|] == c && p.buf[g + |c|] == 0
      && (forall k :: 0 <= k < |c| ==> c[k] != 0)
  {
    if 0 <= i < p.num {
      var o := p.offs[i];
      if o != 0 {
        assert Placed(p, o);
      }
      TerminatorAt(p.buf, o);
      PayloadPlain(p.buf, o);
    }
  }

  /**
   * `SearchForSubstring(s)`: a bad handle and a missing buffer are errors; otherwise the result
   * is -1 when the C string of `s` occurs nowhere in string `index`, and else the first
   * position where it occurs.
   */
  lemma SearchFinds(p: Pool, index: int, s: seq<wchar>)
    ensures (index < 0 || index >= p.num || index >= |p.offs|) ==>
      SearchForSubstring(p, index, s) == Err(InvalidHandle)
    ensures 0 <= index < p.num && index < |p.offs| && |p.buf| == 0 ==>
      SearchForSubstring(p, index, s) == Err(NullBuffer)
    ensures 0 <= index < p.num && index < |p.offs| && |p.buf| > 0 ==>
      var c := Content(p, index); var t := CStr(s, 0);
      && SearchForSubstring(p, index, s).Ok?
      && var r := SearchForSubstring(p, index, s).value;
      && (r == -1 <==> forall k :: 0 <= k <= |c| ==> !MatchAt(c, t, k))
      && (r >= 0 ==> MatchAt(c, t, r) && forall k :: 0 <= k < r ==> !MatchAt(c, t, k))
  {
    if 0 <= index < p.num && index < |p.offs| && |p.buf| > 0 {
      var c := Content(p, index);
      var r := IndexOf(c, CStr(s, 0), 0);
      if r >= 0 {
        assert MatchAt(c, CStr(s, 0), r);
      }
    }
  }

  /**
   * Reading `strings[index][k]` in a valid pool: a bad handle is an error, so is a position
   * outside the string; otherwise it is the string's `k`th character.
   */
  lemma CharAtReads(p: Pool, index: int, k: int)
    requires Valid(p)
    ensures (index < 0 || index >= p.num) ==> CharAt(p, index, k) == Err(InvalidHandle)
    ensures 0 <= index < p.num && |p.buf| > 0 ==>
      && ((k < 0 || k >= |Content(p, index)|) ==> CharAt(p, index, k) == Err(OutOfBounds))
      && (0 <= k < |Content(p, index)| ==> CharAt(p, index, k) == Ok(Content(p, index)[k]))
  {
  }

  /**
   * Writing `strings[index][k] = c` in a sound pool changes character `k` of string `index`
   * and nothing else, and keeps the pool sound; writing a zero ends the string there.
   */
  lemma SetCharAtWrites(p: Pool, index: nat, k: int, c: wchar)
    requires Sound(p) && index < p.num && |p.buf| > 0 && 0 <= k < |Content(p, index)|
    ensures SetCharAt(p, index, k, c).Ok?
    ensures var q := SetCharAt(p, index, k, c).value;
      && Sound(q) && q.num == p.num
      && ReadsAs(p, q, index, CStr(Content(p, index)[k := c], 0), p.num)
      && (c != 0 ==> Content(q, index) == Content(p, index)[k := c])
      && (c == 0 ==> Content(q, index) == Content(p, index)[..k])
  {
    var o := p.offs[index];
    assert o != 0 by {
      EmptyRecord(p);
    }
    assert Placed(p, o);
    var at := o + k;
    var q := p.(buf := p.buf[at := c]);
    assert SetCharAt(p, index, k, c) == Ok(q);
    CharWriteOthers(p, q, index, at, c);
    CharWriteOwn(p, q, index, at, c);
    ShrinkSound(p, q, index);
    PayloadPlain(p.buf, o);
    CharWriteReads(Content(p, index), k, c);
  }

  /** What replacing character `k` by `c` leaves of a string without zeros. */
  lemma CharWriteReads(u: seq<wchar>, k: nat, c: wchar)
    requires k < |u| && forall j :: 0 <= j < |u| ==> u[j] != 0
    ensures c != 0 ==> CStr(u[k := c], 0) == u[k := c]
    ensures c == 0 ==> CStr(u[k := c], 0) == u[..k]
  {
    var v := u[k := c];
    if c != 0 {
      CStrOfPlain(v, 0);
    } else {
      CStrUpTo(v, 0, k);
      assert v[..k] == u[..k];
      CStrOfPlain(u[..k], 0);
    }
  }

  /**
   * A pool whose buffer changed so that one string got no longer and no other string, nor the
   * one at offset 0, changed length is as sound as before.
   */
  lemma ShrinkSound(p: Pool, q: Pool, i: nat)
    requires Sound(p) && i < p.num && p.offs[i] != 0
    requires q == p.(buf := q.buf) && |q.buf| == |p.buf|
    requires |p.buf| > 0 ==> LenAt(q.buf, 0) == LenAt(p.buf, 0)
    requires LenAt(q.buf, p.offs[i]) <= LenAt(p.buf, p.offs[i])
    requires forall h :: 0 <= h < p.num && h != i && p.offs[h] != 0 ==>
      LenAt(q.buf, p.offs[h]) == LenAt(p.buf, p.offs[h])
    ensures Sound(q)
  {
    assert forall h :: 0 <= h < p.num && h != i ==> Weight(q, h) == Weight(p, h);
    LivePoint(p, q, p.num, i);
    ShrunkLayout(p, q, i);
  }

  /** The layout half of `ShrinkSound`: records that got no longer still fit and stay apart. */
  lemma ShrunkLayout(p: Pool, q: Pool, i: nat)
    requires Layout(p) && i < p.num && p.offs[i] != 0
    requires q == p.(buf := q.buf) && |q.buf| == |p.buf|
    requires |p.buf| > 0 ==> LenAt(q.buf, 0) == LenAt(p.buf, 0)
    requires LenAt(q.buf, p.offs[i]) <= LenAt(p.buf, p.offs[i])
    requires forall h :: 0 <= h < p.num && h != i && p.offs[h] != 0 ==>
      LenAt(q.buf, p.offs[h]) == LenAt(p.buf, p.offs[h])
    ensures Layout(q)
  {
    assert forall h :: 0 <= h < p.num && p.offs[h] != 0 ==> End(q.buf, p.offs[h]) <= End(p.buf, p.offs[h]);
    forall h | 0 <= h < q.num && q.offs[h] != 0
      ensures Placed(q, q.offs[h])
    {
      assert Placed(p, p.offs[h]);
    }
    assert Disjoint(q);
  }

  /** The write leaves the strings of the other handles, and the one at offset 0, alone. */
  lemma CharWriteOthers(p: Pool, q: Pool, index: nat, at: nat, c: wchar)
    requires Sound(p) && index < p.num && p.offs[index] != 0
    requires p.offs[index] <= at < End(p.buf, p.offs[index]) - 1
    requires q == p.(buf := p.buf[at := c])
    ensures |p.buf| > 0 ==> LenAt(q.buf, 0) == LenAt(p.buf, 0)
    ensures forall h :: 0 <= h < p.num && h != index && p.offs[h] != 0 ==>
      && LenAt(q.buf, p.offs[h]) == LenAt(p.buf, p.offs[h])
      && Payload(q.buf, p.offs[h]) == Payload(p.buf, p.offs[h])
  {
    var o := p.offs[index];
    assert Placed(p, o);
    var data := [c];
    assert q.buf == Write(p.buf, at, data);
    forall h | 0 <= h < p.num && h != index && p.offs[h] != 0
      ensures LenAt(q.buf, p.offs[h]) == LenAt(p.buf, p.offs[h])
      ensures Payload(q.buf, p.offs[h]) == Payload(p.buf, p.offs[h])
    {
      assert Placed(p, p.offs[h]);
      WriteOutside(p.buf, at, data, p.offs[h]);
    }
    WriteOutside(p.buf, at, data, 0);
  }

  /** Inside its own record the write changes one character; the string ends no later. */
  lemma CharWriteOwn(p: Pool, q: Pool, index: nat, at: nat, c: wchar)
    requires Sound(p) && index < p.num && p.offs[index] != 0
    requires p.offs[index] <= at < End(p.buf, p.offs[index]) - 1
    requires q == p.(buf := p.buf[at := c])
    ensures LenAt(q.buf, p.offs[index]) <= LenAt(p.buf, p.offs[index])
    ensures Content(q, index) == CStr(Content(p, index)[at - p.offs[index] := c], 0)
  {
    var o := p.offs[index];
    assert Placed(p, o);
    var n := LenAt(p.buf, o);
    TerminatorAt(p.buf, o);
    assert Content(p, index) == Payload(p.buf, o) == p.buf[o .. o + n];
    WindowWrite(p.buf, o, n, at, c);
    assert Content(q, index) == Payload(q.buf, o);
  }

  /** One unit changed inside the `n` units before a zero at `o + n`. */
  lemma WindowWrite(b: seq<wchar>, o: nat, n: nat, at: nat, c: wchar)
    requires o + n < |b| && b[o + n] == 0 && o <= at < o + n
    ensures LenAt(b[at := c], o) <= n
    ensures Payload(b[at := c], o) == CStr(b[o .. o + n][at - o := c], 0)
  {
    var u := b[o .. o + n][at - o := c];
    var w := b[at := c][o .. o + n + 1];
    assert w[..n] == u;
    assert w[n] == 0;
    ScanPrefix(b[at := c], o, n);
    CStrUpTo(w, 0, n);
  }

  /**
   * When a zero follows `n` units at `o`, the string at `o` is the C string of those units,
   * and ends no later than that zero.
   */
  lemma ScanPrefix(buf: seq<wchar>, o: nat, n: nat)
    requires o + n < |buf| && buf[o + n] == 0
    ensures LenAt(buf, o) <= n
    ensures Payload(buf, o) == CStr(buf[o .. o + n + 1], 0)
  {
    var w := buf[o .. o + n + 1];
    var t := CStr(w, 0);
    var m := o + |t|;
    assert w[|t|] == 0;
    forall k | o <= k < m
      ensures buf[k] != 0
    {
      assert buf[k] == w[k - o] == t[k - o];
    }
    ScanAt(buf, o, m);
    assert Payload(buf, o) == t;
  }

  // ---------------------------------------------------------------------------------------
  // Combined operations

  /**
   * `Concatenate(i, s)` in a sound pool: an empty C string of `s` changes nothing, whatever
   * `i`; otherwise a bad handle is an error, and handle `i` reads its old string followed by
   * the C string of `s`, and nothing else changes.
   */
  lemma ConcatenateSound(p: Pool, i: int, s: seq<wchar>)
    requires Sound(p)
    ensures |CStr(s, 0)| == 0 ==> Concatenate(p, i, s) == Ok(p)
    ensures |CStr(s, 0)| > 0 && (i < 0 || i >= p.num) ==> Concatenate(p, i, s) == Err(InvalidHandle)
    ensures |CStr(s, 0)| > 0 && 0 <= i < p.num ==>
      && Concatenate(p, i, s).Ok?
      && var q := Concatenate(p, i, s).value;
      && Sound(q) && q.num == p.num && ReadsAs(p, q, i, Content(p, i) + CStr(s, 0), p.num)
  {
    var t := CStr(s, 0);
    if |t| > 0 && 0 <= i < p.num {
      var c := Content(p, i);
      if p.offs[i] == 0 {
        EmptyRecord(p);
        SetSound(p, i, s);
        assert c + t == t;
      } else {
        PayloadPlain(p.buf, p.offs[i]);
        PlainCut(c + t);
        StoreSoundContent(p, i, c + t);
      }
    }
  }

  /**
   * `Clear()` (as corrected) empties every handle in use and keeps the pool sound; with a
   * buffer, only the string at offset 0 stays in use.
   */
  lemma ClearSound(p: Pool)
    requires Sound(p)
    ensures var q := Clear(p);
      && Sound(q) && q.num == p.num && q.buf == p.buf
      && (forall h :: 0 <= h < q.num ==> Content(q, h) == [])
      && (|p.buf| > 0 ==> Exact(q))
  {
    var q := Clear(p);
    assert forall h :: 0 <= h < q.num ==> q.offs[h] == 0;
    LiveIdleTail(q, 0, q.num);
    EmptyRecord(p);
  }

  /**
   * `Assign(index, source)` (`strings[index] = strings[source]`) in a sound pool: a bad source
   * handle is an error, and so is a negative `index`; otherwise handle `index` reads what
   * `source` reads and nothing else changes.
   */
  lemma AssignSound(p: Pool, index: int, source: int)
    requires Sound(p)
    ensures (source < 0 || source >= p.num) ==> Assign(p, index, source) == Err(InvalidHandle)
    ensures 0 <= source < p.num && index < 0 ==> Assign(p, index, source) == Err(InvalidHandle)
    ensures 0 <= source < p.num && index >= 0 ==>
      && Assign(p, index, source).Ok?
      && var q := Assign(p, index, source).value;
      && Sound(q) && q.num == Max(p.num, index + 1)
      && ReadsAs(p, q, index, Content(p, source), q.num)
  {
    if 0 <= source < p.num {
      PayloadPlain(p.buf, p.offs[source]);
      CStrOfPlain(Content(p, source), 0);
      SetSound(p, index, Content(p, source));
    }
  }

  /**
   * `SetToSubstring(s, start, len)` in a sound pool: a negative start or length, or a range
   * past the end of the C string of `s`, is an error; otherwise the handle reads `len`
   * characters of it from `start` (none when `len` is 0).
   */
  lemma SetToSubstringSound(p: Pool, index: int, s: seq<wchar>, start: int, len: int)
    requires Sound(p)
    ensures (start < 0 || len < 0 || start + len > |CStr(s, 0)|) ==>
      SetToSubstring(p, index, s, start, len) == Err(OutOfBounds)
    ensures 0 <= start && 0 <= len && start + len <= |CStr(s, 0)| && index < 0 ==>
      SetToSubstring(p, index, s, start, len) == Err(InvalidHandle)
    ensures 0 <= start && 0 <= len && start + len <= |CStr(s, 0)| && index >= 0 ==>
      && SetToSubstring(p, index, s, start, len).Ok?
      && var q := SetToSubstring(p, index, s, start, len).value;
      && Sound(q) && q.num == Max(p.num, index + 1)
      && ReadsAs(p, q, index, CStr(s, 0)[start .. start + len], q.num)
  {
    var t := CStr(s, 0);
    if 0 <= start && 0 <= len && start + len <= |t| {
      SubstringIsSetN(p, index, s, start, len);
      SetNSound(p, index, t[start .. start + len]);
    }
  }

  /** A substring of a C string is stored as it is, with the explicit-length `Set`. */
  lemma SubstringIsSetN(p: Pool, index: int, s: seq<wchar>, start: nat, len: nat)
    requires Shaped(p) && start + len <= |CStr(s, 0)|
    ensures var u := CStr(s, 0)[start .. start + len];
      SetToSubstring(p, index, s, start, len) == SetN(p, index, u) && Cut(u) == u
  {
    PlainCut(CStr(s, 0)[start .. start + len]);
  }
}

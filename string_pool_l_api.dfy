/**
 * What the public operations of `StringPoolL` (cppexamples/StringPoolL.cpp) promise in terms of
 * the string each handle reads: `Set`, the explicit-length `Set`, `Concatenate`, `Clear`,
 * `Len`, `Get` and the `StringElement` operations built on them.
 */
module StringPoolLApi {
  import opened Common
  import opened StringPoolLRecords
  import opened StringPoolLOps
  import opened StringPoolLCompaction
  import opened StringPoolLProofs

  /** Handles below `k` of `q` read as in `p`, except handle `i`, which reads `s`. */
  ghost predicate ReadsAs(p: Pool, q: Pool, i: nat, s: seq<uint8>, k: nat)
  {
    forall h :: 0 <= h < k ==> Content(q, h) == if h == i then s else Content(p, h)
  }

  /** In a sound pool the shared record at offset 0 reads as the empty string. */
  lemma EmptyRecord(p: Pool)
    requires Sound(p)
    ensures Payload(p.buf, 0) == []
  {
  }

  // ---------------------------------------------------------------------------------------
  // The building blocks, in a sound pool

  lemma EnterSoundContent(p: Pool, i: nat)
    requires Sound(p)
    ensures var q := Enter(p, i);
      Sound(q) && forall h :: 0 <= h < q.num ==> Content(q, h) == Content(p, h)
  {
    EnterKeeps(p, i);
    EmptyRecord(p);
  }

  lemma EraseSoundContent(p: Pool, i: nat)
    requires Sound(p) && i < p.num
    ensures var q := Erase(p, i);
      Sound(q) && q.num == p.num && ReadsAs(p, q, i, [], p.num)
  {
    EraseKeeps(p, i);
    EmptyRecord(p);
  }

  lemma StoreSoundContent(p: Pool, i: nat, chars: seq<uint8>)
    requires Sound(p) && i < p.num && 0 < |chars| <= MaxLength
    ensures Store(p, i, chars).Ok?
    ensures var q := Store(p, i, chars).value;
      Sound(q) && q.num == p.num && ReadsAs(p, q, i, chars, p.num)
  {
    StoreReplaces(p, i, chars);
    ReplacedReadsAs(p, Store(p, i, chars).value, i, chars);
  }

  /** A replacement between sound pools that gives no record to an idle handle changes only `i`. */
  lemma ReplacedReadsAs(p: Pool, q: Pool, i: nat, chars: seq<uint8>)
    requires Sound(p) && Sound(q) && |chars| <= MaxLength
    requires Replaced(p, q, i, chars)
    requires forall h :: 0 <= h < p.num && h != i && p.offs[h] == 0 ==> q.offs[h] == 0
    ensures q.num == p.num && ReadsAs(p, q, i, chars, p.num)
  {
    CutShort(chars);
    forall h | 0 <= h < p.num
      ensures Content(q, h) == if h == i then chars else Content(p, h)
    {
      if h != i && p.offs[h] == 0 {
        IdleIsEmpty(p, h);
        IdleIsEmpty(q, h);
      }
    }
  }

  // ---------------------------------------------------------------------------------------
  // Set

  /** `Set(i, s)` stores the C string of `s` exactly as the explicit-length `Set` stores it. */
  lemma SetIsSetN(p: Pool, i: int, s: seq<uint8>)
    requires Shaped(p)
    ensures Set(p, i, s) == SetN(p, i, CStr(s, 0))
  {
  }

  /**
   * `Set(i, s)` in a sound pool: a negative handle and a string longer than 65535 are errors;
   * otherwise `Num` becomes at least `i + 1`, handle `i` reads the C string of `s` (the empty
   * string when `s` starts with 0) and every other handle reads what it read before.
   */
  lemma SetSound(p: Pool, i: int, s: seq<uint8>)
    requires Sound(p)
    ensures i < 0 ==> Set(p, i, s) == Err(InvalidHandle)
    ensures i >= 0 && |CStr(s, 0)| > MaxLength ==> Set(p, i, s) == Err(StringTooLong)
    ensures i >= 0 && |CStr(s, 0)| <= MaxLength ==>
      && Set(p, i, s).Ok?
      && var q := Set(p, i, s).value;
      && Sound(q) && q.num == Max(p.num, i + 1) && ReadsAs(p, q, i, CStr(s, 0), q.num)
  {
    SetIsSetN(p, i, s);
    SetNSound(p, i, CStr(s, 0));
  }

  /**
   * What the explicit-length `Set` promises in every reachable state: the invariant holds,
   * `Num` is at least `i + 1`, handle `i` reads `r` unless the string was empty, and every
   * other handle that has a record keeps its string.
   */
  ghost predicate SetOutcome(p: Pool, q: Pool, i: nat, s: seq<uint8>, r: seq<uint8>)
    requires p.num <= |p.offs|
  {
    && Valid(q) && q.num == Max(p.num, i + 1)
    && (|s| > 0 ==> Content(q, i) == r)
    && (forall h :: 0 <= h < p.num && h != i && p.offs[h] != 0 ==> Content(q, h) == Content(p, h))
  }

  /**
   * `Set(i, s)` keeps the invariant of every reachable state, replaces handle `i`'s string by
   * a non-empty C string of `s`, and keeps the strings of all other handles that have one.
   */
  lemma SetValid(p: Pool, i: nat, s: seq<uint8>)
    requires Valid(p) && |CStr(s, 0)| <= MaxLength
    ensures Set(p, i, s).Ok? && SetOutcome(p, Set(p, i, s).value, i, CStr(s, 0), CStr(s, 0))
  {
    SetIsSetN(p, i, s);
    SetNValid(p, i, CStr(s, 0));
  }

  /**
   * The explicit-length `Set(i, s, len)` with `len == |s| <= 65535` keeps the invariant, stores
   * `s` for handle `i` and keeps the other handles' strings.
   */
  lemma SetNValid(p: Pool, i: nat, s: seq<uint8>)
    requires Valid(p) && |s| <= MaxLength
    ensures SetN(p, i, s).Ok? && SetOutcome(p, SetN(p, i, s).value, i, s, s)
  {
    var e := Enter(p, i);
    EnterKeeps(p, i);
    EnterLive(p, i);
    if |s| == 0 {
      EraseKeeps(e, i);
    } else {
      StoreReplaces(e, i, s);
      CutShort(s);
    }
  }

  /**
   * The explicit-length `Set` in a sound pool: a negative handle and a string longer than
   * 65535 are errors; otherwise handle `i` reads `s` and every other handle what it read.
   */
  lemma SetNSound(p: Pool, i: int, s: seq<uint8>)
    requires Sound(p)
    ensures i < 0 ==> SetN(p, i, s) == Err(InvalidHandle)
    ensures i >= 0 && |s| > MaxLength ==> SetN(p, i, s) == Err(StringTooLong)
    ensures i >= 0 && |s| <= MaxLength ==>
      && SetN(p, i, s).Ok?
      && var q := SetN(p, i, s).value;
      && Sound(q) && q.num == Max(p.num, i + 1) && ReadsAs(p, q, i, s, q.num)
  {
    if i >= 0 && |s| <= MaxLength {
      var e := Enter(p, i);
      EnterSoundContent(p, i);
      if |s| == 0 {
        EraseSoundContent(e, i);
      } else {
        StoreSoundContent(e, i, s);
      }
    }
  }

  // ---------------------------------------------------------------------------------------
  // Reading a string

  /** The length word of a handle's record is the length of the string it reads. */
  lemma LenIsContent(p: Pool, i: nat)
    requires Valid(p) && i < p.num && |p.buf| > 0
    ensures LenAt(p.buf, p.offs[i]) == |Content(p, i)|
  {
    if p.offs[i] != 0 {
      assert Placed(p, p.offs[i]);
    }
  }

  /**
   * `Len(i)`: a handle outside `[0, Num)` is an error, and so is reading before any buffer
   * exists; otherwise it is the length of the string handle `i` reads.
   */
  lemma LenReads(p: Pool, i: int)
    requires Valid(p)
    ensures (i < 0 || i >= p.num) ==> Len(p, i) == Err(InvalidHandle)
    ensures 0 <= i < p.num && |p.buf| == 0 ==> Len(p, i) == Err(NullBuffer)
    ensures 0 <= i < p.num && |p.buf| > 0 ==> Len(p, i) == Ok(|Content(p, i)|)
  {
    if 0 <= i < p.num && |p.buf| > 0 {
      LenIsContent(p, i);
    }
  }

  /**
   * `Get(i)` in a sound pool points at the characters of handle `i`'s string, which are
   * followed by a zero, so the C string found there is the string up to its first zero.
   */
  lemma GetReads(p: Pool, i: int)
    requires Sound(p) && |p.buf| > 0
    ensures (i < 0 || i >= p.num) ==> Get(p, i) == Err(InvalidHandle)
    ensures 0 <= i < p.num ==>
      && Get(p, i).Ok?
      && var g := Get(p, i).value; var c := Content(p, i);
      && g + |c| < |p.buf| && p.buf[g .. g + |c|] == c && p.buf[g + |c|] == 0
      && Text(p, i) == CStr(c, 0)
  {
    if 0 <= i < p.num {
      var o := p.offs[i];
      var g := o + LengthBytes;
      var c := Content(p, i);
      LenIsContent(p, i);
      if o != 0 {
        assert Placed(p, o) && Terminated(p.buf, o);
      }
      var rest := p.buf[g..];
      assert rest[|c|] == 0;
      CStrUpTo(rest, 0, |c|);
      assert rest[..|c|] == c;
    }
  }

  /**
   * `SearchForSubstring(s)` in a sound pool: the first position in string `index` (up to its
   * first zero) where the C string of `s` starts, or -1.
   */
  lemma SearchFinds(p: Pool, index: int, s: seq<uint8>)
    requires Sound(p)
    ensures (index < 0 || index >= p.num) ==> SearchForSubstring(p, index, s) == Err(InvalidHandle)
    ensures 0 <= index < p.num && |p.buf| == 0 ==> SearchForSubstring(p, index, s) == Err(NullBuffer)
    ensures 0 <= index < p.num && |p.buf| > 0 ==>
      SearchForSubstring(p, index, s) == Ok(IndexOf(CStr(Content(p, index), 0), CStr(s, 0), 0))
  {
    if 0 <= index < p.num && |p.buf| > 0 {
      GetReads(p, index);
    }
  }

  /**
   * Reading `strings[index][k]` in a valid pool: a bad handle is an error, so is a position
   * outside the string; otherwise it is the string's `k`th character.
   */
  lemma CharAtReads(p: Pool, index: int, k: int)
    requires Valid(p)
    ensures (index < 0 || index >= p.num) ==> CharAt(p, index, k) == Err(InvalidHandle)
    ensures 0 <= index < p.num && |p.buf| > 0 ==>
      && ((k < 0 || k >= |Content(p, index)|) ==> CharAt(p, index, k) == Err(OutOfBounds))
      && (0 <= k < |Content(p, index)| ==> CharAt(p, index, k) == Ok(Content(p, index)[k]))
  {
    if 0 <= index < p.num && |p.buf| > 0 {
      LenIsContent(p, index);
      if p.offs[index] != 0 {
        assert Placed(p, p.offs[index]);
      }
    }
  }

  /**
   * Writing `strings[index][k] = c` in a sound pool changes character `k` of string `index`
   * and nothing else, and keeps the pool sound.
   */
  lemma SetCharAtWrites(p: Pool, index: nat, k: int, c: uint8)
    requires Sound(p) && index < p.num && |p.buf| > 0 && 0 <= k < |Content(p, index)|
    ensures SetCharAt(p, index, k, c).Ok?
    ensures var q := SetCharAt(p, index, k, c).value;
      && Sound(q) && q.num == p.num
      && ReadsAs(p, q, index, Content(p, index)[k := c], p.num)
  {
    var o := p.offs[index];
    LenIsContent(p, index);
    assert o != 0 by {
      EmptyRecord(p);
    }
    assert Placed(p, o);
    var at := o + LengthBytes + k;
    var q := p.(buf := p.buf[at := c]);
    assert SetCharAt(p, index, k, c) == Ok(q);
    CharWrite(p, q, index, at, c);
  }

  /**
   * A pool whose buffer changed without moving any length word or terminator of the records
   * in use is as sound as before.
   */
  lemma SameShapeSound(p: Pool, q: Pool)
    requires Sound(p) && q == p.(buf := q.buf) && |q.buf| == |p.buf|
    requires |p.buf| > 0 ==> LenAt(q.buf, 0) == LenAt(p.buf, 0) && Terminated(q.buf, 0)
    requires forall h :: 0 <= h < p.num && p.offs[h] != 0 ==>
      LenAt(q.buf, p.offs[h]) == LenAt(p.buf, p.offs[h]) && Terminated(q.buf, p.offs[h])
    ensures Sound(q)
  {
    assert forall h :: 0 <= h < p.num ==> Weight(q, h) == Weight(p, h);
    LiveFrame(p, q, p.num);
    assert forall h :: 0 <= h < p.num && p.offs[h] != 0 ==> End(q.buf, p.offs[h]) == End(p.buf, p.offs[h]);
    assert Disjoint(q);
    assert Layout(q);
  }

  /** What a one-character write inside the string of handle `index` does to each handle. */
  lemma CharWrite(p: Pool, q: Pool, index: nat, at: nat, c: uint8)
    requires Sound(p) && index < p.num && p.offs[index] != 0
    requires p.offs[index] + LengthBytes <= at < End(p.buf, p.offs[index]) - 1
    requires q == p.(buf := p.buf[at := c])
    ensures Sound(q) && ReadsAs(p, q, index, Content(p, index)[at - p.offs[index] - LengthBytes := c], p.num)
  {
    CharWriteOthers(p, q, index, at, c);
    CharWriteOwn(p, q, index, at, c);
    SameShapeSound(p, q);
  }

  /** The write leaves the records of the other handles, and the one at offset 0, alone. */
  lemma CharWriteOthers(p: Pool, q: Pool, index: nat, at: nat, c: uint8)
    requires Sound(p) && index < p.num && p.offs[index] != 0
    requires p.offs[index] + LengthBytes <= at < End(p.buf, p.offs[index]) - 1
    requires q == p.(buf := p.buf[at := c])
    ensures |p.buf| > 0 ==> LenAt(q.buf, 0) == LenAt(p.buf, 0) && Terminated(q.buf, 0)
    ensures forall h :: 0 <= h < p.num && h != index && p.offs[h] != 0 ==>
      && LenAt(q.buf, p.offs[h]) == LenAt(p.buf, p.offs[h])
      && Payload(q.buf, p.offs[h]) == Payload(p.buf, p.offs[h])
      && Terminated(q.buf, p.offs[h])
  {
    var o := p.offs[index];
    assert Placed(p, o);
    var data := [c];
    assert q.buf == Write(p.buf, at, data);
    forall h | 0 <= h < p.num && h != index && p.offs[h] != 0
      ensures LenAt(q.buf, p.offs[h]) == LenAt(p.buf, p.offs[h])
      ensures Payload(q.buf, p.offs[h]) == Payload(p.buf, p.offs[h])
      ensures Terminated(q.buf, p.offs[h])
    {
      assert Placed(p, p.offs[h]);
      WriteOutside(p.buf, at, data, p.offs[h]);
    }
    WriteOutside(p.buf, at, data, 0);
  }

  /** Inside its own record the write changes one character and keeps length and terminator. */
  lemma CharWriteOwn(p: Pool, q: Pool, index: nat, at: nat, c: uint8)
    requires Sound(p) && index < p.num && p.offs[index] != 0
    requires p.offs[index] + LengthBytes <= at < End(p.buf, p.offs[index]) - 1
    requires q == p.(buf := p.buf[at := c])
    ensures LenAt(q.buf, p.offs[index]) == LenAt(p.buf, p.offs[index])
    ensures Terminated(q.buf, p.offs[index])
    ensures Content(q, index) == Content(p, index)[at - p.offs[index] - LengthBytes := c]
  {
    var o := p.offs[index];
    assert Placed(p, o);
    assert LenAt(q.buf, o) == LenAt(p.buf, o);
    assert q.buf[End(q.buf, o) - 1] == p.buf[End(p.buf, o) - 1];
    var x := Payload(q.buf, o);
    var y := Payload(p.buf, o)[at - o - LengthBytes := c];
    assert |x| == |y|;
    forall j | 0 <= j < |x|
      ensures x[j] == y[j]
    {
      assert x[j] == q.buf[o + LengthBytes + j];
    }
  }

  // ---------------------------------------------------------------------------------------
  // Combined operations

  /** A length word holds at most 65535, so no string read from a pool is longer. */
  lemma ContentShort(p: Pool, i: nat)
    requires Valid(p) && i < p.num && |p.buf| > 0
    ensures |Content(p, i)| <= MaxLength
  {
    LenIsContent(p, i);
  }

  /**
   * `Concatenate(i, s)` in a sound pool: a bad handle and a missing buffer are errors; an
   * empty `s` changes nothing; a combined string longer than 65535 is refused; otherwise
   * handle `i` reads its old string followed by the C string of `s`, and nothing else changes.
   */
  lemma ConcatenateSound(p: Pool, i: int, s: seq<uint8>)
    requires Sound(p)
    ensures (i < 0 || i >= p.num) ==> Concatenate(p, i, s) == Err(InvalidHandle)
    ensures 0 <= i < p.num && |p.buf| == 0 ==> Concatenate(p, i, s) == Err(NullBuffer)
    ensures 0 <= i < p.num && |p.buf| > 0 ==>
      var c := Content(p, i); var t := CStr(s, 0);
      && (|t| == 0 ==> Concatenate(p, i, s) == Ok(p))
      && (|t| > 0 && |c| + |t| > MaxLength ==> Concatenate(p, i, s) == Err(StringTooLong))
      && (0 < |t| && |c| + |t| <= MaxLength ==>
            && Concatenate(p, i, s).Ok?
            && var q := Concatenate(p, i, s).value;
            && Sound(q) && q.num == p.num && ReadsAs(p, q, i, c + t, p.num))
  {
    if 0 <= i < p.num && |p.buf| > 0 {
      var c := Content(p, i);
      var t := CStr(s, 0);
      LenIsContent(p, i);
      if 0 < |t| && |c| + |t| <= MaxLength {
        if |c| == 0 {
          SetSound(p, i, s);
          assert c + t == t;
        } else {
          StoreSoundContent(p, i, c + t);
        }
      }
    }
  }

  /**
   * `Clear()` (as corrected) empties every handle in use and keeps the pool sound; with a
   * buffer, only the record at offset 0 stays in use.
   */
  lemma ClearSound(p: Pool)
    requires Sound(p)
    ensures var q := Clear(p);
      && Sound(q) && q.num == p.num && q.buf == p.buf
      && (forall h :: 0 <= h < q.num ==> Content(q, h) == [])
      && (|p.buf| > 0 ==> Exact(q))
  {
    var q := Clear(p);
    assert forall h :: 0 <= h < q.num ==> q.offs[h] == 0;
    LiveIdleTail(q, 0, q.num);
    EmptyRecord(p);
  }

  /**
   * `Assign(index, source)` (`strings[index] = strings[source]`) in a sound pool: a bad source
   * handle or a missing buffer is an error, and so is a negative `index`; otherwise handle
   * `index` reads what `source` reads and nothing else changes.
   */
  lemma AssignSound(p: Pool, index: int, source: int)
    requires Sound(p)
    ensures (source < 0 || source >= p.num) ==> Assign(p, index, source) == Err(InvalidHandle)
    ensures 0 <= source < p.num && |p.buf| == 0 ==> Assign(p, index, source) == Err(NullBuffer)
    ensures 0 <= source < p.num && |p.buf| > 0 && index < 0 ==> Assign(p, index, source) == Err(InvalidHandle)
    ensures 0 <= source < p.num && |p.buf| > 0 && index >= 0 ==>
      && Assign(p, index, source).Ok?
      && var q := Assign(p, index, source).value;
      && Sound(q) && q.num == Max(p.num, index + 1)
      && ReadsAs(p, q, index, Content(p, source), q.num)
  {
    if 0 <= source < p.num && |p.buf| > 0 {
      ContentShort(p, source);
      SetNSound(p, index, Content(p, source));
    }
  }

  /**
   * `SetToSubstring(s, start, len)` in a sound pool: a range past the end of the C string of
   * `s` is an error, and so is (once corrected) a length over 65535; otherwise the handle reads
   * `len` characters of it from `start`.
   */
  lemma SetToSubstringSound(p: Pool, index: int, s: seq<uint8>, start: nat, len: nat)
    requires Sound(p)
    ensures start + len > |CStr(s, 0)| ==> SetToSubstring(p, index, s, start, len) == Err(OutOfBounds)
    ensures start + len <= |CStr(s, 0)| && index < 0 ==>
      SetToSubstring(p, index, s, start, len) == Err(InvalidHandle)
    ensures start + len <= |CStr(s, 0)| && index >= 0 && len > MaxLength ==>
      SetToSubstring(p, index, s, start, len) == Err(StringTooLong)
    ensures start + len <= |CStr(s, 0)| && index >= 0 && len <= MaxLength ==>
      && SetToSubstring(p, index, s, start, len).Ok?
      && var q := SetToSubstring(p, index, s, start, len).value;
      && Sound(q) && q.num == Max(p.num, index + 1)
      && ReadsAs(p, q, index, CStr(s, 0)[start .. start + len], q.num)
  {
    var t := CStr(s, 0);
    if start + len <= |t| {
      var u := t[start .. start + len];
      SubstringIsSetN(p, index, s, start, len);
      SetNSound(p, index, u);
    }
  }

  lemma SubstringIsSetN(p: Pool, index: int, s: seq<uint8>, start: nat, len: nat)
    requires Shaped(p) && start + len <= |CStr(s, 0)|
    ensures SetToSubstring(p, index, s, start, len) == SetN(p, index, CStr(s, 0)[start .. start + len])
  {
  }

  /** The search example of the source: "Doll" occurs in "Hello Dolly" at position 6. */
  lemma SearchExample()
    ensures IndexOf(Bytes("Hello Dolly"), Bytes("Doll"), 0) == 6
  {
    var hay := Bytes("Hello Dolly");
    var needle := Bytes("Doll");
    assert hay[6 .. 10] == needle;
    assert forall k :: 0 <= k < 6 ==> hay[k] != needle[0];
  }
}

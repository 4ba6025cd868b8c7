/** Types and small helpers shared by the container models. */
module Common {

  /** One byte of a `char` buffer. */
  newtype uint8 = x: int | 0 <= x < 0x100

  datatype Option<T> = None | Some(value: T)

  /** Outcome of an operation that the source ends with a fatal `Error()` call. */
  datatype Result<T, E> = Ok(value: T) | Err(error: E)

  /** The bytes of a text literal, one per character (its code modulo 256). */
  function Bytes(s: string): (b: seq<uint8>)
    ensures |b| == |s| && forall k :: 0 <= k < |s| ==> b[k] as int == s[k] as int % 0x100
  {
    seq(|s|, k requires 0 <= k < |s| => (s[k] as int % 0x100) as uint8)
  }

  function Max(a: int, b: int): (m: int)
    ensures m >= a && m >= b && (m == a || m == b)
  {
    if a < b then b else a
  }

  function Min(a: int, b: int): (m: int)
    ensures m <= a && m <= b && (m == a || m == b)
  {
    if a < b then a else b
  }

  /** A zero-filled block, as left by `memset(p, 0, n)`. */
  function Zeros(n: nat): (z: seq<uint8>)
    ensures |z| == n && forall k :: 0 <= k < n ==> z[k] == 0
  {
    seq(n, _ => 0)
  }

  /** `buf` after `memcpy(buf + at, data, |data|)`; a copy that does not fit leaves `buf` as it is. */
  function Write<T>(buf: seq<T>, at: nat, data: seq<T>): (r: seq<T>)
    ensures |r| == |buf|
    ensures at + |data| <= |buf| ==>
      forall k :: 0 <= k < |buf| ==> r[k] == if at <= k < at + |data| then data[k - at] else buf[k]
  {
    if at + |data| <= |buf| then buf[..at] + data + buf[at + |data|..] else buf
  }

  /** A write leaves every range disjoint from it as it was. */
  lemma WriteFrame<T>(buf: seq<T>, at: nat, data: seq<T>, lo: nat, hi: nat)
    requires at + |data| <= |buf| && lo <= hi <= |buf|
    requires hi <= at || at + |data| <= lo
    ensures Write(buf, at, data)[lo..hi] == buf[lo..hi]
  {
    var r := Write(buf, at, data);
    assert forall k :: lo <= k < hi ==> r[k] == buf[k];
  }

  /** The written range holds exactly the data. */
  lemma WriteHit<T>(buf: seq<T>, at: nat, data: seq<T>)
    requires at + |data| <= |buf|
    ensures Write(buf, at, data)[at..at + |data|] == data
  {
    var r := Write(buf, at, data);
    assert forall k :: 0 <= k < |data| ==> r[at + k] == data[k];
  }

  /** A slice of a prefix is the same slice of the whole sequence. */
  lemma PrefixSlice<T>(s: seq<T>, m: nat, a: nat, b: nat)
    requires a <= b <= m <= |s|
    ensures s[..m][a..b] == s[a..b]
  {
    var x, y := s[..m][a..b], s[a..b];
    forall k | 0 <= k < b - a
      ensures x[k] == y[k]
    {
      assert x[k] == s[..m][a + k];
    }
  }

  /** `memcpy(dst + at, src, |src|)` on an array. */
  method CopyInto<T>(dst: array<T>, at: nat, src: seq<T>)
    requires at + |src| <= dst.Length
    modifies dst
    ensures dst[..] == Write(old(dst[..]), at, src)
  {
    var k := 0;
    while k < |src|
      invariant 0 <= k <= |src|
      invariant forall m :: 0 <= m < dst.Length ==>
        dst[m] == if at <= m < at + k then src[m - at] else old(dst[m])
    {
      dst[at + k] := src[k];
      k := k + 1;
    }
    assert dst[..] == Write(old(dst[..]), at, src);
  }

  /** `memset(a + lo, 0, (hi - lo) * sizeof(TX))`: the range [lo, hi) becomes `zero`. */
  method Fill<T>(a: array<T>, lo: nat, hi: nat, zero: T)
    requires lo <= hi <= a.Length
    modifies a
    ensures a[..] == Write(old(a[..]), lo, seq(hi - lo, _ => zero))
  {
    CopyInto(a, lo, seq(hi - lo, _ => zero));
  }

  // ---------------------------------------------------------------------------------------
  // The C library functions the containers call

  /**
   * `strlen`/`wcslen` as a sequence: the characters of the string stored at the start of `s`,
   * which is everything before the first `zero`.
   */
  function CStr<T(==)>(s: seq<T>, zero: T): (t: seq<T>)
    ensures |t| <= |s| && t == s[..|t|]
    ensures forall k :: 0 <= k < |t| ==> t[k] != zero
    ensures |t| < |s| ==> s[|t|] == zero
  {
    if |s| == 0 || s[0] == zero then [] else [s[0]] + CStr(s[1..], zero)
  }

  /** A sequence without the terminator value reads back whole. */
  lemma {:induction false} CStrOfPlain<T>(s: seq<T>, zero: T)
    requires forall k :: 0 <= k < |s| ==> s[k] != zero
    ensures CStr(s, zero) == s
  {
    if |s| > 0 {
      CStrOfPlain(s[1..], zero);
    }
  }

  /** A terminator at `m` makes whatever follows it irrelevant. */
  lemma {:induction false} CStrUpTo<T>(s: seq<T>, zero: T, m: nat)
    requires m < |s| && s[m] == zero
    ensures CStr(s, zero) == CStr(s[..m], zero)
  {
    if m > 0 && s[0] != zero {
      assert s[..m][1..] == s[1..][..m - 1];
      CStrUpTo(s[1..], zero, m - 1);
    }
  }

  /** `needle` occurs in `hay` at position `k`. */
  predicate MatchAt<T(==)>(hay: seq<T>, needle: seq<T>, k: nat)
  {
    k + |needle| <= |hay| && hay[k .. k + |needle|] == needle
  }

  /** `strstr`: the first position at or after `from` where `needle` occurs, or -1. */
  function IndexOf<T(==)>(hay: seq<T>, needle: seq<T>, from: nat): (r: int)
    ensures -1 <= r <= |hay|
    ensures r == -1 ==> forall k :: from <= k <= |hay| ==> !MatchAt(hay, needle, k)
    ensures r >= 0 ==> from <= r && MatchAt(hay, needle, r)
    ensures r >= 0 ==> forall k :: from <= k < r ==> !MatchAt(hay, needle, k)
    decreases |hay| - from
  {
    if from + |needle| > |hay| then -1
    else if hay[from .. from + |needle|] == needle then from
    else IndexOf(hay, needle, from + 1)
  }
}

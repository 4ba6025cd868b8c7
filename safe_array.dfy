/**
 * cppexamples/SafeArray.cpp: a fixed array of `N` elements whose index operator checks the
 * bound. The operator returns a reference; reading through it and writing through it are the
 * two methods `At` and `SetAt`. An index the check rejects makes the source return a null
 * reference; here it is an error result.
 */
module SafeArrays {
  import opened Common

  /** What `operator[]` does with an index that is not below `N`. */
  datatype Fault = IndexOutOfRange

  /** Reading element `i` of the elements `s` (the index is `unsigned int`, so never negative). */
  function Read<T>(s: seq<T>, i: nat): (r: Result<T, Fault>)
    ensures r.Ok? <==> i < |s|
    ensures r.Ok? ==> r.value == s[i]
  {
    if i >= |s| then Err(IndexOutOfRange) else Ok(s[i])
  }

  /** Writing `x` through the reference `operator[](i)` returns. */
  function Update<T>(s: seq<T>, i: nat, x: T): (r: Result<seq<T>, Fault>)
    ensures r.Ok? <==> i < |s|
    ensures r.Ok? ==> |r.value| == |s|
  {
    if i >= |s| then Err(IndexOutOfRange) else Ok(s[i := x])
  }

  /** A write is seen by the next read of the same element. */
  lemma ReadAfterUpdate<T>(s: seq<T>, i: nat, x: T)
    requires i < |s|
    ensures Update(s, i, x).Ok? && Read(Update(s, i, x).value, i) == Ok(x)
  {
  }

  /** A write changes element `i` and no other. */
  lemma UpdateFrame<T>(s: seq<T>, i: nat, x: T, j: nat)
    requires i < |s| && j != i
    ensures Update(s, i, x).Ok? && Read(Update(s, i, x).value, j) == Read(s, j)
  {
  }

  class SafeArray<T> {
    /** The array `a[N]`. */
    const a: array<T>

    ghost function Elements(): (s: seq<T>)
      reads a
      ensures |s| == a.Length
    {
      a[..]
    }

    /** The constructor's `memset(a, 0, sizeof(a))`; `zero` is the element whose bytes are all 0. */
    constructor (n: nat, zero: T)
      ensures fresh(a) && Elements() == seq(n, _ => zero)
    {
      var b := new T[n](_ => zero);
      a := b;
    }

    /** `Size()`: the number `N` of elements. */
    function Size(): (n: nat)
      ensures n == a.Length
    {
      a.Length
    }

    /** Reading through `operator[](i)`. */
    method At(i: nat) returns (r: Result<T, Fault>)
      ensures r == Read(Elements(), i)
    {
      if i >= a.Length {
        return Err(IndexOutOfRange);
      }
      return Ok(a[i]);
    }

    /** Writing `x` through `operator[](i)`. */
    method SetAt(i: nat, x: T) returns (r: Result<(), Fault>)
      modifies a
      ensures r.Ok? <==> i < a.Length
      ensures Update(old(Elements()), i, x) == if r.Ok? then Ok(Elements()) else Err(IndexOutOfRange)
      ensures r.Err? ==> Elements() == old(Elements())
    {
      if i >= a.Length {
        return Err(IndexOutOfRange);
      }
      a[i] := x;
      return Ok(());
    }
  }

  /** The example: every element of a fresh `SafeArray<float, 10>` reads 0. */
  method SafeArrayExample() returns (out: seq<real>)
    ensures out == seq(10, _ => 0.0)
  {
    var list := new SafeArray<real>(10, 0.0);
    out := [];
    var i := 0;
    while i < list.Size()
      invariant 0 <= i <= list.Size() == 10
      invariant list.Elements() == seq(10, _ => 0.0)
      invariant out == seq(i, _ => 0.0)
    {
      var x := list.At(i);
      assert seq(i + 1, _ => 0.0) == seq(i, _ => 0.0) + [0.0];
      out := out + [x.value];
      i := i + 1;
    }
  }
}

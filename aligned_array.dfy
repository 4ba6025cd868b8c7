/**
 * cppexamples/AlignedArray.cpp: a growable array whose storage starts at an address that is a
 * multiple of `AlignBy` (16), so that groups of elements can be read and written as SIMD
 * vectors. The state is the elements in use (`NumEntries` of them) and the capacity `MaxNum`;
 * storage past `NumEntries` is never read before `SetNum` zero-fills it.
 */
module AlignedArrays {
  import opened Common
  import opened Bits

  /** The causes the source's `Error(e, n)` reports before ending the process. */
  datatype Fault = IndexOutOfRange | NotDivisibleByVectorSize

  /** `AlignBy`: the alignment of the storage, a power of 2. */
  const AlignBy := 16

  datatype State<T> = State(items: seq<T>, maxNum: nat)

  ghost predicate Valid<T>(a: State<T>)
  {
    |a.items| <= a.maxNum <= IntMax
  }

  /** The constructor: no storage. */
  function Empty<T>(): (a: State<T>)
    ensures Valid(a) && a.items == [] && a.maxNum == 0
  {
    State([], 0)
  }

  /**
   * `Reserve(num)`: a capacity beyond `MaxNum` moves the elements to new storage of `num`
   * elements; a smaller positive one is ignored; 0 discards everything. A negative `num` is
   * an error.
   */
  function Reserve<T>(a: State<T>, num: int): (r: Result<State<T>, Fault>)
    requires Valid(a) && num <= IntMax
    ensures r.Err? <==> num < 0
    ensures r.Err? ==> r.error == IndexOutOfRange
    ensures r.Ok? ==> Valid(r.value)
    ensures num == 0 ==> r == Ok(Empty())
    ensures num > 0 ==> r.Ok? && r.value.items == a.items && r.value.maxNum == Max(a.maxNum, num)
  {
    if num <= a.maxNum then
      if num <= 0 then
        if num < 0 then Err(IndexOutOfRange) else Ok(Empty())
      else Ok(a)
    else Ok(State(a.items, num))
  }

  /**
   * `SetNum(num)`: the first `num` elements become the ones in use, those past the old count
   * zero-filled; the capacity grows to `num` if needed. A negative `num` is an error.
   */
  function SetNum<T>(a: State<T>, num: int, zero: T): (r: Result<State<T>, Fault>)
    requires Valid(a) && num <= IntMax
    ensures r.Err? <==> num < 0
    ensures r.Err? ==> r.error == IndexOutOfRange
    ensures r.Ok? ==> Valid(r.value) && |r.value.items| == num && r.value.maxNum == Max(a.maxNum, num)
    ensures r.Ok? ==> forall k :: 0 <= k < num ==>
      r.value.items[k] == if k < |a.items| then a.items[k] else zero
  {
    if num < 0 then Err(IndexOutOfRange)
    else
      var b := if num > a.maxNum then Reserve(a, num).value else a;
      var items := if num > |b.items| then b.items + seq(num - |b.items|, _ => zero) else b.items[..num];
      Ok(State(items, b.maxNum))
  }

  /** Reading `list[i]`. */
  function At<T>(a: State<T>, i: int): (r: Result<T, Fault>)
    requires Valid(a) && -IntMax - 1 <= i <= IntMax
    ensures r.Ok? <==> 0 <= i < |a.items|
    ensures r.Ok? ==> r.value == a.items[i]
  {
    UnsignedBelowMeans(i, |a.items|);
    if !UnsignedBelow(i, |a.items|) then Err(IndexOutOfRange) else Ok(a.items[i])
  }

  /** Writing `list[i] = x`: element `i` changes and no other. */
  function SetAt<T>(a: State<T>, i: int, x: T): (r: Result<State<T>, Fault>)
    requires Valid(a) && -IntMax - 1 <= i <= IntMax
    ensures r.Ok? <==> 0 <= i < |a.items|
    ensures r.Ok? ==> Valid(r.value) && r.value.maxNum == a.maxNum && |r.value.items| == |a.items|
    ensures r.Ok? ==> r.value.items[i] == x
    ensures r.Ok? ==> forall k :: 0 <= k < |a.items| && k != i ==> r.value.items[k] == a.items[k]
  {
    UnsignedBelowMeans(i, |a.items|);
    if !UnsignedBelow(i, |a.items|) then Err(IndexOutOfRange) else Ok(a.(items := a.items[i := x]))
  }

  // -----------------------------------------------------------------------------------------
  // Vectors: `Vect<VEC>(i)` is the group of `epv = sizeof(VEC) / sizeof(TX)` elements at `i`.

  /**
   * The checks of `Vect` as written: the index test `i & (epv - 1)`, then
   * `(unsigned int)(epv - 1 + i) >= (unsigned int)NumEntries`.
   */
  function VectCheckAsWritten(i: int, epv: nat, num: nat): (r: Result<nat, Fault>)
    requires 1 <= epv <= IntMax
    ensures r.Ok? ==> r.value == Unsigned32(i)
  {
    if And(Unsigned32(i), epv - 1) != 0 then Err(NotDivisibleByVectorSize)
    else if Unsigned32(epv - 1 + i) >= num then Err(IndexOutOfRange)
    else Ok(Unsigned32(i))
  }

  /** The checks of `Vect` with the divisibility test the error message names: `i % epv != 0`. */
  function VectCheck(i: int, epv: nat, num: nat): (r: Result<nat, Fault>)
    requires 1 <= epv <= IntMax
  {
    if i % epv != 0 then Err(NotDivisibleByVectorSize)
    else if Unsigned32(epv - 1 + i) >= num then Err(IndexOutOfRange)
    else Ok(Unsigned32(i))
  }

  /** The corrected check admits exactly the indices of whole vectors inside the array. */
  lemma VectCheckMeans(i: int, epv: nat, num: nat)
    requires -IntMax - 1 <= i <= IntMax && 1 <= epv <= 0x1_0000 && num <= IntMax
    ensures VectCheck(i, epv, num).Ok? <==> 0 <= i && i % epv == 0 && i + epv <= num
    ensures VectCheck(i, epv, num).Ok? ==> VectCheck(i, epv, num).value == i
    ensures VectCheck(i, epv, num) == Err(NotDivisibleByVectorSize) <==> i % epv != 0
  {
    if i < 0 && i % epv == 0 {
      NegativeMultiple(i, epv);
    }
  }

  /** A negative multiple of `m` is at most `-m`. */
  lemma NegativeMultiple(i: int, m: int)
    requires i < 0 && m > 0 && i % m == 0
    ensures i <= -m
  {
    var q := i / m;
    assert i == q * m;
    assert q <= -1;
    assert (q + 1) * m <= 0;
  }

  /** When `epv` is a power of 2, the mask test is the divisibility test. */
  lemma VectCheckPow2(i: int, epv: nat, num: nat)
    requires epv == 1 || epv == 2 || epv == 4 || epv == 8 || epv == 16
    ensures VectCheckAsWritten(i, epv, num) == VectCheck(i, epv, num)
  {
    var k: nat := if epv == 1 then 0 else if epv == 2 then 1 else if epv == 4 then 2 else if epv == 8 then 3 else 4;
    assert Pow2(1) == 2 && Pow2(2) == 4 && Pow2(3) == 8 && Pow2(4) == 16;
    assert epv == Pow2(k);
    var u := Unsigned32(i);
    LowMask(u, k, Pow2(k) - 1);
    LowIsMod(u, k);
    UnsignedMod(i, k);
  }

  /** Reducing modulo 2^32 keeps the remainder modulo 1, 2, 4, 8 and 16. */
  lemma UnsignedMod(i: int, k: nat)
    requires k <= 4
    ensures Unsigned32(i) % Pow2(k) == i % Pow2(k)
  {
    var q := i / 0x1_0000_0000;
    assert i == q * 0x1_0000_0000 + Unsigned32(i);
    assert Pow2(1) == 2 && Pow2(2) == 4 && Pow2(3) == 8 && Pow2(4) == 16;
    if k == 1 {
      ModShift(i, q * 0x8000_0000, 2);
    } else if k == 2 {
      ModShift(i, q * 0x4000_0000, 4);
    } else if k == 3 {
      ModShift(i, q * 0x2000_0000, 8);
    } else if k == 4 {
      ModShift(i, q * 0x1000_0000, 16);
    }
  }

  /** Adding a multiple of `m` does not change the remainder modulo `m`. */
  lemma ModShift(i: int, c: int, m: nat)
    requires m in {2, 4, 8, 16}
    ensures (i - c * m) % m == i % m
  {
  }

  /**
   * With three elements per vector the mask is `2`: index 3 (a whole vector) is refused and
   * index 4 (the middle of the second one) is accepted.
   */
  lemma VectCheckNotPow2()
    ensures VectCheckAsWritten(3, 3, 12) == Err(NotDivisibleByVectorSize)
    ensures VectCheck(3, 3, 12) == Ok(3)
    ensures VectCheckAsWritten(4, 3, 12) == Ok(4)
    ensures VectCheck(4, 3, 12) == Err(NotDivisibleByVectorSize)
  {
    assert And(3, 2) == 2 * And(1, 1);
    assert And(1, 1) == 1;
    assert And(4, 2) == 2 * And(2, 1) && And(2, 1) == 2 * And(1, 0) && And(1, 0) == 0;
  }

  /** Reading `Vect<VEC>(i)`: the `epv` elements from `i`. */
  function VectAt<T>(a: State<T>, i: int, epv: nat): (r: Result<seq<T>, Fault>)
    requires Valid(a) && -IntMax - 1 <= i <= IntMax && 1 <= epv <= 0x1_0000
    ensures r.Ok? <==> 0 <= i && i % epv == 0 && i + epv <= |a.items|
    ensures r.Ok? ==> r.value == a.items[i .. i + epv]
  {
    VectCheckMeans(i, epv, |a.items|);
    match VectCheck(i, epv, |a.items|)
    case Err(e) => Err(e)
    case Ok(k) => Ok(a.items[k .. k + epv])
  }

  /** Writing `Vect<VEC>(i) = v`: the `epv` elements from `i` become `v`, the others stay. */
  function SetVectAt<T>(a: State<T>, i: int, v: seq<T>): (r: Result<State<T>, Fault>)
    requires Valid(a) && -IntMax - 1 <= i <= IntMax && 1 <= |v| <= 0x1_0000
    ensures r.Ok? <==> 0 <= i && i % |v| == 0 && i + |v| <= |a.items|
    ensures r.Ok? ==> Valid(r.value) && r.value.maxNum == a.maxNum
    ensures r.Ok? ==> r.value.items == Write(a.items, i, v)
  {
    VectCheckMeans(i, |v|, |a.items|);
    match VectCheck(i, |v|, |a.items|)
    case Err(e) => Err(e)
    case Ok(k) => Ok(a.(items := Write(a.items, k, v)))
  }

  /** A vector written is the vector read back. */
  lemma VectRoundTrip<T>(a: State<T>, i: int, v: seq<T>)
    requires Valid(a) && -IntMax - 1 <= i <= IntMax && 1 <= |v| <= 0x1_0000
    requires SetVectAt(a, i, v).Ok?
    ensures VectAt(SetVectAt(a, i, v).value, i, |v|) == Ok(v)
  {
    WriteHit(a.items, i, v);
  }

  // -----------------------------------------------------------------------------------------
  // The address arithmetic of `Reserve`

  /**
   * The aligned start `((U + AlignBy - 1) & -AlignBy)` of storage allocated at address `u`,
   * masked in an integer of `w` bits (the `long int` of the union).
   */
  function AlignedStart(u: nat, w: nat): (a: nat)
    requires 4 <= w && u + AlignBy - 1 < Pow2(w)
  {
    PowMonotone(4, w);
    assert Pow2(4) == 16;
    And(u + AlignBy - 1, Pow2(w) - AlignBy)
  }

  /**
   * The aligned start is a multiple of 16 at most 15 bytes in, so the `size` bytes from it lie
   * inside the `size + AlignBy - 1` bytes allocated at `u`.
   */
  lemma AlignedStartFits(u: nat, w: nat, size: nat)
    requires 4 <= w && u + AlignBy - 1 < Pow2(w)
    ensures AlignedStart(u, w) % AlignBy == 0
    ensures u <= AlignedStart(u, w) && AlignedStart(u, w) + size <= u + (size + AlignBy - 1)
  {
    AlignUp16(u, w);
  }

  /**
   * The example: `SetNum(12)` on an empty `AlignedArray<float>` gives twelve zeros, and the
   * vectorized loop's indices 0, 4 and 8 all pass the checks of `Vect<__m128>` (four floats).
   */
  lemma AlignedExample()
    ensures SetNum(Empty<real>(), 12, 0.0) == Ok(State(seq(12, _ => 0.0), 12))
    ensures forall i :: 0 <= i < 12 && i % 4 == 0 ==> VectCheckAsWritten(i, 4, 12) == Ok(i)
  {
    var r := SetNum(Empty<real>(), 12, 0.0);
    assert r.value.items == seq(12, _ => 0.0);
    forall i | 0 <= i < 12 && i % 4 == 0
      ensures VectCheckAsWritten(i, 4, 12) == Ok(i)
    {
      VectCheckPow2(i, 4, 12);
      VectCheckMeans(i, 4, 12);
    }
  }
}

/**
 * cppexamples/DynamicArray.cpp: a growable array used as an indexed array or as a stack. The
 * state is the storage (`MaxNum` elements, all of which `ReAllocate` copies) and the count
 * `NumEntries` of the elements in use.
 */
module DynamicArrays {
  import opened Common
  import opened Bits

  /** The causes the source's `Error(e, n)` reports before ending the process. */
  datatype Fault = IndexOutOfRange | ArrayIsEmpty

  /** `AllocateSpace`: the least number of bytes by which `Push` grows the storage. */
  const AllocateSpace := 1024

  datatype State<T> = State(buf: seq<T>, num: nat)

  /** `NumEntries <= MaxNum`. */
  ghost predicate Valid<T>(a: State<T>)
  {
    a.num <= |a.buf|
  }

  /** The elements in use. */
  function Elements<T>(a: State<T>): (s: seq<T>)
    requires Valid(a)
    ensures |s| == a.num
  {
    a.buf[..a.num]
  }

  function Empty<T>(): (a: State<T>)
    ensures Valid(a) && Elements(a) == [] && |a.buf| == 0
  {
    State([], 0)
  }

  /**
   * `ReAllocate(num)`: new storage of `num` elements holding a copy of all `MaxNum` old ones.
   * The new storage is not initialised in the source; here its tail is `zero`.
   */
  function ReAllocate<T>(a: State<T>, num: nat, zero: T): (r: State<T>)
    requires Valid(a) && |a.buf| <= num
    ensures Valid(r) && |r.buf| == num && r.buf[..|a.buf|] == a.buf && r.num == a.num
    ensures Elements(r) == Elements(a)
  {
    State(a.buf + seq(num - |a.buf|, _ => zero), a.num)
  }

  /**
   * `Reserve(num)`: a capacity beyond `MaxNum` reallocates; a smaller positive one is ignored;
   * 0 discards everything; a negative one is an error.
   */
  function Reserve<T>(a: State<T>, num: int, zero: T): (r: Result<State<T>, Fault>)
    requires Valid(a)
    ensures r.Err? <==> num < 0
    ensures r.Err? ==> r.error == IndexOutOfRange
    ensures r.Ok? ==> Valid(r.value)
    ensures num == 0 ==> r == Ok(Empty())
    ensures num > 0 ==> r.Ok? && Elements(r.value) == Elements(a) && |r.value.buf| == Max(|a.buf|, num)
  {
    if num <= |a.buf| then
      if num <= 0 then
        if num < 0 then Err(IndexOutOfRange) else Ok(Empty())
      else Ok(a)
    else Ok(ReAllocate(a, num, zero))
  }

  /**
   * `SetNum(num)`: the first `num` elements become the ones in use, those past the old count
   * zero-filled; storage grows to `num` elements if needed. A negative `num` is an error.
   */
  function SetNum<T>(a: State<T>, num: int, zero: T): (r: Result<State<T>, Fault>)
    requires Valid(a)
    ensures r.Err? <==> num < 0
    ensures r.Err? ==> r.error == IndexOutOfRange
    ensures r.Ok? ==> Valid(r.value) && r.value.num == num && |r.value.buf| == Max(|a.buf|, num)
    ensures r.Ok? ==> forall k :: 0 <= k < num ==>
      Elements(r.value)[k] == if k < a.num then Elements(a)[k] else zero
  {
    if num < 0 then Err(IndexOutOfRange)
    else
      var b := if num > |a.buf| then Reserve(a, num, zero).value else a;
      var buf := if num > b.num then Write(b.buf, b.num, seq(num - b.num, _ => zero)) else b.buf;
      Ok(State(buf, num))
  }

  /** The number of elements `Push` adds to full storage: `2 * MaxNum + ceil(1024 / sizeof(TX))`. */
  function GrownSize(maxNum: nat, elemSize: nat): (n: nat)
    requires elemSize >= 1
    ensures n > maxNum
  {
    maxNum * 2 + (AllocateSpace + elemSize - 1) / elemSize
  }

  /** `Push(obj)`: the index `obj` gets and the new state; full storage grows first. */
  function Push<T>(a: State<T>, x: T, elemSize: nat, zero: T): (r: (State<T>, nat))
    requires Valid(a) && elemSize >= 1
    ensures Valid(r.0) && r.1 == a.num
    ensures Elements(r.0) == Elements(a) + [x]
    ensures |r.0.buf| == if a.num < |a.buf| then |a.buf| else GrownSize(|a.buf|, elemSize)
  {
    var b := if a.num >= |a.buf| then ReAllocate(a, GrownSize(|a.buf|, elemSize), zero) else a;
    var r := State(b.buf[b.num := x], b.num + 1);
    assert Elements(r) == Elements(b) + [x];
    (r, a.num)
  }

  /** `Pop()`: the last element in use, and the state without it; an error on no elements. */
  function Pop<T>(a: State<T>): (r: Result<(State<T>, T), Fault>)
    requires Valid(a)
    ensures r.Err? <==> a.num == 0
    ensures r.Err? ==> r.error == ArrayIsEmpty
    ensures r.Ok? ==> Valid(r.value.0) && r.value.0.buf == a.buf
    ensures r.Ok? ==> Elements(r.value.0) + [r.value.1] == Elements(a)
  {
    if a.num == 0 then Err(ArrayIsEmpty)
    else
      var b := State(a.buf, a.num - 1);
      assert Elements(b) + [a.buf[a.num - 1]] == Elements(a);
      Ok((b, a.buf[a.num - 1]))
  }

  /** `Push(x)` then `Pop()` gives back `x` and the elements there were before. */
  lemma PopPush<T>(a: State<T>, x: T, elemSize: nat, zero: T)
    requires Valid(a) && elemSize >= 1
    ensures var r := Pop(Push(a, x, elemSize, zero).0);
      r.Ok? && r.value.1 == x && Elements(r.value.0) == Elements(a)
  {
    var p := Push(a, x, elemSize, zero).0;
    var r := Pop(p);
    assert Elements(r.value.0) + [r.value.1] == Elements(a) + [x];
    assert Elements(r.value.0) == (Elements(r.value.0) + [r.value.1])[..a.num];
  }

  /** Reading `list[i]`. */
  function At<T>(a: State<T>, i: int): (r: Result<T, Fault>)
    requires Valid(a) && a.num <= IntMax && -IntMax - 1 <= i <= IntMax
    ensures r.Ok? <==> 0 <= i < a.num
    ensures r.Ok? ==> r.value == Elements(a)[i]
  {
    UnsignedBelowMeans(i, a.num);
    if !UnsignedBelow(i, a.num) then Err(IndexOutOfRange) else Ok(a.buf[i])
  }

  /** Writing `list[i] = x`: element `i` changes and no other. */
  function SetAt<T>(a: State<T>, i: int, x: T): (r: Result<State<T>, Fault>)
    requires Valid(a) && a.num <= IntMax && -IntMax - 1 <= i <= IntMax
    ensures r.Ok? <==> 0 <= i < a.num
    ensures r.Ok? ==> Valid(r.value) && |r.value.buf| == |a.buf| && Elements(r.value) == Elements(a)[i := x]
  {
    UnsignedBelowMeans(i, a.num);
    if !UnsignedBelow(i, a.num) then Err(IndexOutOfRange)
    else
      var b := a.(buf := a.buf[i := x]);
      assert Elements(b) == Elements(a)[i := x];
      Ok(b)
  }
}

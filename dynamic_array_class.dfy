/**
 * `DynamicArray<TX>` (cppexamples/DynamicArray.cpp) as the object the source declares: the
 * storage is an array that `ReAllocate` replaces, keeping the old one alive as `OldBuffer`
 * until the caller is done with it. Each method is proved to take the object from state `Abs()`
 * to the state the matching function of `DynamicArrays` computes.
 */
module DynamicArrayClass {
  import opened Common
  import opened Bits
  import opened DynamicArrays

  class DynamicArray<T> {
    /** `Buffer`; `MaxNum` is its length. */
    var buffer: array<T>
    var numEntries: nat
    /** The element whose bytes are all 0, which `memset` writes. */
    const zero: T
    /** `sizeof(TX)`. */
    const elemSize: nat

    ghost predicate Inv()
      reads this
    {
      numEntries <= buffer.Length && elemSize >= 1
    }

    function Abs(): State<T>
      reads this, buffer
    {
      State(buffer[..], numEntries)
    }

    constructor (zero: T, elemSize: nat)
      requires elemSize >= 1
      ensures Inv() && Abs() == Empty() && this.zero == zero && this.elemSize == elemSize
      ensures fresh(buffer)
    {
      this.zero, this.elemSize := zero, elemSize;
      buffer := new T[0];
      numEntries := 0;
    }

    /** `ReAllocate(num)`: returns the old storage, which the caller frees when done with it. */
    method ReAllocate(num: nat) returns (oldBuffer: array<T>)
      requires Inv() && buffer.Length <= num
      modifies this
      ensures Inv() && fresh(buffer) && oldBuffer == old(buffer)
      ensures Abs() == DynamicArrays.ReAllocate(old(Abs()), num, zero)
    {
      var b := new T[num](_ => zero);
      CopyInto(b, 0, buffer[..]);
      assert b[..] == buffer[..] + seq(num - buffer.Length, _ => zero);
      oldBuffer := buffer;
      buffer := b;
    }

    method Reserve(num: int) returns (r: Result<(), Fault>)
      requires Inv()
      modifies this
      ensures Inv() && (buffer == old(buffer) || fresh(buffer))
      ensures DynamicArrays.Reserve(old(Abs()), num, zero) == if r.Ok? then Ok(Abs()) else Err(r.error)
      ensures r.Err? ==> Abs() == old(Abs())
    {
      if num <= buffer.Length {
        if num <= 0 {
          if num < 0 {
            return Err(IndexOutOfRange);
          }
          buffer := new T[0];
          numEntries := 0;
          assert Abs() == Empty();
        }
        return Ok(());
      }
      var _ := ReAllocate(num);
      return Ok(());
    }

    method SetNum(num: int) returns (r: Result<(), Fault>)
      requires Inv()
      modifies this, buffer
      ensures Inv() && (buffer == old(buffer) || fresh(buffer))
      ensures DynamicArrays.SetNum(old(Abs()), num, zero) == if r.Ok? then Ok(Abs()) else Err(r.error)
      ensures r.Err? ==> Abs() == old(Abs())
    {
      if num < 0 {
        return Err(IndexOutOfRange);
      }
      ghost var a0 := Abs();
      ghost var b := if num > buffer.Length then DynamicArrays.Reserve(a0, num, zero).value else a0;
      ghost var want := if num > b.num then Write(b.buf, b.num, seq(num - b.num, _ => zero)) else b.buf;
      assert DynamicArrays.SetNum(a0, num, zero) == Ok(State(want, num));
      if num > buffer.Length {
        var _ := Reserve(num);
      }
      assert Abs() == b;
      if num > numEntries {
        Fill(buffer, numEntries, num, zero);
        assert buffer[..] == want;
      }
      numEntries := num;
      assert Abs() == State(want, num);
      return Ok(());
    }

    /** `Push(obj)`: returns the index `obj` gets. */
    method Push(x: T) returns (index: nat)
      requires Inv()
      modifies this, buffer
      ensures Inv() && (buffer == old(buffer) || fresh(buffer))
      ensures (Abs(), index) == DynamicArrays.Push(old(Abs()), x, elemSize, zero)
    {
      if numEntries >= buffer.Length {
        var _ := ReAllocate(GrownSize(buffer.Length, elemSize));
      }
      buffer[numEntries] := x;
      index := numEntries;
      numEntries := numEntries + 1;
    }

    /**
     * `Push(list[j])`: the object pushed lives in the array itself. It is read through the old
     * storage after `ReAllocate`, which is why `OldBuffer` is freed only after the copy.
     */
    method PushOwn(j: nat) returns (index: nat)
      requires Inv() && j < numEntries
      modifies this, buffer
      ensures Inv() && (buffer == old(buffer) || fresh(buffer))
      ensures Elements(Abs()) == old(Elements(Abs())) + [old(Elements(Abs()))[j]]
      ensures index == old(numEntries)
    {
      var obj := buffer;
      if numEntries >= buffer.Length {
        obj := ReAllocate(GrownSize(buffer.Length, elemSize));
      }
      buffer[numEntries] := obj[j];
      index := numEntries;
      numEntries := numEntries + 1;
      assert buffer[..numEntries] == old(buffer[..numEntries]) + [old(buffer[j])];
    }

    method Pop() returns (r: Result<T, Fault>)
      requires Inv()
      modifies this
      ensures Inv() && buffer == old(buffer)
      ensures match DynamicArrays.Pop(old(Abs()))
        case Ok(p) => r == Ok(p.1) && Abs() == p.0
        case Err(e) => r == Err(e) && Abs() == old(Abs())
    {
      if numEntries <= 0 {
        return Err(ArrayIsEmpty);
      }
      numEntries := numEntries - 1;
      return Ok(buffer[numEntries]);
    }

    method At(i: int) returns (r: Result<T, Fault>)
      requires Inv() && numEntries <= IntMax && -IntMax - 1 <= i <= IntMax
      ensures r == DynamicArrays.At(Abs(), i)
    {
      if Unsigned32(i) >= numEntries {
        return Err(IndexOutOfRange);
      }
      return Ok(buffer[i]);
    }

    method SetAt(i: int, x: T) returns (r: Result<(), Fault>)
      requires Inv() && numEntries <= IntMax && -IntMax - 1 <= i <= IntMax
      modifies buffer
      ensures Inv()
      ensures DynamicArrays.SetAt(old(Abs()), i, x) == if r.Ok? then Ok(Abs()) else Err(r.error)
      ensures r.Err? ==> Abs() == old(Abs())
    {
      if Unsigned32(i) >= numEntries {
        return Err(IndexOutOfRange);
      }
      buffer[i] := x;
      return Ok(());
    }
  }

  /** The loops of the example that output `list[i]` for every `i < GetNum()`. */
  method Entries(list: DynamicArray<int>) returns (s: seq<int>)
    requires list.Inv() && list.numEntries <= IntMax
    ensures s == Elements(list.Abs())
  {
    s := [];
    var i := 0;
    while i < list.numEntries
      invariant 0 <= i <= list.numEntries
      invariant s == Elements(list.Abs())[..i]
    {
      var x := list.At(i);
      s := s + [x.value];
      i := i + 1;
    }
  }

  /**
   * The first half of the example, with `n`, `x` and `y` for the size 10 and the values 10
   * and 20 it uses: `SetNum(n)`, then `list[0] = x` and `list[5] = y`.
   */
  method ArrayRun(n: int, x: int, y: int) returns (shown: seq<int>)
    requires 5 < n <= IntMax
    ensures |shown| == n
    ensures forall k :: 0 <= k < n ==> shown[k] == if k == 0 then x else if k == 5 then y else 0
  {
    var list := new DynamicArray<int>(0, 4);
    var r := list.SetNum(n);
    ghost var zeros := Elements(list.Abs());
    assert |zeros| == n && forall k :: 0 <= k < n ==> zeros[k] == 0;
    r := list.SetAt(0, x);
    r := list.SetAt(5, y);
    assert Elements(list.Abs()) == zeros[0 := x][5 := y];
    shown := Entries(list);
  }

  /** The first half: ten entries, with 10 at index 0 and 20 at index 5. */
  method ArrayExample() returns (shown: seq<int>)
    ensures shown == [10, 0, 0, 0, 0, 20, 0, 0, 0, 0]
  {
    shown := ArrayRun(10, 10, 20);
  }

  /**
   * The last loop of the example, which pops until the array is empty: the elements come out
   * last in, first out.
   */
  method PopAll(list: DynamicArray<int>) returns (out: seq<int>)
    requires list.Inv()
    modifies list
    ensures |out| == old(list.numEntries)
    ensures forall k :: 0 <= k < |out| ==> out[k] == old(Elements(list.Abs()))[|out| - 1 - k]
  {
    ghost var all := Elements(list.Abs());
    out := [];
    while list.numEntries > 0
      invariant list.Inv() && list.buffer == old(list.buffer)
      invariant |out| + list.numEntries == |all| && Elements(list.Abs()) == all[..list.numEntries]
      invariant forall k :: 0 <= k < |out| ==> out[k] == all[|all| - 1 - k]
      decreases list.numEntries
    {
      var x := list.Pop();
      out := out + [x.value];
    }
  }

  /** The `Push` statements of the example's second half, one per element of `xs`. */
  method PushAll(list: DynamicArray<int>, xs: seq<int>)
    requires list.Inv()
    modifies list, list.buffer
    ensures list.Inv() && (fresh(list.buffer) || list.buffer == old(list.buffer))
    ensures Elements(list.Abs()) == old(Elements(list.Abs())) + xs
  {
    ghost var start := Elements(list.Abs());
    var i := 0;
    while i < |xs|
      invariant 0 <= i <= |xs| && list.Inv()
      invariant fresh(list.buffer) || list.buffer == old(list.buffer)
      invariant Elements(list.Abs()) == start + xs[..i]
    {
      var index := list.Push(xs[i]);
      assert xs[..i + 1] == xs[..i] + [xs[i]];
      i := i + 1;
    }
    assert xs[..i] == xs;
  }

  /**
   * The second half of the example, with `capacity` for the 100 it reserves (on the array the
   * first half emptied with `Reserve(0)`) and `xs` for the values 51, 52 and 53 it pushes.
   */
  method StackRun(xs: seq<int>, capacity: int) returns (shown: seq<int>, popped: seq<int>)
    requires |xs| <= IntMax
    ensures shown == xs && |popped| == |xs|
    ensures forall k :: 0 <= k < |xs| ==> popped[k] == xs[|xs| - 1 - k]
  {
    var list := new DynamicArray<int>(0, 4);
    var r := list.Reserve(capacity);
    assert Elements(list.Abs()) == [];
    PushAll(list, xs);
    shown := Entries(list);
    popped := PopAll(list);
  }

  /** The second half: 51, 52, 53 pushed, then popped as 53, 52, 51. */
  method StackExample() returns (shown: seq<int>, popped: seq<int>)
    ensures shown == [51, 52, 53] && popped == [53, 52, 51]
  {
    shown, popped := StackRun([51, 52, 53], 100);
  }
}

/**
 * cppexamples/FIFOlist.cpp: a queue of at most `MAXSIZE` objects in a circular buffer. The
 * pointers `head` (next slot to fill) and `tail` (next object to take) are indices here; each
 * wraps to 0 after the last slot.
 */
module FifoLists {
  import opened Common

  /** The slot after `i` in a ring of `size` slots: `++p`, back to the start past the end. */
  function NextSlot(i: nat, size: nat): (j: nat)
    requires i < size
    ensures j < size && j == (i + 1) % size
  {
    SlotIsMod(i, 1, size);
    if i + 1 >= size then 0 else i + 1
  }

  /** The slot `k` places after slot `t` in a ring of `size` slots. */
  function Slot(t: nat, k: nat, size: nat): (j: nat)
    requires t < size && k <= size
    ensures j < size
  {
    if t + k < size then t + k else t + k - size
  }

  /** `Slot` is the source's `(t + k) mod size`. */
  lemma SlotIsMod(t: nat, k: nat, size: nat)
    requires t < size && k <= size
    ensures Slot(t, k, size) == (t + k) % size
  {
    if t + k >= size {
      assert t + k == 1 * size + (t + k - size);
    }
  }

  class FIFOlist<T(0)> {
    /** The circular buffer `list[MAXSIZE]`. */
    const list: array<T>
    var head: nat
    var tail: nat
    var n: nat

    /** Both pointers inside `list`, and `head` `n` slots after `tail`. */
    ghost predicate Valid()
      reads this
    {
      0 < list.Length && n <= list.Length && head < list.Length && tail < list.Length
      && head == Slot(tail, n, list.Length)
    }

    /** The objects in the queue, the next one `Get()` returns first. */
    ghost function Contents(): (s: seq<T>)
      reads this, list
      requires Valid()
      ensures |s| == n
    {
      seq(n, k reads this, list requires 0 <= k < n && Valid() => list[Slot(tail, k, list.Length)])
    }

    /** A template argument `MAXSIZE` of 0 would declare an array of no elements. */
    constructor (maxSize: nat)
      requires maxSize > 0
      ensures Valid() && fresh(list) && list.Length == maxSize && Contents() == []
    {
      list := new T[maxSize];
      head, tail, n := 0, 0, 0;
    }

    /** `Put(x)`: false, with nothing changed, when the queue is full. */
    method Put(x: T) returns (ok: bool)
      requires Valid()
      modifies this, list
      ensures Valid()
      ensures ok <==> old(n) < list.Length
      ensures Contents() == if ok then old(Contents()) + [x] else old(Contents())
    {
      if n >= list.Length {
        return false;
      }
      ghost var before := Contents();
      n := n + 1;
      list[head] := x;
      head := NextSlot(head, list.Length);
      forall k | 0 <= k < n - 1
        ensures list[Slot(tail, k, list.Length)] == before[k]
      {
      }
      assert Contents() == before + [x];
      return true;
    }

    /**
     * `Get()`: the object at `tail`. The source ends the process on an empty queue; here that
     * is `None`, with nothing changed.
     */
    method Get() returns (r: Option<T>)
      requires Valid()
      modifies this
      ensures Valid()
      ensures r.None? <==> old(n) == 0
      ensures r.None? ==> unchanged(this)
      ensures r.Some? ==> [r.value] + Contents() == old(Contents())
    {
      if n <= 0 {
        return None;
      }
      ghost var before := Contents();
      n := n - 1;
      var x := list[tail];
      tail := NextSlot(tail, list.Length);
      forall k | 0 <= k < n
        ensures Slot(tail, k, list.Length) == Slot(old(tail), k + 1, list.Length)
      {
      }
      assert [x] + Contents() == before;
      r := Some(x);
    }

    /** `NumObjects()`. */
    function NumObjects(): (k: int)
      reads this, list
      requires Valid()
      ensures k == |Contents()|
    {
      n
    }
  }

  /** Putting every object of `xs` into an empty queue and then getting until it is empty. */
  method PutAllGetAll(xs: seq<int>, maxSize: nat) returns (out: seq<int>)
    requires 0 < maxSize && |xs| <= maxSize
    ensures out == xs
  {
    var queue := new FIFOlist<int>(maxSize);
    PutAll(queue, xs);
    out := GetAll(queue);
  }

  method PutAll(queue: FIFOlist<int>, xs: seq<int>)
    requires queue.Valid() && queue.Contents() == [] && |xs| <= queue.list.Length
    modifies queue, queue.list
    ensures queue.Valid() && queue.Contents() == xs
  {
    var i := 0;
    while i < |xs|
      invariant 0 <= i <= |xs|
      invariant queue.Valid() && queue.n == i && queue.Contents() == xs[..i]
    {
      var ok := queue.Put(xs[i]);
      assert xs[..i + 1] == xs[..i] + [xs[i]];
      i := i + 1;
    }
    assert xs[..i] == xs;
  }

  method GetAll(queue: FIFOlist<int>) returns (out: seq<int>)
    requires queue.Valid()
    modifies queue
    ensures out == old(queue.Contents())
  {
    out := [];
    while queue.NumObjects() > 0
      invariant queue.Valid() && out + queue.Contents() == old(queue.Contents())
      decreases queue.n
    {
      out := GetNext(queue, out);
    }
  }

  /** One `Get()` from a queue known not to be empty, its object appended to `out`. */
  method GetNext(queue: FIFOlist<int>, out: seq<int>) returns (out': seq<int>)
    requires queue.Valid() && queue.n > 0
    modifies queue
    ensures queue.Valid() && queue.n < old(queue.n)
    ensures out' + queue.Contents() == out + old(queue.Contents())
  {
    var r := queue.Get();
    assert [r.value] + queue.Contents() == old(queue.Contents());
    out' := out + [r.value];
  }

  /**
   * The example: put 10, 20 and 30 into a `FIFOlist<int, 1000>`, then get until it is empty.
   * The numbers come out as 10, 20, 30.
   */
  method FifoExample() returns (out: seq<int>)
    ensures out == [10, 20, 30]
  {
    out := PutAllGetAll([10, 20, 30], 1000);
  }
}

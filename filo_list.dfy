/**
 * cppexamples/FILOlist.cpp: a stack of at most `MAXSIZE` objects in a fixed array, with a
 * pointer `top` to the first free slot (an index here) and the count `n`.
 */
module FiloLists {
  import opened Common

  /** The objects a stack holds, oldest first, after `Put(x)` succeeds. */
  function Pushed<T>(s: seq<T>, x: T): (r: seq<T>)
    ensures |r| == |s| + 1 && r[..|s|] == s && r[|s|] == x
  {
    s + [x]
  }

  /** The object `Get()` takes from a non-empty stack, and what is left. */
  function Popped<T>(s: seq<T>): (r: (T, seq<T>))
    requires |s| > 0
    ensures r.0 == s[|s| - 1] && r.1 + [r.0] == s
  {
    (s[|s| - 1], s[..|s| - 1])
  }

  /** `Get()` returns the object the last `Put` stored and leaves the stack as it was before. */
  lemma PopPushed<T>(s: seq<T>, x: T)
    ensures Popped(Pushed(s, x)) == (x, s)
  {
    assert Pushed(s, x)[..|s|] == s;
  }

  /** Objects put in one order come out in the opposite order. */
  function Reverse<T>(s: seq<T>): (r: seq<T>)
    ensures |r| == |s|
  {
    if s == [] then [] else Reverse(s[1..]) + [s[0]]
  }

  /** Putting `x` last reverses to `x` first. */
  lemma {:induction false} ReverseSnoc<T>(s: seq<T>, x: T)
    ensures Reverse(s + [x]) == [x] + Reverse(s)
    decreases |s|
  {
    if s != [] {
      assert (s + [x])[1..] == s[1..] + [x];
      ReverseSnoc(s[1..], x);
    }
  }

  class FILOlist<T(0)> {
    /** `list[MAXSIZE]`. */
    const list: array<T>
    /** `top`, as the index of the first free slot. */
    var top: nat
    var n: nat

    ghost predicate Valid()
      reads this
    {
      top == n <= list.Length
    }

    /** The objects in the stack, oldest first. */
    ghost function Contents(): (s: seq<T>)
      reads this, list
      requires Valid()
      ensures |s| == n
    {
      list[..n]
    }

    constructor (maxSize: nat)
      ensures Valid() && fresh(list) && list.Length == maxSize && Contents() == []
    {
      list := new T[maxSize];
      top, n := 0, 0;
    }

    /** `Put(x)`: false, with nothing changed, when the stack is full. */
    method Put(x: T) returns (ok: bool)
      requires Valid()
      modifies this, list
      ensures Valid()
      ensures ok <==> old(n) < list.Length
      ensures Contents() == if ok then Pushed(old(Contents()), x) else old(Contents())
    {
      if n >= list.Length {
        return false;
      }
      n := n + 1;
      list[top] := x;
      top := top + 1;
      return true;
    }

    /**
     * `Get()`: the object below `top`. The source ends the process on an empty stack; here that
     * is `None`, with nothing changed.
     */
    method Get() returns (r: Option<T>)
      requires Valid()
      modifies this
      ensures Valid()
      ensures r.None? <==> old(n) == 0
      ensures r.None? ==> unchanged(this)
      ensures r.Some? ==> (r.value, Contents()) == Popped(old(Contents()))
    {
      if n <= 0 {
        return None;
      }
      n := n - 1;
      top := top - 1;
      var x := list[top];
      assert old(Contents()) == list[..n] + [x];
      r := Some(x);
    }

    /** `NumObjects()`. */
    function NumObjects(): (k: int)
      reads this, list
      requires Valid()
      ensures k == |Contents()|
    {
      n
    }
  }

  /** Putting every object of `xs` into an empty stack and then getting until it is empty. */
  method PutAllGetAll(xs: seq<int>, maxSize: nat) returns (out: seq<int>)
    requires |xs| <= maxSize
    ensures out == Reverse(xs)
  {
    var stack := new FILOlist<int>(maxSize);
    PutAll(stack, xs);
    out := GetAll(stack);
  }

  method PutAll(stack: FILOlist<int>, xs: seq<int>)
    requires stack.Valid() && stack.Contents() == [] && |xs| <= stack.list.Length
    modifies stack, stack.list
    ensures stack.Valid() && stack.Contents() == xs
  {
    var i := 0;
    while i < |xs|
      invariant 0 <= i <= |xs|
      invariant stack.Valid() && stack.n == i && stack.Contents() == xs[..i]
    {
      var ok := stack.Put(xs[i]);
      assert xs[..i + 1] == xs[..i] + [xs[i]];
      i := i + 1;
    }
    assert xs[..i] == xs;
  }

  method GetAll(stack: FILOlist<int>) returns (out: seq<int>)
    requires stack.Valid()
    modifies stack
    ensures out == Reverse(old(stack.Contents()))
  {
    out := [];
    while stack.NumObjects() > 0
      invariant stack.Valid() && out + Reverse(stack.Contents()) == Reverse(old(stack.Contents()))
      decreases stack.n
    {
      ghost var before := stack.Contents();
      var r := stack.Get();
      var x := r.value;
      assert before == stack.Contents() + [x];
      ReverseSnoc(stack.Contents(), x);
      out := out + [x];
    }
  }

  lemma ReverseThree<T>(a: T, b: T, c: T)
    ensures Reverse([a, b, c]) == [c, b, a]
  {
    assert [a, b, c][1..] == [b, c] && [b, c][1..] == [c] && [c][1..] == [];
    assert Reverse([c]) == [c];
    assert Reverse([b, c]) == [c, b];
  }

  /**
   * The example: put 10, 20 and 30 into a `FILOlist<int, 1000>`, then get until it is empty.
   * The numbers come out as 30, 20, 10.
   */
  method FiloExample() returns (out: seq<int>)
    ensures out == [30, 20, 10]
  {
    out := PutAllGetAll([10, 20, 30], 1000);
    ReverseThree(10, 20, 30);
  }
}

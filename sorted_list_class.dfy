/**
 * cppexamples/SortedList.cpp as a class: the fixed array `list[MAXSIZE]` and the count `num`,
 * with `Search` a bisection loop and `Put`, `PutUnique` and `Remove` moving the objects in
 * place, each proved against the functions of `SortedLists`.
 */
module SortedListClass {
  import opened Common
  import opened SortedLists

  /** `memmove(a + at + 1, a + at, (n - at) * sizeof(T))`: objects `at .. n - 1` up one place. */
  method MoveUp<T>(a: array<T>, at: nat, n: nat)
    requires at <= n < a.Length
    modifies a
    ensures a[..] == old(a[..at + 1]) + old(a[at..n]) + old(a[n + 1..])
  {
    ghost var s := a[..];
    var k := n;
    while k > at
      invariant at <= k <= n
      invariant forall i :: 0 <= i <= k ==> a[i] == s[i]
      invariant forall i :: k < i <= n ==> a[i] == s[i - 1]
      invariant forall i :: n < i < a.Length ==> a[i] == s[i]
    {
      a[k] := a[k - 1];
      k := k - 1;
    }
    assert a[..] == s[..at + 1] + s[at..n] + s[n + 1..];
  }

  /** `memmove(a + at, a + at + 1, (n - at - 1) * sizeof(T))`: objects `at + 1 .. n - 1` down one place. */
  method MoveDown<T>(a: array<T>, at: nat, n: nat)
    requires at < n <= a.Length
    modifies a
    ensures a[..] == old(a[..at]) + old(a[at + 1..n]) + old(a[n - 1..])
  {
    ghost var s := a[..];
    var k := at;
    while k < n - 1
      invariant at <= k <= n - 1
      invariant forall i :: 0 <= i < at ==> a[i] == s[i]
      invariant forall i :: at <= i < k ==> a[i] == s[i + 1]
      invariant forall i :: k <= i < a.Length ==> a[i] == s[i]
    {
      a[k] := a[k + 1];
      k := k + 1;
    }
    assert a[..] == s[..at] + s[at + 1..n] + s[n - 1..];
  }

  class SortedList<T(0)> {
    /** `MAXSIZE`. */
    const maxSize: nat
    /** The sort criterion: `a < b` is `key(a) < key(b)`. */
    const key: T -> int
    /** `list[MAXSIZE]`. */
    const list: array<T>
    var num: nat

    ghost predicate Inv()
      reads this, list
    {
      list.Length == maxSize && num <= maxSize && Sorted(list[..num], key)
    }

    /** The objects in the list, in order. */
    ghost function Contents(): seq<T>
      reads this, list
      requires num <= list.Length
    {
      list[..num]
    }

    constructor (maxSize: nat, key: T -> int)
      ensures Inv() && Contents() == [] && this.maxSize == maxSize && this.key == key
    {
      this.maxSize, this.key := maxSize, key;
      list := new T[maxSize];
      num := 0;
    }

    /** `NumRecords()`. */
    function NumRecords(): (n: nat)
      reads this, list
      requires Inv()
      ensures n == |Contents()|
    {
      num
    }

    /** `Search(x)`: bisection for the first object not less than `x`. */
    method Search(x: T) returns (a: nat)
      requires Inv()
      ensures a == LowerBound(Contents(), key, key(x))
    {
      a := 0;
      var b := num;
      while a < b
        invariant 0 <= a <= b <= num
        invariant forall i :: 0 <= i < a ==> key(list[i]) < key(x)
        invariant forall i :: b <= i < num ==> key(list[i]) >= key(x)
      {
        var c := (a + b) / 2;
        if key(list[c]) < key(x) {
          forall i | 0 <= i <= c
            ensures key(list[i]) < key(x)
          {
            assert list[..num][i] == list[i] && list[..num][c] == list[c];
          }
          a := c + 1;
        } else {
          forall i | c <= i < num
            ensures key(list[i]) >= key(x)
          {
            assert list[..num][i] == list[i] && list[..num][c] == list[c];
          }
          b := c;
        }
      }
      LowerBoundUnique(Contents(), key, key(x), a);
    }

    /** `list[a] = x` after moving the objects from `a` up, and `num++`. */
    method InsertAt(a: nat, x: T)
      requires Inv() && a <= num < maxSize
      modifies this, list
      ensures num == old(num) + 1
      ensures Contents() == Insert(old(Contents()), a, x)
    {
      ghost var s := Contents();
      if num > a {
        MoveUp(list, a, num);
      }
      list[a] := x;
      num := num + 1;
      assert Contents() == s[..a] + [x] + s[a..];
    }

    /** `Put(x)`: false on a full list, otherwise `x` stored in order. */
    method Put(x: T) returns (ok: bool)
      requires Inv()
      modifies this, list
      ensures Inv()
      ensures (ok, Contents()) == SortedLists.Put(old(Contents()), key, maxSize, x)
    {
      if num >= maxSize {
        return false;
      }
      var a := Search(x);
      ghost var s := Contents();
      InsertAt(a, x);
      InsertSorted(s, key, x);
      return true;
    }

    /** `PutUnique(x)`: like `Put`, except that an object equivalent to `x` keeps it out. */
    method PutUnique(x: T) returns (ok: bool)
      requires Inv()
      modifies this, list
      ensures Inv()
      ensures (ok, Contents()) == SortedLists.PutUnique(old(Contents()), key, maxSize, x)
    {
      if num >= maxSize {
        return false;
      }
      var a := Search(x);
      if a < num && !(key(x) < key(list[a])) {
        return true;
      }
      ghost var s := Contents();
      InsertAt(a, x);
      InsertSorted(s, key, x);
      return true;
    }

    /** `Remove(i)`: the object at `i` taken out; no change for `i >= num`. */
    method Remove(i: nat)
      requires Inv()
      modifies this, list
      ensures Inv()
      ensures Contents() == SortedLists.Remove(old(Contents()), i)
    {
      if i >= num {
        return;
      }
      ghost var s := Contents();
      if num > i + 1 {
        MoveDown(list, i, num);
      }
      num := num - 1;
      assert Contents() == s[..i] + s[i + 1..];
      RemoveSorted(s, key, i);
    }

    /** `Exists(x, Index)`: the position of an object equivalent to `x`, if there is one. */
    method Exists(x: T) returns (found: bool, index: nat)
      requires Inv()
      ensures found == SortedLists.Exists(Contents(), key, x).Some?
      ensures found ==> index == SortedLists.Exists(Contents(), key, x).value
    {
      var i := Search(x);
      if i >= num || key(x) < key(list[i]) {
        return false, 0;
      }
      return true, i;
    }

    /** `list[i]`. */
    method At(i: nat) returns (r: Result<T, Fault>)
      requires Inv()
      ensures r == SortedLists.At(Contents(), i)
    {
      if i >= num {
        return Err(IndexOutOfRange);
      }
      return Ok(list[i]);
    }
  }
}

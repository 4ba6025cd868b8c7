/**
 * cppexamples/SortedList.cpp: a list of at most `MAXSIZE` objects kept sorted by the
 * objects' `operator <`, searched by bisection. Two objects are equivalent when neither is
 * less than the other.
 *
 * The model orders objects by an integer key: `a < b` is `key(a) < key(b)`. Every strict weak
 * ordering of finitely many objects is of this form (rank the equivalence classes), so the
 * key loses nothing that the list relies on; equivalent objects share a key without being
 * equal.
 */
module SortedLists {
  import opened Common

  datatype Fault = IndexOutOfRange

  /** The order the list keeps: no object is less than one before it. */
  ghost predicate Sorted<T>(s: seq<T>, key: T -> int) {
    forall i, j :: 0 <= i < j < |s| ==> key(s[i]) <= key(s[j])
  }

  /** Sorted with no two equivalent objects, as `PutUnique` alone builds it. */
  ghost predicate StrictlySorted<T>(s: seq<T>, key: T -> int) {
    forall i, j :: 0 <= i < j < |s| ==> key(s[i]) < key(s[j])
  }

  /**
   * The first position whose object is not less than `k`, found by looking at the objects
   * in turn: the reference `Search` is measured against.
   */
  function LowerBound<T>(s: seq<T>, key: T -> int, k: int): (r: nat)
    ensures r <= |s|
    ensures forall i :: 0 <= i < r ==> key(s[i]) < k
    ensures r < |s| ==> key(s[r]) >= k
  {
    if s == [] || key(s[0]) >= k then 0 else 1 + LowerBound(s[1..], key, k)
  }

  /** On a sorted list the lower bound splits it: less than `k` before, not less from there on. */
  lemma LowerBoundSplits<T>(s: seq<T>, key: T -> int, k: int)
    requires Sorted(s, key)
    ensures forall i :: LowerBound(s, key, k) <= i < |s| ==> key(s[i]) >= k
  {
    var r := LowerBound(s, key, k);
    forall i | r <= i < |s|
      ensures key(s[i]) >= k
    {
      if r < i {
        assert key(s[r]) <= key(s[i]);
      }
    }
  }

  /** A position with less objects before it and none at it is the lower bound. */
  lemma LowerBoundUnique<T>(s: seq<T>, key: T -> int, k: int, a: nat)
    requires a <= |s| && forall i :: 0 <= i < a ==> key(s[i]) < k
    requires a < |s| ==> key(s[a]) >= k
    ensures a == LowerBound(s, key, k)
  {
  }

  /** `x` stored at position `a`, the objects from `a` on moved up one place. */
  function Insert<T>(s: seq<T>, a: nat, x: T): (r: seq<T>)
    requires a <= |s|
    ensures |r| == |s| + 1 && r[a] == x
    ensures forall i :: 0 <= i < a ==> r[i] == s[i]
    ensures forall i :: a < i < |r| ==> r[i] == s[i - 1]
  {
    s[..a] + [x] + s[a..]
  }

  /**
   * `Put(x)`: false and no change on a full list; otherwise `x` goes in before the first
   * object not less than it.
   */
  function Put<T>(s: seq<T>, key: T -> int, maxSize: nat, x: T): (r: (bool, seq<T>))
    ensures r.0 <==> |s| < maxSize
    ensures !r.0 ==> r.1 == s
    ensures r.0 ==> |r.1| == |s| + 1
  {
    if |s| >= maxSize then (false, s) else (true, Insert(s, LowerBound(s, key, key(x)), x))
  }

  /** Inserting at the lower bound keeps the list sorted. */
  lemma InsertSorted<T>(s: seq<T>, key: T -> int, x: T)
    requires Sorted(s, key)
    ensures Sorted(Insert(s, LowerBound(s, key, key(x)), x), key)
  {
    var a := LowerBound(s, key, key(x));
    var r := Insert(s, a, x);
    LowerBoundSplits(s, key, key(x));
    forall i, j | 0 <= i < j < |r|
      ensures key(r[i]) <= key(r[j])
    {
      if j < a {
      } else if j == a {
      } else if i < a {
        assert key(r[i]) < key(x) && key(x) <= key(r[j]);
      } else if i == a {
      } else {
        assert key(s[i - 1]) <= key(s[j - 1]);
      }
    }
  }

  /** `Insert` adds exactly `x` to the objects. */
  lemma InsertMultiset<T>(s: seq<T>, a: nat, x: T)
    requires a <= |s|
    ensures multiset(Insert(s, a, x)) == multiset(s) + multiset{x}
  {
    assert s == s[..a] + s[a..];
  }

  /**
   * `Put` on a sorted list that is not full: the list stays sorted, gains exactly `x`, and
   * `x` comes after the objects less than it and before the others, equivalent ones
   * included.
   */
  lemma PutSorted<T>(s: seq<T>, key: T -> int, maxSize: nat, x: T)
    requires Sorted(s, key) && |s| < maxSize
    ensures var t := Put(s, key, maxSize, x).1;
      && Sorted(t, key) && multiset(t) == multiset(s) + multiset{x}
      && (exists a :: 0 <= a < |t| && t[a] == x
            && (forall i :: 0 <= i < a ==> key(t[i]) < key(x))
            && (forall i :: a < i < |t| ==> key(t[i]) >= key(x)))
  {
    var a := LowerBound(s, key, key(x));
    var t := Put(s, key, maxSize, x).1;
    InsertSorted(s, key, x);
    InsertMultiset(s, a, x);
    LowerBoundSplits(s, key, key(x));
    assert forall i :: a < i < |t| ==> t[i] == s[i - 1];
  }

  /**
   * `PutUnique(x)`: false and no change on a full list, even when an equivalent object is
   * there; true and no change when one is; otherwise the same insertion as `Put`.
   */
  function PutUnique<T>(s: seq<T>, key: T -> int, maxSize: nat, x: T): (r: (bool, seq<T>))
    ensures r.0 <==> |s| < maxSize
    ensures r.1 == s || r.1 == Put(s, key, maxSize, x).1
  {
    if |s| >= maxSize then (false, s)
    else
      var a := LowerBound(s, key, key(x));
      if a < |s| && !(key(x) < key(s[a])) then (true, s)
      else (true, Insert(s, a, x))
  }

  /** Whether some object of `s` is equivalent to `x`. */
  ghost predicate Holds<T>(s: seq<T>, key: T -> int, x: T) {
    exists i :: 0 <= i < |s| && key(s[i]) == key(x)
  }

  /**
   * `PutUnique` on a sorted list with room: it leaves the list as it was exactly when an
   * equivalent object is there, and keeps a list without equivalent objects free of them.
   */
  lemma PutUniqueMeans<T>(s: seq<T>, key: T -> int, maxSize: nat, x: T)
    requires Sorted(s, key) && |s| < maxSize
    ensures var t := PutUnique(s, key, maxSize, x).1;
      && (t == s <==> Holds(s, key, x))
      && Holds(t, key, x)
      && (StrictlySorted(s, key) ==> StrictlySorted(t, key))
  {
    var a := LowerBound(s, key, key(x));
    var t := PutUnique(s, key, maxSize, x).1;
    LowerBoundSplits(s, key, key(x));
    if a < |s| && !(key(x) < key(s[a])) {
      assert key(s[a]) == key(x);
    } else {
      assert |t| == |s| + 1 && t[a] == x;
      assert forall i :: 0 <= i < |s| ==> key(s[i]) != key(x) by {
        forall i | 0 <= i < |s|
          ensures key(s[i]) != key(x)
        {
          if a <= i && a < |s| {
            assert key(s[a]) <= key(s[i]);
          }
        }
      }
      assert t != s;
      if StrictlySorted(s, key) {
        forall i, j | 0 <= i < j < |t|
          ensures key(t[i]) < key(t[j])
        {
          if j < a || a < i {
          } else if i == a {
            assert a < |s| && key(s[a]) <= key(t[j]);
          } else {
            assert key(t[i]) < key(x);
          }
        }
      }
    }
  }

  /** `Remove(i)`: the object at `i` taken out and the others moved down; no change past the end. */
  function Remove<T>(s: seq<T>, i: nat): (r: seq<T>)
    ensures i >= |s| ==> r == s
    ensures i < |s| ==> |r| == |s| - 1
    ensures i < |s| ==> forall j :: 0 <= j < i ==> r[j] == s[j]
    ensures i < |s| ==> forall j :: i <= j < |r| ==> r[j] == s[j + 1]
  {
    if i >= |s| then s else s[..i] + s[i + 1..]
  }

  /** `Remove` keeps the order and loses exactly the object at `i`. */
  lemma RemoveSorted<T>(s: seq<T>, key: T -> int, i: nat)
    requires Sorted(s, key) && i < |s|
    ensures Sorted(Remove(s, i), key)
    ensures multiset(Remove(s, i)) + multiset{s[i]} == multiset(s)
  {
    var r := Remove(s, i);
    forall j, k | 0 <= j < k < |r|
      ensures key(r[j]) <= key(r[k])
    {
      var j' := if j < i then j else j + 1;
      var k' := if k < i then k else k + 1;
      assert r[j] == s[j'] && r[k] == s[k'] && j' < k';
    }
    assert s == s[..i] + [s[i]] + s[i + 1..];
  }

  /**
   * `Exists(x, Index)`: the position of an object equivalent to `x`, or `None` for false (the
   * source then leaves `Index` as it was).
   */
  function Exists<T>(s: seq<T>, key: T -> int, x: T): (r: Option<nat>)
    ensures r.Some? ==> r.value < |s| && key(s[r.value]) == key(x)
  {
    var i := LowerBound(s, key, key(x));
    if i >= |s| || key(x) < key(s[i]) then None else Some(i)
  }

  /** On a sorted list `Exists` finds an equivalent object exactly when there is one, and the first. */
  lemma ExistsMeans<T>(s: seq<T>, key: T -> int, x: T)
    requires Sorted(s, key)
    ensures Exists(s, key, x).Some? <==> Holds(s, key, x)
    ensures Exists(s, key, x).Some? ==>
      forall j :: 0 <= j < Exists(s, key, x).value ==> key(s[j]) != key(x)
  {
    var i := LowerBound(s, key, key(x));
    LowerBoundSplits(s, key, key(x));
    if Holds(s, key, x) {
      var j :| 0 <= j < |s| && key(s[j]) == key(x);
      assert i <= j;
      assert key(s[i]) <= key(s[j]);
    }
  }

  /** An object `Put` stored is then found. */
  lemma PutThenExists<T>(s: seq<T>, key: T -> int, maxSize: nat, x: T)
    requires Sorted(s, key) && |s| < maxSize
    ensures Exists(Put(s, key, maxSize, x).1, key, x).Some?
  {
    var t := Put(s, key, maxSize, x).1;
    PutSorted(s, key, maxSize, x);
    ExistsMeans(t, key, x);
    var a := LowerBound(s, key, key(x));
    assert t[a] == x;
  }

  /** `list[i]`: the object at `i`; an index past the end is an error (a null reference). */
  function At<T>(s: seq<T>, i: nat): (r: Result<T, Fault>)
    ensures r.Ok? <==> i < |s|
    ensures r.Ok? ==> r.value == s[i]
  {
    if i >= |s| then Err(IndexOutOfRange) else Ok(s[i])
  }
}

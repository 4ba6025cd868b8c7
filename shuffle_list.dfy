/**
 * testp/TestScripts/shufflelist.cpp on values: `StochasticLib1::Shuffle`, the Fisher–Yates
 * (Durstenfeld) shuffle of the numbers `min .. min + n - 1`, and the circular chain `shuffle()`
 * links through the shuffled list for a random walk. The random choice `IRandom(i, n - 1)` of
 * each swap is a draw given from outside (`MersenneTwister.IRandom`).
 *
 * The chain is a successor table over node numbers: `next[a] == b` stands for the pointer the
 * source stores at `buffer_aligned + a * stride`, which points to `buffer_aligned + b * stride`.
 */
module ShuffleLists {
  import opened Common
  import opened MersenneTwister

  /** `min, min + 1, ..., min + n - 1`; nothing for `n <= 0`. */
  function Range(min: int, n: int): (r: seq<int>)
    ensures |r| == Max(n, 0) && forall i :: 0 <= i < |r| ==> r[i] == min + i
  {
    seq(Max(n, 0), i => min + i)
  }

  /** Each of `min .. min + n - 1` occurs in the range once, and nothing else does. */
  lemma {:induction false} RangeCount(min: int, n: nat, v: int)
    ensures multiset(Range(min, n))[v] == if min <= v < min + n then 1 else 0
  {
    if n > 0 {
      assert Range(min, n) == Range(min, n - 1) + [min + n - 1];
      RangeCount(min, n - 1, v);
    }
  }

  /** `swap = list[j]; list[j] = list[i]; list[i] = swap`. */
  function Swap(s: seq<int>, i: nat, j: nat): (r: seq<int>)
    requires i < |s| && j < |s|
    ensures |r| == |s| && r[i] == s[j] && r[j] == s[i]
    ensures forall k :: 0 <= k < |s| && k != i && k != j ==> r[k] == s[k]
  {
    s[i := s[j]][j := s[i]]
  }

  lemma SwapMultiset(s: seq<int>, i: nat, j: nat)
    requires i < |s| && j < |s|
    ensures multiset(Swap(s, i, j)) == multiset(s)
  {
  }

  /**
   * The swap loop from position `i` on: position `i` is swapped with the one `IRandom(i, n - 1)`
   * picks for the first draw, then the loop goes on at `i + 1` with the other draws.
   */
  function Swaps(s: seq<int>, i: nat, draws: seq<nat>): (r: seq<int>)
    requires i + |draws| >= |s| - 1
    ensures |r| == |s|
    decreases |s| - i
  {
    if i + 1 >= |s| then s
    else Swaps(Swap(s, i, IRandom(i, |s| - 1, draws[0])), i + 1, draws[1..])
  }

  /** `Shuffle(list, min, n)` with the given draws: the list it leaves. */
  function Shuffled(min: int, n: int, draws: seq<nat>): (r: seq<int>)
    requires |draws| >= n - 1
    ensures |r| == Max(n, 0)
  {
    Swaps(Range(min, n), 0, draws)
  }

  /** The swaps from `i` on rearrange the entries and leave the ones before `i` alone. */
  lemma {:induction false} SwapsPermutes(s: seq<int>, i: nat, draws: seq<nat>)
    requires i <= |s| && i + |draws| >= |s| - 1
    ensures multiset(Swaps(s, i, draws)[i..]) == multiset(s[i..])
    ensures Swaps(s, i, draws)[..i] == s[..i]
    decreases |s| - i
  {
    if i + 1 < |s| {
      var j := IRandom(i, |s| - 1, draws[0]);
      var t := Swap(s, i, j);
      SwapTail(s, i, j);
      SwapsPermutes(t, i + 1, draws[1..]);
      var r := Swaps(t, i + 1, draws[1..]);
      assert r[..i] == s[..i] && r[i] == t[i] by {
        assert r[..i] == r[..i + 1][..i] && t[..i] == t[..i + 1][..i];
      }
      Cons(r, i);
      Cons(t, i);
    }
  }

  /** The entries from `i` on are the one at `i` and those after it. */
  lemma Cons(s: seq<int>, i: nat)
    requires i < |s|
    ensures multiset(s[i..]) == multiset{s[i]} + multiset(s[i + 1..])
  {
    assert s[i..] == [s[i]] + s[i + 1..];
  }

  /**
   * Whatever the draws, `Shuffle(list, min, n)` leaves each of the numbers `min .. min + n - 1`
   * in the list exactly once.
   */
  lemma ShuffledPermutes(min: int, n: int, draws: seq<nat>)
    requires |draws| >= n - 1
    ensures multiset(Shuffled(min, n, draws)) == multiset(Range(min, n))
    ensures forall v :: multiset(Shuffled(min, n, draws))[v] == if min <= v < min + n then 1 else 0
  {
    var s := Range(min, n);
    SwapsPermutes(s, 0, draws);
    assert Shuffled(min, n, draws)[0..] == Shuffled(min, n, draws) && s[0..] == s;
    forall v
      ensures multiset(Shuffled(min, n, draws))[v] == if min <= v < min + n then 1 else 0
    {
      RangeCount(min, Max(n, 0), v);
    }
  }

  /**
   * Every rearrangement of the entries from `i` on is what the swaps make of them for some
   * draws: the first draw brings the wanted entry to `i`, the others do the rest.
   */
  lemma {:induction false} SwapsReach(s: seq<int>, i: nat, p: seq<int>)
    requires i <= |s| && |p| == |s| && p[..i] == s[..i]
    requires multiset(p[i..]) == multiset(s[i..])
    ensures exists draws: seq<nat> :: i + |draws| >= |s| - 1 && Swaps(s, i, draws) == p
    decreases |s| - i
  {
    if i + 1 >= |s| {
      LastEntry(s, i, p);
      var draws: seq<nat> := [];
      assert Swaps(s, i, draws) == p;
    } else {
      var j := Find(s, i, p[i]);
      var t := Swap(s, i, j);
      ReachStep(s, i, p, j);
      SwapsReach(t, i + 1, p);
      var rest: seq<nat> :| i + 1 + |rest| >= |s| - 1 && Swaps(t, i + 1, rest) == p;
      var draws: seq<nat> := [j - i] + rest;
      assert IRandom(i, |s| - 1, draws[0]) == j;
      assert draws[1..] == rest;
      assert Swaps(s, i, draws) == p;
    }
  }

  /** With at most one entry left to place, the entries already agree. */
  lemma LastEntry(s: seq<int>, i: nat, p: seq<int>)
    requires i <= |s| <= i + 1 && |p| == |s| && p[..i] == s[..i]
    requires multiset(p[i..]) == multiset(s[i..])
    ensures p == s
  {
    if i < |s| {
      assert s[i..] == [s[i]] && p[i..] == [p[i]];
      assert p[i] in multiset(s[i..]);
    }
    assert p == p[..i] + p[i..] && s == s[..i] + s[i..];
  }

  /** A position from `i` on holding `v`, which the entries from `i` on contain. */
  lemma Find(s: seq<int>, i: nat, v: int) returns (j: nat)
    requires i <= |s| && v in multiset(s[i..])
    ensures i <= j < |s| && s[j] == v
  {
    assert v in s[i..];
    var k :| 0 <= k < |s| - i && s[i..][k] == v;
    j := i + k;
  }

  /** Swapping the wanted entry to `i` leaves one entry fewer to place. */
  lemma ReachStep(s: seq<int>, i: nat, p: seq<int>, j: nat)
    requires i <= j < |s| && |p| == |s| && p[..i] == s[..i] && s[j] == p[i]
    requires multiset(p[i..]) == multiset(s[i..])
    ensures Swap(s, i, j)[..i + 1] == p[..i + 1]
    ensures multiset(Swap(s, i, j)[i + 1..]) == multiset(p[i + 1..])
  {
    var t := Swap(s, i, j);
    SwapTail(s, i, j);
    assert t[..i + 1] == t[..i] + [t[i]] && p[..i + 1] == p[..i] + [p[i]];
    DropEqual(t, p, i);
  }

  /** Equal multisets from `i` on that agree at `i` are equal multisets from `i + 1` on. */
  lemma DropEqual(a: seq<int>, b: seq<int>, i: nat)
    requires i < |a| && i < |b| && a[i] == b[i] && multiset(a[i..]) == multiset(b[i..])
    ensures multiset(a[i + 1..]) == multiset(b[i + 1..])
  {
    Cons(a, i);
    Cons(b, i);
    var x, m, n := a[i], multiset(a[i + 1..]), multiset(b[i + 1..]);
    assert multiset{x} + m == multiset{x} + n;
    forall v
      ensures m[v] == n[v]
    {
      assert (multiset{x} + m)[v] == multiset{x}[v] + m[v];
      assert (multiset{x} + n)[v] == multiset{x}[v] + n[v];
    }
  }

  /** A swap within the entries from `i` on keeps them the same multiset. */
  lemma SwapTail(s: seq<int>, i: nat, j: nat)
    requires i <= j < |s|
    ensures multiset(Swap(s, i, j)[i..]) == multiset(s[i..])
    ensures Swap(s, i, j)[..i] == s[..i]
  {
    var t := Swap(s, i, j);
    assert t[i..] == Swap(s[i..], 0, j - i);
    SwapMultiset(s[i..], 0, j - i);
  }

  /** Every order of `min .. min + n - 1` is the outcome of `Shuffle` for some draws. */
  lemma ShuffleReachesAll(min: int, n: int, p: seq<int>)
    requires multiset(p) == multiset(Range(min, n)) && |p| == Max(n, 0)
    ensures exists draws: seq<nat> :: |draws| >= n - 1 && Shuffled(min, n, draws) == p
  {
    var s := Range(min, n);
    assert p[0..] == p && s[0..] == s;
    SwapsReach(s, 0, p);
  }

  // The chain of `shuffle()`.

  /** The entry after `k` in a circular list of `n` entries. */
  function Succ(k: nat, n: nat): nat {
    if k + 1 >= n then 0 else k + 1
  }

  /** `list` holds each of the node numbers `0 .. n - 1` once. */
  ghost predicate IsPermutation(list: seq<int>, n: nat) {
    |list| == n && multiset(list) == multiset(Range(0, n))
  }

  /** The links of the chain loop: from each entry of `list` to the next one, the last to the first. */
  ghost predicate Linked(next: seq<int>, list: seq<int>) {
    forall k :: 0 <= k < |list| ==> 0 <= list[k] < |next| && next[list[k]] == list[Succ(k, |list|)]
  }

  lemma PermutationInRange(list: seq<int>, n: nat)
    requires IsPermutation(list, n)
    ensures forall k :: 0 <= k < n ==> 0 <= list[k] < n
  {
    forall k | 0 <= k < n
      ensures 0 <= list[k] < n
    {
      assert list[k] in multiset(list);
      RangeCount(0, n, list[k]);
    }
  }

  lemma PermutationDistinct(list: seq<int>, n: nat)
    requires IsPermutation(list, n)
    ensures forall a, b :: 0 <= a < b < n ==> list[a] != list[b]
  {
    forall a, b | 0 <= a < b < n
      ensures list[a] != list[b]
    {
      if list[a] == list[b] {
        assert list == list[..b] + [list[b]] + list[b + 1..];
        assert list[a] in multiset(list[..b]);
        assert multiset(list)[list[b]] >= 2;
        RangeCount(0, n, list[b]);
        assert false;
      }
    }
  }

  lemma PermutationCovers(list: seq<int>, n: nat, v: int)
    requires IsPermutation(list, n) && 0 <= v < n
    ensures exists k :: 0 <= k < n && list[k] == v
  {
    RangeCount(0, n, v);
    assert v in multiset(list);
  }

  /** Following `steps` links from node `x`. */
  function Walk(next: seq<int>, x: int, steps: nat): int
    decreases steps
  {
    if steps == 0 || !(0 <= x < |next|) then x else Walk(next, next[x], steps - 1)
  }

  /** `i + k` round the circle. */
  function Wrap(j: nat, n: nat): nat {
    if j >= n then j - n else j
  }

  /** From entry `i`, `k` links lead to entry `i + k` round the circle. */
  lemma {:induction false} WalkAlong(next: seq<int>, list: seq<int>, i: nat, k: nat)
    requires Linked(next, list) && i < |list| && k <= |list|
    ensures Walk(next, list[i], k) == list[Wrap(i + k, |list|)]
    decreases k
  {
    if k > 0 {
      var n := |list|;
      assert next[list[i]] == list[Succ(i, n)];
      WalkAlong(next, list, Succ(i, n), k - 1);
    }
  }

  /** Node `y` is among the first `n` nodes of the walk from `x`. */
  ghost predicate Visited(next: seq<int>, x: int, n: nat, y: int) {
    exists k :: 0 <= k < n && Walk(next, x, k) == y
  }

  /**
   * The chain over a permutation of `0 .. n - 1` is one cycle through all nodes: from any node,
   * `n` links lead back to it, and the first `n` steps visit every node exactly once.
   */
  lemma ChainIsOneCycle(next: seq<int>, list: seq<int>, n: nat, x: int)
    requires IsPermutation(list, n) && Linked(next, list) && 0 <= x < n
    ensures Walk(next, x, n) == x
    ensures forall a, b :: 0 <= a < b < n ==> Walk(next, x, a) != Walk(next, x, b)
    ensures forall y :: 0 <= y < n ==> Visited(next, x, n, y)
  {
    PermutationCovers(list, n, x);
    var i :| 0 <= i < n && list[i] == x;
    WalkAlong(next, list, i, n);
    PermutationDistinct(list, n);
    forall a, b | 0 <= a < b < n
      ensures Walk(next, x, a) != Walk(next, x, b)
    {
      WalkAlong(next, list, i, a);
      WalkAlong(next, list, i, b);
      var ja, jb := Wrap(i + a, n), Wrap(i + b, n);
      assert ja != jb;
      if ja < jb {
        assert list[ja] != list[jb];
      } else {
        assert list[jb] != list[ja];
      }
    }
    forall y | 0 <= y < n
      ensures Visited(next, x, n, y)
    {
      PermutationCovers(list, n, y);
      var j :| 0 <= j < n && list[j] == y;
      var k := if j >= i then j - i else j + n - i;
      WalkAlong(next, list, i, k);
      assert Walk(next, x, k) == y;
    }
  }
}

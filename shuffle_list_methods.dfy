/**
 * The loops of testp/TestScripts/shufflelist.cpp on arrays: `StochasticLib1::Shuffle` filling
 * and then shuffling `list` in place, and `shuffle()` writing the chain of links. Each is
 * proved against the functions of `ShuffleLists`.
 */
module ShuffleListMethods {
  import opened Common
  import opened MersenneTwister
  import opened ShuffleLists

  /**
   * `Shuffle(list, min, n)`: `list[i] = min + i` for `i < n`, then for each `i < n - 1` a swap
   * of entries `i` and `IRandom(i, n - 1)`, the choice being `draws[i]`.
   */
  method Shuffle(list: array<int>, min: int, n: int, draws: seq<nat>)
    requires n <= list.Length && |draws| >= n - 1
    modifies list
    ensures list[..Max(n, 0)] == Shuffled(min, n, draws)
    ensures list[Max(n, 0)..] == old(list[Max(n, 0)..])
  {
    ghost var rest := list[Max(n, 0)..];
    var i, j := 0, min;
    while i < n
      invariant 0 <= i <= Max(n, 0) && j == min + i
      invariant list[..i] == Range(min, i)
      invariant list[Max(n, 0)..] == rest
    {
      list[i] := j;
      i, j := i + 1, j + 1;
    }
    i := 0;
    while i < n - 1
      invariant 0 <= i <= Max(n - 1, 0)
      invariant Swaps(list[..Max(n, 0)], i, draws[i..]) == Shuffled(min, n, draws)
      invariant list[Max(n, 0)..] == rest
    {
      j := IRandom(i, n - 1, draws[i]);
      ghost var s := list[..n];
      var swap := list[j];
      list[j] := list[i];
      list[i] := swap;
      assert list[..n] == Swap(s, i, j);
      assert draws[i..][1..] == draws[i + 1..];
      i := i + 1;
    }
  }

  /**
   * The chain loop of `shuffle(listlen, stride, seed)`: starting from the last entry, each
   * entry's node links to the node of the next entry. The shuffled list must hold the node
   * numbers `0 .. listlen - 1`, as `Shuffle` leaves it.
   */
  method Chain(list: array<int>, listlen: nat) returns (next: array<int>)
    requires listlen >= 1 && list.Length == listlen && IsPermutation(list[..], listlen)
    ensures fresh(next) && next.Length == listlen && Linked(next[..], list[..])
  {
    PermutationInRange(list[..], listlen);
    PermutationDistinct(list[..], listlen);
    next := new int[listlen];
    var last := list[listlen - 1];
    var p1 := last;
    var i := 0;
    while i < listlen
      invariant 0 <= i <= listlen && p1 == (if i == 0 then last else list[i - 1])
      invariant i > 0 ==> next[last] == list[0]
      invariant forall k :: 0 <= k < i - 1 ==> next[list[k]] == list[k + 1]
    {
      var p0 := p1;
      var node := list[i];
      p1 := node;
      next[p0] := p1;
      i := i + 1;
    }
    forall k | 0 <= k < listlen
      ensures next[..][list[k]] == list[Succ(k, listlen)]
    {
    }
  }

  /**
   * `shuffle(listlen, stride, seed)`: the list `0 .. listlen - 1`, shuffled unless `seed` is 0,
   * and the circular chain through it. `draws` stands for the choices of the generator seeded
   * with `seed`; the buffers are new, as `AllocateBuffers` makes them.
   */
  method ShuffleChain(listlen: nat, seed: int, draws: seq<nat>) returns (list: array<int>, next: array<int>)
    requires listlen >= 1 && |draws| >= listlen - 1
    ensures fresh(list) && fresh(next) && list.Length == listlen && next.Length == listlen
    ensures list[..] == if seed == 0 then Range(0, listlen) else Shuffled(0, listlen, draws)
    ensures IsPermutation(list[..], listlen) && Linked(next[..], list[..])
  {
    list := new int[listlen];
    var i := 0;
    while i < listlen
      invariant 0 <= i <= listlen && list[..i] == Range(0, i)
    {
      list[i] := i;
      i := i + 1;
    }
    assert list[..] == list[..listlen];
    if seed != 0 {
      Shuffle(list, 0, listlen, draws);
      ShuffledPermutes(0, listlen, draws);
    }
    assert list[..] == list[..listlen];
    next := Chain(list, listlen);
  }
}

/**
 * The usage example at the end of cppexamples/SortedList.cpp: five records put in the order
 * Dennis, Elsie, Brad, Cecilia, Anna, then a search for "Cecilia".
 */
module SortedListExample {
  import opened Common
  import opened SortedLists

  /** `SRecord`: a name and an address. */
  datatype SRecord = SRecord(name: string, address: string)

  /**
   * The sort criterion `strcmp(name, b.name) < 0`, as far as the example needs it: the five
   * names start with five different letters, so their first letters order them as `strcmp`
   * does.
   */
  function ByName(r: SRecord): int {
    if r.name == "" then 0 else r.name[0] as int
  }

  /** The records in the order the example puts them. */
  function Records(): seq<SRecord> {
    [SRecord("Dennis", "Nowhere"), SRecord("Elsie", "Elsewhere"), SRecord("Brad", "There"),
     SRecord("Cecilia", "Somewhere"), SRecord("Anna", "Here")]
  }

  /** `Put` of each object of `xs` in turn. */
  function PutEach<T>(s: seq<T>, key: T -> int, maxSize: nat, xs: seq<T>): (r: seq<T>)
    decreases |xs|
  {
    if xs == [] then s else PutEach(Put(s, key, maxSize, xs[0]).1, key, maxSize, xs[1..])
  }

  /** Objects put one by one into a list with room for them all end up sorted, all of them. */
  lemma {:induction false} PutEachSorted<T>(s: seq<T>, key: T -> int, maxSize: nat, xs: seq<T>)
    requires Sorted(s, key) && |s| + |xs| <= maxSize
    ensures var r := PutEach(s, key, maxSize, xs);
      Sorted(r, key) && multiset(r) == multiset(s) + multiset(xs)
    decreases |xs|
  {
    if xs != [] {
      var t := Put(s, key, maxSize, xs[0]).1;
      PutSorted(s, key, maxSize, xs[0]);
      PutEachSorted(t, key, maxSize, xs[1..]);
      assert xs == [xs[0]] + xs[1..];
    }
  }

  /**
   * Searching the list built from `xs` by the name of one of them whose key no other shares
   * finds that one.
   */
  lemma FindPut(xs: seq<SRecord>, k: nat)
    requires k < |xs| <= 1000
    requires forall j :: 0 <= j < |xs| && j != k ==> ByName(xs[j]) != ByName(xs[k])
    ensures var list := PutEach([], ByName, 1000, xs);
      var found := Exists(list, ByName, SRecord(xs[k].name, ""));
      found.Some? && list[found.value] == xs[k]
  {
    var list := PutEach([], ByName, 1000, xs);
    var x := SRecord(xs[k].name, "");
    assert ByName(x) == ByName(xs[k]);
    PutEachSorted([], ByName, 1000, xs);
    assert multiset(list) == multiset(xs);
    var m := InPermutation(list, xs, k);
    assert ByName(list[m]) == ByName(x);
    ExistsMeans(list, ByName, x);
    var i := Exists(list, ByName, x).value;
    var j := InPermutation(xs, list, i);
    assert j == k;
  }

  /** Where a permutation of `t` holds `t[k]`. */
  lemma InPermutation<T>(s: seq<T>, t: seq<T>, k: nat) returns (m: nat)
    requires multiset(s) == multiset(t) && k < |t|
    ensures m < |s| && s[m] == t[k]
  {
    assert t[k] in multiset(t);
    assert t[k] in s;
    m :| 0 <= m < |s| && s[m] == t[k];
  }

  /**
   * The example's search: `Exists` finds "Cecilia", and the record at the position it
   * reports is the one with the address "Somewhere".
   */
  lemma Example()
    ensures var list := PutEach([], ByName, 1000, Records());
      var found := Exists(list, ByName, SRecord("Cecilia", ""));
      found.Some? && list[found.value] == SRecord("Cecilia", "Somewhere")
  {
    var r := Records();
    assert ByName(r[0]) == 'D' as int && ByName(r[1]) == 'E' as int && ByName(r[2]) == 'B' as int;
    assert ByName(r[3]) == 'C' as int && ByName(r[4]) == 'A' as int;
    FindPut(r, 3);
  }
}

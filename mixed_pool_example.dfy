/**
 * The usage example at the end of cppexamples/MixedPool.cpp, on the functions of
 * `MixedPools`: an `int`, a `double` and the string "Hello" pushed after `ReserveSize(100)`,
 * the `int` then overwritten, and all three read back.
 */
module MixedPoolExample {
  import opened Common
  import opened MixedPools

  /**
   * The example with `a`, `b` and `one` for the bytes of the `int` 0, the `double` 2.345678
   * and the `int` 1, and `c` for the bytes of "Hello": the offsets are 0, 4 and 12, every
   * value reads back as stored, and three entries were pushed.
   */
  lemma Example(a: seq<uint8>, b: seq<uint8>, c: seq<uint8>, one: seq<uint8>)
    requires |a| == 4 && |b| == 8 && |one| == 4
    requires |c| == 5 && forall k :: 0 <= k < 5 ==> c[k] != 0
    ensures var p0 := ReserveSize(Empty(), 100).value;
      var (p1, ia) := Push(p0, Some(a), 4);
      var (p2, ib) := Push(p1, Some(b), 8);
      var (p3, ic) := PushString(p2, c);
      ia == 0 && ib == 4 && ic == 12
      && SetAt(p3, ia, one).Ok?
      && var p4 := SetAt(p3, ia, one).value;
        Get(p4, ia, 4) == Ok(one) && Get(p4, ib, 8) == Ok(b) && Get(p4, ic, 6) == Ok(c + [0])
        && p4.numEntries == 3
  {
    var p0 := ReserveSize(Empty(), 100).value;
    assert Data(p0) == [] && p0.numEntries == 0;
    var (p1, ia) := Push(p0, Some(a), 4);
    assert Data(p1) == a;
    var (p2, ib) := Push(p1, Some(b), 8);
    assert Data(p2) == a + b;
    CStrOfPlain(c, 0);
    var (p3, ic) := PushString(p2, c);
    assert Data(p3) == a + b + c + [0];
    var d3 := a + b + c + [0];
    assert d3[4..12] == b && d3[12..18] == c + [0];
    var p4 := SetAt(p3, ia, one).value;
    assert Data(p4) == Write(d3, 0, one);
    WriteHit(d3, 0, one);
    WriteFrame(d3, 0, one, 4, 12);
    WriteFrame(d3, 0, one, 12, 18);
  }
}

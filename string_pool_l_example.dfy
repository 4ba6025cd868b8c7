/**
 * The usage example at the end of cppexamples/StringPoolL.cpp, followed step by step through
 * the properties of the pool: what each string reads after each statement.
 */
module StringPoolLExample {
  import opened Common
  import opened StringPoolLRecords
  import opened StringPoolLOps
  import opened StringPoolLApi

  /** A string without zero bytes is its own C string. */
  lemma PlainText(s: string)
    requires forall k :: 0 <= k < |s| ==> 0 < s[k] as int < 0x100
    ensures CStr(Bytes(s), 0) == Bytes(s)
  {
    CStrOfPlain(Bytes(s), 0);
  }

  /** A handle that reads a non-empty string has a buffer behind it. */
  lemma BufferBehind(p: Pool, h: nat)
    requires Content(p, h) != []
    ensures |p.buf| > 0
  {
  }

  // Each lemma below is one statement of the example, applied to any sound pool in which
  // the strings read what the statements before it left there.

  /** `strings[4] = "Hello "` on a pool with no strings (as the constructor leaves it). */
  lemma ExampleHello(p0: Pool)
    requires Sound(p0) && p0.num == 0
    ensures Set(p0, 4, Bytes("Hello ")).Ok?
    ensures var p1 := Set(p0, 4, Bytes("Hello ")).value;
      && Sound(p1) && p1.num == 5 && Content(p1, 4) == Bytes("Hello ")
      && forall h :: 0 <= h < 4 ==> Content(p1, h) == []
  {
    PlainText("Hello ");
    SetSound(p0, 4, Bytes("Hello "));
    var p1 := Set(p0, 4, Bytes("Hello ")).value;
    forall h | 0 <= h < 4
      ensures Content(p1, h) == []
    {
      if h < |p0.offs| {
        IdleIsEmpty(p0, h);
      }
    }
  }

  /** `strings[4] += "Dolly"`. */
  lemma ExampleDolly(p1: Pool)
    requires Sound(p1) && p1.num == 5 && Content(p1, 4) == Bytes("Hello ")
    ensures Concatenate(p1, 4, Bytes("Dolly")).Ok?
    ensures var p2 := Concatenate(p1, 4, Bytes("Dolly")).value;
      && Sound(p2) && p2.num == 5 && ReadsAs(p1, p2, 4, Bytes("Hello Dolly"), 5)
  {
    assert Bytes("Hello ") + Bytes("Dolly") == Bytes("Hello Dolly");
    PlainText("Dolly");
    BufferBehind(p1, 4);
    ConcatenateSound(p1, 4, Bytes("Dolly"));
  }

  /** `strings[5] = strings[4]`. */
  lemma ExampleCopy(p2: Pool)
    requires Sound(p2) && p2.num == 5 && Content(p2, 4) == Bytes("Hello Dolly")
    ensures Assign(p2, 5, 4).Ok?
    ensures var p3 := Assign(p2, 5, 4).value;
      && Sound(p3) && p3.num == 6 && ReadsAs(p2, p3, 5, Bytes("Hello Dolly"), 6)
  {
    BufferBehind(p2, 4);
    AssignSound(p2, 5, 4);
  }

  /** `j = strings[5].SearchForSubstring("Doll")` gives 6. */
  lemma ExampleSearch(p3: Pool)
    requires Sound(p3) && 5 < p3.num && Content(p3, 5) == Bytes("Hello Dolly")
    ensures SearchForSubstring(p3, 5, Bytes("Doll")) == Ok(6)
  {
    PlainText("Hello Dolly");
    PlainText("Doll");
    BufferBehind(p3, 5);
    SearchFinds(p3, 5, Bytes("Doll"));
    SearchExample();
  }

  /** `strings[5][j] = 'M'` with `j == 6`. */
  lemma ExampleMolly(p3: Pool)
    requires Sound(p3) && 5 < p3.num && Content(p3, 5) == Bytes("Hello Dolly")
    ensures SetCharAt(p3, 5, 6, Bytes("M")[0]).Ok?
    ensures var p4 := SetCharAt(p3, 5, 6, Bytes("M")[0]).value;
      && Sound(p4) && p4.num == p3.num && ReadsAs(p3, p4, 5, Bytes("Hello Molly"), p3.num)
  {
    assert Bytes("Hello Dolly")[6 := Bytes("M")[0]] == Bytes("Hello Molly");
    BufferBehind(p3, 5);
    SetCharAtWrites(p3, 5, 6, Bytes("M")[0]);
  }

  /** `strings[n] = "Goodbye"` with `n = strings.GetNum()`. */
  lemma ExampleGoodbye(p4: Pool)
    requires Sound(p4)
    ensures Set(p4, p4.num, Bytes("Goodbye")).Ok?
    ensures var p5 := Set(p4, p4.num, Bytes("Goodbye")).value;
      && Sound(p5) && p5.num == p4.num + 1 && ReadsAs(p4, p5, p4.num, Bytes("Goodbye"), p5.num)
  {
    PlainText("Goodbye");
    SetSound(p4, p4.num, Bytes("Goodbye"));
  }

  /**
   * `strings[7].SetToSubstring(strings[4], j, 5)` with `j == 6`. The characters come from
   * string 4, which still reads "Hello Dolly" (it is string 5 that became "Hello Molly"), so
   * string 7 reads "Dolly".
   */
  lemma ExampleSubstring(p5: Pool)
    requires Sound(p5) && p5.num == 7 && Content(p5, 4) == Bytes("Hello Dolly")
    ensures SetToSubstring(p5, 7, Content(p5, 4), 6, 5).Ok?
    ensures var p6 := SetToSubstring(p5, 7, Content(p5, 4), 6, 5).value;
      && Sound(p6) && p6.num == 8 && ReadsAs(p5, p6, 7, Bytes("Dolly"), 8)
  {
    var u := Content(p5, 4);
    PlainText("Hello Dolly");
    assert CStr(u, 0)[6 .. 11] == Bytes("Dolly");
    SetToSubstringSound(p5, 7, u, 6, 5);
  }
}

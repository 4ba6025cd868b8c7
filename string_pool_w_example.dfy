/**
 * The usage example at the end of cppexamples/StringPoolW.cpp, followed step by step through
 * the properties of the pool: what each string reads after each statement.
 */
module StringPoolWExample {
  import opened Common
  import opened StringPoolWRecords
  import opened StringPoolWOps
  import opened StringPoolWApi

  /** A wide string literal `L"..."`: each character becomes one `wchar_t`. */
  function Wide(s: string): (w: seq<wchar>)
    ensures |w| == |s| && forall k :: 0 <= k < |s| ==> w[k] as int == s[k] as int
  {
    seq(|s|, k requires 0 <= k < |s| => s[k] as int as wchar)
  }

  /** A literal without the character 0 is its own C string. */
  lemma PlainText(s: string)
    requires forall k :: 0 <= k < |s| ==> s[k] != 0 as char
    ensures CStr(Wide(s), 0) == Wide(s)
  {
    CStrOfPlain(Wide(s), 0);
  }

  /** A handle that reads a non-empty string has a buffer behind it. */
  lemma BufferBehind(p: Pool, h: nat)
    requires Content(p, h) != []
    ensures |p.buf| > 0
  {
  }

  // Each lemma below is one statement of the example, applied to any sound pool in which
  // the strings read what the statements before it left there.

  /** `strings[4] = L"Hello "` on a pool with no strings (as the constructor leaves it). */
  lemma ExampleHello(p0: Pool)
    requires Sound(p0) && p0.num == 0
    ensures Set(p0, 4, Wide("Hello ")).Ok?
    ensures var p1 := Set(p0, 4, Wide("Hello ")).value;
      && Sound(p1) && p1.num == 5 && Content(p1, 4) == Wide("Hello ")
      && forall h :: 0 <= h < 4 ==> Content(p1, h) == []
  {
    PlainText("Hello ");
    SetSound(p0, 4, Wide("Hello "));
    var p1 := Set(p0, 4, Wide("Hello ")).value;
    forall h | 0 <= h < 4
      ensures Content(p1, h) == []
    {
      if h < |p0.offs| {
        IdleIsEmpty(p0, h);
      }
    }
  }

  /** `strings[4] += L"Dolly"`. */
  lemma ExampleDolly(p1: Pool)
    requires Sound(p1) && p1.num == 5 && Content(p1, 4) == Wide("Hello ")
    ensures Concatenate(p1, 4, Wide("Dolly")).Ok?
    ensures var p2 := Concatenate(p1, 4, Wide("Dolly")).value;
      && Sound(p2) && p2.num == 5 && ReadsAs(p1, p2, 4, Wide("Hello Dolly"), 5)
  {
    assert Wide("Hello ") + Wide("Dolly") == Wide("Hello Dolly");
    PlainText("Dolly");
    ConcatenateSound(p1, 4, Wide("Dolly"));
  }

  /** `strings[5] = strings[4]`. */
  lemma ExampleCopy(p2: Pool)
    requires Sound(p2) && p2.num == 5 && Content(p2, 4) == Wide("Hello Dolly")
    ensures Assign(p2, 5, 4).Ok?
    ensures var p3 := Assign(p2, 5, 4).value;
      && Sound(p3) && p3.num == 6 && ReadsAs(p2, p3, 5, Wide("Hello Dolly"), 6)
  {
    AssignSound(p2, 5, 4);
  }

  /** `j = strings[5].SearchForSubstring(L"Doll")` gives 6. */
  lemma ExampleSearch(p3: Pool)
    requires Sound(p3) && 5 < p3.num && Content(p3, 5) == Wide("Hello Dolly")
    ensures SearchForSubstring(p3, 5, Wide("Doll")) == Ok(6)
  {
    PlainText("Doll");
    BufferBehind(p3, 5);
    SearchFinds(p3, 5, Wide("Doll"));
    SearchExample();
  }

  /** "Doll" first occurs in "Hello Dolly" at position 6. */
  lemma SearchExample()
    ensures IndexOf(Wide("Hello Dolly"), Wide("Doll"), 0) == 6
  {
    var hay := Wide("Hello Dolly");
    var needle := Wide("Doll");
    forall k | 0 <= k < 4
      ensures hay[6 + k] == needle[k]
    {
      assert "Hello Dolly"[6 + k] == "Doll"[k];
    }
    assert hay[6 .. 10] == needle;
    forall k | 0 <= k < 6
      ensures hay[k] != needle[0]
    {
      assert "Hello Dolly"[k] != "Doll"[0];
    }
  }

  /** `strings[5][j] = 'M'` with `j == 6`. */
  lemma ExampleMolly(p3: Pool)
    requires Sound(p3) && 5 < p3.num && Content(p3, 5) == Wide("Hello Dolly")
    ensures SetCharAt(p3, 5, 6, Wide("M")[0]).Ok?
    ensures var p4 := SetCharAt(p3, 5, 6, Wide("M")[0]).value;
      && Sound(p4) && p4.num == p3.num && ReadsAs(p3, p4, 5, Wide("Hello Molly"), p3.num)
  {
    assert Wide("Hello Dolly")[6 := Wide("M")[0]] == Wide("Hello Molly");
    BufferBehind(p3, 5);
    SetCharAtWrites(p3, 5, 6, Wide("M")[0]);
  }

  /** `strings[n] = L"Goodbye"` with `n = strings.GetNum()`. */
  lemma ExampleGoodbye(p4: Pool)
    requires Sound(p4)
    ensures Set(p4, p4.num, Wide("Goodbye")).Ok?
    ensures var p5 := Set(p4, p4.num, Wide("Goodbye")).value;
      && Sound(p5) && p5.num == p4.num + 1 && ReadsAs(p4, p5, p4.num, Wide("Goodbye"), p5.num)
  {
    PlainText("Goodbye");
    SetSound(p4, p4.num, Wide("Goodbye"));
  }

  /**
   * `strings[7].SetToSubstring(strings[4], j, 5)` with `j == 6`. The characters come from
   * string 4, which still reads "Hello Dolly" (it is string 5 that became "Hello Molly"), so
   * string 7 reads "Dolly".
   */
  lemma ExampleSubstring(p5: Pool)
    requires Sound(p5) && p5.num == 7 && Content(p5, 4) == Wide("Hello Dolly")
    ensures SetToSubstring(p5, 7, Content(p5, 4), 6, 5).Ok?
    ensures var p6 := SetToSubstring(p5, 7, Content(p5, 4), 6, 5).value;
      && Sound(p6) && p6.num == 8 && ReadsAs(p5, p6, 7, Wide("Dolly"), 8)
  {
    var u := Content(p5, 4);
    PlainText("Hello Dolly");
    assert CStr(u, 0)[6 .. 11] == Wide("Dolly");
    SetToSubstringSound(p5, 7, u, 6, 5);
  }
}

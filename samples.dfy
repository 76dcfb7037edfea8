/**
 * Concrete runs of the model on small inputs, where the code's behaviour
 * departs from what a regular-expression library would report.
 */
module Samples {
  import opened Wrappers
  import opened Spans
  import opened RangeClass
  import opened Atoms
  import opened Scanner
  import opened Anchored
  import opened Collector

  /**
   * A class body without `-` is read as the range from its next-to-last to
   * its first character, so a character of the body can still be rejected.
   */
  lemma ClassWithoutDash()
    ensures !ParseRange('x', "xyz")
    ensures ParseRange('z', "zya")
    ensures !ParseRange('a', "zya")
  {
  }

  lemma ClassWithDash()
    ensures ParseRange('m', "a-z")
    ensures !ParseRange('M', "a-z")
    ensures ParseRange('z', "-z")
  {
  }

  lemma ParseSpanShifts()
    ensures ReadSpan("(2, 5)") == Some(Span(2, 5))
    ensures ParseSpan("(2, 5)", 3) == "(5, 8)"
  {
    assert NatToDecimal(2) == "2" && NatToDecimal(5) == "5" && NatToDecimal(8) == "8";
    assert Render(Span(2, 5)) == "(2, 5)";
    assert Render(Span(5, 8)) == "(5, 8)";
    ReadRender(Span(2, 5));
    ParseSpanRendered(Span(2, 5), 3);
  }

  /** After a partial match the scan resumes where the mismatch happened, so this match is missed. */
  lemma SearchMissesOverlap()
    ensures SearchSpec("aab", "aaab") == None
  {
  }

  /**
   * The scan resumes where the mismatch happened; here that is one past the
   * candidate's start, so the match at 1 is found.
   */
  lemma SearchRestartsAtMismatch()
    ensures SearchSpec("ab", "aab") == Some(MatchObject(Span(1, 3), "ab"))
  {
    var p, s := "ab", "aab";
    assert Step(p, s, 0, 0) == Outcome(true, 1, 1);
    assert Step(p, s, 1, 1) == Outcome(false, 1, 1);
    assert Step(p, s, 1, 0) == Outcome(true, 2, 1);
    assert Step(p, s, 2, 1) == Outcome(true, 3, 2);
    assert s[1..3] == p;
  }

  /**
   * A failed `\w` leaves the pattern cursor on its letter, and the scan then
   * looks for a literal `w`.
   */
  lemma SearchAfterFailedEscape()
    ensures SearchSpec("\\w", "!a") == None
  {
    var p, s := "\\w", "!a";
    assert Step(p, s, 0, 0) == Outcome(false, 0, 1);
    assert Step(p, s, 1, 1) == Outcome(false, 1, 1);
  }

  lemma SearchFindsWord()
    ensures SearchSpec("cat", "concatenate") == Some(MatchObject(Span(3, 6), "cat"))
  {
    var p, s := "cat", "concatenate";
    assert Step(p, s, 0, 0) == Outcome(true, 1, 1);
    assert Step(p, s, 1, 1) == Outcome(false, 1, 1);
    assert Step(p, s, 1, 0) == Outcome(false, 1, 0);
    assert Step(p, s, 2, 0) == Outcome(false, 2, 0);
    assert Step(p, s, 3, 0) == Outcome(true, 4, 1);
    assert Step(p, s, 4, 1) == Outcome(true, 5, 2);
    assert Step(p, s, 5, 2) == Outcome(true, 6, 3);
    assert s[3..6] == p;
  }

  lemma MatchAnchored()
    ensures MatchSpec("ab", "abc") == Some(MatchObject(Span(0, 2), "ab"))
    ensures MatchSpec("ab", "xab") == None
    ensures MatchSpec("abc", "ab") == Some(MatchObject(Span(0, 2), "ab"))
  {
    LiteralMatch("ab", "abc");
    assert "abc"[..2] == "ab";
    LiteralMatch("ab", "xab");
    LiteralMatch("abc", "ab");
    assert "abc"[..2] == "ab" && "ab"[..2] == "ab";
  }

  /** On an empty subject a blind escape matches with a span longer than its text; a `+` fails. */
  lemma MatchEmpty()
    ensures EmptySafe("\\d", 0) && EmptySafe("+", 0) && EmptySafe("\\d+", 0)
    ensures MatchSpec("\\d", "") == Some(MatchObject(Span(0, 1), ""))
    ensures MatchSpec("+", "") == None
    ensures MatchSpec("\\d+", "") == None
  {
    assert EmptySafe("\\d+", 2);
  }

  lemma RepeatSearches()
    ensures SearchSpec("a+", "aaab") == Some(MatchObject(Span(0, 3), "aaa"))
    ensures SearchSpec("a+", "aab") == Some(MatchObject(Span(0, 2), "aa"))
    ensures SearchSpec("a+", "ab") == Some(MatchObject(Span(0, 1), "a"))
    ensures SearchSpec("a+", "b") == None
  {
    var p := "a+";
    assert Step(p, "aaab", 0, 0) == Outcome(true, 1, 1);
    assert RunEnd("aaab", 1, 'a') == 3;
    assert Step(p, "aaab", 1, 1) == Outcome(true, 3, 2);
    assert "aaab"[0..3] == "aaa";
    assert Step(p, "aab", 0, 0) == Outcome(true, 1, 1);
    assert RunEnd("aab", 1, 'a') == 2;
    assert Step(p, "aab", 1, 1) == Outcome(true, 2, 2);
    assert "aab"[0..2] == "aa";
    assert Step(p, "ab", 0, 0) == Outcome(true, 1, 1);
    assert RunEnd("ab", 1, 'a') == 1;
    assert Step(p, "ab", 1, 1) == Outcome(true, 1, 2);
    assert "ab"[0..1] == "a";
    assert Step(p, "b", 0, 0) == Outcome(false, 0, 0);
  }

  lemma RepeatHits()
    ensures Hits("a+", "aaab", 4) ==
              [Hit(0, MatchObject(Span(0, 3), "aaa")), Hit(1, MatchObject(Span(0, 2), "aa")),
               Hit(2, MatchObject(Span(0, 1), "a"))]
  {
    var p, s := "a+", "aaab";
    var h0 := Hit(0, MatchObject(Span(0, 3), "aaa"));
    var h1 := Hit(1, MatchObject(Span(0, 2), "aa"));
    var h2 := Hit(2, MatchObject(Span(0, 1), "a"));
    RepeatSearches();
    assert s[0..] == "aaab";
    assert Hits(p, s, 1) == [h0];
    assert s[1..] == "aab";
    HitsNext(p, s, 1);
    assert Hits(p, s, 2) == [h0, h1];
    assert s[2..] == "ab";
    HitsNext(p, s, 2);
    assert Hits(p, s, 3) == [h0, h1, h2];
    assert s[3..] == "b";
    HitsNext(p, s, 3);
  }

  /** The three hits have different absolute spans, so all are kept. */
  lemma RepeatKept()
    ensures var hs := [Hit(0, MatchObject(Span(0, 3), "aaa")), Hit(1, MatchObject(Span(0, 2), "aa")),
                       Hit(2, MatchObject(Span(0, 1), "a"))];
            Texts(Dedup(hs)) == ["aaa", "aa", "a"]
  {
    var hs := [Hit(0, MatchObject(Span(0, 3), "aaa")), Hit(1, MatchObject(Span(0, 2), "aa")),
               Hit(2, MatchObject(Span(0, 1), "a"))];
    assert Absolute(hs[0]) == Span(0, 3) && Absolute(hs[1]) == Span(1, 3) && Absolute(hs[2]) == Span(2, 3);
    DedupKeepsDistinct(hs);
  }

  /** Every suffix reports its own run of `a`, and all three are kept. */
  lemma FindAllRepeats()
    ensures FindAllSpec("a+", "aaab") == ["aaa", "aa", "a"]
  {
    RepeatKept();
    RepeatHits();
  }

  lemma DotSearches()
    ensures SearchSpec(".", "ab") == Some(MatchObject(Span(0, 1), "a"))
    ensures SearchSpec(".", "b") == Some(MatchObject(Span(0, 1), "b"))
  {
    assert Step(".", "ab", 0, 0) == Outcome(true, 1, 1);
    assert "ab"[0..1] == "a";
    assert Step(".", "b", 0, 0) == Outcome(true, 1, 1);
    assert "b"[0..1] == "b";
  }

  lemma FindAllDots()
    ensures FindAllSpec(".", "ab") == ["a", "b"]
  {
    var p, s := ".", "ab";
    var h0, h1 := Hit(0, MatchObject(Span(0, 1), "a")), Hit(1, MatchObject(Span(0, 1), "b"));
    DotSearches();
    assert s[0..] == "ab";
    assert Hits(p, s, 1) == [h0];
    assert s[1..] == "b";
    HitsNext(p, s, 1);
    assert Hits(p, s, 2) == [h0, h1];
    assert Absolute(h0) == Span(0, 1) && Absolute(h1) == Span(1, 2);
    DedupKeepsDistinct([h0, h1]);
    assert |s| == 2 && Collected(p, s) == [h0, h1];
    var ts := Texts([h0, h1]);
    assert ts[0] == "a" && ts[1] == "b";
    assert ts == ["a", "b"];
  }
}

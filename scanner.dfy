/**
 * Search anywhere in the subject (`Regex.search`).
 *
 * The scan steps atoms left to right. A failed atom in the middle of a
 * candidate resets the pattern cursor to 0 and retries at the failing input
 * position (one past the candidate's start only when the failure is at its
 * second character); a failed atom with no
 * candidate in progress only advances the input cursor, leaving the pattern
 * cursor wherever the failed step put it. Reaching the end of the pattern or
 * of the subject at the top of the loop always ends the search without a
 * match, because the source's `match_found` flag is never set.
 */
module Scanner {
  import opened Wrappers
  import opened Spans
  import opened Atoms

  /** The result object of `search` and `match`: a span and the text it covers. */
  datatype MatchObject = MatchObject(span: Span, text: string)

  /**
   * Patterns `search` can run on without raising or looping: every atom is
   * complete, and the first one is not `+` (a leading `+` repeats the last
   * pattern character and can make the scan cycle forever).
   */
  predicate Searchable(pattern: string) {
    WellFormed(pattern) && (|pattern| > 0 ==> pattern[0] != '+')
  }

  /**
   * Where the pattern cursor rests after the first atom has failed with no
   * candidate in progress: on the letter of a leading `\w`/`\W`, on the `]` of
   * a leading class, or still at 0. From there the scan reads one literal
   * character and goes on past the first atom.
   */
  function FirstStop(pattern: string): (q: nat)
    requires Searchable(pattern) && |pattern| > 0
    ensures Complete(pattern, 0) && q == FailStop(pattern, 0)
    ensures q < |pattern| && WellFormedFrom(pattern, q) && Complete(pattern, q)
    ensures pattern[q] != '+' && FailStop(pattern, q) == q
    ensures q != 0 ==> AtomAt(pattern, q).Literal? && AtomEnd(pattern, q) == AtomEnd(pattern, 0)
  {
    assert Complete(pattern, 0);
    var q := FailStop(pattern, 0);
    assert q != 0 ==> AtomEnd(pattern, q) == AtomEnd(pattern, 0);
    q
  }

  /** The pattern positions the scan can occupy between candidates. */
  predicate Parked(pattern: string, p: nat)
    requires Searchable(pattern) && |pattern| > 0
  {
    p == 0 || p == FirstStop(pattern)
  }

  // ---------------------------------------------------------------------------
  // A run: successful steps from a pair of cursors to the end of the pattern.

  /**
   * The input position where an uninterrupted run of successful steps from
   * `(i, p)` completes the pattern, or None when a step fails or the subject
   * runs out first.
   */
  function RunFrom(pattern: string, s: string, i: nat, p: nat): Option<nat>
    requires i <= |s| && p <= |pattern| && WellFormedFrom(pattern, p)
    decreases |pattern| - p
  {
    if p == |pattern| then Some(i)
    else if i == |s| then None
    else
      var r := Step(pattern, s, i, p);
      if r.ok then RunFrom(pattern, s, r.input, r.pat) else None
  }

  // ---------------------------------------------------------------------------
  // The scan.

  /**
   * The `while` loop of `search` from cursors `(i, p)`, with `candidate` for
   * `previous_bool` and `start` for `span_start`. Any match it reports is a
   * non-empty stretch of the subject, and its text is that stretch.
   */
  function SearchLoop(pattern: string, s: string, i: nat, p: nat, candidate: bool, start: nat): (r: Option<MatchObject>)
    requires Searchable(pattern) && |pattern| > 0
    requires i <= |s| && p <= |pattern| && WellFormedFrom(pattern, p)
    requires candidate ==> start < i
    requires !candidate ==> Parked(pattern, p)
    ensures r.Some? ==> 0 <= r.value.span.start < r.value.span.end <= |s| &&
                        r.value.text == s[r.value.span.start..r.value.span.end]
    decreases |s| - i, if candidate then 1 else 0, |pattern| - p
  {
    if p == |pattern| || i == |s| then None
    else
      var r := Step(pattern, s, i, p);
      if !r.ok then
        // In a candidate, the input cursor is rolled back one and advanced one.
        if candidate then SearchLoop(pattern, s, r.input, 0, false, start)
        else SearchLoop(pattern, s, r.input + 1, r.pat, false, start)
      else
        var start' := if candidate then start else r.input - 1;
        if r.pat == |pattern| then Some(MatchObject(Span(start', r.input), s[start'..r.input]))
        else SearchLoop(pattern, s, r.input, r.pat, true, start')
  }

  /** `search(pattern, s)`. */
  function SearchSpec(pattern: string, s: string): (r: Option<MatchObject>)
    requires pattern == [] || s == [] || Searchable(pattern)
    ensures (pattern == [] || s == []) ==> r.None?
    ensures r.Some? ==> 0 <= r.value.span.start < r.value.span.end <= |s| &&
                        r.value.text == s[r.value.span.start..r.value.span.end]
  {
    if pattern == [] || s == [] then None else SearchLoop(pattern, s, 0, 0, false, 0)
  }

  /** `search` as the source runs it, with its cursors, flag and span start as locals. */
  method Search(pattern: string, s: string) returns (m: Option<MatchObject>)
    requires pattern == [] || s == [] || Searchable(pattern)
    ensures m == SearchSpec(pattern, s)
  {
    var input: nat, meta: nat := 0, 0;
    var spanStart: nat := 0;
    var previous := false;
    // The loop's first check, taken before the loop so that the pattern can be read.
    if |pattern| == 0 || |s| == 0 {
      return None;
    }
    while true
      invariant input <= |s| && meta <= |pattern| && WellFormedFrom(pattern, meta)
      invariant previous ==> spanStart < input
      invariant !previous ==> Parked(pattern, meta)
      invariant SearchLoop(pattern, s, input, meta, previous, spanStart) == SearchSpec(pattern, s)
      decreases |s| - input, if previous then 1 else 0, |pattern| - meta
    {
      if meta == |pattern| || input == |s| {
        return None;
      }
      ghost var i0, p0 := input, meta;
      var ok;
      ok, input, meta := CheckChar(s, pattern, input, meta);
      if !ok {
        SearchLoopFail(pattern, s, i0, p0, previous, spanStart);
        if previous {
          previous := false;
          meta := 0;
          input := input - 1;
        }
        input := input + 1;
        continue;
      }
      SearchLoopOk(pattern, s, i0, p0, previous, spanStart);
      if !previous {
        previous := true;
        spanStart := input - 1;
      }
      if meta == |pattern| {
        break;
      }
    }
    m := Some(MatchObject(Span(spanStart, input), s[spanStart..input]));
  }

  /**
   * A failed step inside a candidate restarts the scan with the pattern cursor
   * at 0 and the input cursor on the failing position: the position the atom
   * was tried at, or, for a `+` that ran to the end, the last position.
   */
  lemma SearchLoopRestart(pattern: string, s: string, i: nat, p: nat, start: nat)
    requires Searchable(pattern) && |pattern| > 0
    requires i < |s| && p < |pattern| && WellFormedFrom(pattern, p) && start < i
    requires !Step(pattern, s, i, p).ok
    ensures WellFormedFrom(pattern, 0)
    ensures SearchLoop(pattern, s, i, p, true, start) ==
              SearchLoop(pattern, s, if pattern[p] == '+' then |s| - 1 else i, 0, false, start)
  {
    assert WellFormedFrom(pattern, 0);
    assert Complete(pattern, p);
    assert AtomAt(pattern, p).Repeat? <==> pattern[p] == '+';
  }

  /**
   * A failed step with no candidate moves on to the next input position and
   * leaves the pattern cursor where the step put it, which is `FirstStop`.
   */
  lemma SearchLoopSkip(pattern: string, s: string, i: nat, p: nat, start: nat)
    requires Searchable(pattern) && |pattern| > 0
    requires i < |s| && p < |pattern| && WellFormedFrom(pattern, p) && Parked(pattern, p)
    requires !Step(pattern, s, i, p).ok
    ensures var r := Step(pattern, s, i, p);
            r.input == i && r.pat == FirstStop(pattern) &&
            SearchLoop(pattern, s, i, p, false, start) == SearchLoop(pattern, s, i + 1, r.pat, false, start)
  {
    // A parked position holds no `+`, and failing there parks at `FirstStop`.
    assert pattern[p] != '+';
    assert Step(pattern, s, i, p).pat == FailStop(pattern, p) == FirstStop(pattern);
  }

  /**
   * One failed turn of the scan: inside a candidate the pattern cursor is
   * reset to 0 and the input cursor stays on the failing position; with no
   * candidate only the input cursor moves on, and the pattern cursor stays
   * where the step put it. Either way the scan goes on from a state it can be in.
   */
  lemma SearchLoopFail(pattern: string, s: string, i: nat, p: nat, candidate: bool, start: nat)
    requires Searchable(pattern) && |pattern| > 0
    requires i < |s| && p < |pattern| && WellFormedFrom(pattern, p)
    requires candidate ==> start < i
    requires !candidate ==> Parked(pattern, p)
    requires !Step(pattern, s, i, p).ok
    ensures var r := Step(pattern, s, i, p);
            var i', p' := (if candidate then r.input - 1 else r.input) + 1, if candidate then 0 else r.pat;
            0 <= i' <= |s| && p' <= |pattern| && WellFormedFrom(pattern, p') && Parked(pattern, p') &&
            (p' != 0 ==> i' >= 1) &&
            SearchLoop(pattern, s, i, p, candidate, start) == SearchLoop(pattern, s, i', p', false, start)
  {
    if candidate {
      SearchLoopRestart(pattern, s, i, p, start);
    } else {
      SearchLoopSkip(pattern, s, i, p, start);
    }
  }

  /**
   * One successful turn of the scan: a first atom consumes exactly one
   * character and opens a candidate there; the scan reports the candidate
   * when the pattern is used up and goes on with it otherwise.
   */
  lemma SearchLoopOk(pattern: string, s: string, i: nat, p: nat, candidate: bool, start: nat)
    requires Searchable(pattern) && |pattern| > 0
    requires i < |s| && p < |pattern| && WellFormedFrom(pattern, p)
    requires candidate ==> start < i
    requires !candidate ==> Parked(pattern, p)
    requires Step(pattern, s, i, p).ok
    ensures var r := Step(pattern, s, i, p);
            var start' := if candidate then start else i;
            (!candidate ==> r.input == i + 1) &&
            start' < r.input <= |s| && WellFormedFrom(pattern, r.pat) &&
            RunFrom(pattern, s, i, p) == RunFrom(pattern, s, r.input, r.pat) &&
            SearchLoop(pattern, s, i, p, candidate, start) ==
              if r.pat == |pattern| then Some(MatchObject(Span(start', r.input), s[start'..r.input]))
              else SearchLoop(pattern, s, r.input, r.pat, true, start')
  {
    assert !candidate ==> pattern[p] != '+';
  }

  // ---------------------------------------------------------------------------
  // What a reported match is.

  /**
   * A reported match is an uninterrupted run over its own span: from its
   * start with the pattern cursor at 0, or (when the first atom had failed
   * earlier, so not at position 0) from `FirstStop`.
   */
  predicate RunsOver(pattern: string, s: string, m: MatchObject)
    requires Searchable(pattern) && |pattern| > 0
  {
    0 <= m.span.start <= |s| &&
    (RunFrom(pattern, s, m.span.start, 0) == Some(m.span.end) ||
     (m.span.start >= 1 && RunFrom(pattern, s, m.span.start, FirstStop(pattern)) == Some(m.span.end)))
  }

  /** A step that uses up the pattern reports a run over its span. */
  lemma SearchLoopCompletes(pattern: string, s: string, i: nat, p: nat, candidate: bool, start: nat, p0: nat)
    requires Searchable(pattern) && |pattern| > 0
    requires i < |s| && p < |pattern| && WellFormedFrom(pattern, p)
    requires candidate ==> start < i
    requires !candidate ==> Parked(pattern, p)
    requires !candidate && p != 0 ==> i >= 1
    requires candidate ==> Parked(pattern, p0) && (p0 != 0 ==> start >= 1) &&
                           RunFrom(pattern, s, start, p0) == RunFrom(pattern, s, i, p)
    requires Step(pattern, s, i, p).ok && Step(pattern, s, i, p).pat == |pattern|
    ensures SearchLoop(pattern, s, i, p, candidate, start).Some?
    ensures RunsOver(pattern, s, SearchLoop(pattern, s, i, p, candidate, start).value)
  {
    SearchLoopOk(pattern, s, i, p, candidate, start);
    var r := Step(pattern, s, i, p);
    var start', p0' := if candidate then start else i, if candidate then p0 else p;
    assert RunFrom(pattern, s, start', p0') == Some(r.input);
  }

  /** Every match the scan reports is a run over its own span. */
  lemma {:induction false} SearchLoopRuns(pattern: string, s: string, i: nat, p: nat, candidate: bool, start: nat, p0: nat)
    requires Searchable(pattern) && |pattern| > 0
    requires i <= |s| && p <= |pattern| && WellFormedFrom(pattern, p)
    requires candidate ==> start < i
    requires !candidate ==> Parked(pattern, p)
    requires !candidate && p != 0 ==> i >= 1
    requires candidate ==> Parked(pattern, p0) && (p0 != 0 ==> start >= 1) &&
                           RunFrom(pattern, s, start, p0) == RunFrom(pattern, s, i, p)
    ensures var r := SearchLoop(pattern, s, i, p, candidate, start);
            r.Some? ==> RunsOver(pattern, s, r.value)
    decreases |s| - i, if candidate then 1 else 0, |pattern| - p
  {
    if p < |pattern| && i < |s| {
      var r := Step(pattern, s, i, p);
      if !r.ok {
        SearchLoopFail(pattern, s, i, p, candidate, start);
        if candidate {
          SearchLoopRuns(pattern, s, r.input, 0, false, start, p0);
        } else {
          SearchLoopRuns(pattern, s, r.input + 1, r.pat, false, start, p0);
        }
      } else if r.pat == |pattern| {
        SearchLoopCompletes(pattern, s, i, p, candidate, start, p0);
      } else {
        SearchLoopOk(pattern, s, i, p, candidate, start);
        var start', p0' := if candidate then start else i, if candidate then p0 else p;
        SearchLoopRuns(pattern, s, r.input, r.pat, true, start', p0');
      }
    }
  }

  /** Once a candidate is in progress, a run that completes is what the scan reports. */
  lemma {:induction false} CandidateCompletes(pattern: string, s: string, i: nat, p: nat, start: nat, b: nat)
    requires Searchable(pattern) && |pattern| > 0
    requires i <= |s| && p < |pattern| && WellFormedFrom(pattern, p) && start < i
    requires RunFrom(pattern, s, i, p) == Some(b)
    ensures start <= b <= |s|
    ensures SearchLoop(pattern, s, i, p, true, start) == Some(MatchObject(Span(start, b), s[start..b]))
    decreases |pattern| - p
  {
    var r := Step(pattern, s, i, p);
    if r.pat < |pattern| {
      CandidateCompletes(pattern, s, r.input, r.pat, start, b);
    }
  }

  /** Every match `search` reports is a run over its span (see `SearchLoopRuns`). */
  lemma SearchRuns(pattern: string, s: string)
    requires pattern == [] || s == [] || Searchable(pattern)
    ensures var r := SearchSpec(pattern, s);
            r.Some? ==> Searchable(pattern) && |pattern| > 0 && RunsOver(pattern, s, r.value)
  {
    if pattern != [] && s != [] {
      SearchLoopRuns(pattern, s, 0, 0, false, 0, 0);
    }
  }

  /**
   * `search` reports a match at position 0 exactly when a run from the start
   * of both pattern and subject completes, and then it reports that run.
   */
  lemma SearchAtStart(pattern: string, s: string)
    requires Searchable(pattern) && |pattern| > 0
    ensures (SearchSpec(pattern, s).Some? && SearchSpec(pattern, s).value.span.start == 0) <==>
            RunFrom(pattern, s, 0, 0).Some?
    ensures RunFrom(pattern, s, 0, 0).Some? ==>
              var b := RunFrom(pattern, s, 0, 0).value;
              b <= |s| && SearchSpec(pattern, s) == Some(MatchObject(Span(0, b), s[..b]))
  {
    SearchRuns(pattern, s);
    if RunFrom(pattern, s, 0, 0).Some? {
      var b := RunFrom(pattern, s, 0, 0).value;
      var r := Step(pattern, s, 0, 0);
      if r.pat < |pattern| {
        CandidateCompletes(pattern, s, r.input, r.pat, 0, b);
      }
    }
  }

  // ---------------------------------------------------------------------------
  // Patterns without meta-characters.

  predicate Plain(ch: char) {
    ch != '.' && ch != '\\' && ch != '[' && ch != '+'
  }

  predicate IsLiteral(pattern: string) {
    forall k :: 0 <= k < |pattern| ==> Plain(pattern[k])
  }

  /** A pattern without meta-characters is a sequence of one-character atoms. */
  lemma {:induction false} LiteralWellFormed(pattern: string, p: nat)
    requires IsLiteral(pattern) && p <= |pattern|
    ensures WellFormedFrom(pattern, p)
    decreases |pattern| - p
  {
    if p < |pattern| {
      assert Plain(pattern[p]);
      LiteralWellFormed(pattern, p + 1);
    }
  }

  /** A literal atom succeeds iff the characters are equal, and then both cursors move by one. */
  lemma LiteralStep(pattern: string, s: string, i: nat, p: nat)
    requires IsLiteral(pattern) && i < |s| && p < |pattern|
    ensures Complete(pattern, p) && AtomEnd(pattern, p) == p + 1
    ensures Step(pattern, s, i, p) ==
              if s[i] == pattern[p] then Outcome(true, i + 1, p + 1) else Outcome(false, i, p)
  {
    assert Plain(pattern[p]);
  }

  /** A run of a literal pattern from `(i, p)` reads exactly the rest of the pattern. */
  lemma {:induction false} LiteralRun(pattern: string, s: string, i: nat, p: nat)
    requires IsLiteral(pattern) && i <= |s| && p <= |pattern|
    ensures WellFormedFrom(pattern, p)
    ensures var n := |pattern| - p;
            RunFrom(pattern, s, i, p) ==
              if i + n <= |s| && s[i..i + n] == pattern[p..] then Some(i + n) else None
    decreases |pattern| - p
  {
    LiteralWellFormed(pattern, p);
    if p < |pattern| && i < |s| {
      var n := |pattern| - p;
      LiteralStep(pattern, s, i, p);
      if s[i] != pattern[p] {
        if i + n <= |s| {
          assert s[i..i + n][0] != pattern[p..][0];
        }
      } else {
        LiteralRun(pattern, s, i + 1, p + 1);
        if i + n <= |s| {
          assert s[i..i + n] == [s[i]] + s[i + 1..i + n];
          assert pattern[p..] == [pattern[p]] + pattern[p + 1..];
        }
      }
    }
  }

  /** A literal pattern is searchable, and any match of it is an occurrence of the pattern. */
  lemma LiteralSearchSound(pattern: string, s: string)
    requires IsLiteral(pattern)
    ensures Searchable(pattern)
    ensures SearchSpec(pattern, s).Some? ==>
              var m := SearchSpec(pattern, s).value;
              m.text == pattern && m.span.end == m.span.start + |pattern|
  {
    LiteralRun(pattern, s, 0, 0);
    SearchRuns(pattern, s);
    if SearchSpec(pattern, s).Some? {
      var m := SearchSpec(pattern, s).value;
      LiteralRun(pattern, s, m.span.start, 0);
    }
  }

  /** For a literal pattern, `search` reports a match at 0 exactly when the pattern is a prefix. */
  lemma LiteralSearchAtStart(pattern: string, s: string)
    requires IsLiteral(pattern) && |pattern| > 0
    ensures Searchable(pattern)
    ensures (SearchSpec(pattern, s).Some? && SearchSpec(pattern, s).value.span.start == 0) <==>
            (|pattern| <= |s| && s[..|pattern|] == pattern)
  {
    LiteralRun(pattern, s, 0, 0);
    SearchAtStart(pattern, s);
  }
}

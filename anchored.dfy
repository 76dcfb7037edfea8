/**
 * Matching anchored at position 0 (`Regex.match`).
 *
 * The cursors start at 0 and atoms are stepped until one fails (no match) or
 * either cursor reaches its end (a match). There is no restart, and a subject
 * that runs out before the pattern does still gives a match of what was read.
 */
module Anchored {
  import opened Wrappers
  import opened Spans
  import opened Atoms
  import opened Scanner

  /**
   * The `while` loop of `match` from cursors `(i, p)`. Any match it reports
   * starts at 0, ends at or after `i` (after it, unless the atom at `p` is a
   * `+` that consumed nothing), and carries the subject's prefix as its text.
   */
  function MatchLoop(pattern: string, s: string, i: nat, p: nat): (r: Option<MatchObject>)
    requires i < |s| && p < |pattern| && WellFormedFrom(pattern, p)
    ensures r.Some? ==> r.value.span.start == 0 && i <= r.value.span.end <= |s| &&
                        r.value.text == s[..r.value.span.end]
    ensures r.Some? && pattern[p] != '+' ==> i < r.value.span.end
    decreases |pattern| - p
  {
    var r := Step(pattern, s, i, p);
    if !r.ok then None
    else if r.pat == |pattern| || r.input == |s| then Some(MatchObject(Span(0, r.input), s[0..r.input]))
    else MatchLoop(pattern, s, r.input, r.pat)
  }

  // ---------------------------------------------------------------------------
  // An empty subject.

  /** The atom at `p` is an escape other than `\w` and `\W`, which never reads the subject. */
  predicate Blind(pattern: string, p: nat) {
    p + 1 < |pattern| && pattern[p] == '\\' && pattern[p + 1] != 'w' && pattern[p + 1] != 'W'
  }

  /**
   * `match` on an empty subject from pattern position `p` raises nowhere: the
   * atoms it meets are blind escapes, up to the end of the pattern or up to a
   * `+`, whose read of the subject raises an `IndexError` that is caught.
   * Every other atom reads the subject and raises.
   */
  predicate EmptySafe(pattern: string, p: nat)
    decreases |pattern| - p
  {
    p < |pattern| &&
    (pattern[p] == '+' || (Blind(pattern, p) && (p + 2 == |pattern| || EmptySafe(pattern, p + 2))))
  }

  /** From `p` on, the pattern is nothing but blind escapes. */
  predicate AllBlindFrom(pattern: string, p: nat) {
    p <= |pattern| && (|pattern| - p) % 2 == 0 &&
    forall k :: p <= k < |pattern| && (k - p) % 2 == 0 ==> Blind(pattern, k)
  }

  /**
   * The `while` loop of `match` on an empty subject from cursors `(i, p)`.
   * A blind escape succeeds and moves the input cursor past the end of the
   * subject, so the loop stops only at the end of the pattern, where it
   * reports the span `(0, i)` with the empty text that slicing past the end
   * gives. A `+` fails, and the match is None.
   */
  function EmptyLoop(pattern: string, i: nat, p: nat): (r: Option<MatchObject>)
    requires EmptySafe(pattern, p)
    ensures r.Some? ==> r.value.span.start == 0 && i < r.value.span.end && r.value.text == []
    decreases |pattern| - p
  {
    if pattern[p] == '+' then None
    else if p + 2 == |pattern| then Some(MatchObject(Span(0, i + 1), []))
    else EmptyLoop(pattern, i + 1, p + 2)
  }

  /**
   * On an empty subject, `match` succeeds iff the rest of the pattern is all
   * blind escapes, and then its span counts one position per escape while its
   * text is empty.
   */
  lemma {:induction false} EmptyLoopAllBlind(pattern: string, i: nat, p: nat)
    requires EmptySafe(pattern, p)
    ensures EmptyLoop(pattern, i, p) ==
              if AllBlindFrom(pattern, p) then Some(MatchObject(Span(0, i + (|pattern| - p) / 2), []))
              else None
    decreases |pattern| - p
  {
    if pattern[p] == '+' {
      assert !Blind(pattern, p);
    } else if p + 2 == |pattern| {
      assert AllBlindFrom(pattern, p);
    } else {
      EmptyLoopAllBlind(pattern, i + 1, p + 2);
      if AllBlindFrom(pattern, p + 2) {
        assert AllBlindFrom(pattern, p);
      } else {
        // A non-blind atom at an even offset from p + 2 is one from p as well.
        var k :| p + 2 <= k < |pattern| && (k - (p + 2)) % 2 == 0 && !Blind(pattern, k);
        assert (k - p) % 2 == 0;
      }
    }
  }

  // ---------------------------------------------------------------------------
  // `match`.

  /**
   * `match(pattern, s)`. The source reads `pattern[0]` before any check, so
   * the pattern must be non-empty. On a non-empty subject the loop is
   * `MatchLoop`; a leading `+` does not loop there, and can give the empty
   * match `(0, 0)`. On an empty subject the loop is `EmptyLoop`, the one case
   * where a reported span is longer than its text.
   */
  function MatchSpec(pattern: string, s: string): (r: Option<MatchObject>)
    requires |pattern| > 0 && WellFormed(pattern) && (s == [] ==> EmptySafe(pattern, 0))
    ensures r.Some? ==> r.value.span.start == 0
    ensures |s| > 0 && r.Some? ==> 0 <= r.value.span.end <= |s| && r.value.text == s[..r.value.span.end]
    ensures |s| > 0 && r.Some? && pattern[0] != '+' ==> r.value.span.end > 0
    ensures s == [] && r.Some? ==> r.value.span.end > 0 && r.value.text == []
  {
    if s == [] then EmptyLoop(pattern, 0, 0) else MatchLoop(pattern, s, 0, 0)
  }

  /** `match` on an empty subject: the span covers one position per escape, the text is empty. */
  lemma MatchEmptySubject(pattern: string)
    requires |pattern| > 0 && WellFormed(pattern) && EmptySafe(pattern, 0)
    ensures MatchSpec(pattern, []) ==
              if AllBlindFrom(pattern, 0) then Some(MatchObject(Span(0, |pattern| / 2), [])) else None
  {
    EmptyLoopAllBlind(pattern, 0, 0);
  }

  /** `match` as the source runs it. */
  method Match(pattern: string, s: string) returns (m: Option<MatchObject>)
    requires |pattern| > 0 && WellFormed(pattern) && (s == [] ==> EmptySafe(pattern, 0))
    ensures m == MatchSpec(pattern, s)
  {
    var input: nat, meta: nat := 0, 0;
    var spanStart := 0;
    if |s| == 0 {
      // Only blind escapes and `+` are met, and neither goes through a read of
      // the subject that succeeds: a blind escape moves both cursors, and a `+`
      // raises on its read, which is caught as a failure.
      while true
        invariant EmptySafe(pattern, meta)
        invariant EmptyLoop(pattern, input, meta) == MatchSpec(pattern, s)
        decreases |pattern| - meta
      {
        if pattern[meta] == '+' {
          return None;
        }
        input, meta := input + 1, meta + 2;
        if meta == |pattern| {
          break;
        }
      }
      // Slicing past the end of the subject gives the empty text.
      return Some(MatchObject(Span(spanStart, input), []));
    }
    while true
      invariant input < |s| && meta < |pattern| && WellFormedFrom(pattern, meta)
      invariant MatchLoop(pattern, s, input, meta) == MatchSpec(pattern, s)
      decreases |pattern| - meta
    {
      var ok;
      ok, input, meta := CheckChar(s, pattern, input, meta);
      if input == 0 && !ok {
        return None;
      }
      if !ok {
        return None;
      }
      if meta == |pattern| || input == |s| {
        break;
      }
    }
    m := Some(MatchObject(Span(spanStart, input), s[spanStart..input]));
  }

  /** A run from `(i, p)` that completes the pattern is also what the anchored loop reports. */
  lemma {:induction false} MatchLoopFollowsRun(pattern: string, s: string, i: nat, p: nat, b: nat)
    requires i < |s| && p < |pattern| && WellFormedFrom(pattern, p)
    requires RunFrom(pattern, s, i, p) == Some(b)
    ensures b <= |s| && MatchLoop(pattern, s, i, p) == Some(MatchObject(Span(0, b), s[..b]))
    decreases |pattern| - p
  {
    var r := Step(pattern, s, i, p);
    if r.pat < |pattern| {
      MatchLoopFollowsRun(pattern, s, r.input, r.pat, b);
    }
  }

  /**
   * A run of successful steps from `(i, p)` that stops at the end of the
   * pattern or at the end of the subject, whichever comes first: the input
   * position where it stops, or None when a step fails on the way. Unlike
   * `RunFrom`, a subject that runs out before the pattern is not a failure.
   */
  function RunOrOut(pattern: string, s: string, i: nat, p: nat): (r: Option<nat>)
    requires i <= |s| && p <= |pattern| && WellFormedFrom(pattern, p)
    ensures r.Some? ==> i <= r.value <= |s|
    decreases |pattern| - p
  {
    if p == |pattern| || i == |s| then Some(i)
    else
      var r := Step(pattern, s, i, p);
      if r.ok then RunOrOut(pattern, s, r.input, r.pat) else None
  }

  /**
   * A run that completes the pattern is also a run to the end of either; a run
   * to the end of either that stops short of the end of the subject completed
   * the pattern.
   */
  lemma {:induction false} RunOrOutAgrees(pattern: string, s: string, i: nat, p: nat)
    requires i <= |s| && p <= |pattern| && WellFormedFrom(pattern, p)
    ensures RunFrom(pattern, s, i, p).Some? ==> RunOrOut(pattern, s, i, p) == RunFrom(pattern, s, i, p)
    ensures RunOrOut(pattern, s, i, p).Some? && RunOrOut(pattern, s, i, p).value < |s| ==>
              RunFrom(pattern, s, i, p) == RunOrOut(pattern, s, i, p)
    decreases |pattern| - p
  {
    if p < |pattern| && i < |s| {
      var r := Step(pattern, s, i, p);
      if r.ok {
        RunOrOutAgrees(pattern, s, r.input, r.pat);
      }
    }
  }

  /**
   * The loop of `match` reports exactly the runs of successful steps: a match
   * ending at `b` iff the steps succeed up to input position `b`, where the
   * pattern or the subject ends.
   */
  lemma {:induction false} MatchLoopIsRun(pattern: string, s: string, i: nat, p: nat)
    requires i < |s| && p < |pattern| && WellFormedFrom(pattern, p)
    ensures var run := RunOrOut(pattern, s, i, p);
            MatchLoop(pattern, s, i, p) ==
              if run.Some? then Some(MatchObject(Span(0, run.value), s[..run.value])) else None
    decreases |pattern| - p
  {
    var r := Step(pattern, s, i, p);
    if r.ok && r.pat < |pattern| && r.input < |s| {
      MatchLoopIsRun(pattern, s, r.input, r.pat);
    }
  }

  /**
   * `match` on a non-empty subject reports `(0, b)` with `b` short of the end
   * of the subject iff the pattern's steps all succeed and end at `b`; at the
   * end of the subject it reports every run the subject cut short, and every
   * run that completes there.
   */
  lemma MatchIsRun(pattern: string, s: string)
    requires |pattern| > 0 && WellFormed(pattern) && |s| > 0
    ensures var run := RunOrOut(pattern, s, 0, 0);
            MatchSpec(pattern, s) ==
              if run.Some? then Some(MatchObject(Span(0, run.value), s[..run.value])) else None
    ensures forall b :: 0 <= b < |s| ==>
              (MatchSpec(pattern, s) == Some(MatchObject(Span(0, b), s[..b])) <==>
               RunFrom(pattern, s, 0, 0) == Some(b))
    ensures RunFrom(pattern, s, 0, 0) == Some(|s|) ==> MatchSpec(pattern, s) == Some(MatchObject(Span(0, |s|), s))
  {
    MatchLoopIsRun(pattern, s, 0, 0);
    RunOrOutAgrees(pattern, s, 0, 0);
    assert s[..|s|] == s;
  }

  /**
   * When `search` finds its match at position 0, `match` finds the same match:
   * the two agree wherever the scan never had to restart.
   */
  lemma SearchAtStartIsMatch(pattern: string, s: string)
    requires Searchable(pattern) && |pattern| > 0 && |s| > 0
    requires SearchSpec(pattern, s).Some? && SearchSpec(pattern, s).value.span.start == 0
    ensures MatchSpec(pattern, s) == SearchSpec(pattern, s)
  {
    SearchAtStart(pattern, s);
    MatchLoopFollowsRun(pattern, s, 0, 0, RunFrom(pattern, s, 0, 0).value);
  }

  /**
   * For a literal pattern, `match` succeeds exactly when the pattern and the
   * subject agree on their common length, and it then reports that common prefix.
   */
  lemma {:induction false} LiteralMatchLoop(pattern: string, s: string, i: nat, p: nat)
    requires IsLiteral(pattern) && i < |s| && p < |pattern| && i == p
    ensures WellFormedFrom(pattern, p)
    ensures var k := if |s| < |pattern| then |s| else |pattern|;
            MatchLoop(pattern, s, i, p) ==
              if s[i..k] == pattern[p..k] then Some(MatchObject(Span(0, k), s[..k])) else None
    decreases |pattern| - p
  {
    LiteralWellFormed(pattern, p);
    LiteralStep(pattern, s, i, p);
    var k := if |s| < |pattern| then |s| else |pattern|;
    SlicesAgree(s, pattern, i, k);
    if s[i] == pattern[p] && i + 1 < k {
      LiteralMatchLoop(pattern, s, i + 1, p + 1);
    }
  }

  /** Two stretches agree iff their first characters and the rest agree. */
  lemma SlicesAgree(a: string, b: string, i: nat, k: nat)
    requires i < k <= |a| && k <= |b|
    ensures a[i..k] == b[i..k] <==> a[i] == b[i] && a[i + 1..k] == b[i + 1..k]
  {
    assert a[i..k] == [a[i]] + a[i + 1..k];
    assert b[i..k] == [b[i]] + b[i + 1..k];
  }

  lemma LiteralMatch(pattern: string, s: string)
    requires IsLiteral(pattern) && |pattern| > 0 && |s| > 0
    ensures WellFormed(pattern)
    ensures var k := if |s| < |pattern| then |s| else |pattern|;
            MatchSpec(pattern, s) ==
              if s[..k] == pattern[..k] then Some(MatchObject(Span(0, k), s[..k])) else None
  {
    LiteralMatchLoop(pattern, s, 0, 0);
  }
}

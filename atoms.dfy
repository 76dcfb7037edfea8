/**
 * The atom step (`Regex.check_char`).
 *
 * The pattern is read positionally: the character at the pattern cursor says
 * which kind of atom starts there. One step decides that atom against the
 * subject character at the input cursor and moves both cursors. The source
 * keeps each cursor in a one-element list that the step mutates; here the
 * step takes the two cursors and returns their new values with the verdict.
 */
module Atoms {
  import opened RangeClass

  /** `str.isalnum` on one character, restricted to ASCII letters and digits. */
  predicate IsAlnum(ch: char) {
    'a' <= ch <= 'z' || 'A' <= ch <= 'Z' || '0' <= ch <= '9'
  }

  // ---------------------------------------------------------------------------
  // Where atoms start and end.

  /** The first index at or after `k` holding `]`, or `|pattern|` when there is none. */
  function Close(pattern: string, k: nat): (q: nat)
    requires k <= |pattern|
    ensures k <= q <= |pattern|
    ensures q < |pattern| ==> pattern[q] == ']'
    ensures forall j :: k <= j < q ==> pattern[j] != ']'
    decreases |pattern| - k
  {
    if k == |pattern| || pattern[k] == ']' then k else Close(pattern, k + 1)
  }

  /**
   * The position just after the atom that starts at `p`: two characters for an
   * escape, up to and including `]` for a class, one otherwise. It exceeds
   * `|pattern|` exactly when the atom is cut off (a trailing `\`, an unclosed `[`).
   */
  function AtomEnd(pattern: string, p: nat): nat
    requires p < |pattern|
  {
    if pattern[p] == '\\' then p + 2
    else if pattern[p] == '[' then Close(pattern, p + 1) + 1
    else p + 1
  }

  /** The atom at `p` lies wholly inside the pattern, so reading it cannot raise. */
  predicate Complete(pattern: string, p: nat) {
    p < |pattern| && AtomEnd(pattern, p) <= |pattern|
  }

  /** Every atom met when reading the pattern from `p`, atom after atom, is complete. */
  predicate WellFormedFrom(pattern: string, p: nat)
    requires p <= |pattern|
    decreases |pattern| - p
  {
    p == |pattern| || (Complete(pattern, p) && WellFormedFrom(pattern, AtomEnd(pattern, p)))
  }

  predicate WellFormed(pattern: string) {
    WellFormedFrom(pattern, 0)
  }

  /**
   * Where a failed step leaves the pattern cursor: on the letter of `\w` or
   * `\W`, on the `]` of a class, and where it was for every other atom.
   */
  function FailStop(pattern: string, p: nat): nat
    requires Complete(pattern, p)
  {
    if pattern[p] == '\\' && (pattern[p + 1] == 'w' || pattern[p + 1] == 'W') then p + 1
    else if pattern[p] == '[' then Close(pattern, p + 1)
    else p
  }

  // ---------------------------------------------------------------------------
  // The atoms, as a pattern reads when cut into tokens.

  datatype Atom =
    | Literal(c: char)      // any other character
    | Dot                   // `.`
    | Word                  // `\w`
    | NonWord               // `\W`
    | Escaped(c: char)      // `\` followed by any other character
    | Class(body: string)   // `[` body `]`
    | Repeat(c: char)       // `+`, repeating the raw pattern character before it

  /** The atom that starts at `p`. */
  function AtomAt(pattern: string, p: nat): Atom
    requires Complete(pattern, p)
  {
    match pattern[p]
    case '.' => Dot
    case '\\' =>
      (match pattern[p + 1]
       case 'w' => Word
       case 'W' => NonWord
       case e => Escaped(e))
    case '[' => Class(pattern[p + 1..Close(pattern, p + 1)])
    // At position 0, Python's index -1 reads the last pattern character.
    case '+' => Repeat(if p == 0 then pattern[|pattern| - 1] else pattern[p - 1])
    case c => Literal(c)
  }

  /** Whether an atom other than a `+` accepts one subject character. */
  predicate Accepts(a: Atom, ch: char)
    requires !a.Repeat?
  {
    match a
    case Literal(c) => ch == c
    case Dot => ch != '\n'
    case Word => IsAlnum(ch)
    case NonWord => !IsAlnum(ch)
    case Escaped(_) => true
    case Class(body) => ParseRange(ch, body)
  }

  // ---------------------------------------------------------------------------
  // The step.

  /** The verdict of one step and where it leaves the input and pattern cursors. */
  datatype Outcome = Outcome(ok: bool, input: nat, pat: nat)

  /** The first index at or after `i` whose character differs from `c`, or `|s|`. */
  function RunEnd(s: string, i: nat, c: char): (j: nat)
    requires i <= |s|
    ensures i <= j <= |s|
    ensures forall k :: i <= k < j ==> s[k] == c
    ensures j < |s| ==> s[j] != c
    decreases |s| - i
  {
    if i == |s| || s[i] != c then i else RunEnd(s, i + 1, c)
  }

  /**
   * `check_char` at cursors `(i, p)`.
   *
   * A single-character atom succeeds exactly when it accepts `s[i]`; it then
   * consumes that character and the pattern cursor moves past the atom. On
   * failure the input cursor stays and the pattern cursor is left at
   * `FailStop`. A `+` consumes the run of its repeated character that starts at
   * `i` and succeeds when the run stops before the end of the subject; when the
   * run reaches the end, the step fails with the input cursor on the last
   * character of the subject.
   */
  function Step(pattern: string, s: string, i: nat, p: nat): (r: Outcome)
    requires i < |s| && Complete(pattern, p)
    ensures r.input <= |s| && r.pat <= |pattern|
    ensures !AtomAt(pattern, p).Repeat? ==>
              (r.ok <==> Accepts(AtomAt(pattern, p), s[i])) &&
              (r.ok ==> r.input == i + 1 && r.pat == AtomEnd(pattern, p)) &&
              (!r.ok ==> r.input == i && r.pat == FailStop(pattern, p))
    ensures AtomAt(pattern, p).Repeat? ==>
              var c := AtomAt(pattern, p).c;
              i <= r.input < |s| &&
              (forall k :: i <= k < r.input ==> s[k] == c) &&
              (r.ok <==> s[r.input] != c) &&
              (r.ok ==> r.pat == AtomEnd(pattern, p)) &&
              (!r.ok ==> r.input == |s| - 1 && r.pat == p)
  {
    var c := pattern[p];
    if c == '.' then
      if s[i] == '\n' then Outcome(false, i, p) else Outcome(true, i + 1, p + 1)
    else if c == '\\' then
      var e := pattern[p + 1];
      if (e == 'w' && !IsAlnum(s[i])) || (e == 'W' && IsAlnum(s[i])) then Outcome(false, i, p + 1)
      else Outcome(true, i + 1, p + 2)
    else if c == '[' then
      var q := Close(pattern, p + 1);
      if ParseRange(s[i], pattern[p + 1..q]) then Outcome(true, i + 1, q + 1) else Outcome(false, i, q)
    else if c == '+' then
      var last := if p == 0 then pattern[|pattern| - 1] else pattern[p - 1];
      var j := RunEnd(s, i, last);
      // Reading s[|s|] raises IndexError, caught as a failure; `finally` steps back one.
      if j == |s| then Outcome(false, |s| - 1, p) else Outcome(true, j, p + 1)
    else if c == s[i] then Outcome(true, i + 1, p + 1)
    else Outcome(false, i, p)
  }

  /**
   * `check_char` as the source runs it: the class body is gathered character
   * by character up to `]`, and the `+` run is walked until a different
   * character or the end of the subject.
   */
  method CheckChar(s: string, pattern: string, i: nat, p: nat) returns (ok: bool, i': nat, p': nat)
    requires i < |s| && Complete(pattern, p)
    ensures Outcome(ok, i', p') == Step(pattern, s, i, p)
  {
    var input: int, meta: int := i, p;
    if pattern[meta] == '.' {
      if s[input] == '\n' {
        assert Step(pattern, s, i, p) == Outcome(false, i, p);
        return false, i, p;
      }
      assert Step(pattern, s, i, p) == Outcome(true, i + 1, p + 1);
    } else if pattern[meta] == '\\' {
      meta := meta + 1;
      if pattern[meta] == 'w' {
        if !IsAlnum(s[input]) {
          assert Step(pattern, s, i, p) == Outcome(false, i, p + 1);
          return false, i, meta;
        }
      } else if pattern[meta] == 'W' {
        if IsAlnum(s[input]) {
          assert Step(pattern, s, i, p) == Outcome(false, i, p + 1);
          return false, i, meta;
        }
      }
      assert Step(pattern, s, i, p) == Outcome(true, i + 1, p + 2);
    } else if pattern[meta] == '[' {
      meta := meta + 1;
      var body := "";
      while pattern[meta] != ']'
        invariant p + 1 <= meta <= Close(pattern, p + 1)
        invariant body == pattern[p + 1..meta]
        decreases |pattern| - meta
      {
        body := body + [pattern[meta]];
        meta := meta + 1;
      }
      assert meta == Close(pattern, p + 1);
      if !ParseRange(s[input], body) {
        assert Step(pattern, s, i, p) == Outcome(false, i, meta);
        return false, i, meta;
      }
      assert Step(pattern, s, i, p) == Outcome(true, i + 1, meta + 1);
    } else if pattern[meta] == '+' {
      var last := if meta == 0 then pattern[|pattern| - 1] else pattern[meta - 1];
      while input < |s| && s[input] == last
        invariant i <= input <= |s|
        invariant forall k :: i <= k < input ==> s[k] == last
        decreases |s| - input
      {
        input := input + 1;
      }
      assert input == RunEnd(s, i, last);
      var overran := input == |s|;
      input := input - 1;
      if overran {
        assert Step(pattern, s, i, p) == Outcome(false, input, p);
        return false, input, meta;
      }
      assert Step(pattern, s, i, p) == Outcome(true, input + 1, p + 1);
    } else {
      if pattern[meta] != s[input] {
        assert Step(pattern, s, i, p) == Outcome(false, i, p);
        return false, i, p;
      }
      assert Step(pattern, s, i, p) == Outcome(true, i + 1, p + 1);
    }
    input := input + 1;
    meta := meta + 1;
    ok, i', p' := true, input, meta;
  }
}

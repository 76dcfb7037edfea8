/**
 * Bracket-class membership (`Regex.parse_range`).
 *
 * The body of a class is the text between `[` and `]`. The source finds the
 * first `-` with `str.find`, reads the characters on either side of it with
 * Python indexing (so index -1 and -2 count from the end), and catches the
 * `IndexError` of a missing neighbour as a rejection.
 */
module RangeClass {

  /** `t.find(c)`: the index of the first `c` in `t`, or -1 when there is none. */
  function Find(t: string, c: char): (k: int)
    ensures -1 <= k < |t|
    ensures k == -1 <==> c !in t
    ensures k >= 0 ==> t[k] == c && c !in t[..k]
    decreases |t|
  {
    if t == [] then -1
    else if t[0] == c then 0
    else
      var k := Find(t[1..], c);
      if k == -1 then -1 else k + 1
  }

  /** Whether Python accepts `n` as an index into `t` (negative indices count from the end). */
  predicate PyValid(t: string, n: int) {
    -|t| <= n < |t|
  }

  /** `t[n]` with Python's negative indexing. */
  function PyAt(t: string, n: int): char
    requires PyValid(t, n)
  {
    if n < 0 then t[|t| + n] else t[n]
  }

  /**
   * `parse_range(c, body)`. Without a `-`, a character absent from the body is
   * rejected outright; a present one falls through to the range test, which
   * then reads `body[-2]` and `body[0]`. With a `-` at index k, the range is
   * `body[k-1] .. body[k+1]`, where `body[-1]` is the last character.
   */
  function ParseRange(c: char, body: string): (r: bool)
    // No `-`: the character must occur, and also lie between the second-to-last
    // and the first character of the body (so one-character bodies never match).
    ensures '-' !in body ==>
              (r <==> c in body && |body| >= 2 && body[|body| - 2] <= c <= body[0])
    // First `-` at k: only the characters around it matter; a trailing `-` rejects.
    ensures forall k :: 0 <= k < |body| && body[k] == '-' && '-' !in body[..k] ==>
              (r <==> k + 1 < |body| &&
                      (if k == 0 then body[|body| - 1] else body[k - 1]) <= c <= body[k + 1])
  {
    var dash := Find(body, '-');
    if dash == -1 && c !in body then false
    else
      var left := dash - 1;
      var right := dash + 1;
      if PyValid(body, left) && PyValid(body, right) then
        PyAt(body, left) <= c <= PyAt(body, right)
      else
        false  // IndexError, caught
  }

  /** A class of the usual `a-z` shape is the inclusive range between its ends. */
  lemma SimpleRange(c: char, lo: char, hi: char)
    requires lo != '-'
    ensures ParseRange(c, [lo, '-', hi]) <==> lo <= c <= hi
  {
    var body := [lo, '-', hi];
    assert body[1] == '-' && '-' !in body[..1];
  }

  /** A one-character class body never accepts anything, its own character included. */
  lemma SingleCharClassRejects(c: char, d: char)
    ensures !ParseRange(c, [d])
  {
    if d == '-' {
      assert [d][0] == '-' && '-' !in [d][..0];
    }
  }
}

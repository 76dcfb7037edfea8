# A verified model of `Regex.py`

`Regex.py` is a small regular-expression engine over strings and integer
cursors. Its `Regex` class has six static methods:

- `check_char` decides one pattern atom against one subject character. The
  atoms are a literal, `.`, `\w`, `\W`, any other escape, a `[...]` class,
  and `+`. It moves the input and pattern cursors.
- `parse_range` tests membership in a class body.
- `search` scans left to right for the first match. After a partial match
  it restarts the pattern at the position where an atom failed.
- `match` matches anchored at position 0.
- `findall` runs `search` on every suffix and drops repeated absolute spans.
- `parse_span` shifts an `"(a, b)"` span text by an offset.

The model follows the code's own behaviour, quirks included:

- A failed escape or class moves the pattern cursor.
- A `+` that runs to the end of the subject fails and leaves the input cursor
  on the last character.
- After a partial match, `search` resumes at the position where an atom
  failed, not one past the candidate's start as a rule. The two coincide
  only when the failure is at the candidate's second character:
  `search("ab", "aab")` restarts at 1 and reports `(1, 3)`
  (`Samples.SearchRestartsAtMismatch`).
- `search`'s `match_found` flag is never set.

Each imperative routine is a Dafny method, proved equal to a functional
specification. The properties are proved about those specifications:

| source routine | specification | method |
|---|---|---|
| `check_char` | `Atoms.Step` | `Atoms.CheckChar` |
| `search` | `Scanner.SearchSpec` (loop: `Scanner.SearchLoop`) | `Scanner.Search` |
| `match` | `Anchored.MatchSpec` (loop: `Anchored.MatchLoop`) | `Anchored.Match` |
| `findall` | `Collector.FindAllSpec` | `Collector.FindAll` |

`parse_range` and `parse_span` are pure, so they are modelled as the
functions `RangeClass.ParseRange` and `Spans.ParseSpan`.

Modules, in dependency order:

- `Wrappers`
- `RangeClass`
- `Spans`
- `Atoms`
- `Scanner`
- `Anchored`
- `Collector`
- `Samples`, which holds concrete runs.

Where the code departs from ordinary regular-expression behaviour (Python's
own `re` module) or from its docstrings, the model follows the code:

- `parse_range('x', "xyz")` is false, where `re.match("[xyz]", "x")`
  matches. With no `-` in the body, a character found in the body is then
  tested against the range from the body's next-to-last character to its
  first (`Samples.ClassWithoutDash`).
- `findall("a+", "aaab")` is `["aaa", "aa", "a"]`, where
  `re.findall("a+", "aaab")` is `["aaa"]`. Each suffix reports its own run,
  and the three absolute spans differ (`Samples.FindAllRepeats`).
- A literal pattern that occurs in the subject is not always found, although
  the docstring of `search` promises the first location where the pattern
  matches. `search("aab", "aaab")` has no match, because the scan resumes at
  the mismatch at 2 and not one past the candidate's start at 0
  (`Samples.SearchMissesOverlap`). Only the other direction holds: every
  match of a literal pattern is an occurrence of it
  (`Scanner.LiteralSearchSound`).
- An empty subject does not always make `match` raise. Every atom reads the
  subject except a blind escape (an escape other than `\w` and `\W`), which
  succeeds without reading it and moves the input cursor past the end, so
  `match("\\d", "")` reports the span `(0, 1)` with the empty text: the one
  place where a span and its text disagree. A `+` there raises an
  `IndexError` that is caught, so `match("+", "")` is None
  (`Anchored.EmptyLoop`, `Samples.MatchEmpty`).
- Not every entry point is free of faults, and the preconditions exclude
  these cases:
  - A trailing `\` or an unclosed `[` raises once the loop reaches it.
  - An empty pattern raises in `match`, which steps the first atom before
    any check. `search` returns None for it before stepping
    (Regex.py:41-44).
  - In `match`, an atom that reads an empty subject raises.
  - A leading `+` given to `search` reads the pattern's last character as
    the one to repeat and moves the input cursor back. The scan may then
    loop forever (`search("+b", "a")`). It may also report a start of -1:
    `search("+", "a")` gives the span `"(-1, 0)"` with the empty text.

## Model

| member | source | states |
|---|---|---|
| RangeClass.Find | Regex.py:183 | `str.find`: -1 exactly when the character is absent; otherwise the index of its first occurrence |
| RangeClass.ParseRange | Regex.py:175-200 | With no `-`: true iff the character occurs in the body, the body has at least two characters, and body[-2] <= c <= body[0]. With the first `-` at k: true iff k+1 is inside the body and body[k-1] (body[-1] when k = 0) <= c <= body[k+1]. A trailing `-` and a one-character body give false, as the caught IndexError does |
| RangeClass.SimpleRange | Regex.py:189-200 | A body `lo-hi` accepts exactly the characters from lo to hi inclusive |
| RangeClass.SingleCharClassRejects | Regex.py:183-195 | A one-character body accepts nothing, not even its own character |
| Spans.Shift | Regex.py:169-170 | Both bounds move by the offset, so the span keeps its width; `Spans.ParseSpanZero` and `Spans.ParseSpanCompose` give identity and composition |
| Spans.IntToDecimal | Regex.py:172 | `str(n)` is non-empty and starts with `-` iff n is negative; `Spans.IntRoundTrip` reads it back |
| Spans.ParseInt | Regex.py:166-167 | `int()` succeeds only on non-empty text, and a negative value comes from a text starting with `-`; `Spans.IntRoundTrip` shows it inverts `str()` |
| Spans.NatToDecimal | Regex.py:172 | `str(n)` of a natural is a non-empty string of digits |
| Spans.DecimalRoundTrip | Regex.py:166-172 | Reading the digits of `str(n)` gives n back |
| Spans.IntRoundTrip | Regex.py:166-172 | `int(str(n)) == n` for every integer, negative ones included |
| Spans.SeparatorFrom | Regex.py:165 | Finds the first `", "` at or after a position, and there is none before it |
| Spans.Split | Regex.py:165 | `split(", ")` always yields at least one part |
| Spans.Strip | Regex.py:166-167 | `strip("()")` is no longer than its input, leaves no parenthesis at either end, and leaves a text with none at its ends unchanged |
| Spans.Render | Regex.py:172 | The span text is at least six characters, opens with `(` and closes with `)`; `Spans.ReadRender` reads it back and `Spans.RenderInjective` shows it is one-to-one |
| Spans.ReadSpan | Regex.py:165-167 | Reads two integers from a span text, None where the source raises; `Spans.ReadRender` proves it recovers every rendered span |
| Spans.ParseSpan | Regex.py:159-172 | The result reads back as the input's span with the offset added to both bounds |
| Spans.IntTextIsBare | Regex.py:172 | The text of an integer is non-empty and holds neither `,` nor parentheses |
| Spans.SplitRendered | Regex.py:165 | `split(", ")` of a rendered span gives its two halves |
| Spans.StripRendered | Regex.py:166-167 | `strip("()")` of each half leaves the number's text |
| Spans.ReadRender | Regex.py:165-172 | Reading back a rendered `"(a, b)"` gives (a, b) |
| Spans.RenderInjective | Regex.py:152-154 | Two span texts are equal iff the spans are equal, so the dedup set of texts is a set of spans |
| Spans.ParseSpanRendered | Regex.py:159-172 | `parse_span` of a rendered span renders the shifted span |
| Spans.ParseSpanZero | Regex.py:169-172 | Offset 0 returns a rendered span unchanged |
| Spans.ParseSpanCompose | Regex.py:169-172 | Shifting by a, then by b, equals shifting by a + b |
| Atoms.IsAlnum | Regex.py:220-228 | `str.isalnum` on one character, restricted to ASCII letters and digits (see "## Left out") |
| Atoms.Close | Regex.py:234-236 | The first `]` at or after a position, with no `]` before it |
| Atoms.RunEnd | Regex.py:244-245 | The first position at or after i whose character differs from c; every character before it is c |
| Atoms.Step | Regex.py:203-260 | For a non-`+` atom: success iff the atom accepts the character (literal: equal; `.`: not newline; `\w`/`\W`: alnum / not alnum; other escape: always; class: `parse_range`). On success the input cursor moves by 1 and the pattern cursor past the atom. On failure the input cursor stays, and the pattern cursor stays or rests on the escape letter or the `]`. For `+`: the run of the repeated character is consumed. Success iff the run stops before the subject's end, with the pattern cursor advanced by 1. Otherwise it fails with the input cursor on the last character |
| Atoms.CheckChar | Regex.py:203-260 | The imperative step, with its class-gathering and run loops, returns exactly what `Step` specifies |
| Scanner.FirstStop | Regex.py:51-60 | Where the pattern cursor rests after the first atom fails with no candidate: never on a `+`, and it is a fixed point of failure |
| Scanner.SearchLoop | Regex.py:38-77 | Any reported match is a non-empty stretch of the subject inside its bounds, and its text is that stretch |
| Scanner.SearchSpec | Regex.py:14-77 | An empty pattern or subject gives None. A match has 0 <= start < end <= len and text == s[start:end] |
| Scanner.Search | Regex.py:14-77 | The loop with its cursors, flag and span start returns exactly `SearchSpec` |
| Scanner.SearchLoopRestart | Regex.py:51-59 | A failed atom inside a candidate sends the pattern cursor back to 0, and the scan resumes at the position the atom was tried at; after a `+` that ran to the end of the subject it resumes at the last position |
| Scanner.SearchLoopSkip | Regex.py:51-60 | A failed atom with no candidate moves only the input cursor on by one; the pattern cursor stays where the failed step left it, `FirstStop` |
| Scanner.SearchLoopFail | Regex.py:51-60 | After a failed step the scan goes on from the next input position with no candidate. Inside a candidate the pattern cursor is reset to 0; otherwise it stays where the step left it, which is again a parked position |
| Scanner.SearchLoopOk | Regex.py:62-69 | A successful first atom consumes exactly one character and opens a candidate there. The scan reports the candidate when the pattern is used up and goes on with it otherwise |
| Scanner.SearchLoopCompletes | Regex.py:62-77 | A step that uses up the pattern reports a match that is a run over its span |
| Scanner.SearchLoopRuns | Regex.py:38-69 | Every reported match is an uninterrupted run of successful steps over its span, from pattern position 0 or from `FirstStop` |
| Scanner.CandidateCompletes | Regex.py:62-69 | Once a candidate is in progress, a completing run is what the scan reports |
| Scanner.SearchRuns | Regex.py:14-77 | Every match of `search` is a run over its span |
| Scanner.SearchAtStart | Regex.py:38-77 | `search` reports a match starting at 0 iff a run from (0, 0) completes, and it then reports that run |
| Scanner.LiteralWellFormed | Regex.py:253-258 | A pattern without `.`, `\\`, `[` or `+` is a sequence of complete one-character atoms |
| Scanner.LiteralRun | Regex.py:253-258 | For a pattern without meta-characters, a run from (i, p) completes iff the subject continues with the rest of the pattern |
| Scanner.LiteralSearchSound | Regex.py:14-77 | A match of a literal pattern has the pattern as its text, and its length is the pattern's |
| Scanner.LiteralSearchAtStart | Regex.py:14-77 | For a literal pattern, a match at 0 exists iff the pattern is a prefix of the subject |
| Anchored.MatchLoop | Regex.py:102-128 | A reported match starts at 0, ends at or after the current input cursor, and carries the subject's prefix. It ends strictly after the cursor unless the atom there is a `+` |
| Anchored.EmptyLoop | Regex.py:102-128 | On an empty subject, a match starts at 0, ends after the input cursor, and has the empty text |
| Anchored.EmptyLoopAllBlind | Regex.py:102-128 | On an empty subject, the loop succeeds iff the rest of the pattern is nothing but escapes other than `\w`/`\W`, and its span then grows by one per escape |
| Anchored.MatchSpec | Regex.py:80-128 | A match starts at 0. On a non-empty subject it ends within the subject, its text is the prefix up to its end, and it is non-empty unless the pattern starts with `+`. On an empty subject it ends after 0 and its text is empty. `Anchored.MatchIsRun` says which match it reports |
| Anchored.MatchEmptySubject | Regex.py:80-128 | `match(pattern, "")` is `(0, len(pattern)/2)` with the empty text iff the pattern is all blind escapes, else None |
| Anchored.Match | Regex.py:80-128 | The loop returns exactly `MatchSpec`, on empty and non-empty subjects |
| Anchored.MatchLoopFollowsRun | Regex.py:102-120 | A completing run from (i, p) is what the anchored loop reports |
| Anchored.RunOrOut | Regex.py:102-120 | The steps of the anchored loop, run until the pattern or the subject ends or a step fails; where it stops lies between the starting cursor and the subject's end |
| Anchored.RunOrOutAgrees | Regex.py:102-120 | A run that completes the pattern stops where the run to either end stops; a run to either end that stops short of the subject's end completed the pattern |
| Anchored.MatchLoopIsRun | Regex.py:102-128 | The anchored loop reports `(0, b)` with the prefix up to `b` exactly when the steps all succeed up to `b`, where the pattern or the subject ends; a failed step gives None |
| Anchored.MatchIsRun | Regex.py:80-128 | On a non-empty subject, `match` reports `(0, b)` with `b` before the subject's end iff the steps complete the pattern at `b`; it reports the whole subject for every run that completes there or that the subject cuts short, and None when a step fails first |
| Anchored.SearchAtStartIsMatch | Regex.py:14-128 | When `search` finds its match at 0, `match` returns the same match |
| Anchored.LiteralMatchLoop | Regex.py:102-128 | For a literal pattern, the anchored loop succeeds iff the subject and pattern agree on their common length |
| Anchored.LiteralMatch | Regex.py:80-128 | For a literal pattern, `match` returns the common prefix (length min of both) iff subject and pattern agree on it, else None |
| Collector.Hits | Regex.py:142-146 | The matches of `search` on suffixes before n, tagged with their offsets, all below n |
| Collector.HitsSound | Regex.py:142-149 | Each hit is what `search` reports on its suffix. Shifted by its offset, it lies inside s and covers its text |
| Collector.HitsComplete | Regex.py:142-146 | Every suffix on which `search` succeeds contributes its hit |
| Collector.HitsIncreasing | Regex.py:142 | Hits come in strictly increasing offset order |
| Collector.Dedup | Regex.py:151-154 | Deduplication keeps only hits of its input |
| Collector.DedupSpans | Regex.py:151-154 | The kept hits cover exactly the absolute spans of all hits |
| Collector.DedupUnique | Regex.py:151-154 | No two kept hits share an absolute span |
| Collector.DedupIncreasing | Regex.py:151-154 | Kept hits stay in increasing offset order |
| Collector.DedupProperties | Regex.py:151-154 | Deduplication keeps every absolute span, no span twice, and the offset order |
| Collector.DedupKeepsDistinct | Regex.py:151-154 | Hits with pairwise different absolute spans are all kept |
| Collector.DedupKeepsFirst | Regex.py:151-154 | Of the hits sharing an absolute span, the one kept has the smallest offset: `findall` keeps the first text seen for a span |
| Collector.TextsAppend | Regex.py:153 | Appending a hit appends its text |
| Collector.FindAllEmpty | Regex.py:137-156 | An empty subject gives [] |
| Collector.FindAllSound | Regex.py:137-156 | Each entry is the text of `search` on the suffix at its offset. The shifted span lies inside s and covers exactly that text |
| Collector.FindAllDistinct | Regex.py:142-154 | Entries come in increasing offset order, no two share an absolute span, and each entry comes from the first suffix on which `search` reports its absolute span |
| Collector.FindAllComplete | Regex.py:142-154 | Every suffix on which `search` succeeds has its absolute span among the entries |
| Collector.RenderAllAdd | Regex.py:152-154 | A span's text is in the set of seen texts iff the span was seen |
| Collector.FindAllMiss | Regex.py:143-146 | A suffix on which `search` fails leaves the collected texts and the seen span texts unchanged |
| Collector.FindAllHit | Regex.py:149-154 | A suffix with a match appends its text exactly when its shifted span text was not yet seen, and then records that text; otherwise nothing changes |
| Collector.FindAllSpec | Regex.py:131-156 | `findall` gives at most one entry per suffix of the subject. `Collector.FindAllSound` says each entry is a match of its suffix, `Collector.FindAllComplete` that every absolute span found is kept, and `Collector.FindAllDistinct` that each is kept once, from its first suffix, in offset order |
| Collector.FindAll | Regex.py:131-156 | The loop with its list and set returns exactly `FindAllSpec` |
| Samples.ClassWithoutDash | Regex.py:183-200 | `parse_range('x', "xyz")` is false; `"zya"` accepts `z` but rejects `a` |
| Samples.ClassWithDash | Regex.py:187-200 | `a-z` accepts `m` and rejects `M`; a leading `-` takes the last character as its left end |
| Samples.ParseSpanShifts | Regex.py:159-172 | `parse_span("(2, 5)", 3)` is `"(5, 8)"` |
| Samples.SearchMissesOverlap | Regex.py:51-60 | `search("aab", "aaab")` is None |
| Samples.SearchRestartsAtMismatch | Regex.py:51-60 | `search("ab", "aab")` restarts at 1, where the second atom failed, and reports `(1, 3)` with `"ab"` |
| Samples.SearchAfterFailedEscape | Regex.py:217-228 | `search("\\w", "!a")` is None |
| Samples.SearchFindsWord | Regex.py:14-77 | `search("cat", "concatenate")` is (3, 6) `"cat"` |
| Samples.MatchAnchored | Regex.py:80-128 | `match("ab", "abc")` is (0, 2) `"ab"`; `match("ab", "xab")` is None; `match("abc", "ab")` is (0, 2) `"ab"` |
| Samples.MatchEmpty | Regex.py:102-128 | `match("\\d", "")` is (0, 1) with the empty text; `match("+", "")` and `match("\\d+", "")` are None |
| Samples.RepeatSearches | Regex.py:241-258 | `search("a+", …)` on the suffixes of `"aaab"` gives `"aaa"`, `"aa"`, `"a"` and None |
| Samples.RepeatHits | Regex.py:142-146 | The hits of `findall("a+", "aaab")` at offsets 0, 1 and 2 |
| Samples.RepeatKept | Regex.py:151-154 | Those three hits have distinct absolute spans and are all kept |
| Samples.FindAllRepeats | Regex.py:131-156 | `findall("a+", "aaab")` is `["aaa", "aa", "a"]` |
| Samples.FindAllDots | Regex.py:131-156 | `findall(".", "ab")` is `["a", "b"]` |

## Left out

- The `print` diagnostics (Regex.py:194, 247) are console output only and are not modelled.
- The `isinstance` guards (Regex.py:20-21, 87-88) are not modelled. Arguments are typed as strings.
- The `Match` class (`Match.py`) is not part of this model. `Scanner.MatchObject` stands for it, holding the span and the matched text.
- Atoms.IsAlnum: `str.isalnum` is approximated by ASCII letters and digits. Non-ASCII letters and digits count as non-alphanumeric here.
- Spans.ParseInt: `int()` is modelled only on an optional `-` followed by digits. Python also accepts surrounding whitespace, a `+` sign and `_` separators. `parse_span` only ever receives texts that `str()` produced, so this does not matter there.
- Spans.ParseSpan: requires a text that reads as two integers. On other texts the source raises, and the model does not represent that.
- Anchored.MatchSpec: requires the whole pattern to be well formed, which is stronger than needed. The source fails only when it reaches a cut-off atom (a trailing `\` or an unclosed `[`), and `match` may stop before reaching it.
- Anchored.Match: the same stronger precondition as `Anchored.MatchSpec`. On an empty subject its loop is written apart from `Atoms.CheckChar`, stepping blind escapes and stopping at a `+`, because the only atoms `match` can step there without raising are ones that never read the subject.
- Scanner.SearchSpec: requires a well-formed pattern that does not start with `+`, which is stronger than needed. With a leading `+` the source can loop forever (for example `search("+b", "a")`) or report a start of -1. With a cut-off atom it raises only if the scan reaches it.
- Scanner.Search: the same stronger precondition as `Scanner.SearchSpec`.
- Collector.FindAllSpec: the same precondition as `Scanner.SearchSpec` for a non-empty subject.
- Collector.FindAll: the same precondition as `Scanner.SearchSpec` for a non-empty subject.
- The cursors: the source keeps each cursor in a one-element list that `check_char` mutates. The model passes the cursors in and returns their new values, so aliasing of those lists is not represented.

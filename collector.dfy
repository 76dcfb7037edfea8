/**
 * All matches (`Regex.findall`).
 *
 * `findall` runs `search` on every suffix `s[x..]`, moves each reported span
 * by `x` into the subject's coordinates (through `parse_span` on the span
 * text), and keeps the text of a match only the first time its absolute span
 * is seen. Overlapping matches with different spans are all kept.
 */
module Collector {
  import opened Wrappers
  import opened Spans
  import opened Scanner

  /** A match `search` reported on the suffix starting at `offset`, in that suffix's coordinates. */
  datatype Hit = Hit(offset: nat, found: MatchObject)

  /** The span of a hit in the coordinates of the whole subject. */
  function Absolute(h: Hit): Span {
    Shift(h.found.span, h.offset)
  }

  /**
   * The hits of `search` on the suffixes `s[x..]` for `x < n`, in increasing `x`
   * (see `HitsProperties`).
   */
  function Hits(pattern: string, s: string, n: nat): (hs: seq<Hit>)
    requires n <= |s| && (s == [] || Searchable(pattern))
    ensures |hs| <= n
    ensures forall h :: h in hs ==> h.offset < n
  {
    if n == 0 then []
    else
      var x := n - 1;
      Hits(pattern, s, x) +
        match SearchSpec(pattern, s[x..])
        case None => []
        case Some(m) => [Hit(x, m)]
  }

  /** Each hit is a match `search` reports on the suffix at its offset, and it lies inside `s`. */
  lemma {:induction false} HitsSound(pattern: string, s: string, n: nat)
    requires n <= |s| && (s == [] || Searchable(pattern))
    ensures forall h :: h in Hits(pattern, s, n) ==>
              SearchSpec(pattern, s[h.offset..]) == Some(h.found) &&
              0 <= Absolute(h).start < Absolute(h).end <= |s| &&
              s[Absolute(h).start..Absolute(h).end] == h.found.text
  {
    if n > 0 {
      var x := n - 1;
      HitsSound(pattern, s, x);
      HitsNext(pattern, s, x);
      var m := SearchSpec(pattern, s[x..]);
      if m.Some? {
        var h := Hit(x, m.value);
        assert Hits(pattern, s, n) == Hits(pattern, s, x) + [h];
        assert s[x..][h.found.span.start..h.found.span.end] == s[Absolute(h).start..Absolute(h).end];
      } else {
        assert Hits(pattern, s, n) == Hits(pattern, s, x);
      }
    }
  }

  /** Every suffix before `n` on which `search` reports a match contributes that hit. */
  lemma {:induction false} HitsComplete(pattern: string, s: string, n: nat)
    requires n <= |s| && (s == [] || Searchable(pattern))
    ensures forall x :: 0 <= x < n && SearchSpec(pattern, s[x..]).Some? ==>
              Hit(x, SearchSpec(pattern, s[x..]).value) in Hits(pattern, s, n)
  {
    if n > 0 {
      var x := n - 1;
      HitsComplete(pattern, s, x);
      HitsNext(pattern, s, x);
      var hs0 := Hits(pattern, s, x);
      match SearchSpec(pattern, s[x..]) {
        case None =>
          assert Hits(pattern, s, n) == hs0;
        case Some(m) =>
          assert Hits(pattern, s, n) == hs0 + [Hit(x, m)];
          assert forall h :: h in hs0 ==> h in Hits(pattern, s, n);
      }
    }
  }

  /** Offsets strictly increase along `hs`. */
  predicate Increasing(hs: seq<Hit>) {
    forall a, b :: 0 <= a < b < |hs| ==> hs[a].offset < hs[b].offset
  }

  /** Hits come in strictly increasing offset order. */
  lemma {:induction false} HitsIncreasing(pattern: string, s: string, n: nat)
    requires n <= |s| && (s == [] || Searchable(pattern))
    ensures Increasing(Hits(pattern, s, n))
  {
    if n > 0 {
      var x := n - 1;
      HitsIncreasing(pattern, s, x);
      HitsNext(pattern, s, x);
      var hs0 := Hits(pattern, s, x);
      match SearchSpec(pattern, s[x..]) {
        case None =>
          assert Hits(pattern, s, n) == hs0;
        case Some(m) =>
          // Every earlier hit has an offset below x.
          forall a | 0 <= a < |hs0| ensures hs0[a].offset < x {
            assert hs0[a] in hs0;
          }
          assert Hits(pattern, s, n) == hs0 + [Hit(x, m)];
      }
    }
  }

  lemma HitsNext(pattern: string, s: string, x: nat)
    requires x < |s| && (s == [] || Searchable(pattern))
    ensures Hits(pattern, s, x + 1) ==
              Hits(pattern, s, x) +
                match SearchSpec(pattern, s[x..])
                case None => []
                case Some(m) => [Hit(x, m)]
  {
  }

  function AbsoluteSpans(hs: seq<Hit>): set<Span> {
    set h | h in hs :: Absolute(h)
  }

  /** The hits whose absolute span has not occurred earlier in `hs`, in their order in `hs`. */
  function Dedup(hs: seq<Hit>): (d: seq<Hit>)
    ensures |d| <= |hs|
    ensures forall h :: h in d ==> h in hs
    decreases |hs|
  {
    if hs == [] then []
    else
      var init, last := hs[..|hs| - 1], hs[|hs| - 1];
      if Absolute(last) in AbsoluteSpans(init) then Dedup(init) else Dedup(init) + [last]
  }

  /** Deduplication reports every absolute span of `hs`, and no other. */
  lemma {:induction false} DedupSpans(hs: seq<Hit>)
    ensures AbsoluteSpans(Dedup(hs)) == AbsoluteSpans(hs)
    decreases |hs|
  {
    if hs != [] {
      var init, last := hs[..|hs| - 1], hs[|hs| - 1];
      assert hs == init + [last];
      DedupSpans(init);
      assert AbsoluteSpans(hs) == AbsoluteSpans(init) + {Absolute(last)};
      if Absolute(last) !in AbsoluteSpans(init) {
        var d := Dedup(init);
        assert AbsoluteSpans(d + [last]) == AbsoluteSpans(d) + {Absolute(last)};
      }
    }
  }

  /** Deduplication reports each absolute span just once. */
  lemma {:induction false} DedupUnique(hs: seq<Hit>)
    ensures forall a, b :: 0 <= a < b < |Dedup(hs)| ==> Absolute(Dedup(hs)[a]) != Absolute(Dedup(hs)[b])
    decreases |hs|
  {
    if hs != [] {
      var init, last := hs[..|hs| - 1], hs[|hs| - 1];
      DedupUnique(init);
      if Absolute(last) !in AbsoluteSpans(init) {
        DedupSpans(init);
        var d := Dedup(init);
        forall a | 0 <= a < |d| ensures Absolute(d[a]) != Absolute(last) {
          assert Absolute(d[a]) in AbsoluteSpans(d);
        }
      }
    }
  }

  /** Deduplication keeps the offset order. */
  lemma {:induction false} DedupIncreasing(hs: seq<Hit>)
    requires Increasing(hs)
    ensures Increasing(Dedup(hs))
    decreases |hs|
  {
    if hs != [] {
      var init, last := hs[..|hs| - 1], hs[|hs| - 1];
      assert Increasing(init);
      DedupIncreasing(init);
      if Absolute(last) !in AbsoluteSpans(init) {
        var d := Dedup(init);
        forall h | h in d ensures h.offset < last.offset {
          var k :| 0 <= k < |init| && init[k] == h;
        }
      }
    }
  }

  /**
   * Of the hits sharing an absolute span, deduplication keeps the one with the
   * smallest offset: the first suffix on which that span was found.
   */
  lemma {:induction false} DedupKeepsFirst(hs: seq<Hit>)
    requires Increasing(hs)
    ensures forall k, h :: 0 <= k < |Dedup(hs)| && h in hs && Absolute(h) == Absolute(Dedup(hs)[k]) ==>
              Dedup(hs)[k].offset <= h.offset
    decreases |hs|
  {
    if hs != [] {
      var init, last := hs[..|hs| - 1], hs[|hs| - 1];
      assert hs == init + [last];
      assert Increasing(init);
      DedupKeepsFirst(init);
      forall h | h in init ensures h.offset < last.offset {
        var j :| 0 <= j < |init| && init[j] == h;
        assert hs[j] == h;
      }
      DedupKeepsFirstStep(init, last);
    }
  }

  lemma DedupKeepsFirstStep(init: seq<Hit>, last: Hit)
    requires forall h :: h in init ==> h.offset < last.offset
    requires forall k, h :: 0 <= k < |Dedup(init)| && h in init && Absolute(h) == Absolute(Dedup(init)[k]) ==>
               Dedup(init)[k].offset <= h.offset
    ensures var dd := Dedup(init + [last]);
            forall k, h :: 0 <= k < |dd| && h in init + [last] && Absolute(h) == Absolute(dd[k]) ==>
              dd[k].offset <= h.offset
  {
    DedupAppend(init, last);
    var d, dd := Dedup(init), Dedup(init + [last]);
    if Absolute(last) in AbsoluteSpans(init) {
      forall k, h | 0 <= k < |dd| && h in init + [last] && Absolute(h) == Absolute(dd[k]) ensures dd[k].offset <= h.offset {
        assert dd[k] in init;
        if h != last {
          assert h in init;
        }
      }
    } else {
      forall k, h | 0 <= k < |dd| && h in init + [last] && Absolute(h) == Absolute(dd[k]) ensures dd[k].offset <= h.offset {
        if k < |d| {
          assert dd[k] == d[k] && d[k] in init;
          if h != last {
            assert h in init;
          }
        } else if h != last {
          assert false;
        }
      }
    }
  }

  /**
   * Deduplication keeps every absolute span of `hs`, reports each just once,
   * and keeps the offset order.
   */
  lemma DedupProperties(hs: seq<Hit>)
    ensures AbsoluteSpans(Dedup(hs)) == AbsoluteSpans(hs)
    ensures forall a, b :: 0 <= a < b < |Dedup(hs)| ==> Absolute(Dedup(hs)[a]) != Absolute(Dedup(hs)[b])
    ensures Increasing(hs) ==> Increasing(Dedup(hs))
  {
    DedupSpans(hs);
    DedupUnique(hs);
    if Increasing(hs) {
      DedupIncreasing(hs);
    }
  }

  /** When no two hits share an absolute span, deduplication keeps them all. */
  lemma {:induction false} DedupKeepsDistinct(hs: seq<Hit>)
    requires forall a, b :: 0 <= a < b < |hs| ==> Absolute(hs[a]) != Absolute(hs[b])
    ensures Dedup(hs) == hs
    decreases |hs|
  {
    if hs != [] {
      var init, last := hs[..|hs| - 1], hs[|hs| - 1];
      DedupKeepsDistinct(init);
      assert init + [last] == hs;
    }
  }

  lemma DedupAppend(hs: seq<Hit>, h: Hit)
    ensures AbsoluteSpans(hs + [h]) == AbsoluteSpans(hs) + {Absolute(h)}
    ensures Dedup(hs + [h]) == if Absolute(h) in AbsoluteSpans(hs) then Dedup(hs) else Dedup(hs) + [h]
  {
    assert (hs + [h])[..|hs|] == hs;
  }

  /** The hits `findall` keeps. */
  function Collected(pattern: string, s: string): seq<Hit>
    requires s == [] || Searchable(pattern)
  {
    Dedup(Hits(pattern, s, |s|))
  }

  function Texts(hs: seq<Hit>): (ts: seq<string>)
    ensures |ts| == |hs| && forall k :: 0 <= k < |hs| ==> ts[k] == hs[k].found.text
  {
    seq(|hs|, k requires 0 <= k < |hs| => hs[k].found.text)
  }

  lemma TextsAppend(hs: seq<Hit>, h: Hit)
    ensures Texts(hs + [h]) == Texts(hs) + [h.found.text]
  {
    var l, r := Texts(hs + [h]), Texts(hs) + [h.found.text];
    assert |l| == |r|;
    forall k | 0 <= k < |l| ensures l[k] == r[k] {
      if k < |hs| {
        assert (hs + [h])[k] == hs[k];
      }
    }
  }

  /** `findall(pattern, s)`: at most one entry per suffix. */
  function FindAllSpec(pattern: string, s: string): (r: seq<string>)
    requires s == [] || Searchable(pattern)
    ensures |r| <= |s|
  {
    Texts(Collected(pattern, s))
  }

  /** An empty subject has no matches. */
  lemma FindAllEmpty(pattern: string)
    ensures FindAllSpec(pattern, []) == []
  {
  }

  /**
   * Entry k of `findall` is the text of the k-th kept hit, which `search`
   * reported on the suffix at its offset; its absolute span lies inside `s`
   * and covers exactly that text.
   */
  lemma FindAllSound(pattern: string, s: string)
    requires s == [] || Searchable(pattern)
    ensures |FindAllSpec(pattern, s)| == |Collected(pattern, s)|
    ensures var d, found := Collected(pattern, s), FindAllSpec(pattern, s);
            forall k :: 0 <= k < |d| ==>
              found[k] == d[k].found.text &&
              SearchSpec(pattern, s[d[k].offset..]) == Some(d[k].found) &&
              0 <= Absolute(d[k]).start < Absolute(d[k]).end <= |s| &&
              s[Absolute(d[k]).start..Absolute(d[k]).end] == found[k]
  {
    var hs := Hits(pattern, s, |s|);
    var d := Dedup(hs);
    HitsSound(pattern, s, |s|);
    forall k | 0 <= k < |d|
      ensures SearchSpec(pattern, s[d[k].offset..]) == Some(d[k].found)
      ensures 0 <= Absolute(d[k]).start < Absolute(d[k]).end <= |s|
      ensures s[Absolute(d[k]).start..Absolute(d[k]).end] == d[k].found.text
    {
      assert d[k] in d;
    }
  }

  /**
   * The kept hits come in increasing offset order, no absolute span is kept
   * twice, and each kept hit comes from the first suffix on which `search`
   * reports its absolute span.
   */
  lemma FindAllDistinct(pattern: string, s: string)
    requires s == [] || Searchable(pattern)
    ensures var d := Collected(pattern, s);
            forall a, b :: 0 <= a < b < |d| ==>
              d[a].offset < d[b].offset && Absolute(d[a]) != Absolute(d[b])
    ensures var d := Collected(pattern, s);
            forall k, x :: 0 <= k < |d| && 0 <= x < |s| && SearchSpec(pattern, s[x..]).Some? &&
                           Shift(SearchSpec(pattern, s[x..]).value.span, x) == Absolute(d[k]) ==>
              d[k].offset <= x
  {
    var hs := Hits(pattern, s, |s|);
    HitsIncreasing(pattern, s, |s|);
    DedupProperties(hs);
    DedupKeepsFirst(hs);
    HitsComplete(pattern, s, |s|);
    var d := Collected(pattern, s);
    forall k, x | 0 <= k < |d| && 0 <= x < |s| && SearchSpec(pattern, s[x..]).Some? &&
                  Shift(SearchSpec(pattern, s[x..]).value.span, x) == Absolute(d[k])
      ensures d[k].offset <= x
    {
      var h := Hit(x, SearchSpec(pattern, s[x..]).value);
      assert h in hs && Absolute(h) == Absolute(d[k]);
    }
  }

  /** Every suffix on which `search` reports a match has its absolute span among the kept hits. */
  lemma FindAllComplete(pattern: string, s: string)
    requires s == [] || Searchable(pattern)
    ensures forall x :: 0 <= x < |s| && SearchSpec(pattern, s[x..]).Some? ==>
              Shift(SearchSpec(pattern, s[x..]).value.span, x) in AbsoluteSpans(Collected(pattern, s))
  {
    var hs := Hits(pattern, s, |s|);
    DedupProperties(hs);
    HitsComplete(pattern, s, |s|);
    forall x | 0 <= x < |s| && SearchSpec(pattern, s[x..]).Some?
      ensures Shift(SearchSpec(pattern, s[x..]).value.span, x) in AbsoluteSpans(hs)
    {
      var h := Hit(x, SearchSpec(pattern, s[x..]).value);
      assert h in hs;
    }
  }

  // ---------------------------------------------------------------------------
  // The loop.

  function RenderAll(spans: set<Span>): set<string> {
    set sp | sp in spans :: Render(sp)
  }

  /** A span's text is among the texts of a set of spans exactly when the span is in the set. */
  lemma RenderAllAdd(spans: set<Span>, sp: Span)
    ensures Render(sp) in RenderAll(spans) <==> sp in spans
    ensures RenderAll(spans + {sp}) == RenderAll(spans) + {Render(sp)}
  {
    if Render(sp) in RenderAll(spans) {
      var other :| other in spans && Render(other) == Render(sp);
      RenderInjective(other, sp);
    }
    var grown := spans + {sp};
    forall t | t in RenderAll(grown) ensures t in RenderAll(spans) + {Render(sp)} {
      var x :| x in grown && Render(x) == t;
      if x != sp {
        assert x in spans;
      }
    }
    forall t | t in RenderAll(spans) ensures t in RenderAll(grown) {
      var x :| x in spans && Render(x) == t;
      assert x in grown;
    }
    assert Render(sp) in RenderAll(grown);
  }

  /** The texts `findall` has collected after the suffixes before `x`. */
  function Kept(pattern: string, s: string, x: nat): seq<string>
    requires x <= |s| && (s == [] || Searchable(pattern))
  {
    Texts(Dedup(Hits(pattern, s, x)))
  }

  /** The span texts `findall` has seen after the suffixes before `x`. */
  function Seen(pattern: string, s: string, x: nat): set<string>
    requires x <= |s| && (s == [] || Searchable(pattern))
  {
    RenderAll(AbsoluteSpans(Hits(pattern, s, x)))
  }

  /** A suffix on which `search` fails leaves the `findall` state as it was. */
  lemma FindAllMiss(pattern: string, s: string, x: nat)
    requires x < |s| && Searchable(pattern)
    requires SearchSpec(pattern, s[x..]).None?
    ensures Kept(pattern, s, x + 1) == Kept(pattern, s, x)
    ensures Seen(pattern, s, x + 1) == Seen(pattern, s, x)
  {
    HitsNext(pattern, s, x);
    assert Hits(pattern, s, x + 1) == Hits(pattern, s, x);
  }

  /**
   * A suffix on which `search` reports `m` adds its text exactly when the
   * rendered absolute span is not yet among those seen, and records that span.
   */
  lemma FindAllHit(pattern: string, s: string, x: nat, m: MatchObject)
    requires x < |s| && Searchable(pattern)
    requires SearchSpec(pattern, s[x..]) == Some(m)
    ensures var t := Render(Absolute(Hit(x, m)));
            t in Seen(pattern, s, x) ==>
              Kept(pattern, s, x + 1) == Kept(pattern, s, x) &&
              Seen(pattern, s, x + 1) == Seen(pattern, s, x)
    ensures var t := Render(Absolute(Hit(x, m)));
            t !in Seen(pattern, s, x) ==>
              Kept(pattern, s, x + 1) == Kept(pattern, s, x) + [m.text] &&
              Seen(pattern, s, x + 1) == Seen(pattern, s, x) + {t}
  {
    HitsNext(pattern, s, x);
    var hs := Hits(pattern, s, x);
    var h := Hit(x, m);
    assert Hits(pattern, s, x + 1) == hs + [h];
    DedupAppend(hs, h);
    RenderAllAdd(AbsoluteSpans(hs), Absolute(h));
    TextsAppend(Dedup(hs), h);
  }

  /** `findall` as the source runs it, deduplicating on span texts kept in a set. */
  method FindAll(pattern: string, s: string) returns (matchList: seq<string>)
    requires s == [] || Searchable(pattern)
    ensures matchList == FindAllSpec(pattern, s)
  {
    matchList := [];
    var spanSet: set<string> := {};
    for x := 0 to |s|
      invariant matchList == Kept(pattern, s, x)
      invariant spanSet == Seen(pattern, s, x)
    {
      var matchObject := Search(pattern, s[x..]);
      if matchObject.None? {
        FindAllMiss(pattern, s, x);
        continue;
      }
      var m := matchObject.value;
      FindAllHit(pattern, s, x, m);
      ParseSpanRendered(m.span, x);
      var tempSpan := ParseSpan(Render(m.span), x);
      assert tempSpan == Render(Absolute(Hit(x, m)));
      if tempSpan !in spanSet {
        matchList := matchList + [m.text];
        spanSet := spanSet + {tempSpan};
      }
    }
  }
}

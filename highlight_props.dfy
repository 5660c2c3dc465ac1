/**
 * What the highlighter promises about its output: the parts give back the
 * text, no plain part is empty, each highlighted span is an occurrence of
 * the keyword it is tagged with, nothing highlightable starts inside a plain
 * part, and the keyword taken is the longest one there, earliest in the
 * caller's order among equals.
 */
module HighlightProps {
  import opened Wrappers
  import opened Text
  import opened Highlighter

  /** The loop only gives up on a found index when the keyword found there is "". */
  lemma HaltNeedsEmpty(rem: string, sorted: seq<string>)
    ensures NextStep(rem, sorted) == Halt ==> "" in sorted
  {
    var low := LowerStr(rem);
    var at := FirstIndex(low, sorted, -1);
    FirstIndexSpec(low, sorted, -1);
    FindAtSpec(low, sorted, at);
  }

  /** Without an empty keyword, the parts concatenate back to the text they came from. */
  lemma {:induction false} SegmentsRoundTrip(rem: string, sorted: seq<string>, keywords: seq<string>)
    requires "" !in sorted
    ensures Flatten(Segments(rem, sorted, keywords)) == rem
    decreases |rem|
  {
    if rem != "" {
      HaltNeedsEmpty(rem, sorted);
      match NextStep(rem, sorted)
      case NoMatch =>
        assert Segments(rem, sorted, keywords) == [Plain(rem)];
      case Match(at, k) =>
        SegmentsMatch(rem, sorted, keywords, at, k);
        var tail := rem[at + |k|..];
        SegmentsRoundTrip(tail, sorted, keywords);
        MatchRoundTrip(rem, at, k, keywords, Segments(tail, sorted, keywords));
    }
  }

  /** One match and parts that give back the text after it give back the whole remaining text. */
  lemma MatchRoundTrip(rem: string, at: nat, k: string, keywords: seq<string>, tail: seq<Part>)
    requires at + |k| <= |rem|
    requires Flatten(tail) == rem[at + |k|..]
    ensures Flatten(Pieces(rem, at, k, keywords) + tail) == rem
  {
    FlattenAppend(Pieces(rem, at, k, keywords), tail);
    assert rem == rem[..at + |k|] + rem[at + |k|..];
  }

  /** The sorted copy holds the caller's keywords and no others. */
  lemma SortedSameKeywords(keywords: seq<string>)
    ensures forall k :: k in SortByLength(keywords) <==> k in keywords
  {
    var sorted := SortByLength(keywords);
    forall k ensures k in sorted <==> k in keywords {
      assert k in sorted <==> k in multiset(sorted);
      assert k in keywords <==> k in multiset(keywords);
    }
  }

  /** With a non-empty list of non-empty keywords the rendered parts spell out the text. */
  lemma HighlightRoundTrip(text: string, keywords: seq<string>)
    requires "" !in keywords
    ensures Flatten(Highlight(text, keywords)) == text
  {
    if keywords != [] {
      SortedSameKeywords(keywords);
      SegmentsRoundTrip(text, SortByLength(keywords), keywords);
    } else {
      assert Flatten([Plain(text)]) == text + Flatten([]);
    }
  }

  // ---- no empty plain part ----

  predicate PlainsNonEmpty(parts: seq<Part>) {
    forall i :: 0 <= i < |parts| && parts[i].Plain? ==> parts[i].text != ""
  }

  lemma PlainsNonEmptyAppend(a: seq<Part>, b: seq<Part>)
    requires PlainsNonEmpty(a) && PlainsNonEmpty(b)
    ensures PlainsNonEmpty(a + b)
  {
    forall i | 0 <= i < |a + b| && (a + b)[i].Plain? ensures (a + b)[i].text != "" {
      if i >= |a| {
        assert (a + b)[i] == b[i - |a|];
      }
    }
  }

  /** `if (beforeKeyword)` and `while (remainingText)`: the loop never pushes an empty plain part. */
  lemma {:induction false} SegmentsPlainsNonEmpty(rem: string, sorted: seq<string>, keywords: seq<string>)
    ensures PlainsNonEmpty(Segments(rem, sorted, keywords))
    decreases |rem|
  {
    if rem != "" {
      match NextStep(rem, sorted)
      case NoMatch =>
      case Halt =>
      case Match(at, k) =>
        SegmentsMatch(rem, sorted, keywords, at, k);
        var tail := rem[at + |k|..];
        SegmentsPlainsNonEmpty(tail, sorted, keywords);
        var pieces := Pieces(rem, at, k, keywords);
        assert PlainsNonEmpty(pieces) by {
          if at > 0 {
            assert |pieces[0].text| == at;
          }
        }
        PlainsNonEmptyAppend(pieces, Segments(tail, sorted, keywords));
    }
  }

  /**
   * With keywords to look for, no plain part is empty, and an empty text
   * renders to no parts at all (the keyword-less case renders `[text]`).
   */
  lemma HighlightPlainsNonEmpty(text: string, keywords: seq<string>)
    ensures keywords != [] ==> PlainsNonEmpty(Highlight(text, keywords))
    ensures keywords != [] && text == "" ==> Highlight(text, keywords) == []
    ensures keywords == [] ==> Highlight(text, keywords) == [Plain(text)]
  {
    if keywords != [] {
      SegmentsPlainsNonEmpty(text, SortByLength(keywords), keywords);
    }
  }

  // ---- highlighted spans ----

  /** Every highlighted span matches, ignoring case, the caller's keyword its tag points at. */
  predicate MarksTagged(parts: seq<Part>, keywords: seq<string>) {
    forall i :: 0 <= i < |parts| && parts[i].Mark? ==>
      0 <= parts[i].tag < |keywords| && LowerStr(parts[i].text) == LowerStr(keywords[parts[i].tag])
  }

  lemma MarksTaggedAppend(a: seq<Part>, b: seq<Part>, keywords: seq<string>)
    requires MarksTagged(a, keywords) && MarksTagged(b, keywords)
    ensures MarksTagged(a + b, keywords)
  {
    forall i | 0 <= i < |a + b| && (a + b)[i].Mark?
      ensures 0 <= (a + b)[i].tag < |keywords| && LowerStr((a + b)[i].text) == LowerStr(keywords[(a + b)[i].tag])
    {
      if i >= |a| {
        assert (a + b)[i] == b[i - |a|];
      }
    }
  }

  /** A keyword of the caller's list gets a tag, and the tagged keyword is the same ignoring case. */
  lemma TagOfKnown(keywords: seq<string>, k: string)
    requires k in keywords
    ensures 0 <= TagOf(keywords, k) < |keywords|
    ensures LowerStr(keywords[TagOf(keywords, k)]) == LowerStr(k)
  {
    var j :| 0 <= j < |keywords| && keywords[j] == k;
    assert LowerStr(keywords[j]) == LowerStr(k);
  }

  lemma PiecesTagged(rem: string, at: nat, k: string, keywords: seq<string>)
    requires k in keywords && OccursAt(LowerStr(rem), LowerStr(k), at)
    ensures MarksTagged(Pieces(rem, at, k, keywords), keywords)
  {
    TagOfKnown(keywords, k);
    LowerStrSlice(rem, at, at + |k|);
    var pieces := Pieces(rem, at, k, keywords);
    assert pieces[|pieces| - 1] == Mark(rem[at..at + |k|], TagOf(keywords, k));
  }

  lemma {:induction false} SegmentsMarksTagged(rem: string, sorted: seq<string>, keywords: seq<string>)
    requires forall k :: k in sorted ==> k in keywords
    ensures MarksTagged(Segments(rem, sorted, keywords), keywords)
    decreases |rem|
  {
    if rem != "" {
      match NextStep(rem, sorted)
      case NoMatch =>
      case Halt =>
      case Match(at, k) =>
        SegmentsMatch(rem, sorted, keywords, at, k);
        var tail := rem[at + |k|..];
        SegmentsMarksTagged(tail, sorted, keywords);
        PiecesTagged(rem, at, k, keywords);
        MarksTaggedAppend(Pieces(rem, at, k, keywords), Segments(tail, sorted, keywords), keywords);
    }
  }

  /**
   * Each highlighted span is a piece of the text equal to a caller's keyword
   * ignoring case, and its tag is that keyword's index in the caller's list.
   */
  lemma HighlightMarksTagged(text: string, keywords: seq<string>)
    ensures MarksTagged(Highlight(text, keywords), keywords)
  {
    if keywords != [] {
      SortedSameKeywords(keywords);
      SegmentsMarksTagged(text, SortByLength(keywords), keywords);
    }
  }

  // ---- leftmost: nothing highlightable starts inside a plain part ----

  /** No keyword of `ks` occurs, ignoring case, at any position of `low` in `[lo, hi)`. */
  predicate Clear(low: string, ks: seq<string>, lo: int, hi: int) {
    forall k, p :: k in ks && lo <= p < hi ==> !OccursAt(low, LowerStr(k), p)
  }

  /** Walking the parts from position `offset` of the text, every plain part covers a clear stretch. */
  predicate PlainsClear(low: string, parts: seq<Part>, offset: int, ks: seq<string>) {
    parts == [] ||
      ((parts[0].Plain? ==> Clear(low, ks, offset, offset + |parts[0].text|))
       && PlainsClear(low, parts[1..], offset + |parts[0].text|, ks))
  }

  lemma {:induction false} PlainsClearAppend(low: string, a: seq<Part>, b: seq<Part>, offset: int, ks: seq<string>)
    requires PlainsClear(low, a, offset, ks) && PlainsClear(low, b, offset + |Flatten(a)|, ks)
    ensures PlainsClear(low, a + b, offset, ks)
  {
    if a == [] {
      assert a + b == b;
    } else {
      assert (a + b)[0] == a[0] && (a + b)[1..] == a[1..] + b;
      PlainsClearAppend(low, a[1..], b, offset + |a[0].text|, ks);
    }
  }

  /**
   * The reduce picks the smallest index at which any keyword occurs: no
   * keyword occurs before a match, nor anywhere when nothing matched.
   */
  lemma NoEarlierKeyword(rem: string, sorted: seq<string>, ks: seq<string>)
    requires forall k :: k in ks ==> k in sorted
    ensures NextStep(rem, sorted).NoMatch? ==> Clear(LowerStr(rem), ks, 0, |rem|)
    ensures NextStep(rem, sorted).Match? ==> Clear(LowerStr(rem), ks, 0, NextStep(rem, sorted).at)
  {
    var low := LowerStr(rem);
    var at := FirstIndex(low, sorted, -1);
    FirstIndexSpec(low, sorted, -1);
    forall k, p | k in ks && OccursAt(low, LowerStr(k), p)
      ensures at != -1 && at <= p
    {
      IndexOfAtMost(low, LowerStr(k), p);
    }
  }

  lemma OccursShift(s: string, o: nat, n: string, p: int)
    requires o <= p && o <= |s| && OccursAt(s, n, p)
    ensures OccursAt(s[o..], n, p - o)
  {
    assert s[o..][p - o..p - o + |n|] == s[p..p + |n|];
  }

  lemma ClearSuffix(low: string, o: nat, ks: seq<string>, lo: int, hi: int)
    requires o <= |low| && Clear(low[o..], ks, lo, hi) && 0 <= lo
    ensures Clear(low, ks, o + lo, o + hi)
  {
    forall k, p | k in ks && o + lo <= p < o + hi
      ensures !OccursAt(low, LowerStr(k), p)
    {
      assert !OccursAt(low[o..], LowerStr(k), p - o);
      if OccursAt(low, LowerStr(k), p) {
        OccursShift(low, o, LowerStr(k), p);
      }
    }
  }

  /** An occurrence past `o` is an occurrence in the suffix from `o`, shifted. */
  lemma ClearShift(text: string, o: nat, ks: seq<string>, lo: int, hi: int)
    requires o <= |text| && Clear(LowerStr(text[o..]), ks, lo, hi) && 0 <= lo
    ensures Clear(LowerStr(text), ks, o + lo, o + hi)
  {
    LowerStrSuffix(text, o);
    ClearSuffix(LowerStr(text), o, ks, lo, hi);
  }

  lemma PiecesClear(text: string, o: nat, at: nat, k: string, keywords: seq<string>, ks: seq<string>)
    requires o + at + |k| <= |text| && Clear(LowerStr(text), ks, o, o + at)
    ensures PlainsClear(LowerStr(text), Pieces(text[o..], at, k, keywords), o, ks)
  {
    var low := LowerStr(text);
    var rem := text[o..];
    var mark := Mark(rem[at..at + |k|], TagOf(keywords, k));
    assert PlainsClear(low, [mark], o + at, ks) by {
      assert [mark][1..] == [];
    }
    if at > 0 {
      assert [Plain(rem[..at]), mark][1..] == [mark];
    }
  }

  /** Every plain part the loop emits from position `o` of `text` on covers a clear stretch of the text. */
  lemma {:induction false} SegmentsLeftmost(text: string, o: nat, sorted: seq<string>, keywords: seq<string>, ks: seq<string>)
    requires o <= |text|
    requires forall k :: k in ks ==> k in sorted
    ensures PlainsClear(LowerStr(text), Segments(text[o..], sorted, keywords), o, ks)
    decreases |text| - o
  {
    var rem := text[o..];
    var low := LowerStr(text);
    if rem != "" {
      NoEarlierKeyword(rem, sorted, ks);
      match NextStep(rem, sorted)
      case NoMatch =>
        ClearShift(text, o, ks, 0, |rem|);
        assert Segments(rem, sorted, keywords) == [Plain(rem)];
        assert [Plain(rem)][1..] == [];
      case Halt =>
      case Match(at, k) =>
        SegmentsMatch(rem, sorted, keywords, at, k);
        var o' := o + at + |k|;
        var tail := Segments(text[o'..], sorted, keywords);
        assert Segments(rem, sorted, keywords) == Pieces(rem, at, k, keywords) + tail by {
          assert rem[at + |k|..] == text[o'..];
        }
        assert Clear(low, ks, o, o + at) by {
          ClearShift(text, o, ks, 0, at);
        }
        assert PlainsClear(low, tail, o', ks) by {
          SegmentsLeftmost(text, o', sorted, keywords, ks);
        }
        MatchLeftmost(text, o, at, k, keywords, ks, tail);
    }
  }

  /** One match after clear text, then parts clear from its end on, keep every plain part clear. */
  lemma MatchLeftmost(text: string, o: nat, at: nat, k: string, keywords: seq<string>, ks: seq<string>, tail: seq<Part>)
    requires o + at + |k| <= |text| && Clear(LowerStr(text), ks, o, o + at)
    requires PlainsClear(LowerStr(text), tail, o + at + |k|, ks)
    ensures PlainsClear(LowerStr(text), Pieces(text[o..], at, k, keywords) + tail, o, ks)
  {
    var pieces := Pieces(text[o..], at, k, keywords);
    PiecesClear(text, o, at, k, keywords, ks);
    PlainsClearAppend(LowerStr(text), pieces, tail, o, ks);
  }

  /**
   * Leftmost choice: no caller keyword occurs, ignoring case, starting at
   * any position of the text that the output renders as plain text.
   */
  lemma HighlightLeftmost(text: string, keywords: seq<string>)
    requires keywords != []
    ensures PlainsClear(LowerStr(text), Highlight(text, keywords), 0, keywords)
  {
    SortedSameKeywords(keywords);
    assert text[0..] == text;
    SegmentsLeftmost(text, 0, SortByLength(keywords), keywords, keywords);
  }

  // ---- longest keyword at the chosen index, caller order among equals ----

  /** `find`'s test: the keyword's first occurrence is at `at`. */
  predicate Hits(low: string, k: string, at: int) {
    IndexOf(low, LowerStr(k)) == at
  }

  /**
   * `find` over the list with `x` inserted: a longer keyword hit earlier
   * still wins; otherwise `x` wins if it hits, ahead of any hit that is
   * not longer.
   */
  lemma {:induction false} FindAtInsert(low: string, x: string, s: seq<string>, at: int)
    requires LongestFirst(s)
    ensures FindAt(low, Insert(x, s), at)
      == if !Hits(low, x, at) then FindAt(low, s, at)
         else if FindAt(low, s, at).Some? && |FindAt(low, s, at).value| > |x| then FindAt(low, s, at)
         else Some(x)
  {
    if s == [] || |s[0]| <= |x| {
      assert ([x] + s)[0] == x && ([x] + s)[1..] == s;
      FindAtSpec(low, s, at);
      if FindAt(low, s, at).Some? {
        var y := FindAt(low, s, at).value;
        var i :| 0 <= i < |s| && s[i] == y;
        assert i == 0 || |s[0]| >= |s[i]|;
      }
    } else {
      assert LongestFirst(s[1..]) by {
        forall i, j | 0 <= i < j < |s[1..]| ensures |s[1..][i]| >= |s[1..][j]| {
          assert s[1..][i] == s[i + 1] && s[1..][j] == s[j + 1];
        }
      }
      var rest := Insert(x, s[1..]);
      assert ([s[0]] + rest)[0] == s[0] && ([s[0]] + rest)[1..] == rest;
      FindAtInsert(low, x, s[1..], at);
    }
  }

  /** `k` hits at `at` and no keyword of `ks` hitting there is longer. */
  predicate LongestHit(low: string, ks: seq<string>, at: int, k: string) {
    k in ks && Hits(low, k, at) && forall k' :: k' in ks && Hits(low, k', at) ==> |k'| <= |k|
  }

  /** `k` stands in `ks` at a place before which every hit is strictly shorter than it. */
  predicate EarliestLongest(low: string, ks: seq<string>, at: int, k: string) {
    exists i :: 0 <= i < |ks| && ks[i] == k && forall j :: 0 <= j < i && Hits(low, ks[j], at) ==> |ks[j]| < |k|
  }

  /** The keyword chosen among the tail stays chosen when the head does not hit or is shorter. */
  lemma TailWins(low: string, ks: seq<string>, at: int, y: string)
    requires ks != [] && LongestHit(low, ks[1..], at, y) && EarliestLongest(low, ks[1..], at, y)
    requires !Hits(low, ks[0], at) || |y| > |ks[0]|
    ensures LongestHit(low, ks, at, y) && EarliestLongest(low, ks, at, y)
  {
    var tail := ks[1..];
    assert forall k :: k in ks <==> k == ks[0] || k in tail;
    var i :| 0 <= i < |tail| && tail[i] == y && forall j :: 0 <= j < i && Hits(low, tail[j], at) ==> |tail[j]| < |y|;
    assert ks[i + 1] == y;
    forall j | 0 <= j < i + 1 && Hits(low, ks[j], at) ensures |ks[j]| < |y| {
      if j > 0 {
        assert ks[j] == tail[j - 1];
      }
    }
  }

  /** The head is chosen when it hits and no hit of the tail is longer. */
  lemma HeadWins(low: string, ks: seq<string>, at: int)
    requires ks != [] && Hits(low, ks[0], at)
    requires forall k :: k in ks[1..] && Hits(low, k, at) ==> |k| <= |ks[0]|
    ensures LongestHit(low, ks, at, ks[0]) && EarliestLongest(low, ks, at, ks[0])
  {
    assert forall k :: k in ks <==> k == ks[0] || k in ks[1..];
  }

  /**
   * `find` over the stable longest-first sort picks, among the keywords
   * hitting at `at`, one of maximal length, and of those the one the caller
   * listed first; it finds nothing only when no keyword hits.
   */
  lemma {:induction false} ChosenKeyword(low: string, ks: seq<string>, at: int)
    ensures var r := FindAt(low, SortByLength(ks), at);
      && (r.None? <==> forall k :: k in ks ==> !Hits(low, k, at))
      && (r.Some? ==> LongestHit(low, ks, at, r.value) && EarliestLongest(low, ks, at, r.value))
  {
    if ks != [] {
      var x := ks[0];
      var tail := ks[1..];
      var s := SortByLength(tail);
      assert SortByLength(ks) == Insert(x, s);
      ChosenKeyword(low, tail, at);
      FindAtInsert(low, x, s, at);
      assert forall k :: k in ks <==> k == x || k in tail;
      var r' := FindAt(low, s, at);
      if r'.Some? && (!Hits(low, x, at) || |r'.value| > |x|) {
        TailWins(low, ks, at, r'.value);
      } else if Hits(low, x, at) {
        HeadWins(low, ks, at);
      }
    }
  }

  /**
   * One turn over the sorted keywords: the highlighted keyword occurs at the
   * chosen index, no caller keyword occurs earlier, none occurring there is
   * longer, and every keyword listed before it that occurs there is shorter.
   */
  lemma TurnLeftmostLongest(rem: string, keywords: seq<string>)
    ensures var s := NextStep(rem, SortByLength(keywords));
      var low := LowerStr(rem);
      s.Match? ==>
        && s.keyword in keywords
        && OccursAt(low, LowerStr(s.keyword), s.at)
        && Clear(low, keywords, 0, s.at)
        && (forall k :: k in keywords && OccursAt(low, LowerStr(k), s.at) ==> |k| <= |s.keyword|)
        && (exists i :: 0 <= i < |keywords| && keywords[i] == s.keyword
              && forall j :: 0 <= j < i && OccursAt(low, LowerStr(keywords[j]), s.at) ==> |keywords[j]| < |s.keyword|)
  {
    var sorted := SortByLength(keywords);
    var s := NextStep(rem, sorted);
    if s.Match? {
      var low := LowerStr(rem);
      var at := FirstIndex(low, sorted, -1);
      SortedSameKeywords(keywords);
      NoEarlierKeyword(rem, sorted, keywords);
      FirstIndexSpec(low, sorted, -1);
      assert FindAt(low, sorted, at) == Some(s.keyword) && at == s.at;
      ChosenKeyword(low, keywords, at);
      forall k | k in keywords ensures OccursAt(low, LowerStr(k), at) <==> Hits(low, k, at) {
        IndexOfSpec(low, LowerStr(k));
        if OccursAt(low, LowerStr(k), at) {
          IndexOfAtMost(low, LowerStr(k), at);
        }
      }
      var i :| 0 <= i < |keywords| && keywords[i] == s.keyword
        && forall j :: 0 <= j < i && Hits(low, keywords[j], at) ==> |keywords[j]| < |s.keyword|;
      forall j | 0 <= j < i && OccursAt(low, LowerStr(keywords[j]), at) ensures |keywords[j]| < |s.keyword| {
        assert keywords[j] in keywords;
      }
    }
  }

  // ---- an empty keyword ends the loop and drops the rest of the text ----

  /**
   * "" occurs at 0, so the reduce settles on 0; unless a non-empty keyword
   * also occurs there, `find` returns "", which is falsy, and the loop
   * breaks without pushing what is left.
   */
  lemma EmptyKeywordHalts(rem: string, sorted: seq<string>)
    requires "" in sorted
    requires forall k :: k in sorted && k != "" ==> !OccursAt(LowerStr(rem), LowerStr(k), 0)
    ensures NextStep(rem, sorted) == Halt
  {
    var low := LowerStr(rem);
    assert LowerStr("") == "";
    IndexOfAtMost(low, "", 0);
    FirstIndexSpec(low, sorted, -1);
    var at := FirstIndex(low, sorted, -1);
    assert at == 0;
    FindAtSpec(low, sorted, 0);
    var k := FindAt(low, sorted, 0).value;
    IndexOfSpec(low, LowerStr(k));
    assert k == "";
  }

  /** Counterexample: with the keyword list `[""]`, the text "abc" renders to nothing. */
  lemma EmptyKeywordDropsText()
    ensures Highlight("abc", [""]) == []
    ensures Flatten(Highlight("abc", [""])) != "abc"
  {
    assert SortByLength([""]) == [""];
    EmptyKeywordHalts("abc", [""]);
  }

  /** Leaving "" out of the search, the parts spell out the text for every keyword list. */
  lemma CorrectedRoundTrip(text: string, keywords: seq<string>)
    ensures Flatten(HighlightCorrected(text, keywords)) == text
  {
    if keywords == [] {
      assert Flatten([Plain(text)]) == text + Flatten([]);
    } else {
      SortedSameKeywords(NonEmpty(keywords));
      SegmentsRoundTrip(text, SortByLength(NonEmpty(keywords)), keywords);
    }
  }

  lemma {:induction false} NonEmptyKeeps(keywords: seq<string>)
    requires "" !in keywords
    ensures NonEmpty(keywords) == keywords
  {
    if keywords != [] {
      assert keywords[0] in keywords;
      assert forall k :: k in keywords[1..] ==> k in keywords;
      NonEmptyKeeps(keywords[1..]);
    }
  }

  /** Without an empty keyword the correction changes nothing, tags and spans alike. */
  lemma CorrectedAgrees(text: string, keywords: seq<string>)
    requires "" !in keywords
    ensures HighlightCorrected(text, keywords) == Highlight(text, keywords)
  {
    NonEmptyKeeps(keywords);
  }
}

/**
 * The keyword highlighter behind `TypographyWithKeywords`: it cuts a text
 * into plain parts and highlighted parts by repeatedly taking the leftmost
 * case-insensitive keyword occurrence in what is left of the text,
 * preferring the longer keyword when several start there.
 */
module Highlighter {
  import opened Wrappers
  import opened Text

  /**
   * One rendered part: plain text, or a highlighted span in the text's own
   * casing with the tag handed to `renderTag` (an index into the caller's
   * keyword list).
   */
  datatype Part = Plain(text: string) | Mark(text: string, tag: int)

  /** The text the parts render, markup ignored. */
  function Flatten(parts: seq<Part>): string {
    if parts == [] then "" else parts[0].text + Flatten(parts[1..])
  }

  lemma {:induction false} FlattenAppend(a: seq<Part>, b: seq<Part>)
    ensures Flatten(a + b) == Flatten(a) + Flatten(b)
  {
    if a == [] {
      assert a + b == b;
    } else {
      assert (a + b)[0] == a[0] && (a + b)[1..] == a[1..] + b;
      FlattenAppend(a[1..], b);
    }
  }

  // ---- sortedKeywords: a stable sort, longest first ----

  predicate LongestFirst(ks: seq<string>) {
    forall i, j :: 0 <= i < j < |ks| ==> |ks[i]| >= |ks[j]|
  }

  /** Keeping the head in front of the insertion into the tail keeps the order and the contents. */
  lemma InsertStep(k: string, sorted: seq<string>, rest: seq<string>)
    requires sorted != [] && |sorted[0]| > |k| && LongestFirst(sorted) && LongestFirst(rest)
    requires multiset(rest) == multiset(sorted[1..]) + multiset{k}
    requires forall x :: x in rest ==> x == k || x in sorted[1..]
    ensures LongestFirst([sorted[0]] + rest)
    ensures multiset([sorted[0]] + rest) == multiset(sorted) + multiset{k}
    ensures forall x :: x in [sorted[0]] + rest ==> x == k || x in sorted
  {
    assert sorted == [sorted[0]] + sorted[1..];
    assert multiset(sorted) == multiset{sorted[0]} + multiset(sorted[1..]);
    forall i | 0 <= i < |rest| ensures |rest[i]| <= |sorted[0]| {
      assert rest[i] in rest;
      if rest[i] != k {
        var j :| 0 <= j < |sorted[1..]| && sorted[1..][j] == rest[i];
        assert sorted[j + 1] == rest[i];
      }
    }
  }

  /** Places `k` before the first keyword that is not longer than it. */
  function Insert(k: string, sorted: seq<string>): (r: seq<string>)
    requires LongestFirst(sorted)
    ensures LongestFirst(r)
    ensures multiset(r) == multiset(sorted) + multiset{k}
    ensures forall x :: x in r ==> x == k || x in sorted
  {
    if sorted == [] || |sorted[0]| <= |k| then [k] + sorted
    else
      var rest := Insert(k, sorted[1..]);
      InsertStep(k, sorted, rest);
      [sorted[0]] + rest
  }

  /** `[...keywords].sort((a, b) => b.length - a.length)`. */
  function SortByLength(keywords: seq<string>): (r: seq<string>)
    ensures LongestFirst(r)
    ensures multiset(r) == multiset(keywords)
  {
    if keywords == [] then []
    else
      assert keywords == [keywords[0]] + keywords[1..];
      Insert(keywords[0], SortByLength(keywords[1..]))
  }

  // ---- validateKeywords ----

  /** The keywords with no case-insensitive occurrence in `text`, in the caller's order. */
  function MissingKeywords(text: string, keywords: seq<string>): (r: seq<string>)
    ensures |r| <= |keywords|
    ensures forall k :: k in r <==> k in keywords && !Contains(LowerStr(text), LowerStr(k))
    ensures r == [] <==> forall k :: k in keywords ==> Contains(LowerStr(text), LowerStr(k))
  {
    if keywords == [] then []
    else
      var rest := MissingKeywords(text, keywords[1..]);
      assert forall k :: k in keywords <==> k == keywords[0] || k in keywords[1..];
      if !Contains(LowerStr(text), LowerStr(keywords[0])) then [keywords[0]] + rest else rest
  }

  // ---- one turn of the content loop ----

  /** The reducer of the `reduce` call: keep the smaller of two found indexes. */
  function Earlier(acc: int, index: int): int {
    if index != -1 && (acc == -1 || index < acc) then index else acc
  }

  /**
   * `sortedKeywords.reduce(..., acc)` over the lower-cased remaining text:
   * the smallest first-occurrence index of any keyword, or -1.
   */
  function FirstIndex(low: string, ks: seq<string>, acc: int): int {
    if ks == [] then acc
    else FirstIndex(low, ks[1..], Earlier(acc, IndexOf(low, LowerStr(ks[0]))))
  }

  /** `sortedKeywords.find(k => low.indexOf(k.toLowerCase()) === at)`. */
  function FindAt(low: string, ks: seq<string>, at: int): Option<string> {
    if ks == [] then None
    else if IndexOf(low, LowerStr(ks[0])) == at then Some(ks[0])
    else FindAt(low, ks[1..], at)
  }

  /**
   * The reduce yields -1 exactly when no keyword is found (and none was
   * before), and otherwise the smallest index found, here or before.
   */
  lemma {:induction false} FirstIndexSpec(low: string, ks: seq<string>, acc: int)
    requires acc >= -1
    ensures var r := FirstIndex(low, ks, acc);
      && r >= -1
      && (r == -1 <==> acc == -1 && forall k :: k in ks ==> IndexOf(low, LowerStr(k)) == -1)
      && (r != -1 ==> r == acc || exists k :: k in ks && IndexOf(low, LowerStr(k)) == r)
      && (r != -1 && acc != -1 ==> r <= acc)
      && (forall k :: k in ks && IndexOf(low, LowerStr(k)) != -1 ==> r != -1 && r <= IndexOf(low, LowerStr(k)))
  {
    if ks != [] {
      var i := IndexOf(low, LowerStr(ks[0]));
      var acc' := Earlier(acc, i);
      FirstIndexSpec(low, ks[1..], acc');
      assert FirstIndex(low, ks, acc) == FirstIndex(low, ks[1..], acc');
      assert forall k :: k in ks <==> k == ks[0] || k in ks[1..];
      if acc' != acc {
        assert ks[0] in ks && IndexOf(low, LowerStr(ks[0])) == acc';
      }
    }
  }

  /** `find` returns the first keyword found exactly at `at`, and nothing only when there is none. */
  lemma {:induction false} FindAtSpec(low: string, ks: seq<string>, at: int)
    ensures FindAt(low, ks, at).None? <==> forall k :: k in ks ==> IndexOf(low, LowerStr(k)) != at
    ensures FindAt(low, ks, at).Some? ==>
      var k := FindAt(low, ks, at).value;
      k in ks && IndexOf(low, LowerStr(k)) == at
  {
    if ks != [] {
      FindAtSpec(low, ks[1..], at);
      assert forall k :: k in ks <==> k == ks[0] || k in ks[1..];
      if IndexOf(low, LowerStr(ks[0])) != at {
        assert FindAt(low, ks, at) == FindAt(low, ks[1..], at);
      } else {
        assert FindAt(low, ks, at) == Some(ks[0]) && ks[0] in ks;
      }
    }
  }

  /** `keywords.findIndex(k => k.toLowerCase() === matched.toLowerCase())`, scanning from `from`. */
  function TagFrom(keywords: seq<string>, matched: string, from: nat): (r: int)
    requires from <= |keywords|
    ensures r == -1 <==> forall i :: from <= i < |keywords| ==> LowerStr(keywords[i]) != LowerStr(matched)
    ensures r != -1 ==> from <= r < |keywords| && LowerStr(keywords[r]) == LowerStr(matched)
    ensures r != -1 ==> forall i :: from <= i < r ==> LowerStr(keywords[i]) != LowerStr(matched)
    decreases |keywords| - from
  {
    if from == |keywords| then -1
    else if LowerStr(keywords[from]) == LowerStr(matched) then from
    else TagFrom(keywords, matched, from + 1)
  }

  function TagOf(keywords: seq<string>, matched: string): int {
    TagFrom(keywords, matched, 0)
  }

  /** What one turn of the loop does with the remaining text. */
  datatype Step =
    | NoMatch                          // no keyword occurs: push the rest, stop
    | Halt                             // the found keyword is "" (falsy): `break`
    | Match(at: nat, keyword: string)  // highlight `keyword` at `at`, go on after it

  function NextStep(rem: string, sorted: seq<string>): (s: Step)
    ensures s.Match? ==> s.keyword in sorted && |s.keyword| > 0
    ensures s.Match? ==> OccursAt(LowerStr(rem), LowerStr(s.keyword), s.at)
  {
    var low := LowerStr(rem);
    var at := FirstIndex(low, sorted, -1);
    if at == -1 then NoMatch
    else match FindAt(low, sorted, at)
      case None => Halt
      case Some(k) =>
        if k == "" then Halt
        else
          FindAtSpec(low, sorted, at);
          IndexOfSpec(low, LowerStr(k));
          Match(at, k)
  }

  // ---- the content loop ----

  /** What one match pushes: the plain text before it, if any, then the highlighted span. */
  function Pieces(rem: string, at: nat, k: string, keywords: seq<string>): (r: seq<Part>)
    requires at + |k| <= |rem|
    ensures Flatten(r) == rem[..at + |k|]
  {
    var mark := Mark(rem[at..at + |k|], TagOf(keywords, k));
    assert Flatten([mark]) == rem[at..at + |k|];
    if at > 0 then
      assert Flatten([Plain(rem[..at]), mark]) == rem[..at] + Flatten([mark]);
      [Plain(rem[..at]), mark]
    else [mark]
  }

  /** The parts the loop produces from `rem` on. */
  function Segments(rem: string, sorted: seq<string>, keywords: seq<string>): (r: seq<Part>)
    ensures r == [] && rem != "" ==> "" in sorted
    decreases |rem|
  {
    if rem == "" then []
    else
      var step := NextStep(rem, sorted);
      if step.NoMatch? then [Plain(rem)]
      else if step.Halt? then
        var low := LowerStr(rem);
        FirstIndexSpec(low, sorted, -1);
        FindAtSpec(low, sorted, FirstIndex(low, sorted, -1));
        []
      else Pieces(rem, step.at, step.keyword, keywords) + Segments(rem[step.at + |step.keyword|..], sorted, keywords)
  }

  /** The parts spell out a prefix of the text: nothing is altered or reordered, at most the end is lost. */
  lemma {:induction false} SegmentsPrefix(rem: string, sorted: seq<string>, keywords: seq<string>)
    ensures var flat := Flatten(Segments(rem, sorted, keywords)); |flat| <= |rem| && flat == rem[..|flat|]
    decreases |rem|
  {
    if rem != "" {
      var step := NextStep(rem, sorted);
      if step.NoMatch? {
        assert Flatten([Plain(rem)]) == rem + Flatten([]);
      } else if step.Match? {
        var at, k := step.at, step.keyword;
        SegmentsMatch(rem, sorted, keywords, at, k);
        var tail := Segments(rem[at + |k|..], sorted, keywords);
        SegmentsPrefix(rem[at + |k|..], sorted, keywords);
        FlattenAppend(Pieces(rem, at, k, keywords), tail);
        assert rem == rem[..at + |k|] + rem[at + |k|..];
      }
    }
  }

  /** Unfolds `Segments` once on a highlighted match. */
  lemma SegmentsMatch(rem: string, sorted: seq<string>, keywords: seq<string>, at: nat, k: string)
    requires rem != "" && NextStep(rem, sorted) == Match(at, k)
    ensures at + |k| <= |rem|
    ensures Segments(rem, sorted, keywords) == Pieces(rem, at, k, keywords) + Segments(rem[at + |k|..], sorted, keywords)
  {
    assert at + |k| <= |rem| by {
      assert OccursAt(LowerStr(rem), LowerStr(k), at) && |LowerStr(k)| == |k|;
    }
    var step := NextStep(rem, sorted);
    assert !step.NoMatch? && !step.Halt? && step.at == at && step.keyword == k;
  }

  /** Unfolds `Segments` once where no keyword occurs. */
  lemma SegmentsNoMatch(rem: string, sorted: seq<string>, keywords: seq<string>)
    requires rem != "" && NextStep(rem, sorted) == NoMatch
    ensures Segments(rem, sorted, keywords) == [Plain(rem)]
  {
  }

  /** Unfolds `Segments` once where the loop breaks. */
  lemma SegmentsHalt(rem: string, sorted: seq<string>, keywords: seq<string>)
    requires rem != "" && NextStep(rem, sorted) == Halt
    ensures Segments(rem, sorted, keywords) == []
  {
  }

  /** The step, told by the index the reduce finds and the keyword the find returns. */
  lemma StepOf(rem: string, sorted: seq<string>, at: int, matched: Option<string>)
    requires at == FirstIndex(LowerStr(rem), sorted, -1) && matched == FindAt(LowerStr(rem), sorted, at)
    ensures at == -1 ==> NextStep(rem, sorted) == NoMatch
    ensures at != -1 && (matched.None? || matched.value == "") ==> NextStep(rem, sorted) == Halt
    ensures at != -1 && matched.Some? && matched.value != "" ==> at >= 0 && NextStep(rem, sorted) == Match(at, matched.value)
  {
    FirstIndexSpec(LowerStr(rem), sorted, -1);
  }

  /** The highlighter's output, as the component computes it. */
  function Highlight(text: string, keywords: seq<string>): (r: seq<Part>)
    ensures |Flatten(r)| <= |text| && Flatten(r) == text[..|Flatten(r)|]
    ensures r == [] && text != "" ==> "" in keywords
  {
    if keywords == [] then
      assert Flatten([Plain(text)]) == text + Flatten([]);
      [Plain(text)]
    else
      var sorted := SortByLength(keywords);
      SegmentsPrefix(text, sorted, keywords);
      assert "" in sorted ==> "" in keywords by {
        assert "" in sorted ==> "" in multiset(keywords);
      }
      Segments(text, sorted, keywords)
  }

  /** The keywords that can make progress: every one but "". */
  function NonEmpty(keywords: seq<string>): (r: seq<string>)
    ensures forall k :: k in r <==> k in keywords && k != ""
  {
    if keywords == [] then []
    else if keywords[0] == "" then NonEmpty(keywords[1..])
    else [keywords[0]] + NonEmpty(keywords[1..])
  }

  /**
   * The highlighter with empty keywords left out of the search (tags still
   * index the caller's list), so that no part of the text is dropped.
   */
  function HighlightCorrected(text: string, keywords: seq<string>): (r: seq<Part>)
    ensures |Flatten(r)| <= |text| && Flatten(r) == text[..|Flatten(r)|]
    ensures text != "" ==> r != []
  {
    if keywords == [] then
      assert Flatten([Plain(text)]) == text + Flatten([]);
      [Plain(text)]
    else
      var sorted := SortByLength(NonEmpty(keywords));
      SegmentsPrefix(text, sorted, keywords);
      assert "" !in sorted by {
        var kept := NonEmpty(keywords);
        assert "" !in kept;
        assert multiset(kept)[""] == 0;
        assert multiset(sorted)[""] == 0;
      }
      Segments(text, sorted, keywords)
  }

  /**
   * One turn of the `content` loop on a non-empty remaining text: the parts
   * it pushes, the text left after it, and whether the loop stops (no
   * keyword left in the text, or the `break` on a falsy keyword).
   */
  method Turn(remaining: string, sorted: seq<string>, keywords: seq<string>)
    returns (pushed: seq<Part>, rest: string, stop: bool)
    requires remaining != ""
    ensures !stop ==> |rest| < |remaining| && rest == remaining[|remaining| - |rest|..]
    ensures stop ==> Segments(remaining, sorted, keywords) == pushed
    ensures !stop ==> Segments(remaining, sorted, keywords) == pushed + Segments(rest, sorted, keywords)
  {
    var low := LowerStr(remaining);
    var at := FirstIndex(low, sorted, -1);
    var matched := FindAt(low, sorted, at);
    StepOf(remaining, sorted, at, matched);
    if at == -1 {
      SegmentsNoMatch(remaining, sorted, keywords);
      return [Plain(remaining)], "", true;
    }
    if matched.None? || matched.value == "" {
      SegmentsHalt(remaining, sorted, keywords);
      return [], "", true;
    }
    var k := matched.value;
    SegmentsMatch(remaining, sorted, keywords, at, k);
    var actual := remaining[at..at + |k|];
    var tag := TagOf(keywords, k);
    var after := remaining[at + |k|..];
    if at > 0 {
      pushed := [Plain(remaining[..at]), Mark(actual, tag)];
    } else {
      pushed := [Mark(actual, tag)];
    }
    assert pushed == Pieces(remaining, at, k, keywords);
    rest, stop := after, false;
  }

  /**
   * Moves a turn's parts from the outstanding segments to the finished ones.
   * Associativity is stated as its own lemma so that the solver meets it
   * once per loop turn instead of searching for it among the `Segments`
   * terms in scope.
   */
  lemma Regroup(done: seq<Part>, pushed: seq<Part>, tail: seq<Part>)
    ensures done + (pushed + tail) == (done + pushed) + tail
  {
  }

  /** The `while` loop of the `content` builder, over the sorted keywords. */
  method SegmentsLoop(text: string, sorted: seq<string>, keywords: seq<string>) returns (parts: seq<Part>)
    ensures parts == Segments(text, sorted, keywords)
  {
    parts := [];
    var remaining := text;
    ghost var goal := Segments(text, sorted, keywords);
    while remaining != ""
      invariant parts + Segments(remaining, sorted, keywords) == goal
      decreases |remaining|
    {
      var pushed, rest, stop := Turn(remaining, sorted, keywords);
      if stop {
        parts := parts + pushed;
        break;
      }
      Regroup(parts, pushed, Segments(rest, sorted, keywords));
      parts := parts + pushed;
      remaining := rest;
    }
  }

  /** The `content` builder: the text whole without keywords, the loop's parts otherwise. */
  method Content(text: string, keywords: seq<string>) returns (parts: seq<Part>)
    ensures parts == Highlight(text, keywords)
    ensures keywords == [] ==> parts == [Plain(text)]
  {
    if |keywords| == 0 {
      return [Plain(text)];
    }
    var sorted := SortByLength(keywords);
    parts := SegmentsLoop(text, sorted, keywords);
  }
}

/**
 * Worked highlighter inputs: one keyword met in another case, a keyword
 * that is the start of a longer one, and a line holding two keywords.
 * Each is proved once for arbitrary pieces of text and keywords, under
 * conditions on their characters, and then applied to the concrete texts.
 */
module HighlightExamples {
  import opened Wrappers
  import opened Text
  import opened Highlighter


  // ---- one keyword ----

  /** The reduce and the find over a one-keyword list. */
  lemma TurnOfOne(low: string, k: string)
    ensures FirstIndex(low, [k], -1) == IndexOf(low, LowerStr(k))
    ensures IndexOf(low, LowerStr(k)) != -1 ==> FindAt(low, [k], IndexOf(low, LowerStr(k))) == Some(k)
  {
    assert [k][0] == k && [k][1..] == [];
  }

  /** One keyword is its own sorted list. */
  lemma HighlightOne(text: string, k: string)
    ensures Highlight(text, [k]) == Segments(text, [k], [k])
  {
    assert [k][1..] == [];
    assert SortByLength([k]) == [k];
  }

  /** The turn on `p + w`: the keyword is found right after `p`. */
  lemma OneKeywordTurn(p: string, w: string, k: string)
    requires k != "" && NoUpper(k) && LowerStr(w) == k
    requires forall c :: c in p ==> Lower(c) != k[0]
    ensures NextStep(p + w, [k]) == Match(|p|, k)
  {
    var low := LowerStr(p + w);
    assert low == LowerStr(p) + k + "" by {
      LowerStrAppend(p, w);
    }
    LowerStrAvoids(p, k[0]);
    LowerStrNoUpper(k);
    IndexOfAfter(LowerStr(p), k, "");
    TurnOfOne(low, k);
  }

  /**
   * A text `p + w` whose tail `w` is the keyword `k` in any case, where no
   * character of `p` lowers to the keyword's first: `p` stays plain and `w`
   * is highlighted in its own case with tag 0.
   */
  lemma OneKeywordLine(p: string, w: string, k: string)
    requires p != "" && k != "" && NoUpper(k) && LowerStr(w) == k
    requires forall c :: c in p ==> Lower(c) != k[0]
    ensures Highlight(p + w, [k]) == [Plain(p), Mark(w, 0)]
  {
    var text := p + w;
    HighlightOne(text, k);
    OneKeywordTurn(p, w, k);
    SegmentsMatch(text, [k], [k], |p|, k);
    assert TagOf([k], k) == 0;
    assert text[..|p|] == p && text[|p|..|p| + |k|] == w && text[|p| + |k|..] == "";
  }

  /** "Hello World" highlighted for "world": the span keeps the text's capital. */
  lemma KeepsOriginalCase()
    ensures Highlight("Hello World", ["world"]) == [Plain("Hello "), Mark("World", 0)]
  {
    assert LowerStr("World") == "world" by {
      assert "World" == "W" + "orld";
      LowerStrAppendNoUpper("W", "orld");
    }
    assert "Hello World" == "Hello " + "World";
    OneKeywordLine("Hello ", "World", "world");
  }

  // ---- a keyword that starts a longer one ----

  /**
   * The text `k2` itself, highlighted for `[k1, k2]` where `k1` is a
   * shorter start of `k2`: both occur at 0, the longer wins and the whole
   * text is one span tagged 1.
   */
  lemma PrefixKeyword(k1: string, k2: string)
    requires 0 < |k1| < |k2| && NoUpper(k2) && k1 == k2[..|k1|]
    ensures Highlight(k2, [k1, k2]) == [Mark(k2, 1)]
  {
    var sorted, keywords := [k2, k1], [k1, k2];
    assert Segments(k2, sorted, keywords) == Pieces(k2, 0, k2, keywords) + Segments("", sorted, keywords) by {
      PrefixKeywordTurn(k1, k2);
      SegmentsMatch(k2, sorted, keywords, 0, k2);
      assert k2[|k2|..] == "";
    }
    assert Pieces(k2, 0, k2, keywords) == [Mark(k2, 1)] by {
      TagsOfTwo(k1, k2);
      assert k2[0..|k2|] == k2;
    }
    HighlightTwo(k2, k1, k2);
  }

  /** Both keywords occur at 0 and `find`, over the longer first, takes the longer. */
  lemma PrefixKeywordTurn(k1: string, k2: string)
    requires 0 < |k1| < |k2| && NoUpper(k2) && k1 == k2[..|k1|]
    ensures NextStep(k2, [k2, k1]) == Match(0, k2)
  {
    assert NoUpper(k1) by {
      assert forall c :: c in k1 ==> c in k2;
    }
    LowerStrNoUpper(k1);
    LowerStrNoUpper(k2);
    assert OccursAt(k2, k2, 0) && OccursAt(k2, k1, 0) && k2[..0] == [];
    IndexOfFirst(k2, k2, 0);
    IndexOfFirst(k2, k1, 0);
    FirstIndexOfTwo(k2, k2, k1);
    FindAtOfTwo(k2, k2, k1, 0);
  }

  /** "filename" highlighted for "file" and "filename": one span, not "file" then "name". */
  lemma LongestWins()
    ensures Highlight("filename", ["file", "filename"]) == [Mark("filename", 1)]
  {
    PrefixKeyword("file", "filename");
  }

  // ---- two keywords on one line ----

  /** The reduce over a two-keyword list. */
  lemma FirstIndexOfTwo(low: string, a: string, b: string)
    ensures FirstIndex(low, [a, b], -1) == Earlier(Earlier(-1, IndexOf(low, LowerStr(a))), IndexOf(low, LowerStr(b)))
  {
    var e := Earlier(-1, IndexOf(low, LowerStr(a)));
    assert [a, b][0] == a && [a, b][1..] == [b] && [b][0] == b && [b][1..] == [];
    assert FirstIndex(low, [a, b], -1) == FirstIndex(low, [b], e);
  }

  /** The find over a two-keyword list. */
  lemma FindAtOfTwo(low: string, a: string, b: string, at: int)
    ensures FindAt(low, [a, b], at)
      == if IndexOf(low, LowerStr(a)) == at then Some(a)
         else if IndexOf(low, LowerStr(b)) == at then Some(b)
         else None
  {
    assert [a, b][0] == a && [a, b][1..] == [b] && [b][0] == b && [b][1..] == [];
    assert FindAt(low, [b], at) == if IndexOf(low, LowerStr(b)) == at then Some(b) else FindAt(low, [], at);
  }

  /** A turn over two keywords, one found right after `pre` and the other not found at or before it. */
  lemma TurnAt(rem: string, pre: string, k: string, post: string, other: string, sorted: seq<string>)
    requires LowerStr(rem) == pre + k + post
    requires k != "" && other != "" && NoUpper(k) && NoUpper(other)
    requires k[0] !in pre && other[0] !in pre && other[0] != k[0]
    requires sorted == [k, other] || sorted == [other, k]
    ensures NextStep(rem, sorted) == Match(|pre|, k)
  {
    var low := pre + k + post;
    LowerStrNoUpper(k);
    LowerStrNoUpper(other);
    IndexOfAfter(pre, k, post);
    var r := IndexOf(low, other);
    IndexOfSpec(low, other);
    if r != -1 {
      assert low[r] == other[0];
      assert low[..|pre|] == pre && low[|pre|] == k[0];
      assert forall i :: 0 <= i < |pre| ==> low[i] in pre;
    }
    if sorted == [k, other] {
      FirstIndexOfTwo(low, k, other);
      FindAtOfTwo(low, k, other, |pre|);
    } else {
      FirstIndexOfTwo(low, other, k);
      FindAtOfTwo(low, other, k, |pre|);
    }
  }

  /** A turn over two keywords neither of which occurs: the rest stays plain. */
  lemma TurnNone(rem: string, a: string, b: string)
    requires NoUpper(rem) && NoUpper(a) && NoUpper(b)
    requires a != "" && b != "" && a[0] !in rem && b[0] !in rem
    ensures NextStep(rem, [a, b]) == NoMatch
  {
    LowerStrNoUpper(rem);
    LowerStrNoUpper(a);
    LowerStrNoUpper(b);
    IndexOfAbsent(rem, a);
    IndexOfAbsent(rem, b);
    FirstIndexOfTwo(rem, a, b);
  }

  /** Two keywords of different lengths are tagged with their own places. */
  lemma TagsOfTwo(k1: string, k2: string)
    requires |k1| != |k2|
    ensures TagOf([k1, k2], k1) == 0 && TagOf([k1, k2], k2) == 1
  {
    assert |LowerStr(k1)| != |LowerStr(k2)|;
    assert TagFrom([k1, k2], k2, 1) == 1;
  }

  /**
   * List-display concatenations, stated once as lemmas: inside the proofs
   * below, with many `Segments` terms in scope, the solver finds them
   * slowly on its own.
   */
  lemma ThreeParts(a: Part, b: Part, c: Part)
    ensures [a, b] + [c] == [a, b, c]
  {
  }

  lemma FiveParts(a: Part, b: Part, c: Part, d: Part, e: Part)
    ensures [a, b] + [c, d, e] == [a, b, c, d, e]
  {
  }

  /** One matched turn: the plain text before the keyword, the tagged keyword, then the rest. */
  lemma MatchPieces(pre: string, k: string, post: string, sorted: seq<string>, keywords: seq<string>, tag: int)
    requires pre != "" && NextStep(pre + k + post, sorted) == Match(|pre|, k)
    requires TagOf(keywords, k) == tag
    ensures Segments(pre + k + post, sorted, keywords) == [Plain(pre), Mark(k, tag)] + Segments(post, sorted, keywords)
  {
    var rem := pre + k + post;
    SegmentsMatch(rem, sorted, keywords, |pre|, k);
    assert rem[..|pre|] == pre && rem[|pre|..|pre| + |k|] == k && rem[|pre| + |k|..] == post;
  }

  /** After the first match: `p2 + k2 + p3` yields the plain `p2`, the tagged `k2` and the plain `p3`. */
  lemma TwoKeywordTail(p2: string, k1: string, k2: string, p3: string)
    requires 0 < |k1| < |k2| && k1[0] != k2[0]
    requires p2 != "" && p3 != ""
    requires NoUpper(k1) && NoUpper(k2) && NoUpper(p2) && NoUpper(p3)
    requires k1[0] !in p2 && k1[0] !in p3 && k2[0] !in p2 && k2[0] !in p3
    ensures NoUpper(p2 + k2 + p3)
    ensures Segments(p2 + k2 + p3, [k2, k1], [k1, k2]) == [Plain(p2), Mark(k2, 1), Plain(p3)]
  {
    var rem := p2 + k2 + p3;
    assert forall c :: c in rem ==> c in p2 || c in k2 || c in p3;
    LowerStrNoUpper(rem);
    TurnAt(rem, p2, k2, p3, k1, [k2, k1]);
    TagsOfTwo(k1, k2);
    MatchPieces(p2, k2, p3, [k2, k1], [k1, k2], 1);
    TurnNone(p3, k2, k1);
    assert Segments(p3, [k2, k1], [k1, k2]) == [Plain(p3)];
    ThreeParts(Plain(p2), Mark(k2, 1), Plain(p3));
  }

  /** The first turn of such a line: `k1`, right after `p1`, whatever its case there. */
  lemma TwoKeywordHead(p1: string, k1: string, rem: string, k2: string)
    requires k1 != "" && k2 != "" && k1[0] != k2[0]
    requires NoUpper(k1) && NoUpper(k2) && NoUpper(rem)
    requires forall c :: c in p1 ==> Lower(c) != k1[0] && Lower(c) != k2[0]
    ensures NextStep(p1 + k1 + rem, [k2, k1]) == Match(|p1|, k1)
  {
    LowerStrAvoids(p1, k1[0]);
    LowerStrAvoids(p1, k2[0]);
    LowerStrAppendNoUpper(p1, k1);
    LowerStrAppendNoUpper(p1 + k1, rem);
    TurnAt(p1 + k1 + rem, LowerStr(p1), k1, rem, k2, [k2, k1]);
  }

  /** Two keywords, the shorter first, are tried longest first. */
  lemma HighlightTwo(text: string, k1: string, k2: string)
    requires |k1| < |k2|
    ensures Highlight(text, [k1, k2]) == Segments(text, [k2, k1], [k1, k2])
  {
    assert [k1, k2][1..] == [k2] && [k2][1..] == [];
    assert SortByLength([k1, k2]) == [k2, k1];
  }

  /** Both turns of such a line, and the plain rest. */
  lemma TwoKeywordSegments(p1: string, k1: string, p2: string, k2: string, p3: string)
    requires 0 < |k1| < |k2| && k1[0] != k2[0]
    requires p1 != "" && p2 != "" && p3 != ""
    requires NoUpper(k1) && NoUpper(k2) && NoUpper(p2) && NoUpper(p3)
    requires forall c :: c in p1 ==> Lower(c) != k1[0] && Lower(c) != k2[0]
    requires k1[0] !in p2 && k1[0] !in k2 && k1[0] !in p3
    requires k2[0] !in p2 && k2[0] !in p3
    ensures Segments(p1 + k1 + (p2 + k2 + p3), [k2, k1], [k1, k2])
      == [Plain(p1), Mark(k1, 0), Plain(p2), Mark(k2, 1), Plain(p3)]
  {
    var rem := p2 + k2 + p3;
    assert Segments(rem, [k2, k1], [k1, k2]) == [Plain(p2), Mark(k2, 1), Plain(p3)] && NoUpper(rem) by {
      TwoKeywordTail(p2, k1, k2, p3);
    }
    assert Segments(p1 + k1 + rem, [k2, k1], [k1, k2]) == [Plain(p1), Mark(k1, 0)] + Segments(rem, [k2, k1], [k1, k2]) by {
      TwoKeywordHead(p1, k1, rem, k2);
      TagsOfTwo(k1, k2);
      MatchPieces(p1, k1, rem, [k2, k1], [k1, k2], 0);
    }
    FiveParts(Plain(p1), Mark(k1, 0), Plain(p2), Mark(k2, 1), Plain(p3));
  }

  /**
   * A line `p1 + k1 + p2 + k2 + p3` highlighted for `[k1, k2]` with `k1`
   * shorter than `k2`, where each keyword occurs only at its place (as
   * far as first characters show): the plain parts and the two tagged
   * keywords, in order.
   */
  lemma TwoKeywordLine(p1: string, k1: string, p2: string, k2: string, p3: string)
    requires 0 < |k1| < |k2| && k1[0] != k2[0]
    requires p1 != "" && p2 != "" && p3 != ""
    requires NoUpper(k1) && NoUpper(k2) && NoUpper(p2) && NoUpper(p3)
    requires forall c :: c in p1 ==> Lower(c) != k1[0] && Lower(c) != k2[0]
    requires k1[0] !in p2 && k1[0] !in k2 && k1[0] !in p3
    requires k2[0] !in p2 && k2[0] !in p3
    ensures Highlight(p1 + k1 + p2 + k2 + p3, [k1, k2])
      == [Plain(p1), Mark(k1, 0), Plain(p2), Mark(k2, 1), Plain(p3)]
  {
    assert p1 + k1 + p2 + k2 + p3 == p1 + k1 + (p2 + k2 + p3);
    HighlightTwo(p1 + k1 + p2 + k2 + p3, k1, k2);
    TwoKeywordSegments(p1, k1, p2, k2, p3);
  }
}

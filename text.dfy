/**
 * The JavaScript string operations the widget relies on: `toLowerCase`,
 * `indexOf`, `includes`, `endsWith` and `join`. Strings are sequences of
 * characters; `toLowerCase` is modelled as an ASCII, length-preserving,
 * character-by-character map.
 */
module Text {

  /** `c.toLowerCase()` for one character (ASCII letters only). */
  function Lower(c: char): char {
    if 'A' <= c <= 'Z' then (c as int + 32) as char else c
  }

  /** `s.toLowerCase()`. */
  function LowerStr(s: string): (r: string)
    ensures |r| == |s|
  {
    if s == [] then [] else [Lower(s[0])] + LowerStr(s[1..])
  }

  /** `needle` occurs in `hay` starting at position `i`. */
  predicate OccursAt(hay: string, needle: string, i: int) {
    0 <= i && i + |needle| <= |hay| && hay[i..i + |needle|] == needle
  }

  /** `hay.includes(needle)`. */
  predicate Contains(hay: string, needle: string) {
    exists i :: 0 <= i <= |hay| && OccursAt(hay, needle, i)
  }

  /** `hay.endsWith(suffix)`. */
  predicate EndsWith(hay: string, suffix: string) {
    |suffix| <= |hay| && hay[|hay| - |suffix|..] == suffix
  }

  /** The scan behind `hay.indexOf(needle)`, starting at position `from`. */
  function IndexFrom(hay: string, needle: string, from: nat): (r: int)
    ensures r == -1 || from <= r
    decreases |hay| + 1 - from
  {
    if from + |needle| > |hay| then -1
    else if hay[from..from + |needle|] == needle then from
    else IndexFrom(hay, needle, from + 1)
  }

  /** The scan finds the first occurrence at or after `from`, or reports -1 when there is none. */
  lemma {:induction false} IndexFromSpec(hay: string, needle: string, from: nat)
    ensures var r := IndexFrom(hay, needle, from);
      && (r == -1 || from <= r)
      && (r == -1 <==> forall i :: from <= i ==> !OccursAt(hay, needle, i))
      && (r != -1 ==> OccursAt(hay, needle, r))
      && (forall i :: from <= i < r ==> !OccursAt(hay, needle, i))
    decreases |hay| + 1 - from
  {
    if from + |needle| > |hay| {
    } else if hay[from..from + |needle|] == needle {
      assert OccursAt(hay, needle, from);
    } else {
      IndexFromSpec(hay, needle, from + 1);
    }
  }

  /**
   * `hay.indexOf(needle)`: the first position at which `needle` occurs, or -1.
   * As in JavaScript, the empty needle occurs at position 0 of every string.
   */
  function IndexOf(hay: string, needle: string): (r: int)
    ensures r >= -1
  {
    IndexFrom(hay, needle, 0)
  }

  /**
   * `indexOf` finds the first occurrence: -1 exactly when there is none,
   * otherwise an occurrence with no occurrence before it.
   */
  lemma IndexOfSpec(hay: string, needle: string)
    ensures -1 <= IndexOf(hay, needle)
    ensures IndexOf(hay, needle) == -1 <==> !Contains(hay, needle)
    ensures IndexOf(hay, needle) != -1 ==> OccursAt(hay, needle, IndexOf(hay, needle))
    ensures forall i :: 0 <= i < IndexOf(hay, needle) ==> !OccursAt(hay, needle, i)
  {
    IndexFromSpec(hay, needle, 0);
  }

  /** Any occurrence is at or after the one `indexOf` reports. */
  lemma IndexOfAtMost(hay: string, needle: string, i: int)
    requires OccursAt(hay, needle, i)
    ensures 0 <= IndexOf(hay, needle) <= i
  {
    IndexOfSpec(hay, needle);
  }

  /** `parts.join(sep)`. */
  function Join(parts: seq<string>, sep: string): string {
    if |parts| == 0 then ""
    else if |parts| == 1 then parts[0]
    else parts[0] + sep + Join(parts[1..], sep)
  }

  /** Lower-casing works character by character. */
  lemma {:induction false} LowerStrAt(s: string, i: nat)
    requires i < |s|
    ensures LowerStr(s)[i] == Lower(s[i])
  {
    if i > 0 {
      LowerStrAt(s[1..], i - 1);
    }
  }

  lemma {:induction false} LowerStrAppend(a: string, b: string)
    ensures LowerStr(a + b) == LowerStr(a) + LowerStr(b)
  {
    if a != [] {
      assert (a + b)[1..] == a[1..] + b;
      LowerStrAppend(a[1..], b);
    } else {
      assert a + b == b;
    }
  }

  lemma LowerStrSlice(s: string, i: nat, j: nat)
    requires i <= j <= |s|
    ensures LowerStr(s[i..j]) == LowerStr(s)[i..j]
  {
    assert s == s[..i] + s[i..j] + s[j..];
    LowerStrAppend(s[..i] + s[i..j], s[j..]);
    LowerStrAppend(s[..i], s[i..j]);
  }

  lemma LowerStrSuffix(s: string, i: nat)
    requires i <= |s|
    ensures LowerStr(s[i..]) == LowerStr(s)[i..]
  {
    assert s == s[..i] + s[i..];
    LowerStrAppend(s[..i], s[i..]);
  }

  /** An occurrence inside `b` is an occurrence inside `a + b + c`, shifted by `|a|`. */
  lemma OccursInContext(a: string, b: string, c: string, needle: string, i: int)
    requires OccursAt(b, needle, i)
    ensures OccursAt(a + b + c, needle, |a| + i)
  {
    assert (a + b + c)[|a| + i..|a| + i + |needle|] == b[i..i + |needle|];
  }

  /** Every element of a list occurs in the list joined with any separator. */
  lemma {:induction false} JoinContains(parts: seq<string>, sep: string, k: nat)
    requires k < |parts|
    ensures Contains(Join(parts, sep), parts[k])
  {
    if |parts| == 1 {
      assert OccursAt(Join(parts, sep), parts[k], 0);
    } else if k == 0 {
      OccursInContext([], parts[0], sep + Join(parts[1..], sep), parts[0], 0);
      assert [] + parts[0] + (sep + Join(parts[1..], sep)) == Join(parts, sep);
    } else {
      JoinContains(parts[1..], sep, k - 1);
      var i :| OccursAt(Join(parts[1..], sep), parts[k], i);
      OccursInContext(parts[0] + sep, Join(parts[1..], sep), [], parts[k], i);
      assert parts[0] + sep + Join(parts[1..], sep) + [] == Join(parts, sep);
    }
  }

  /** Case-insensitive occurrence survives embedding in a larger string. */
  lemma ContainsLowerInContext(a: string, b: string, c: string, needle: string)
    requires Contains(LowerStr(b), needle)
    ensures Contains(LowerStr(a + b + c), needle)
  {
    var i :| OccursAt(LowerStr(b), needle, i);
    OccursInContext(LowerStr(a), LowerStr(b), LowerStr(c), needle, i);
    LowerStrAppend(a, b);
    LowerStrAppend(a + b, c);
  }

  /** An occurrence keeps occurring, ignoring case, once both sides are lower-cased. */
  lemma ContainsLower(hay: string, needle: string)
    requires Contains(hay, needle)
    ensures Contains(LowerStr(hay), LowerStr(needle))
  {
    var i :| 0 <= i <= |hay| && OccursAt(hay, needle, i);
    LowerStrSlice(hay, i, i + |needle|);
    assert OccursAt(LowerStr(hay), LowerStr(needle), i);
  }

  /** No capital letter: `toLowerCase` leaves the string as it is. */
  predicate NoUpper(s: string) {
    forall c :: c in s ==> !('A' <= c <= 'Z')
  }

  lemma {:induction false} LowerStrNoUpper(s: string)
    requires NoUpper(s)
    ensures LowerStr(s) == s
  {
    if s != [] {
      assert s == [s[0]] + s[1..];
      assert s[0] in s;
      assert forall c :: c in s[1..] ==> c in s;
      LowerStrNoUpper(s[1..]);
    }
  }

  /** `indexOf` is `i` when the needle occurs there and its first character appears nowhere earlier. */
  lemma IndexOfFirst(hay: string, needle: string, i: int)
    requires OccursAt(hay, needle, i) && needle != [] && needle[0] !in hay[..i]
    ensures IndexOf(hay, needle) == i
  {
    IndexOfSpec(hay, needle);
    IndexOfAtMost(hay, needle, i);
  }

  /** `indexOf` is -1 when the needle's first character does not appear at all. */
  lemma IndexOfAbsent(hay: string, needle: string)
    requires needle != [] && needle[0] !in hay
    ensures IndexOf(hay, needle) == -1
  {
    IndexOfSpec(hay, needle);
  }

  /** A needle whose first character does not appear before it is found right after that prefix. */
  lemma IndexOfAfter(a: string, needle: string, c: string)
    requires needle != [] && needle[0] !in a
    ensures IndexOf(a + needle + c, needle) == |a|
  {
    OccursInContext(a, needle, c, needle, 0);
    assert (a + needle + c)[..|a|] == a;
    IndexOfFirst(a + needle + c, needle, |a|);
  }

  /** Appending text without capitals: lower-casing leaves the appended part as it is. */
  lemma LowerStrAppendNoUpper(a: string, b: string)
    requires NoUpper(b)
    ensures LowerStr(a + b) == LowerStr(a) + b
  {
    LowerStrAppend(a, b);
    LowerStrNoUpper(b);
  }

  /** A character no letter of `s` lowers to does not occur in its lower case. */
  lemma LowerStrAvoids(s: string, c: char)
    requires forall x :: x in s ==> Lower(x) != c
    ensures c !in LowerStr(s)
  {
    forall i | 0 <= i < |s|
      ensures LowerStr(s)[i] != c
    {
      LowerStrAt(s, i);
    }
  }
}

/** Python string operations the prioritization code relies on: the `in` substring
    test, `str.split(sep)`, `sep.join(parts)` and `str.replace(target, replacement)`.
    Strings are sequences of characters; nothing here depends on an encoding. */
module Text {

  predicate StartsWith(s: string, prefix: string)
  {
    |prefix| <= |s| && s[..|prefix|] == prefix
  }

  /** `pattern in s`: the pattern occurs at some position of s. */
  predicate Contains(s: string, pattern: string)
    decreases |s|
  {
    StartsWith(s, pattern) || (|s| > 0 && Contains(s[1..], pattern))
  }

  /** The pattern occurs in s starting at position i. */
  predicate OccursAt(s: string, pattern: string, i: int)
  {
    0 <= i && i + |pattern| <= |s| && s[i..i + |pattern|] == pattern
  }

  /** Every occurrence is found by the scan. */
  lemma {:induction false} OccursImpliesContains(s: string, pattern: string, i: int)
    requires OccursAt(s, pattern, i)
    ensures Contains(s, pattern)
    decreases i
  {
    if i > 0 {
      assert s[1..][i - 1..i - 1 + |pattern|] == s[i..i + |pattern|];
      OccursImpliesContains(s[1..], pattern, i - 1);
    }
  }

  /** The scan only reports genuine occurrences. */
  lemma {:induction false} ContainsImpliesOccurs(s: string, pattern: string) returns (i: int)
    requires Contains(s, pattern)
    ensures OccursAt(s, pattern, i)
    decreases |s|
  {
    if StartsWith(s, pattern) {
      i := 0;
    } else {
      var j := ContainsImpliesOccurs(s[1..], pattern);
      assert s[1..][j..j + |pattern|] == s[j + 1..j + 1 + |pattern|];
      i := j + 1;
    }
  }

  /** The scanning definition of `Contains` agrees with the positional one. */
  lemma ContainsIffOccurs(s: string, pattern: string)
    ensures Contains(s, pattern) <==> exists i :: OccursAt(s, pattern, i)
  {
    forall i | OccursAt(s, pattern, i)
      ensures Contains(s, pattern)
    {
      OccursImpliesContains(s, pattern, i);
    }
    if Contains(s, pattern) {
      var i := ContainsImpliesOccurs(s, pattern);
    }
  }

  /** An occurrence in a suffix is an occurrence in the whole string. */
  lemma ContainsInSuffix(s: string, k: nat, pattern: string)
    requires k <= |s|
    ensures Contains(s[k..], pattern) ==> Contains(s, pattern)
  {
    if Contains(s[k..], pattern) {
      ContainsIffOccurs(s[k..], pattern);
      ContainsIffOccurs(s, pattern);
      var i :| OccursAt(s[k..], pattern, i);
      assert s[k..][i..i + |pattern|] == s[k + i..k + i + |pattern|];
      assert OccursAt(s, pattern, k + i);
    }
  }

  /** `s.split(sep)` for a non-empty separator: the first occurrence is found
      scanning left to right, and scanning resumes after it. */
  function Split(s: string, sep: string): (parts: seq<string>)
    requires |sep| > 0
    ensures |parts| >= 1
    decreases |s|
  {
    if |s| < |sep| then [s]
    else if StartsWith(s, sep) then [""] + Split(s[|sep|..], sep)
    else
      var rest := Split(s[1..], sep);
      [[s[0]] + rest[0]] + rest[1..]
  }

  /** `sep.join(parts)`. */
  function Join(parts: seq<string>, sep: string): string
  {
    if |parts| == 0 then ""
    else if |parts| == 1 then parts[0]
    else parts[0] + sep + Join(parts[1..], sep)
  }

  /** `s.replace(target, replacement)`: non-overlapping occurrences, left to right. */
  function Replace(s: string, target: string, replacement: string): string
    requires |target| > 0
    decreases |s|
  {
    if |s| < |target| then s
    else if StartsWith(s, target) then replacement + Replace(s[|target|..], target, replacement)
    else [s[0]] + Replace(s[1..], target, replacement)
  }

  /** The last piece of `s.split(sep)`, i.e. `s.split(sep)[-1]`. */
  function LastSegment(s: string, sep: string): string
    requires |sep| > 0
  {
    var parts := Split(s, sep);
    parts[|parts| - 1]
  }

  lemma JoinExtendFirst(c: char, parts: seq<string>, sep: string)
    requires |parts| >= 1
    ensures Join([[c] + parts[0]] + parts[1..], sep) == [c] + Join(parts, sep)
  {
    var q := [[c] + parts[0]] + parts[1..];
    if |parts| > 1 {
      assert q[1..] == parts[1..];
    }
  }

  lemma JoinEmptyFirst(parts: seq<string>, sep: string)
    requires |parts| >= 1
    ensures Join([""] + parts, sep) == sep + Join(parts, sep)
  {
    assert ([""] + parts)[1..] == parts;
  }

  /** Splitting and joining with the same separator gives the string back. */
  lemma {:induction false} SplitJoinRoundTrip(s: string, sep: string)
    requires |sep| > 0
    ensures Join(Split(s, sep), sep) == s
    decreases |s|
  {
    if |s| < |sep| {
    } else if StartsWith(s, sep) {
      SplitJoinRoundTrip(s[|sep|..], sep);
      JoinEmptyFirst(Split(s[|sep|..], sep), sep);
      assert s == s[..|sep|] + s[|sep|..];
    } else {
      SplitJoinRoundTrip(s[1..], sep);
      JoinExtendFirst(s[0], Split(s[1..], sep), sep);
      assert s == [s[0]] + s[1..];
    }
  }

  /** Replacing occurrences is splitting on them and joining with the
      replacement, as Python documents for `str.replace`. */
  lemma {:induction false} ReplaceIsSplitJoin(s: string, target: string, replacement: string)
    requires |target| > 0
    ensures Replace(s, target, replacement) == Join(Split(s, target), replacement)
    decreases |s|
  {
    if |s| < |target| {
    } else if StartsWith(s, target) {
      ReplaceIsSplitJoin(s[|target|..], target, replacement);
      JoinEmptyFirst(Split(s[|target|..], target), replacement);
    } else {
      ReplaceIsSplitJoin(s[1..], target, replacement);
      JoinExtendFirst(s[0], Split(s[1..], target), replacement);
    }
  }

  /** A string without the separator is its own single piece. */
  lemma {:induction false} SplitWithoutSeparator(s: string, sep: string)
    requires |sep| > 0
    requires !Contains(s, sep)
    ensures Split(s, sep) == [s]
    decreases |s|
  {
    if |s| >= |sep| {
      assert |s| > 0;
      SplitWithoutSeparator(s[1..], sep);
      assert [s[0]] + s[1..] == s;
    }
  }

  /** The text after a leading separator, when that text holds no further
      separator, is the last segment. */
  lemma LastSegmentAfterSeparator(sep: string, tail: string)
    requires |sep| > 0
    requires !Contains(tail, sep)
    ensures LastSegment(sep + tail, sep) == tail
  {
    var s := sep + tail;
    assert s[..|sep|] == sep;
    assert s[|sep|..] == tail;
    SplitWithoutSeparator(tail, sep);
  }
}

/** Knuth-Morris-Pratt search: the prefix function (LPS array) of the
    pattern, then a scan that never moves back in the text. */
module Kmp {
  import opened SearchSpec

  /** `b` is the length of a proper border of `pattern[..len]`: a prefix of
      it, shorter than it, that is also a suffix of it. */
  ghost predicate IsBorder(pattern: string, len: int, b: int)
  {
    0 <= b < len <= |pattern| && pattern[..b] == pattern[len - b..len]
  }

  /** `b` is the length of the longest proper border of `pattern[..len]`. */
  ghost predicate IsLongestBorder(pattern: string, len: int, b: int)
  {
    IsBorder(pattern, len, b) && forall b' :: b < b' < len ==> !IsBorder(pattern, len, b')
  }

  /** A border of `pattern[..len + 1]` of length `b + 1` is a border of
      `pattern[..len]` of length `b` followed by a matching character. */
  lemma BorderStep(pattern: string, len: int, b: int)
    requires 0 <= b < len < |pattern|
    ensures IsBorder(pattern, len + 1, b + 1) <==> IsBorder(pattern, len, b) && pattern[b] == pattern[len]
  {
    assert pattern[..b + 1] == pattern[..b] + [pattern[b]];
    assert pattern[len - b..len + 1] == pattern[len - b..len] + [pattern[len]];
  }

  /** Below a border of length `b`, the borders of `pattern[..len]` are
      exactly the borders of `pattern[..b]`. */
  lemma BordersOfBorder(pattern: string, len: int, b: int, c: int)
    requires IsBorder(pattern, len, b)
    requires 0 <= c < b
    ensures IsBorder(pattern, len, c) <==> IsBorder(pattern, b, c)
  {
    assert pattern[..b][..c] == pattern[..c];
    assert pattern[..b][b - c..b] == pattern[b - c..b];
    assert pattern[len - b..len][b - c..b] == pattern[len - c..len];
  }

  /** No border of `pattern[..i]` longer than `length` extends by the next
      character `pattern[i]`. */
  ghost predicate NoLongerBorderExtends(pattern: string, i: int, length: int)
  {
    i < |pattern| ==> forall b :: length < b < i && IsBorder(pattern, i, b) ==> pattern[b] != pattern[i]
  }

  /** When no border longer than `length` extends, the longest border of
      `pattern[..i + 1]` is `length + 1` if `pattern[length]` matches the
      next character, and 0 if it does not and `length` is 0. */
  lemma LongestBorderStep(pattern: string, i: int, length: int)
    requires 0 <= length < i < |pattern|
    requires IsBorder(pattern, i, length) && NoLongerBorderExtends(pattern, i, length)
    requires pattern[i] == pattern[length] || length == 0
    ensures IsLongestBorder(pattern, i + 1, if pattern[i] == pattern[length] then length + 1 else 0)
  {
    var next := i + 1;
    if pattern[i] == pattern[length] {
      BorderStep(pattern, i, length);
    } else {
      assert pattern[..0] == pattern[next..next];
    }
    forall b' | (if pattern[i] == pattern[length] then length + 1 else 0) < b' < next
      ensures !IsBorder(pattern, next, b')
    {
      BorderStep(pattern, i, b' - 1);
    }
  }

  /** Falling back from a border `length` that does not extend to the
      longest border `shorter` of `pattern[..length]` keeps the invariant of
      the prefix-function loop. */
  lemma FallbackStep(pattern: string, i: int, length: int, shorter: int)
    requires 0 < length < i < |pattern|
    requires IsBorder(pattern, i, length) && NoLongerBorderExtends(pattern, i, length)
    requires pattern[i] != pattern[length]
    requires IsLongestBorder(pattern, length, shorter)
    ensures IsBorder(pattern, i, shorter) && NoLongerBorderExtends(pattern, i, shorter)
  {
    BordersOfBorder(pattern, i, length, shorter);
    forall b | shorter < b < length && IsBorder(pattern, i, b)
      ensures IsBorder(pattern, length, b)
    {
      BordersOfBorder(pattern, i, length, b);
    }
  }

  /** Builds the prefix function of a non-empty pattern: `lps[k]` is the
      length of the longest proper border of `pattern[..k + 1]`. */
  method ComputeLps(pattern: string) returns (lps: array<int>)
    requires |pattern| > 0
    ensures fresh(lps)
    ensures lps.Length == |pattern|
    ensures lps[0] == 0
    ensures forall k :: 0 <= k < |pattern| ==> 0 <= lps[k] <= k && IsLongestBorder(pattern, k + 1, lps[k])
  {
    var m := |pattern|;
    lps := new int[m](_ => 0);
    var length, i := 0, 1;
    while i < m
      invariant 1 <= i <= m
      invariant 0 <= length < i
      invariant IsBorder(pattern, i, length)
      invariant NoLongerBorderExtends(pattern, i, length)
      invariant lps[0] == 0
      invariant forall k :: 0 <= k < i ==> IsLongestBorder(pattern, k + 1, lps[k])
      decreases m - i, length
    {
      if pattern[i] == pattern[length] {
        LongestBorderStep(pattern, i, length);
        length := length + 1;
        ghost var done := lps[..i];
        lps[i] := length;
        assert lps[..i] == done;
        i := i + 1;
      } else if length != 0 {
        FallbackStep(pattern, i, length, lps[length - 1]);
        length := lps[length - 1];
      } else {
        LongestBorderStep(pattern, i, length);
        ghost var done := lps[..i];
        lps[i] := 0;
        assert lps[..i] == done;
        i := i + 1;
      }
    }
  }

  /** On a mismatch after matching `j > 0` characters ending before text
      position `i`, falling back to the longest border `b` of
      `pattern[..j]` skips no occurrence and keeps the matched prefix. */
  lemma FallbackIsSafe(text: string, pattern: string, i: int, j: int, b: int)
    requires 0 < j < |pattern| && j <= i < |text|
    requires text[i - j..i] == pattern[..j]
    requires text[i] != pattern[j]
    requires IsLongestBorder(pattern, j, b)
    ensures text[i - b..i] == pattern[..b]
    ensures NoOccurrenceIn(text, pattern, i - j, i - b)
  {
    assert text[i - b..i] == text[i - j..i][j - b..j];
    forall k | i - j <= k < i - b
      ensures !OccursAt(text, pattern, k)
    {
      OccurrenceCovers(text, pattern, k, k, i);
      OccurrenceCovers(text, pattern, k, i, i + 1);
      var c := i - k;
      assert text[k..i] == text[i - j..i][j - c..j];
      assert c < j ==> (text[k..i] == pattern[..c] ==> IsBorder(pattern, j, c));
    }
  }

  /** Knuth-Morris-Pratt: returns the offset of the leftmost occurrence, 0
      for the empty pattern, -1 when there is none. */
  method KmpSearch(text: string, pattern: string) returns (r: int)
    ensures |pattern| == 0 ==> r == 0
    ensures |pattern| > |text| ==> r == NotFound
    ensures r == FirstOccurrence(text, pattern)
  {
    var n, m := |text|, |pattern|;
    if m == 0 {
      EdgeCases(text, pattern);
      return 0;
    }
    var lps := ComputeLps(pattern);
    var i, j := 0, 0;
    while i < n
      invariant 0 <= j < m && j <= i <= n
      invariant lps.Length == m
      invariant forall k :: 0 <= k < m ==> IsLongestBorder(pattern, k + 1, lps[k])
      invariant text[i - j..i] == pattern[..j]
      invariant NoOccurrenceIn(text, pattern, 0, i - j)
      decreases n - i, j
    {
      if text[i] == pattern[j] {
        assert text[i - j..i + 1] == text[i - j..i] + [text[i]];
        assert pattern[..j + 1] == pattern[..j] + [pattern[j]];
        i := i + 1;
        j := j + 1;
        if j == m {
          assert pattern[..m] == pattern;
          LeftmostOccurrenceIsFirst(text, pattern, i - j);
          return i - j;
        }
      } else {
        if j != 0 {
          FallbackIsSafe(text, pattern, i, j, lps[j - 1]);
          j := lps[j - 1];
        } else {
          OccurrenceCovers(text, pattern, i, i, i + 1);
          i := i + 1;
        }
      }
    }
    AbsentPatternIsNotFound(text, pattern);
    return NotFound;
  }
}

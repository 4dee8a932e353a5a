/** Boyer-Moore search with the bad-character rule only. */
module BoyerMoore {
  import opened SearchSpec

  function Min(a: int, b: int): int
  {
    if a <= b then a else b
  }

  /** The greatest index at which `c` occurs in `pattern`, or -1 when it does
      not occur: what the bad-character table holds for `c`. */
  function LastIndex(pattern: string, c: char): (r: int)
    ensures -1 <= r < |pattern|
    ensures r >= 0 ==> pattern[r] == c
    ensures forall q :: r < q < |pattern| ==> pattern[q] != c
  {
    if |pattern| == 0 then -1
    else if pattern[|pattern| - 1] == c then |pattern| - 1
    else LastIndex(pattern[..|pattern| - 1], c)
  }

  /** A lookup in the table with -1 for a character it does not hold. */
  function Lookup(last: map<char, int>, c: char): int
  {
    if c in last then last[c] else -1
  }

  /** Builds the bad-character table: every character of the pattern, and
      only those, mapped to its last index in the pattern. */
  method BuildLastTable(pattern: string) returns (last: map<char, int>)
    ensures forall c :: c in last <==> c in pattern
    ensures forall c :: Lookup(last, c) == LastIndex(pattern, c)
  {
    last := map[];
    for i := 0 to |pattern|
      invariant forall c :: c in last <==> c in pattern[..i]
      invariant forall c :: Lookup(last, c) == LastIndex(pattern[..i], c)
    {
      assert pattern[..i + 1][..i] == pattern[..i];
      assert pattern[..i + 1] == pattern[..i] + [pattern[i]];
      last := last[pattern[i] := i];
    }
    assert pattern[..|pattern|] == pattern;
  }

  /** On a mismatch of `text[i]` against `pattern[j]`, the bad-character
      rule moves the alignment start from `i - j` to
      `i + 1 - min(j, lo + 1)`: a strictly greater start, and no occurrence
      starts in between. */
  lemma BadCharacterShiftIsSafe(text: string, pattern: string, i: int, j: int, lo: int)
    requires 0 <= j <= i < |text| && j < |pattern|
    requires text[i] != pattern[j]
    requires lo == LastIndex(pattern, text[i])
    ensures i - j < i + 1 - Min(j, lo + 1)
    ensures NoOccurrenceIn(text, pattern, i - j, i + 1 - Min(j, lo + 1))
  {
    forall k | i - j <= k < i + 1 - Min(j, lo + 1)
      ensures !OccursAt(text, pattern, k)
    {
      OccurrenceCovers(text, pattern, k, i, i + 1);
    }
  }

  /** Boyer-Moore with the bad-character rule: returns the offset of the
      leftmost occurrence, 0 for the empty pattern, -1 when there is none. */
  method BoyerMooreBadCharacter(text: string, pattern: string) returns (r: int)
    ensures |pattern| == 0 ==> r == 0
    ensures |pattern| > |text| ==> r == NotFound
    ensures r == FirstOccurrence(text, pattern)
  {
    var n, m := |text|, |pattern|;
    if m == 0 {
      EdgeCases(text, pattern);
      return 0;
    }
    var last := BuildLastTable(pattern);
    var i, j := m - 1, m - 1;
    while i < n
      invariant 0 <= j < m && j <= i
      invariant i - j <= n
      invariant j < m - 1 ==> i - j + m <= n
      invariant forall t :: j < t < m ==> text[i - j + t] == pattern[t]
      invariant NoOccurrenceIn(text, pattern, 0, i - j)
      decreases n - (i - j), j
    {
      if text[i] == pattern[j] {
        if j == 0 {
          assert text[i..i + m] == pattern by {
            assert forall t | 0 <= t < m :: text[i..i + m][t] == pattern[t];
          }
          LeftmostOccurrenceIsFirst(text, pattern, i);
          return i;
        }
        i := i - 1;
        j := j - 1;
      } else {
        var lo := Lookup(last, text[i]);
        BadCharacterShiftIsSafe(text, pattern, i, j, lo);
        i := i + m - Min(j, lo + 1);
        j := m - 1;
      }
    }
    AbsentPatternIsNotFound(text, pattern);
    return NotFound;
  }
}

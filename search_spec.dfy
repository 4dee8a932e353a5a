/** The contract the three substring searches share: the offset of the
    leftmost occurrence of a pattern in a text, 0 for an empty pattern, and
    -1 when the pattern does not occur. */
module SearchSpec {

  /** The result every search returns when the pattern does not occur. */
  const NotFound := -1

  /** `pattern` occurs in `text` at offset `k`. */
  predicate OccursAt(text: string, pattern: string, k: int)
  {
    0 <= k && k + |pattern| <= |text| && text[k..k + |pattern|] == pattern
  }

  /** No occurrence of `pattern` starts at an offset in `[lo, hi)`. */
  ghost predicate NoOccurrenceIn(text: string, pattern: string, lo: int, hi: int)
  {
    forall k :: lo <= k < hi ==> !OccursAt(text, pattern, k)
  }

  /** The leftmost occurrence at an offset `>= k`, trying the alignments in
      order; the reference the three algorithms are proved equal to. */
  function FirstOccurrenceFrom(text: string, pattern: string, k: nat): int
    decreases |text| - k
  {
    if |text| < k + |pattern| then NotFound
    else if OccursAt(text, pattern, k) then k
    else FirstOccurrenceFrom(text, pattern, k + 1)
  }

  /** The leftmost occurrence of `pattern` in `text`, or `NotFound`. */
  function FirstOccurrence(text: string, pattern: string): int
  {
    FirstOccurrenceFrom(text, pattern, 0)
  }

  /** An occurrence at `k` agrees with the text on every position it
      covers. */
  lemma OccurrenceCovers(text: string, pattern: string, k: int, lo: int, hi: int)
    requires k <= lo <= hi <= k + |pattern|
    ensures OccursAt(text, pattern, k) ==> text[lo..hi] == pattern[lo - k..hi - k]
    ensures OccursAt(text, pattern, k) && lo < hi ==> text[lo] == pattern[lo - k]
  {
    if OccursAt(text, pattern, k) {
      assert forall t | 0 <= t < hi - lo :: text[lo..hi][t] == text[k..k + |pattern|][lo - k + t];
      if lo < hi {
        assert text[lo] == text[k..k + |pattern|][lo - k];
      }
    }
  }

  /** From offset `k` on, the scan finds the first occurrence, or reports that
      there is none. */
  lemma {:induction false} FirstOccurrenceFromIsLeftmost(text: string, pattern: string, k: nat)
    ensures var r := FirstOccurrenceFrom(text, pattern, k);
      if r == NotFound then NoOccurrenceIn(text, pattern, k, |text| + 1)
      else k <= r && OccursAt(text, pattern, r) && NoOccurrenceIn(text, pattern, k, r)
    decreases |text| - k
  {
    if |text| < k + |pattern| {
    } else if !OccursAt(text, pattern, k) {
      FirstOccurrenceFromIsLeftmost(text, pattern, k + 1);
    }
  }

  /** `FirstOccurrence` is `NotFound` exactly when the pattern occurs
      nowhere; otherwise it is an occurrence inside the text and no
      occurrence lies to its left. */
  lemma FirstOccurrenceIsLeftmost(text: string, pattern: string)
    ensures FirstOccurrence(text, pattern) == NotFound <==> forall k :: !OccursAt(text, pattern, k)
    ensures var r := FirstOccurrence(text, pattern);
      r != NotFound ==>
        0 <= r <= |text| - |pattern| && OccursAt(text, pattern, r) && NoOccurrenceIn(text, pattern, 0, r)
  {
    FirstOccurrenceFromIsLeftmost(text, pattern, 0);
  }

  /** An occurrence with none to its left is the first occurrence. */
  lemma LeftmostOccurrenceIsFirst(text: string, pattern: string, r: int)
    requires OccursAt(text, pattern, r)
    requires NoOccurrenceIn(text, pattern, 0, r)
    ensures FirstOccurrence(text, pattern) == r
  {
    FirstOccurrenceIsLeftmost(text, pattern);
  }

  /** A pattern that occurs nowhere is not found. */
  lemma AbsentPatternIsNotFound(text: string, pattern: string)
    requires NoOccurrenceIn(text, pattern, 0, |text| - |pattern| + 1)
    ensures FirstOccurrence(text, pattern) == NotFound
  {
    FirstOccurrenceIsLeftmost(text, pattern);
  }

  /** The empty pattern is found at offset 0 of every text, and a pattern
      longer than the text is never found. */
  lemma EdgeCases(text: string, pattern: string)
    ensures |pattern| == 0 ==> FirstOccurrence(text, pattern) == 0
    ensures |pattern| > |text| ==> FirstOccurrence(text, pattern) == NotFound
  {
    if |pattern| == 0 {
      assert OccursAt(text, pattern, 0);
    }
  }
}

/** The registry of the three searches under their display names, and the
    law that every registered search returns the same result. */
module Algorithms {
  import opened SearchSpec
  import BoyerMoore
  import Kmp
  import RabinKarp

  datatype Algorithm = BoyerMooreBadChar | KnuthMorrisPratt | RabinKarpHash

  /** The registry, in its order: display name and algorithm. */
  const Registry: seq<(string, Algorithm)> := [
    ("Boyer-Moore (bad char)", BoyerMooreBadChar),
    ("KMP", KnuthMorrisPratt),
    ("Rabin-Karp", RabinKarpHash)
  ]

  /** Runs one registered search with its default configuration. */
  method Search(alg: Algorithm, text: string, pattern: string) returns (r: int)
    ensures r == FirstOccurrence(text, pattern)
  {
    match alg
    case BoyerMooreBadChar =>
      r := BoyerMoore.BoyerMooreBadCharacter(text, pattern);
    case KnuthMorrisPratt =>
      r := Kmp.KmpSearch(text, pattern);
    case RabinKarpHash =>
      r := RabinKarp.RabinKarpSearch(text, pattern, RabinKarp.DefaultBase, RabinKarp.DefaultModulus);
  }

  /** Runs every registered search on the same input, in registry order:
      all of them return the same index, which is an occurrence with none
      to its left, or all report that the pattern is absent. */
  method SearchAll(text: string, pattern: string) returns (results: seq<int>)
    ensures |results| == |Registry|
    ensures forall a, b :: 0 <= a < b < |results| ==> results[a] == results[b]
    ensures forall a :: 0 <= a < |results| ==>
      (results[a] == NotFound <==> forall k :: !OccursAt(text, pattern, k))
    ensures forall a :: 0 <= a < |results| && results[a] != NotFound ==>
      OccursAt(text, pattern, results[a]) && NoOccurrenceIn(text, pattern, 0, results[a])
  {
    FirstOccurrenceIsLeftmost(text, pattern);
    results := [];
    for i := 0 to |Registry|
      invariant |results| == i
      invariant forall a :: 0 <= a < i ==> results[a] == FirstOccurrence(text, pattern)
    {
      var r := Search(Registry[i].1, text, pattern);
      results := results + [r];
    }
  }
}

# Exact substring search: Boyer-Moore, Knuth-Morris-Pratt, Rabin-Karp

This project models the three substring-search functions of `algorithms.py`
and proves each of them correct. The three functions are:

- `boyer_moore_bad_character`: Boyer-Moore with the bad-character rule only.
- `kmp_search`: Knuth-Morris-Pratt, with its prefix function (LPS array).
- `rabin_karp`: Rabin-Karp, with a polynomial rolling hash modulo `mod`.

Each takes a text and a pattern. It returns the offset of the leftmost
occurrence of the pattern, `0` for an empty pattern, and `-1` when the
pattern does not occur.

All three are modelled as methods with the source's loops. They are proved
equal to one reference function, `SearchSpec.FirstOccurrence`. This function
tries every alignment from left to right. The lemma
`SearchSpec.FirstOccurrenceIsLeftmost` proves what it means: the result is an
occurrence with no occurrence to its left, and it is `-1` exactly when the
pattern occurs nowhere. Each method also states the two edge cases outright:
the empty pattern gives `0`, and a pattern longer than the text gives `-1`.
The registry `ALGORITHMS` becomes `Algorithms.Registry`. `Algorithms.SearchAll`
runs every registered search on one input and proves that all of them agree.

Files:

- `search_spec.dfy`: module `SearchSpec`, the shared contract.
- `boyer_moore.dfy`: module `BoyerMoore`, the bad-character table and the matcher.
- `kmp.dfy`: module `Kmp`, borders, the LPS builder and the matcher.
- `rabin_karp.dfy`: module `RabinKarp`, the polynomial hash, its rolling
  update and the matcher.
- `algorithms.dfy`: module `Algorithms`, the registry.

Modelling choices:

- Characters are Dafny `char` and `ord(c)` is `c as int`.
- Hashes are unbounded `int`, as Python integers are. With a positive modulus,
  Dafny's `%` agrees with Python's `%` (the result is never negative).
- The bad-character table `last` is a `map<char, int>`. A lookup of a missing
  character gives `-1`, like `last.get(c, -1)`.
- The LPS list is an `array<int>` filled in place. The source builds it
  inline in `kmp_search`; here the builder is the separate method
  `Kmp.ComputeLps`, called at the same point.
- `pow(base, m - 1, mod)` is `Pow(base, m - 1) % mod`.
- The loop that hashes the pattern and the first text window is the separate
  method `RabinKarp.InitialHashes`, called at the same point. It keeps the
  proof of each loop small.

A pattern longer than the text reaches `-1` differently in each function.
Boyer-Moore has no early return: it builds its table, and its loop never runs
because `i = m - 1 >= n` (algorithms.py:18-20). KMP reaches `-1` because `j`
never reaches `m`. Rabin-Karp returns early (algorithms.py:69-70). The
branch `if th < 0: th += mod` (algorithms.py:83-84) is kept in the model even
though it can never run: `%` by a positive modulus never gives a negative
value, and the method asserts `0 <= th` just before the branch.

## Model

| member | source | states |
|---|---|---|
| `SearchSpec.FirstOccurrenceIsLeftmost` | algorithms.py:12-85 | The contract shared by the return points of all three functions (lines 12-13, 22-23, 30, 34-35, 56-57, 63, 67-70, 79-80, 85). The reference result is `-1` if and only if the pattern occurs at no offset. Otherwise it lies in `[0, n - m]`, the text there equals the pattern, and no occurrence starts further left. |
| `SearchSpec.EdgeCases` | algorithms.py:66-70 | The empty pattern is found at offset 0 of every text, the empty text included. A pattern longer than the text is never found. |
| `BoyerMoore.LastIndex` | algorithms.py:27 | The table value for a character: `-1` or an index holding that character, with no later index in the pattern holding it. |
| `BoyerMoore.BuildLastTable` | algorithms.py:15-17 | The table holds exactly the characters of the pattern. A lookup with default `-1` gives each character's greatest index, and `-1` for any other character. |
| `BoyerMoore.BadCharacterShiftIsSafe` | algorithms.py:26-29 | On a mismatch of `text[i]` against `pattern[j]`, the move `i + m - min(j, lo + 1)` takes the alignment start strictly forward. It skips no start at which the pattern occurs. |
| `BoyerMoore.BoyerMooreBadCharacter` | algorithms.py:10-30 | Returns the leftmost occurrence, or `-1` when there is none; `0` for the empty pattern; `-1` when the pattern is longer than the text. The loop invariant is that no occurrence starts left of the alignment and the suffix already compared matches. The loop terminates because the measure `(n - (i - j), j)` decreases lexicographically: a mismatch strictly increases the alignment start `i - j`, and a match decreases `j` with the start fixed. |
| `Kmp.BorderStep` | algorithms.py:41-44 | Extending a border: `pattern[..i+1]` has a border of length `b + 1` iff `pattern[..i]` has one of length `b` and `pattern[b] == pattern[i]`. |
| `Kmp.BordersOfBorder` | algorithms.py:45-46 | Below a border of length `b`, the borders of `pattern[..len]` are exactly the borders of `pattern[..b]`. So the fallback `length = lps[length - 1]` reaches the next shorter border and skips none. |
| `Kmp.LongestBorderStep` | algorithms.py:41-49 | Suppose no border of `pattern[..i]` longer than `length` extends by `pattern[i]`. Then the longest border of `pattern[..i+1]` is `length + 1` when `pattern[i] == pattern[length]` (line 43), and `0` when the characters differ and `length == 0` (line 48). |
| `Kmp.FallbackStep` | algorithms.py:45-46 | On a mismatch with `length != 0`, `length = lps[length - 1]` is still a border of `pattern[..i]`. No border longer than it extends by `pattern[i]`, so the builder's loop invariant is kept. |
| `Kmp.ComputeLps` | algorithms.py:37-49 | Returns a newly allocated array of length `m` with `lps[0] == 0`. Each `lps[k]` is in `[0, k]` and is the length of the longest proper prefix of `pattern[..k+1]` that is also its suffix. Loop invariants: `length < i`, `pattern[..length] == pattern[i-length..i]`, and no longer border of `pattern[..i]` extends by `pattern[i]`. |
| `Kmp.FallbackIsSafe` | algorithms.py:58-60 | On a mismatch with `j > 0`, falling back to `j = lps[j-1]` with `i` unchanged keeps `text[i-j..i] == pattern[..j]`. It skips no offset at which the pattern occurs. |
| `Kmp.KmpSearch` | algorithms.py:32-63 | Returns the leftmost occurrence, or `-1` when there is none; `0` for the empty pattern; `-1` when the pattern is longer than the text. Scan invariant: `0 <= j < m`, `text[i-j..i] == pattern[..j]`, and no occurrence starts before `i - j`. |
| `RabinKarp.HashFirstChar` | algorithms.py:71-82 | The leading character of a window contributes `ord(c) * base^(m-1)` to its hash. This is the term that the rolling update removes with `h`. |
| `RabinKarp.AppendStepMod` | algorithms.py:74-76 | One step of the accumulation loop, reduced after the step, gives the reduced polynomial hash of the string extended by one character. |
| `RabinKarp.InitialHashes` | algorithms.py:72-76 | After the accumulation loop, `th` is the reduced hash of `text[..m]` and `ph` is the reduced hash of `pattern`. |
| `RabinKarp.RollStepMod` | algorithms.py:81-84 | The rolling update of the reduced hash of `text[s..s+m]` gives the reduced hash of `text[s+1..s+m+1]`. |
| `RabinKarp.RabinKarpSearch` | algorithms.py:65-85 | Returns the leftmost occurrence, or `-1` when there is none; `0` for the empty pattern; `-1` when the pattern is longer than the text. This holds for every base and every positive modulus, whatever hash collisions occur. Invariants: `ph` is the pattern's hash mod `mod`; at window `s`, `th` is that window's hash mod `mod` and lies in `[0, mod)`. |
| `Algorithms.Search` | algorithms.py:87-91 | Every registered search, run with its default configuration (base 256, modulus 1 000 000 007 for Rabin-Karp), returns the leftmost occurrence or `-1`. |
| `Algorithms.SearchAll` | benchmark.py:44-46 | Running every registered search on one input gives the same result from each. That result is `-1` iff the pattern occurs nowhere; otherwise it is an occurrence with none to its left. |

## Left out

- benchmark.py is not modelled, except for its loop over the registry (`Algorithms.SearchAll`). It reads files, times calls with `timeit`, averages floats, picks winners and writes CSV and Markdown; none of that is search logic.
- Running time is not modelled: O(n·m), O(n + m) and the sub-linear skips are not proved. Termination and functional correctness are proved.
- The internals of Python `dict` hashing are not modelled. The table is an abstract `map<char, int>`.
- RabinKarp.RabinKarpSearch requires `mod > 0`. With `mod == 0`, Python's three-argument `pow` raises an error. A negative modulus is not modelled. Python accepts one: its `pow` and `%` then give residues in `(mod, 0]`, and line 84 adds `mod` to a negative `th`, taking `th` out of the range `ph` lies in. So later windows can be missed; for instance `rabin_karp("ab", "b", mod=-5)` returns `-1`, not `1`. The code does not validate `base` or `mod` (for example primality), and neither does the model.
- Machine-word overflow does not arise: Python integers are unbounded, and so are the model's.
- Python strings may contain lone surrogate code points. Dafny's `char` cannot hold them, so such strings are not modelled.
- Algorithms.Search: the registry in the source maps names to callables. The model maps names to a datatype tag, and Rabin-Karp always runs with its default base and modulus.

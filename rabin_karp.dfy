/** Rabin-Karp search: a polynomial rolling hash of each text window,
    compared with the pattern's hash, and every hash hit confirmed by direct
    comparison. */
module RabinKarp {
  import opened SearchSpec

  /** The default radix of the polynomial hash. */
  const DefaultBase := 256
  /** The default modulus of the polynomial hash. */
  const DefaultModulus := 1_000_000_007

  /** The code point of a character. */
  function Ord(c: char): int
  {
    c as int
  }

  function Pow(b: int, e: nat): int
  {
    if e == 0 then 1 else b * Pow(b, e - 1)
  }

  /** The unreduced polynomial hash of `s` in radix `base`:
      `s[0] * base^(|s|-1) + ... + s[|s|-1] * base^0`. */
  function Hash(s: string, base: int): int
  {
    if |s| == 0 then 0 else Hash(s[..|s| - 1], base) * base + Ord(s[|s| - 1])
  }

  /** The hash splits at the first character: its term carries the highest
      power, the rest of the string is hashed on its own. */
  lemma {:induction false} HashFirstChar(s: string, base: int)
    requires |s| > 0
    ensures Hash(s, base) == Ord(s[0]) * Pow(base, |s| - 1) + Hash(s[1..], base)
    decreases |s|
  {
    if |s| > 1 {
      var init := s[..|s| - 1];
      HashFirstChar(init, base);
      assert init[1..] == s[1..][..|s| - 2];
      assert init[0] == s[0];
      Regroup(Ord(s[0]), Pow(base, |s| - 2), Hash(init[1..], base), base, Ord(s[|s| - 1]));
    } else {
      assert s[..0] == [] && s[1..] == [];
    }
  }

  lemma Regroup(c: int, p: int, rest: int, base: int, d: int)
    ensures (c * p + rest) * base + d == c * (base * p) + (rest * base + d)
  {
  }

  /** Euclidean division by a positive modulus is unique. */
  lemma ModUnique(a: int, q: int, r: int, mod: int)
    requires mod > 0 && 0 <= r < mod && a == q * mod + r
    ensures a % mod == r
  {
    var d := q - a / mod;
    assert d * mod == a % mod - r;
  }

  /** Adding a multiple of the modulus does not change the residue. */
  lemma ModAddMultiple(x: int, k: int, mod: int)
    requires mod > 0
    ensures (x + k * mod) % mod == x % mod
  {
    ModUnique(x + k * mod, x / mod + k, x % mod, mod);
  }

  /** Reducing the running hash before the next step of the accumulation
      loop gives the residue of the unreduced hash. */
  lemma AppendStepMod(s: string, c: char, base: int, mod: int)
    requires mod > 0
    ensures ((Hash(s, base) % mod) * base + Ord(c)) % mod == Hash(s + [c], base) % mod
  {
    var h := Hash(s, base);
    assert (s + [c])[..|s|] == s;
    assert Hash(s + [c], base) == h * base + Ord(c);
    assert h * base == (h % mod) * base + ((h / mod) * base) * mod;
    ModAddMultiple((h % mod) * base + Ord(c), (h / mod) * base, mod);
  }

  /** The arithmetic of one roll: if the window hash `hw` is the leading
      term `c * p` plus the rest, then removing `c * h` from the reduced
      hash, with `h` the reduced power, shifting and adding `d` gives the
      residue of `rest * base + d`. */
  lemma RollArithmetic(hw: int, c: int, p: int, rest: int, base: int, d: int, mod: int, h: int)
    requires mod > 0 && hw == c * p + rest && h == p % mod
    ensures ((hw % mod - c * h) * base + d) % mod == (rest * base + d) % mod
  {
    var q1, q2 := hw / mod, p / mod;
    assert hw % mod == hw - q1 * mod;
    assert h == p - q2 * mod;
    var k := c * q2 - q1;
    assert c * h == c * p - (c * q2) * mod;
    assert hw % mod - c * h == rest + k * mod;
    assert (rest + k * mod) * base + d == rest * base + d + (k * base) * mod;
    ModAddMultiple(rest * base + d, k * base, mod);
  }

  /** Rolling the reduced window hash one position to the right: removing
      the leading character with the reduced power `h`, shifting and adding
      the entering character gives the residue of the next window's hash. */
  lemma RollStepMod(text: string, s: int, m: int, base: int, mod: int, h: int)
    requires mod > 0 && 0 < m && 0 <= s && s + m < |text|
    requires h == Pow(base, m - 1) % mod
    ensures ((Hash(text[s..s + m], base) % mod - Ord(text[s]) * h) * base + Ord(text[s + m])) % mod
         == Hash(text[s + 1..s + m + 1], base) % mod
  {
    var w, w' := text[s..s + m], text[s + 1..s + m + 1];
    HashFirstChar(w, base);
    assert w[1..] == w'[..m - 1];
    assert w'[m - 1] == text[s + m];
    RollArithmetic(Hash(w, base), Ord(text[s]), Pow(base, m - 1), Hash(w[1..], base), base, Ord(text[s + m]), mod, h);
  }

  /** Hashes the first window of the text and the pattern together, one
      character at a time, reducing after every step. */
  method InitialHashes(text: string, pattern: string, base: int, mod: int) returns (th: int, ph: int)
    requires mod > 0 && |pattern| <= |text|
    ensures th == Hash(text[..|pattern|], base) % mod
    ensures ph == Hash(pattern, base) % mod
  {
    th, ph := 0, 0;
    for i := 0 to |pattern|
      invariant th == Hash(text[..i], base) % mod
      invariant ph == Hash(pattern[..i], base) % mod
    {
      AppendStepMod(text[..i], text[i], base, mod);
      AppendStepMod(pattern[..i], pattern[i], base, mod);
      assert text[..i + 1] == text[..i] + [text[i]];
      assert pattern[..i + 1] == pattern[..i] + [pattern[i]];
      th := (th * base + Ord(text[i])) % mod;
      ph := (ph * base + Ord(pattern[i])) % mod;
    }
    assert pattern[..|pattern|] == pattern;
  }

  /** Rabin-Karp with radix `base` and modulus `mod`: returns the offset of
      the leftmost occurrence, 0 for the empty pattern, -1 when there is
      none. A positive modulus is what the modular power needs. */
  method RabinKarpSearch(text: string, pattern: string, base: int, mod: int) returns (r: int)
    requires mod > 0
    ensures |pattern| == 0 ==> r == 0
    ensures |pattern| > |text| ==> r == NotFound
    ensures r == FirstOccurrence(text, pattern)
  {
    var n, m := |text|, |pattern|;
    if m == 0 {
      EdgeCases(text, pattern);
      return 0;
    }
    if m > n {
      EdgeCases(text, pattern);
      return NotFound;
    }
    var h := Pow(base, m - 1) % mod;
    var th, ph := InitialHashes(text, pattern, base, mod);
    assert text[..m] == text[0..0 + m];
    for s := 0 to n - m + 1
      invariant 0 <= th < mod
      invariant s <= n - m ==> th == Hash(text[s..s + m], base) % mod
      invariant ph == Hash(pattern, base) % mod
      invariant NoOccurrenceIn(text, pattern, 0, s)
    {
      if th == ph {
        if text[s..s + m] == pattern {
          LeftmostOccurrenceIsFirst(text, pattern, s);
          return s;
        }
      }
      if s < n - m {
        RollStepMod(text, s, m, base, mod, h);
        th := ((th - Ord(text[s]) * h) * base + Ord(text[s + m])) % mod;
        assert th == Hash(text[s + 1..s + 1 + m], base) % mod;
        // `%` by a positive modulus is never negative: the branch below is dead.
        assert 0 <= th;
        if th < 0 {
          th := th + mod;
        }
      }
    }
    AbsentPatternIsNotFound(text, pattern);
    return NotFound;
  }
}

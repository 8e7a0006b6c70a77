/**
 * Rabin-Karp substring search (`rabin_karp` in search_algo_comparision.py):
 * a base-256 polynomial hash modulo the prime 101, rolled from one window
 * of the text to the next, with an exact comparison on every hash hit.
 *
 * The source reduces with Python's `%`, which for the positive modulus 101
 * yields the same value as Dafny's `%` on every integer, negative ones
 * included.
 */
module RabinKarpSearch {

  import opened Occurrence

  /** Number of characters in the input alphabet. */
  const Base := 256
  /** The modulus of every hash value. */
  const Prime := 101

  /** The code point of a unit, Python's `ord`. */
  function Ord(c: char): nat
  {
    c as int
  }

  function Pow(b: nat, e: nat): nat
  {
    if e == 0 then 1 else b * Pow(b, e - 1)
  }

  /** The exact value of `s` read as a number in radix `Base`, first unit most significant. */
  function Poly(s: string): nat
  {
    if |s| == 0 then 0 else Base * Poly(s[..|s| - 1]) + Ord(s[|s| - 1])
  }

  /**
   * The hash of `s` computed from scratch, one unit at a time with a
   * reduction after each step, as the source's initial loop does.
   */
  function Hash(s: string): (r: int)
    ensures 0 <= r < Prime
  {
    if |s| == 0 then 0 else (Base * Hash(s[..|s| - 1]) + Ord(s[|s| - 1])) % Prime
  }

  /** Adding a multiple of the modulus does not change a residue. */
  lemma ModAddMultiple(k: int, y: int)
    ensures (k * Prime + y) % Prime == y % Prime
  {
  }

  /** The incremental hash is the polynomial value reduced once. */
  lemma {:induction false} HashIsPolyMod(s: string)
    ensures Hash(s) == Poly(s) % Prime
  {
    if |s| > 0 {
      var init := s[..|s| - 1];
      HashIsPolyMod(init);
      var x := Poly(init);
      ModAddMultiple(Base * (x / Prime), Base * (x % Prime) + Ord(s[|s| - 1]));
    }
  }

  lemma Regroup(a: int, w: int, r: int, e: int)
    ensures Base * (a * w + r) + e == a * (Base * w) + (Base * r + e)
  {
  }

  /** Removing the first unit of `s` subtracts its weighted contribution. */
  lemma {:induction false} PolyDropFirst(s: string)
    requires |s| > 0
    ensures Poly(s) == Ord(s[0]) * Pow(Base, |s| - 1) + Poly(s[1..])
  {
    if |s| > 1 {
      var init, tail := s[..|s| - 1], s[1..];
      PolyDropFirst(init);
      assert init[1..] == tail[..|tail| - 1];
      var a, e := Ord(s[0]), Ord(s[|s| - 1]);
      var w, r := Pow(Base, |s| - 2), Poly(init[1..]);
      assert Poly(init) == a * w + r;
      assert Poly(tail) == Base * r + e;
      assert Pow(Base, |s| - 1) == Base * w;
      Regroup(a, w, r, e);
    }
  }

  /** The exact polynomial of the next window, from that of the current one. */
  lemma PolyRoll(text: string, i: int, m: int)
    requires 0 <= i && 1 <= m && i + m < |text|
    ensures Poly(text[i + 1..i + 1 + m])
              == Base * (Poly(text[i..i + m]) - Ord(text[i]) * Pow(Base, m - 1)) + Ord(text[i + m])
  {
    var w, w' := text[i..i + m], text[i + 1..i + 1 + m];
    PolyDropFirst(w);
    assert w'[..m - 1] == w[1..];
  }

  /** Reducing a factor before multiplying does not change the residue. */
  lemma ModMulFactor(c: int, y: int)
    ensures (c * (y % Prime)) % Prime == (c * y) % Prime
  {
    var q := y / Prime;
    assert c * y == c * (Prime * q + y % Prime);
    assert c * y == (c * q) * Prime + c * (y % Prime);
    ModAddMultiple(c * q, c * (y % Prime));
  }

  /**
   * The rolling update on residues agrees with the update on exact values:
   * the current hash and the weight may be reduced first, and the final
   * `+ Prime` normalisation changes nothing.
   */
  lemma ModRoll(x: int, y: int, c: int, d: int)
    ensures ((Base * (x % Prime - c * (y % Prime)) + d) % Prime + Prime) % Prime
              == (Base * (x - c * y) + d) % Prime
  {
    var cy := c * (y % Prime);
    ModMulFactor(c, y);
    var k := (c * y) / Prime - cy / Prime;
    assert cy == c * y - k * Prime - (c * y) % Prime + cy % Prime;
    assert cy == c * y - k * Prime;
    var qx := x / Prime;
    assert Base * (x % Prime - cy) + d == (Base * (k - qx)) * Prime + (Base * (x - c * y) + d);
    ModAddMultiple(Base * (k - qx), Base * (x - c * y) + d);
  }

  /**
   * The source's rolling update, applied to the hash of the window at `i`
   * and to `h`, the reduced weight of the leaving unit, yields the hash of
   * the window at `i + 1` computed from scratch.
   */
  lemma RollingHashUpdate(text: string, i: int, m: int, h: int)
    requires 0 <= i && 1 <= m && i + m < |text|
    requires h == Pow(Base, m - 1) % Prime
    ensures ((Base * (Hash(text[i..i + m]) - Ord(text[i]) * h) + Ord(text[i + m])) % Prime + Prime) % Prime
              == Hash(text[i + 1..i + 1 + m])
  {
    HashIsPolyMod(text[i..i + m]);
    HashIsPolyMod(text[i + 1..i + 1 + m]);
    PolyRoll(text, i, m);
    ModRoll(Poly(text[i..i + m]), Pow(Base, m - 1), Ord(text[i]), Ord(text[i + m]));
  }

  /** One step of the loop that computes `h`. */
  lemma PowStep(k: nat)
    ensures ((Pow(Base, k) % Prime) * Base) % Prime == Pow(Base, k + 1) % Prime
  {
    ModMulFactor(Base, Pow(Base, k));
  }

  /**
   * The first phase of the matcher: `h`, the weight of the unit that leaves
   * a window of `m` units, reduced modulo the prime.
   */
  method LeavingWeight(m: nat) returns (h: int)
    requires m >= 1
    ensures h == Pow(Base, m - 1) % Prime
    ensures 0 <= h < Prime
  {
    h := 1;
    for k := 0 to m - 1
      invariant h == Pow(Base, k) % Prime
    {
      PowStep(k);
      h := (h * Base) % Prime;
    }
  }

  /**
   * The second phase: the hashes of the pattern and of the first window of
   * the text, accumulated side by side in Horner's fashion.
   */
  method InitialHashes(text: string, pattern: string) returns (patternHash: int, textHash: int)
    requires |pattern| <= |text|
    ensures patternHash == Hash(pattern)
    ensures textHash == Hash(text[0..|pattern|])
  {
    patternHash, textHash := 0, 0;
    for k := 0 to |pattern|
      invariant patternHash == Hash(pattern[..k])
      invariant textHash == Hash(text[..k])
    {
      assert pattern[..k + 1][..k] == pattern[..k];
      assert text[..k + 1][..k] == text[..k];
      patternHash := (Base * patternHash + Ord(pattern[k])) % Prime;
      textHash := (Base * textHash + Ord(text[k])) % Prime;
    }
    assert pattern[..|pattern|] == pattern;
    assert text[..|pattern|] == text[0..|pattern|];
  }

  /**
   * The matcher returns true exactly when the pattern occurs in the text.
   * It returns true only after comparing the whole window with the pattern,
   * so a hash collision never yields a false positive; and it never misses
   * an occurrence, because the rolling hash always equals the hash of the
   * current window.
   */
  method RabinKarp(text: string, pattern: string) returns (found: bool)
    ensures found == Occurs(text, pattern)
  {
    if |pattern| == 0 {
      EmptyPatternOccurs(text);
      return true;
    }
    if |pattern| > |text| {
      return false;
    }

    var m, n := |pattern|, |text|;
    var h := LeavingWeight(m);
    var patternHash, textHash := InitialHashes(text, pattern);

    for i := 0 to n - m + 1
      invariant i <= n - m ==> textHash == Hash(text[i..i + m])
      invariant forall k :: 0 <= k < i ==> !MatchAt(text, pattern, k)
    {
      if patternHash == textHash {
        if text[i..i + m] == pattern {
          assert MatchAt(text, pattern, i);
          return true;
        }
      }
      if i < n - m {
        textHash := (Base * (textHash - Ord(text[i]) * h) + Ord(text[i + m])) % Prime;
        textHash := (textHash + Prime) % Prime;  // the source's "ensure positive"
        RollingHashUpdate(text, i, m, h);
      }
    }
    return false;
  }

}

/**
 * Boyer-Moore substring search with the bad-character rule only
 * (`boyer_moore` in search_algo_comparision.py).
 */
module BoyerMooreSearch {

  import opened Occurrence

  function Max(a: int, b: int): int
  {
    if a < b then b else a
  }

  /** Rightmost index of `c` in `p`, or -1 when `c` does not occur in `p`. */
  function LastIndex(p: string, c: char): (r: int)
    ensures -1 <= r < |p|
    ensures r >= 0 ==> p[r] == c
    ensures r < 0 <==> c !in p
    ensures forall k :: r < k < |p| ==> p[k] != c
  {
    if |p| == 0 then -1
    else if p[|p| - 1] == c then |p| - 1
    else
      assert p == p[..|p| - 1] + [p[|p| - 1]];
      LastIndex(p[..|p| - 1], c)
  }

  /** The dictionary lookup `bad_char.get(c, -1)`. */
  function Get(badChar: map<char, int>, c: char): int
  {
    if c in badChar then badChar[c] else -1
  }

  /**
   * The bad-character table: later occurrences overwrite earlier ones, so
   * every unit of the pattern is mapped to its rightmost index and no other
   * unit is mapped at all.
   */
  method BadCharTable(pattern: string) returns (badChar: map<char, int>)
    ensures forall c :: c in badChar <==> c in pattern
    ensures forall c :: Get(badChar, c) == LastIndex(pattern, c)
  {
    badChar := map[];
    for i := 0 to |pattern|
      invariant forall c :: c in badChar <==> c in pattern[..i]
      invariant forall c :: Get(badChar, c) == LastIndex(pattern[..i], c)
    {
      assert pattern[..i + 1] == pattern[..i] + [pattern[i]];
      assert pattern[..i + 1][..i] == pattern[..i];
      badChar := badChar[pattern[i] := i];
    }
    assert pattern[..|pattern|] == pattern;
  }

  /**
   * The shift taken after a mismatch at pattern index `j` of the window at
   * `s` is at least one, and no window it jumps over (nor the window at `s`
   * itself) matches.
   */
  lemma BadCharShiftIsSafe(text: string, pattern: string, s: int, j: int)
    requires 0 <= s <= |text| - |pattern|
    requires 0 <= j < |pattern|
    requires pattern[j] != text[s + j]
    ensures Max(1, j - LastIndex(pattern, text[s + j])) >= 1
    ensures forall k :: s <= k < s + Max(1, j - LastIndex(pattern, text[s + j])) ==>
              !MatchAt(text, pattern, k)
  {
    var c := text[s + j];
    var lo := LastIndex(pattern, c);
    var shift := Max(1, j - lo);
    forall k | s <= k < s + shift
      ensures !MatchAt(text, pattern, k)
    {
      // pattern index j - (k - s) sits over text[s + j]; it is j itself or
      // lies strictly between the rightmost occurrence of c and j
      var t := j - (k - s);
      assert 0 <= t < |pattern| && pattern[t] != text[k + t];
      if k <= |text| - |pattern| {
        MatchAtPointwise(text, pattern, k);
      }
    }
  }

  /**
   * The matcher returns true exactly when the pattern occurs in the text;
   * the empty pattern and a pattern longer than the text are answered
   * before any table is built.
   */
  method BoyerMoore(text: string, pattern: string) returns (found: bool)
    ensures found == Occurs(text, pattern)
  {
    if |pattern| == 0 {
      EmptyPatternOccurs(text);
      return true;
    }
    if |pattern| > |text| {
      return false;
    }

    var badChar := BadCharTable(pattern);

    var s := 0;
    while s <= |text| - |pattern|
      invariant 0 <= s
      invariant forall k :: 0 <= k < s ==> !MatchAt(text, pattern, k)
      decreases |text| - s
    {
      var j := |pattern| - 1;
      while j >= 0 && pattern[j] == text[s + j]
        invariant -1 <= j < |pattern|
        invariant forall t :: j < t < |pattern| ==> pattern[t] == text[s + t]
      {
        j := j - 1;
      }
      if j < 0 {
        MatchAtPointwise(text, pattern, s);
        return true;
      }
      BadCharShiftIsSafe(text, pattern, s, j);
      s := s + Max(1, j - Get(badChar, text[s + j]));
    }
    return false;
  }

}

/**
 * Knuth-Morris-Pratt substring search (`knuth_morris_pratt` in
 * search_algo_comparision.py): a longest-prefix-suffix (LPS) table built
 * from the pattern, then a left-to-right scan of the text.
 */
module KmpSearch {

  import opened Occurrence

  /**
   * `p[..b]` is a proper prefix of `p[..q]` that is also a suffix of it
   * (a border of `p[..q]`), stated unit by unit.
   */
  predicate IsBorder(p: string, q: int, b: int)
  {
    0 <= b < q <= |p| && forall t :: 0 <= t < b ==> p[t] == p[q - b + t]
  }

  /** No border of `p[..q]` is longer than `lo`. */
  predicate NoBorderAbove(p: string, q: int, lo: int)
  {
    forall b :: lo < b < q ==> !IsBorder(p, q, b)
  }

  /** `b` is the length of the longest border of `p[..q]`. */
  predicate IsLongestBorder(p: string, q: int, b: int)
  {
    IsBorder(p, q, b) && NoBorderAbove(p, q, b)
  }

  /** `lps[i]` is the length of the longest border of `p[..i + 1]`, for every `i`. */
  predicate IsLpsTable(p: string, lps: seq<int>)
  {
    |lps| == |p| && forall i :: 0 <= i < |p| ==> IsLongestBorder(p, i + 1, lps[i])
  }

  /** The unit-by-unit border is the slice equation `p[..b] == p[q - b..q]`. */
  lemma BorderAsSlices(p: string, q: int, b: int)
    requires 0 <= b < q <= |p|
    ensures IsBorder(p, q, b) <==> p[..b] == p[q - b..q]
  {
    if p[..b] == p[q - b..q] {
      forall t | 0 <= t < b
        ensures p[t] == p[q - b + t]
      {
        assert p[..b][t] == p[q - b..q][t];
      }
    }
  }

  /** A longest border is unique, so the LPS table of a pattern is too. */
  lemma LpsTableUnique(p: string, a: seq<int>, b: seq<int>)
    requires IsLpsTable(p, a) && IsLpsTable(p, b)
    ensures a == b
  {
    forall i | 0 <= i < |p|
      ensures a[i] == b[i]
    {
      assert IsLongestBorder(p, i + 1, a[i]) && IsLongestBorder(p, i + 1, b[i]);
    }
  }

  /** A border of a border of `p[..q]` is a border of `p[..q]`. */
  lemma BorderTransitive(p: string, q: int, b: int, c: int)
    requires IsBorder(p, q, b) && IsBorder(p, b, c)
    ensures IsBorder(p, q, c)
  {
    forall t | 0 <= t < c
      ensures p[t] == p[q - c + t]
    {
      assert p[t] == p[b - c + t];
      assert p[b - c + t] == p[q - b + (b - c + t)];
    }
  }

  /** A shorter border of `p[..q]` is a border of every longer one. */
  lemma BorderOfBorder(p: string, q: int, b: int, c: int)
    requires IsBorder(p, q, b) && IsBorder(p, q, c) && c < b
    ensures IsBorder(p, b, c)
  {
    forall t | 0 <= t < c
      ensures p[t] == p[b - c + t]
    {
      assert p[t] == p[q - c + t];
      assert p[b - c + t] == p[q - b + (b - c + t)];
    }
  }

  /** A non-empty border of `p[..q + 1]` is a border of `p[..q]` extended by `p[q]`. */
  lemma BorderExtension(p: string, q: int, b: int)
    requires 0 <= b < q < |p|
    ensures IsBorder(p, q + 1, b + 1) <==> IsBorder(p, q, b) && p[b] == p[q]
  {
    if IsBorder(p, q + 1, b + 1) {
      assert p[b] == p[q + 1 - (b + 1) + b];
      forall t | 0 <= t < b
        ensures p[t] == p[q - b + t]
      {
        assert p[t] == p[q + 1 - (b + 1) + t];
      }
    }
  }

  /**
   * While building entry `i`: every border of `p[..i + 1]` longer than one
   * comes from a border of `p[..i]`, so if `j` is the longest border of
   * `p[..i]` no border of `p[..i + 1]` is longer than `j + 1`.
   */
  lemma NoLongerBorderThanExtension(p: string, i: int, j: int)
    requires i < |p| && IsLongestBorder(p, i, j)
    ensures NoBorderAbove(p, i + 1, j + 1)
  {
    var q := i + 1;
    forall b | j + 1 < b < q
      ensures !IsBorder(p, q, b)
    {
      BorderExtension(p, i, b - 1);
    }
  }

  /**
   * One fallback `j := lps[j - 1]` of the inner loop: the new `j` is still a
   * border of `p[..i]`, and no border of `p[..i + 1]` longer than its
   * extension was skipped.
   */
  lemma FallbackKeepsCandidates(p: string, i: int, j: int, j': int)
    requires 0 < j < i < |p|
    requires IsBorder(p, i, j) && p[i] != p[j]
    requires NoBorderAbove(p, i + 1, j + 1)
    requires IsLongestBorder(p, j, j')
    ensures IsBorder(p, i, j')
    ensures NoBorderAbove(p, i + 1, j' + 1)
  {
    BorderTransitive(p, i, j, j');
    var q := i + 1;
    forall b | j' + 1 < b < q
      ensures !IsBorder(p, q, b)
    {
      BorderExtension(p, i, b - 1);
      if b <= j && IsBorder(p, i, b - 1) {
        BorderOfBorder(p, i, j, b - 1);
      }
    }
  }

  /**
   * Closing entry `i`: after the fallbacks, `j + 1` is the longest border of
   * `p[..i + 1]` when `p[i] == p[j]`, and 0 is otherwise (then `j` is 0).
   */
  lemma EntryIsLongest(p: string, i: int, j: int)
    requires 0 <= j < i < |p|
    requires IsBorder(p, i, j)
    requires NoBorderAbove(p, i + 1, j + 1)
    requires j == 0 || p[i] == p[j]
    ensures IsLongestBorder(p, i + 1, if p[i] == p[j] then j + 1 else 0)
  {
    BorderExtension(p, i, j);
  }

  /**
   * The LPS construction: `lps[0] == 0`, every entry lies in `0..i`, and
   * entry `i` is the length of the longest proper prefix of
   * `pattern[..i + 1]` that is also a suffix of it. The pattern is non-empty
   * because the matcher answers the empty pattern before building the table.
   */
  method ComputeLps(pattern: string) returns (lps: seq<int>)
    requires |pattern| > 0
    ensures IsLpsTable(pattern, lps)
    ensures lps[0] == 0
    ensures forall i :: 0 <= i < |lps| ==> 0 <= lps[i] <= i
  {
    var table := new int[|pattern|](_ => 0);
    var j := 0;
    for i := 1 to |pattern|
      invariant 0 <= j < i
      invariant j == table[i - 1]
      invariant forall k :: 0 <= k < i ==> IsLongestBorder(pattern, k + 1, table[k])
      invariant forall k :: i <= k < |pattern| ==> table[k] == 0
    {
      NoLongerBorderThanExtension(pattern, i, j);
      ghost var built := table[..];
      while j > 0 && pattern[i] != pattern[j]
        invariant table[..] == built
        invariant 0 <= j < i
        invariant IsBorder(pattern, i, j)
        invariant NoBorderAbove(pattern, i + 1, j + 1)
        decreases j
      {
        var fallback := table[j - 1];
        FallbackKeepsCandidates(pattern, i, j, fallback);
        j := fallback;
      }
      EntryIsLongest(pattern, i, j);
      if pattern[i] == pattern[j] {
        j := j + 1;
        table[i] := j;
      }
    }
    lps := table[..];
  }

  /**
   * After a mismatch `text[i] != pattern[j]` with `j > 0`, falling back to
   * `j'`, the longest border of `pattern[..j]`, skips only windows that do
   * not match, and the text still agrees with `pattern[..j']` just before `i`.
   */
  lemma FallbackSkipsNoMatch(text: string, pattern: string, i: int, j: int, j': int)
    requires 0 < j < |pattern| && j <= i < |text|
    requires forall t :: 0 <= t < j ==> text[i - j + t] == pattern[t]
    requires text[i] != pattern[j]
    requires IsLongestBorder(pattern, j, j')
    ensures forall k :: i - j <= k < i - j' ==> !MatchAt(text, pattern, k)
    ensures forall t :: 0 <= t < j' ==> text[i - j' + t] == pattern[t]
  {
    forall t | 0 <= t < j'
      ensures text[i - j' + t] == pattern[t]
    {
      assert text[i - j + (j - j' + t)] == pattern[j - j' + t];
    }
    forall k | i - j <= k < i - j'
      ensures !MatchAt(text, pattern, k)
    {
      if k == i - j {
        assert text[k + j] != pattern[j];
        if k <= |text| - |pattern| {
          MatchAtPointwise(text, pattern, k);
        }
      } else if MatchAt(text, pattern, k) {
        MatchBeforeCursorIsBorder(text, pattern, i, j, k);
      }
    }
  }

  /**
   * A matching window that starts inside the agreeing stretch
   * `text[i - j..i]` makes `pattern[..i - k]` a border of `pattern[..j]`.
   */
  lemma MatchBeforeCursorIsBorder(text: string, pattern: string, i: int, j: int, k: int)
    requires 0 < j < |pattern| && j <= i < |text|
    requires forall t :: 0 <= t < j ==> text[i - j + t] == pattern[t]
    requires i - j < k <= i && MatchAt(text, pattern, k)
    ensures IsBorder(pattern, j, i - k)
  {
    MatchAtPointwise(text, pattern, k);
    var b := i - k;
    forall t | 0 <= t < b
      ensures pattern[t] == pattern[j - b + t]
    {
      assert text[k + t] == pattern[t];
      assert text[i - j + (j - b + t)] == pattern[j - b + t];
    }
  }

  /**
   * The matcher returns true exactly when the pattern occurs in the text.
   * At the loop head `j < |pattern|`, the text just before `i` agrees with
   * `pattern[..j]`, and no window starting before `i - j` matches.
   */
  method KnuthMorrisPratt(text: string, pattern: string) returns (found: bool)
    ensures found == Occurs(text, pattern)
  {
    if |pattern| == 0 {
      EmptyPatternOccurs(text);
      return true;
    }
    if |pattern| > |text| {
      return false;
    }

    var lps := ComputeLps(pattern);

    var i, j := 0, 0;
    while i < |text|
      invariant 0 <= j < |pattern|
      invariant j <= i <= |text|
      invariant forall t :: 0 <= t < j ==> text[i - j + t] == pattern[t]
      invariant forall k :: 0 <= k < i - j ==> !MatchAt(text, pattern, k)
      decreases |text| - i, j
    {
      if text[i] == pattern[j] {
        i := i + 1;
        j := j + 1;
        if j == |pattern| {
          MatchAtPointwise(text, pattern, i - j);
          return true;
        }
      } else {
        if j > 0 {
          FallbackSkipsNoMatch(text, pattern, i, j, lps[j - 1]);
          j := lps[j - 1];
        } else {
          i := i + 1;
        }
      }
    }
    return false;
  }

}

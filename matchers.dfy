/**
 * The three matchers side by side, as the benchmark in
 * search_algo_comparision.py runs them on the same text and pattern, and
 * the fixtures it runs them on. The timing itself is not modelled.
 */
module Matchers {

  import opened Occurrence
  import BoyerMooreSearch
  import KmpSearch
  import RabinKarpSearch

  /** All three matchers give the same answer, and that answer is whether the pattern occurs. */
  method RunAll(text: string, pattern: string) returns (bm: bool, kmp: bool, rk: bool)
    ensures bm == kmp == rk == Occurs(text, pattern)
  {
    bm := BoyerMooreSearch.BoyerMoore(text, pattern);
    kmp := KmpSearch.KnuthMorrisPratt(text, pattern);
    rk := RabinKarpSearch.RabinKarp(text, pattern);
  }

  // The benchmark's two sample texts, written around the patterns they contain.
  const Text1 := "This is a sample text for " + "substring" + " search. This text is for testing the algorithms."
  const Text2 := "Another " + "example" + " text to test substring search algorithms."

  // The benchmark's large text: 21 copies of "abc", repeated 100 times.
  const LargeUnit := "abcabc" + "abcabcabcabcabcabcabcabcabcabcabcabcabcabcabcabcabcabcabc"

  /** `n` copies of `s`, one after another. */
  function Repeat(s: string, n: nat): (r: string)
    ensures |r| == n * |s|
  {
    if n == 0 then [] else s + Repeat(s, n - 1)
  }

  /**
   * The benchmark's patterns that exist do occur in its texts, the large
   * text starts with both of its patterns, "randompattern" does not occur in
   * the second text (it has a 'd', the text none), "abc" occurs at position
   * 0 of "abcabcabcabc" while "xyz" does not occur in it, "a" does not occur
   * in the empty text, and the empty pattern occurs in "a".
   */
  lemma BenchmarkFixtures()
    ensures Occurs(Text1, "substring")
    ensures Occurs(Text2, "example")
    ensures !Occurs(Text2, "randompattern")
    ensures MatchAt(Repeat(LargeUnit, 100), "abcabc", 0) && Occurs(Repeat(LargeUnit, 100), "abcabc")
    ensures MatchAt(Repeat(LargeUnit, 100), "abc", 0) && Occurs(Repeat(LargeUnit, 100), "abc")
    ensures MatchAt("abcabcabcabc", "abc", 0) && Occurs("abcabcabcabc", "abc")
    ensures !Occurs("abcabcabcabc", "xyz")
    ensures !Occurs("", "a") && Occurs("a", "")
  {
    MatchBetween("This is a sample text for ", "substring",
                 " search. This text is for testing the algorithms.");
    MatchBetween("Another ", "example", " text to test substring search algorithms.");
    assert 'd' !in Text2;
    assert 'd' in "randompattern";
    AbsentUnitNeverOccurs(Text2, "randompattern", 'd');
    var rest := LargeUnit[6..] + Repeat(LargeUnit, 99);
    assert Repeat(LargeUnit, 100) == [] + "abcabc" + rest;
    MatchBetween([], "abcabc", rest);
    assert Repeat(LargeUnit, 100) == [] + "abc" + ("abc" + rest);
    MatchBetween([], "abc", "abc" + rest);
    assert MatchAt("abcabcabcabc", "abc", 0);
    AbsentUnitNeverOccurs("abcabcabcabc", "xyz", 'x');
    EmptyPatternOccurs("a");
  }

  /** The LPS table of "aabaaab" is [0, 1, 0, 1, 2, 2, 3]. */
  lemma LpsOfAabaaab()
    ensures KmpSearch.IsLpsTable("aabaaab", [0, 1, 0, 1, 2, 2, 3])
  {
    var p := "aabaaab";
    assert p[0] == 'a' && p[1] == 'a' && p[2] == 'b' && p[3] == 'a';
    assert p[4] == 'a' && p[5] == 'a' && p[6] == 'b';
  }

}

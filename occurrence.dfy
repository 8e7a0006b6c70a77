/**
 * The contract shared by the three substring matchers of
 * search_algo_comparision.py: a pattern occurs in a text when it equals
 * some contiguous slice of the text.
 */
module Occurrence {

  /** The window of `text` that starts at `k` is exactly `pattern`. */
  predicate MatchAt(text: string, pattern: string, k: int)
  {
    0 <= k <= |text| - |pattern| && text[k..k + |pattern|] == pattern
  }

  /** `pattern` occurs as a contiguous slice of `text`. */
  predicate Occurs(text: string, pattern: string)
  {
    exists k | 0 <= k <= |text| - |pattern| :: MatchAt(text, pattern, k)
  }

  /** A window matches exactly when it agrees with the pattern unit by unit. */
  lemma MatchAtPointwise(text: string, pattern: string, k: int)
    requires 0 <= k <= |text| - |pattern|
    ensures MatchAt(text, pattern, k) <==>
              forall t :: 0 <= t < |pattern| ==> text[k + t] == pattern[t]
  {
    if forall t :: 0 <= t < |pattern| ==> text[k + t] == pattern[t] {
      assert text[k..k + |pattern|] == pattern;
    }
  }

  /** A pattern occurs where it is placed between two strings. */
  lemma MatchBetween(before: string, pattern: string, after: string)
    ensures MatchAt(before + pattern + after, pattern, |before|)
  {
    assert (before + pattern + after)[|before|..|before| + |pattern|] == pattern;
  }

  /** The empty pattern occurs in every text, the empty text included. */
  lemma EmptyPatternOccurs(text: string)
    ensures Occurs(text, [])
  {
    assert MatchAt(text, [], 0);
  }

  /** A pattern longer than the text occurs nowhere in it. */
  lemma LongerPatternNeverOccurs(text: string, pattern: string)
    requires |pattern| > |text|
    ensures !Occurs(text, pattern)
  {
  }

  /** A pattern holding a unit that the text lacks cannot occur in it. */
  lemma AbsentUnitNeverOccurs(text: string, pattern: string, c: char)
    requires c in pattern && c !in text
    ensures !Occurs(text, pattern)
  {
    var t :| 0 <= t < |pattern| && pattern[t] == c;
    forall k | 0 <= k <= |text| - |pattern|
      ensures !MatchAt(text, pattern, k)
    {
      MatchAtPointwise(text, pattern, k);
      assert text[k + t] in text;
    }
  }

}

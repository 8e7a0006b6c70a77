# Substring search, a fixed-bucket hash table and an upper-bound binary search

This project models three small Python programs and proves what each one
promises.

- **search_algo_comparision.py** holds three substring matchers. Each
  returns whether `pattern` occurs in `text`:
  - Boyer-Moore with the bad-character rule only;
  - Knuth-Morris-Pratt with its longest-prefix-suffix (LPS) table;
  - Rabin-Karp with a base-256 rolling hash modulo 101.

  Each matcher is an imperative method whose loops carry invariants. All
  three are proved equal to one reference predicate, `Occurrence.Occurs`:
  the pattern equals some contiguous slice of the text. `Matchers.RunAll`
  states that the three agree, as the benchmark assumes. The benchmark's
  fixed inputs are stated as facts about `Occurs`.
- **t1_add_delete_to_hash_table.py** holds `HashTable`, an array of
  `size` slots. Each slot is empty or holds one `(key, value)` pair.
  `insert` writes into slot `hash(key) % size` and overwrites whatever is
  there (the table has no collision resolution). `delete` empties that
  slot only if it holds the same key. The model is a class over an
  `array`. Python's built-in `hash` becomes a function the constructor
  takes.
- **t2_bin_search_for_floats.py** holds `binary_search`. It returns the
  number of loop passes and the target if present. Otherwise it returns
  the first element above the target (the "upper bound"), or nothing. The
  loop is a method proved equal to `Bisect`, the recursion that the loop
  unrolls to. Lemmas about `Bisect` prove three things on sorted input:
  the result, which is the least element above the target when the
  target is absent; no passes exactly when the input is empty; and at
  most one pass more than log2 of the length.

Modules: `Options` (the `Option` datatype); `Occurrence` (the reference
predicate); `BoyerMooreSearch`, `KmpSearch` and `RabinKarpSearch` (one
matcher each); `Matchers` (the benchmark); `HashTables`;
`UpperBoundSearch`.

## Model

| member | source | states |
|---|---|---|
| Occurrence.EmptyPatternOccurs | search_algo_comparision.py:6-7 | the empty pattern occurs in every text, which is why every matcher returns True for it |
| Occurrence.LongerPatternNeverOccurs | search_algo_comparision.py:8-9 | a pattern longer than the text occurs nowhere, which is why every matcher returns False for it |
| Occurrence.AbsentUnitNeverOccurs | search_algo_comparision.py:122-123 | a pattern containing a character the text lacks does not occur in it (the benchmark's "not found" case) |
| BoyerMooreSearch.LastIndex | search_algo_comparision.py:12-14 | the value kept for a character is its rightmost index in the pattern: it holds that character, no later index holds it, and it is -1 exactly when the character is absent |
| BoyerMooreSearch.BadCharTable | search_algo_comparision.py:11-14 | the table's keys are exactly the pattern's characters, and `get(c, -1)` gives the rightmost index of `c`, or -1 |
| BoyerMooreSearch.Get | search_algo_comparision.py:23 | `bad_char.get(c, -1)`: the stored index, or -1 for a character without an entry; no contract of its own, `BadCharTable` ties it to `LastIndex` |
| BoyerMooreSearch.BadCharShiftIsSafe | search_algo_comparision.py:19-23 | after a mismatch at index `j`, the shift `max(1, j - bad_char.get(c, -1))` is at least 1, and none of the windows it skips matches |
| BoyerMooreSearch.BoyerMoore | search_algo_comparision.py:4-24 | `boyer_moore` returns True exactly when the pattern occurs in the text |
| KmpSearch.BorderAsSlices | search_algo_comparision.py:34 | an LPS entry, defined character by character, is the slice equation prefix == suffix |
| KmpSearch.LpsTableUnique | search_algo_comparision.py:34-42 | only one table meets the LPS definition, so the constructed table is "the" LPS table |
| KmpSearch.NoLongerBorderThanExtension | search_algo_comparision.py:37-38 | entry `i` can be at most one more than entry `i - 1` |
| KmpSearch.FallbackKeepsCandidates | search_algo_comparision.py:38-39 | one fallback `j = lps[j - 1]` keeps `j` a border of `pattern[:i]` and skips no longer candidate for entry `i` |
| KmpSearch.EntryIsLongest | search_algo_comparision.py:40-42 | after the fallbacks, entry `i` is `j + 1` when `pattern[i] == pattern[j]` and 0 otherwise, and that is the longest border |
| KmpSearch.ComputeLps | search_algo_comparision.py:34-42 | for every `i`, `lps[i]` is the length of the longest proper prefix of `pattern[:i + 1]` that is also a suffix of it; `lps[0] == 0`, and every entry lies in `0..i` |
| KmpSearch.FallbackSkipsNoMatch | search_algo_comparision.py:51-53 | on a text mismatch, falling back to `lps[j - 1]` skips only windows that do not match, and the text still agrees with the shorter prefix |
| KmpSearch.MatchBeforeCursorIsBorder | search_algo_comparision.py:51-53 | a match starting inside the stretch that already agrees with the pattern makes a border of the matched prefix |
| KmpSearch.KnuthMorrisPratt | search_algo_comparision.py:27-56 | `knuth_morris_pratt` returns True exactly when the pattern occurs in the text |
| RabinKarpSearch.Ord | search_algo_comparision.py:76-77 | Python's `ord`, the code point of a character (also at lines 85-86); no contract of its own |
| RabinKarpSearch.Hash | search_algo_comparision.py:75-77 | every hash value lies in `0..100` |
| RabinKarpSearch.HashIsPolyMod | search_algo_comparision.py:75-77 | the hash with a reduction after every step equals the window's base-256 value reduced once |
| RabinKarpSearch.PolyRoll | search_algo_comparision.py:84-86 | dropping the leading character and appending the next one changes the exact polynomial value as the rolling update does |
| RabinKarpSearch.ModRoll | search_algo_comparision.py:84-87 | reduction commutes with the rolling update, so the update may start from the reduced hash and the reduced weight `h` |
| RabinKarpSearch.RollingHashUpdate | search_algo_comparision.py:83-87 | the two-line update turns the hash of the window at `i` into the hash of the window at `i + 1`, computed from scratch |
| RabinKarpSearch.PowStep | search_algo_comparision.py:72-73 | one step of the loop for `h` turns `256^k mod 101` into `256^(k+1) mod 101` |
| RabinKarpSearch.LeavingWeight | search_algo_comparision.py:70-73 | `h` is `256^(m-1) mod 101`, the reduced weight of a window's leading character |
| RabinKarpSearch.InitialHashes | search_algo_comparision.py:68-77 | the two accumulators end as the hash of the pattern and the hash of the first window of the text |
| RabinKarpSearch.RabinKarp | search_algo_comparision.py:59-88 | `rabin_karp` returns True exactly when the pattern occurs in the text: a hash collision is caught by the slice comparison, and no occurrence is missed |
| Matchers.RunAll | search_algo_comparision.py:98-101 | the three matchers the benchmark times give the same answer on every input, namely whether the pattern occurs |
| Matchers.Repeat | search_algo_comparision.py:114 | `s * n` has length `n * len(s)` |
| Matchers.BenchmarkFixtures | search_algo_comparision.py:110-129 | "substring" occurs in `text1`; "example" occurs in `text2`; "randompattern" does not occur in `text2`; both large patterns occur at the start of `large_text` |
| Matchers.LpsOfAabaaab | search_algo_comparision.py:34-42 | a worked LPS table: "aabaaab" has table [0, 1, 0, 1, 2, 2, 3] |
| HashTables.HashTable.constructor | t1_add_delete_to_hash_table.py:2-5 | a new table has `size` slots, all empty; `size` defaults to 10, as in `HashTable()` |
| HashTables.HashTable.HashFunction | t1_add_delete_to_hash_table.py:7-9 | the slot index lies in `0..size-1` |
| HashTables.HashTable.Insert | t1_add_delete_to_hash_table.py:11-14 | the key's slot now holds `(key, value)`, whatever it held before; every other slot is unchanged |
| HashTables.HashTable.Delete | t1_add_delete_to_hash_table.py:16-22 | returns True exactly when the key's slot held an entry with that key, and then empties that slot; otherwise nothing changes |
| HashTables.HashTable.Length | t1_add_delete_to_hash_table.py:28-30 | `len` is the number of slots, the size given at construction |
| HashTables.InsertThenDelete | t1_add_delete_to_hash_table.py:11-22 | deleting a key just inserted succeeds and leaves its slot empty and every other slot as before |
| HashTables.TestHashTable | t1_add_delete_to_hash_table.py:35-45 | the test scenario, on any hash that puts "a" and "b" in different slots: deleting "a" succeeds, deleting "c" fails, ("b", 2) is still stored, ("a", 1) is not, and there are ten slots |
| UpperBoundSearch.Bisect | t2_bin_search_for_floats.py:14-30 | the loop of `binary_search` as a recursion from the range `left..right` after `iterations` passes; no contract of its own: `BisectFindsExpected` and `SearchOutcome` give its result, `BisectPasses` its pass count, `TestBinarySearch` its value on the test cases |
| UpperBoundSearch.FirstAbove | t2_bin_search_for_floats.py:29 | the upper bound, when present, is an element greater than the target, and it is absent exactly when no element is greater |
| UpperBoundSearch.FirstAboveAt | t2_bin_search_for_floats.py:29 | `arr[left]` is the first element above the target when everything before `left` is at most the target |
| UpperBoundSearch.UpperBoundIsLeast | t2_bin_search_for_floats.py:8-29 | on sorted input without the target, the upper bound is the least element above the target, and it is absent exactly when every element is below |
| UpperBoundSearch.BisectFindsExpected | t2_bin_search_for_floats.py:18-29 | on sorted input the search returns the target when present and otherwise the first element above it, or None |
| UpperBoundSearch.BisectPasses | t2_bin_search_for_floats.py:18-27 | no pass on an empty range; otherwise `2^(passes - 1)` is at most the range width, because each pass at least halves it |
| UpperBoundSearch.SearchOutcome | t2_bin_search_for_floats.py:4-30 | from the whole array, on sorted input: the expected result, 0 iterations exactly when the array is empty, and `2^(iterations - 1) <= len(arr)` |
| UpperBoundSearch.BinarySearch | t2_bin_search_for_floats.py:4-30 | `binary_search` returns the iterations and result of `Bisect` on the whole array, and on sorted input the result is the target or its upper bound |
| UpperBoundSearch.TestBinarySearch | t2_bin_search_for_floats.py:35-42 | the test cases: 3.5 gives (1, 3.5), 4.0 gives (2, 4.3) and 6.0 gives (3, None); also an empty array gives (0, None) |

## Left out

- Timing and printing: `measure_efficiency` as a whole (search_algo_comparision.py:93-106) and the module-level prints and test calls. `Matchers.RunAll` states what each timed lambda computes.
- The benchmark's first "not found" case: that "nonexistent" does not occur in `text1` is not stated. Every character of "nonexistent" occurs in `text1`, so this case is not covered by `AbsentUnitNeverOccurs`.
- Python's built-in `hash`, which is randomised per process for strings: it is a constructor parameter of `HashTable`, and `TestHashTable` takes it as a parameter.
- `TestHashTable`: the source's test only passes when "a" and "b" hash to different slots; that hypothesis is its precondition.
- `HashTable.__str__` (t1_add_delete_to_hash_table.py:24-26) is not modelled. The test checks `str(ht)` for the presence of a pair; `TestHashTable` states this directly about the slots.
- A negative table size: the model's `size` is a `nat`. The source would build an empty list and take `% size` with a negative modulus.
- A table of size 0: `hash_function` would raise ZeroDivisionError. `HashFunction`, `Insert` and `Delete` require a positive size instead of modelling the exception.
- The value type of the hash table is a type parameter (the source's `any`). Keys are compared with `==`, as in the source.
- Floating point: the binary search works on exact reals, with no NaN, no infinities and no rounding. The source only compares elements, so on ordinary floats the branches are the same.
- `BinarySearch` accepts unsorted input, as the source does. Its correctness is stated only for sorted input, because the source assumes sorted input.
- `KmpSearch.ComputeLps` requires a non-empty pattern. The matcher returns before building the table when the pattern is empty.
- Strings are sequences of Unicode scalar values. Python's `ord` is their code point, and Python strings holding lone surrogates are not modelled.
- `large_text` is modelled as `Repeat(LargeUnit, 100)`. Only its prefix is used by the fixture facts.

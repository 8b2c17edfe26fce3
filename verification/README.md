# Statistical process control, monovocalic words and letter-subset matching

This project is a Dafny model of three small Python tools, with proofs about the model.

- `spc.py` defines the `SPC` dataclass. Its model is module `SpcAnalysis` in `spc.dfy` and covers:
  - construction-time validation of `raw_data`;
  - `shuffled_data`, the sample the moving range is taken over, ordered as the original, sorted, or replicated and then shuffled;
  - `mean` and `mR`, the mean absolute consecutive difference;
  - the symmetric bound pairs `thresholds`, `two_sd`, `three_sd` and `spc_thresholds`;
  - the order-preserving filters `outliers`, `abs_outliers` and `outs`.

  Floats are exact reals. The population standard deviation `sd` is a non-negative parameter. The randomness of `random.shuffle` is a sequence of draws that CPython's Fisher–Yates loop consumes.
- `eunoia.py` classifies words by the vowels they use. Its model is module `Eunoia` in `eunoia.dfy` and covers:
  - `setup_vowels`;
  - `analyze_word`, which reports no vowel, mixed vowels or the single vowel, plus the forbidden letters found;
  - the counting and filing loop of `parse_dictionary`, which fills the `word_list` and `filtered` tables and the counters.
- `word_set.py` finds words whose letters all come from a given set. Its model is module `WordSet` in `word_set.dfy` and covers:
  - the per-line dictionary construction of `load_words`;
  - `match_words`.

The other modules are shared support:
- `text.dfy` (module `Text`) holds the string operations the Python code relies on:
  - `str.upper` and `str.lower` on ASCII letters;
  - `str.isspace` and `str.strip`;
  - `set(...)` of a string.
- `seqs.dfy` (module `Seqs`) holds order-preserving filtering and subsequences.
- `wrappers.dfy` (module `Wrappers`) holds `Option` and `Result`.

Python exceptions become `Failure` values:
- the `ValueError` of `__post_init__`;
- the `StatisticsError` that `statistics.mean` raises on an empty list.

A `dict` is modelled in one of two ways:
- a `map` when only its contents matter;
- a key sequence plus a `map` when its insertion order matters, as for `load_words`.

## Model

| member | source | states |
|---|---|---|
| SpcAnalysis.New | spc.py:47-49 | Construction fails exactly when `raw_data` is empty, so a one-element list is accepted. The error reports `n=True`, because the walrus operator binds `len(raw_data) < 1` rather than the length. |
| SpcAnalysis.StatMean | spc.py:85-87 | `statistics.mean` fails exactly on an empty list. |
| SpcAnalysis.Mean | spc.py:85-87 | The mean of a valid instance lies between the minimum and the maximum of `raw_data`. |
| SpcAnalysis.Replicate | spc.py:43 | `raw_data * k` has length n·k (0 for k ≤ 0), and every value occurs k times as often as in `raw_data`. |
| SpcAnalysis.RandomShuffle | spc.py:44 | `random.shuffle` yields a permutation of its input (same length, same multiset) whatever the random draws. |
| SpcAnalysis.SortAscending | spc.py:41 | `sorted` yields an ascending permutation of its input. |
| SpcAnalysis.AscendingPermutationUnique | spc.py:41 | Two ascending permutations of the same multiset are equal, so the sorted sample is determined by the data. |
| SpcAnalysis.ShuffledData | spc.py:36-45 | The sample depends on the ordering. For "original" it is `raw_data` itself. For "sort" it is an ascending permutation of `raw_data`. For "shuffle" it has length n × `shuffle_replicates` (0 when `shuffle_replicates` ≤ 0) and the multiset of that many copies of `raw_data`. |
| SpcAnalysis.MovingRanges | spc.py:91 | The pairwise absolute differences: one fewer than the sample (none below two elements), each `abs(y - x)` of neighbours and non-negative. |
| SpcAnalysis.MR | spc.py:89-91 | `mR` is defined exactly when the sample has at least two values. It then is non-negative. Otherwise it fails as `statistics.mean([])` does. |
| SpcAnalysis.SortedRangesTelescope | spc.py:40-41 | On ascending data, the consecutive absolute differences sum to last − first. |
| SpcAnalysis.SortedMRIsRangeOverGaps | spc.py:40-41 | With "sort" ordering and n ≥ 2, `mR` equals (max − min)/(n − 1). |
| SpcAnalysis.SingletonAcceptedThenMRFails | spc.py:47-49 | A one-element dataset passes construction but `mR` fails, unless the shuffle replicates it. |
| SpcAnalysis.SingletonReplicatedMRIsZero | spc.py:42-45 | A one-element dataset replicated at least twice has moving range 0. |
| SpcAnalysis.Thresholds | spc.py:97-98 | The bounds are symmetric about the mean: lo + hi = 2·mean and hi − lo = 2·width. |
| SpcAnalysis.TwoSd | spc.py:104-106 | The bound pair at width 2·sd, which contains the mean. |
| SpcAnalysis.ThreeSd | spc.py:108-110 | The bound pair at width 3·sd, which contains the mean. |
| SpcAnalysis.SpcThresholds | spc.py:100-102 | Exists exactly when `mR` does. It is then the bound pair at width 2.66·mR around the mean. |
| SpcAnalysis.SigmaBandsNest | spc.py:104-110 | The 3σ band contains the 2σ band, and the values outside 3σ are a subsequence of those outside 2σ. |
| SpcAnalysis.Outliers | spc.py:112-113 | The order-preserving subsequence of `raw_data` with x < lo or x > hi. Each such value keeps its multiplicity, and every other value is dropped. |
| SpcAnalysis.AbsOutliers | spc.py:115-116 | The same filter applied to `abs(x)`. |
| SpcAnalysis.AbsOutliersOnNonNegativeData | spc.py:112-116 | On non-negative data, `abs_outliers` and `outliers` agree. |
| SpcAnalysis.Outs | spc.py:118-119 | `outs(w)` keeps, in order and with multiplicity, exactly the values farther than w from the mean. |
| SpcAnalysis.OutsAntitone | spc.py:118-119 | For w1 ≤ w2, `outs(w2)` is a subsequence of `outs(w1)`, so it is never longer and each of its values is in `outs(w1)`. |
| Text.StripLeftSpec | eunoia.py:89 | `lstrip` removes exactly a leading run of whitespace and leaves a suffix that is empty or starts with a non-space. |
| Text.StripRightSpec | eunoia.py:89 | `rstrip` removes exactly a trailing run of whitespace and leaves a prefix that is empty or ends with a non-space. |
| Text.StripSpec | eunoia.py:89 | `strip` keeps a contiguous slice. Its positions are exactly those with a non-space at or before them and a non-space at or after them. |
| Text.StripChars | word_set.py:13-14 | A character is in the stripped string exactly when it occurs at a kept position. |
| Text.StripOfPadded | word_set.py:20 | Surrounding a string with whitespace does not change its strip. |
| Text.StripOfSpace | word_set.py:13 | An all-whitespace line strips to the empty string. |
| Text.UpperLettersSpec | eunoia.py:35 | `set(s.upper().strip())` holds exactly the upper-cased characters at kept positions of `s`, and no lower-case ASCII letter. |
| Text.LowerLettersSpec | word_set.py:20 | `set(s.lower().strip())` holds exactly the lower-cased characters at kept positions of `s`, and no upper-case ASCII letter. |
| Eunoia.SetupVowelsSpec | eunoia.py:18-21 | Each returned set holds exactly the upper-cased characters of its argument that `strip` keeps. |
| Eunoia.DefaultSetup | eunoia.py:15-24 | The default sets are {A, E, I, O, U} and {Y}. |
| Eunoia.AnalyzeWord | eunoia.py:35-43 | The vowel result depends on how many of the vowel letters the word's letter set contains. It is "no vowel" when there are none, "mixed" when there are at least two distinct ones, and otherwise the single vowel. The forbidden part is the forbidden letters in the word, whatever the vowel result. |
| Eunoia.Classify | eunoia.py:39-43 | The three-way branch on the found vowels: empty, more than one, or exactly the one. |
| Eunoia.AnalyzeWordSpec | eunoia.py:35-43 | The same classification stated on the word itself, as which vowels occur at kept positions once upper-cased. The forbidden part is non-empty exactly when a forbidden letter occurs. |
| Eunoia.AnalyzeWordIgnoresCase | eunoia.py:35 | Upper- or lower-casing the word does not change its analysis. |
| Eunoia.VowellessWordGoesUnderNone | eunoia.py:39-40 | A word using no vowel is not mixed, so it counts as monovocalic. It is filed under `None`, in `filtered` exactly when it holds a forbidden letter. |
| Eunoia.SingleVowelWordGoesUnderIt | eunoia.py:95-101 | A word using exactly one vowel v is filed under v and under no other key, in the table its forbidden letters select. |
| Eunoia.CountsPartition | eunoia.py:91-101 | Every word is exactly one of mixed, removed or pure, so the three counts add up to the number of words. |
| Eunoia.StepPreserves | eunoia.py:89-101 | One loop iteration over one more word keeps the counters and both tables a summary of the longer word list. |
| Eunoia.ParseDictionary | eunoia.py:84-101 | The counters satisfy `total` = number of words, `N/A` + `monovocalic` = `total` and `removed` + `pure vowel` = `monovocalic`. Each counter equals the number of stripped words of its kind. Under each key, each table holds exactly the stripped words filed there, in input order, and it has no empty list. |
| Eunoia.WordPlacement | eunoia.py:92-101 | A mixed-vowel word is in no list. Any other word is in exactly one list, under its vowel key, in `filtered` when it holds a forbidden letter and in `word_list` otherwise. |
| WordSet.LoadWords | word_set.py:12-14 | The keys are exactly the lower-cased, stripped lines, each listed once. Every key maps to its own character set. |
| WordSet.FirstIndex | word_set.py:14 | The position of the first occurrence of a value in a sequence. |
| WordSet.LoadWordsOrder | word_set.py:12-14 | Keys come in the order of the line where each first appears, so repeated lines collapse onto the first one's position. |
| WordSet.MatchWords | word_set.py:19-21 | The result is exactly the keys whose letter set lies within the letters of `allowed_letters.lower().strip()`. It is a subsequence of the key order, with no duplicates. |
| WordSet.MatchWordsMonotone | word_set.py:20-21 | A larger allowed letter set never removes a word, and the matches keep their relative order. |
| WordSet.AppendingAllowsMore | word_set.py:20 | Appending characters to `allowed_letters` never shrinks its letter set. |
| WordSet.MatchWordsIgnoresCaseAndPadding | word_set.py:20 | Upper-casing `allowed_letters` and surrounding it with whitespace gives the same result. |
| WordSet.BlankLineAlwaysMatches | word_set.py:13-14 | A blank line yields the key "", which `match_words` returns for every `allowed_letters`. |
| Seqs.Filter | spc.py:113 | A list comprehension with a condition keeps a subsequence whose elements all satisfy it. |
| Seqs.FilterMembers | word_set.py:21 | A value is in the filtered list exactly when it is in the input and satisfies the condition. |
| Seqs.FilterStrongerIsSubsequence | word_set.py:21 | Filtering by a stronger condition gives a subsequence of filtering by a weaker one. |

## Left out

- Printing and command-line glue is left out. This covers `print`, `tabstring`, the `argparse` and `click` entry points, the statistics printing of `parse_dictionary` (eunoia.py:102-106) and the `display` flag. These are I/O.
- File access in `load_words` (opening, reading and closing the file) is left out. The model takes the lines as a sequence of strings.
- The exact text of error messages is left out. Only the value the construction message reports (`n=True`) is kept.
- `sd` is not computed, because `statistics.pstdev` needs a square root. It is a non-negative parameter of `TwoSd`, `ThreeSd` and `SigmaBandsNest`.
- The following need transcendental functions or rounding, so they are not modelled: `log_spc`, `logvalues`, `geo_vals` (`log2`, `2**x`), `round_dict` and `vals` (`round`), and `statistics.median`.
- The floating-point rounding of sums and quotients is not modelled; floats are exact reals.
- Only the shuffle's permutation property is modelled, not its distribution. `random.shuffle` takes its randomness from an injected draw sequence, and the model states only what holds for every draw sequence.
- The dataclass defaults `rounding=2`, `ordering="shuffle"` and `shuffle_replicates=100` are left out; every field is an explicit argument of `New`.
- `ordering` is a three-valued datatype. The source never checks the string, so any value other than "original" or "sort" takes the shuffle branch; the model reaches that branch only through `Shuffle`.
- `cached_property` memoisation is not modelled. Derived values are pure functions of the immutable record.
- Case mapping is modelled for ASCII letters only. Python's full Unicode `upper` and `lower` are outside the model, while `isspace` covers every whitespace code point up to U+3000.
- Eunoia.AnalyzeWord: the forbidden part is the set of forbidden letters found, not the string `"".join(...)`. Python does not fix the iteration order of a set, and only its emptiness is used. For the same reason, the vowel result is the set's single element, not a one-character string.
- Eunoia.ParseDictionary: the counters `N/A` and `pure vowel` are named `mixed` and `pure`. The `defaultdict` keys that the statistics printing creates after the loop are not modelled, since they only appear when statistics are printed.
- `balls.py` is not part of this model; it only shuffles and prints a list.

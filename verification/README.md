# streaks — a verified model of streak decomposition

The `streaks` project splits a sequence of integers into *streaks*: a new
streak starts at every element smaller than the first element (the *leader*)
of the streak being built. Each streak is therefore headed by its minimum,
and the leaders are exactly the running minima of the sequence. The project
describes the decomposition in two ways:

- as a list of streaks (`Streaks`, `find_streaks`);
- as a dictionary from leader to streak length (`KvStreaks`, `kv_streaks`).

It also counts how many streaks the permutations of `1..n` have
(`count_streaks`), and it ships small numpy helpers (`utils.py`).

This Dafny project models:

- **`src/streaks2/streaks.py`**, the checked classes (module `Streaks`):
  - `Streak` is a subset type of lists headed by their minimum.
  - The `assert`s become `Err(AssertionError)` results of the factory
    members `NewStreak`, `NewStreaks` and `NewKvStreaks`.
  - `Streaks` is a datatype, because its field is set once.
  - `KvStreaks` is a class, because `_find_kv_streaks` updates its dictionary
    in place.
- **`src/streaks2-1/src/streaks2/streaks.py`**, the older unchecked snapshot
  (module `StreaksSnapshot`). It has the same loops and no assertions, and it
  turns an empty input into one empty streak.
- **`src/expt/streaks.py`**, the free functions `find_streaks` and
  `kv_streaks` (module `ExptStreaks`).
- **`src/streaks2/streak_stats.py`**, `count_streaks` (module `StreakStats`).
  The permutations are enumerated in `itertools` order, each is decomposed
  by the `find_streaks` loop, and the counts are gathered in a `Counter` and
  returned as a dict sorted by key.
- **`src/streaks2/utils.py`** (module `Utils`):
  - `add_summary_row_column` on an `array2<int>`;
  - `invert_zeros_and_nonzeros` as a function on a matrix;
  - `create_array_from_kv`, which returns a fresh `array<int>`.

Every decomposition loop is a `method` proved against one pure reference
decomposition, `StreakSpec.Split(s, strict)`:

- with `strict == false` a streak goes on while the element is `>=` its
  leader. This is `Decompose`, the rule of `_find_streaks` / `find_streaks`;
- with `strict == true` it goes on while the element is `>` its leader. This
  is `CompactSplit`, the rule of `_find_kv_streaks` / `kv_streaks`.

`Split` is characterised by `IsSplit`: the streaks are non-empty and
concatenate back to the input, every element of a streak passes the
comparison against its leader, and every next leader fails it against the
previous leader. `Split` is the only sequence of streaks that satisfies this
characterisation. The two rules agree on sequences without repeated values
and can part ways on repeats (`[1, 1]` does, `[2, 1, 2]` does not).

The `count_streaks` loop is proved against a pure tally of the enumerated
permutations (`StreakStats.Tally`), and the numpy helpers' loops against pure
row, column and body sums and against the written-value function
`Utils.ValueAt`.

Inputs are Python lists or one-dimensional integer numpy arrays, modelled as
`seq<int>`. Two-dimensional arrays are `array2<int>`, or `seq<seq<int>>` for
the pure specifications. Python exceptions are `Result` values
(`Wrappers.Error`).

## Model

| member | source | states |
|---|---|---|
| Streaks.NewStreak | src/streaks2/streaks.py:11-22 | A non-empty list is accepted exactly when its first element is at most every element; an accepted streak keeps the list unchanged; a rejection is an AssertionError |
| Streaks.ElemsCount | src/streaks2/streaks.py:47 | `len(set(seq)) == len(seq)` holds exactly when no value repeats, and the set is never larger than the list |
| Streaks.NewStreaks | src/streaks2/streaks.py:39-48 | Construction fails with AssertionError exactly when a value repeats; otherwise the streaks are the reference decomposition and concatenate back to the input; an empty input has `len() == 0` |
| Streaks.FindStreaks | src/streaks2/streaks.py:50-74 | The scan returns the reference decomposition; its streaks are non-empty, concatenate back to the input, and their leaders strictly decrease |
| Streaks.KvStreaks.constructor | src/streaks2/streaks.py:99-100 | Filling an empty dict gives the leader-to-length map of the compact decomposition |
| Streaks.KvStreaks.FindKvStreaks | src/streaks2/streaks.py:102-123 | The dict afterwards is the old dict with each compact streak's leader set to its length, in streak order (a later streak overwrites an earlier entry) |
| Streaks.NewKvStreaks | src/streaks2/streaks.py:91-100 | Fails with AssertionError exactly when a value repeats; otherwise the dict is the leader-to-length map of `Streaks(seq)`'s decomposition and `len()` equals the number of streaks |
| Streaks.CompactMatchesStreaks | src/streaks2/streaks.py:128-132 | Without repeats, the dict's keys are exactly the streak leaders, each mapped to its streak's positive length; there are as many keys as streaks, and the lengths sum to the input length |
| Streaks.EmptyInput | src/streaks2/streaks.py:60-61 | The empty list has no streaks and an empty dict |
| StreaksSnapshot.NewStreaks | src/streaks2-1/src/streaks2/streaks.py:45-52 | Every input is accepted; the empty list gives one empty streak, any other list the reference decomposition; the streaks always concatenate back to the input |
| StreaksSnapshot.FindStreaks | src/streaks2-1/src/streaks2/streaks.py:54-78 | `[]` gives `[[]]`; otherwise the reference decomposition with non-empty streaks; every streak is headed by its minimum and the leaders strictly decrease even when values repeat |
| StreaksSnapshot.KvStreaks.constructor | src/streaks2-1/src/streaks2/streaks.py:89-97 | Without a distinctness check the dict is the leader-to-length map of the compact decomposition |
| StreaksSnapshot.KvStreaks.FindKvStreaks | src/streaks2-1/src/streaks2/streaks.py:99-120 | Records each compact streak's length under its leader over the old dict; an empty input leaves the dict unchanged |
| StreaksSnapshot.VariantsAgreeOnDistinct | src/streaks2-1/src/streaks2/streaks.py:54-120 | Without repeats, the list and dict decompositions describe the same streaks, one dict entry per streak |
| StreaksSnapshot.VariantsDivergeOnRepeat | src/streaks2-1/src/streaks2/streaks.py:112-120 | On `[1, 1]` the list rule gives one streak `[1, 1]`; the dict rule gives two streaks `[1]`, `[1]` and ends with `{1: 1}` because the second entry overwrites the first |
| StreaksSnapshot.VariantsMayAgreeOnRepeat | src/streaks2-1/src/streaks2/streaks.py:54-120 | A repeated value does not force the rules apart: `[2, 1, 2]` splits into `[[2], [1, 2]]` under both `>=` and `>` |
| ExptStreaks.FindStreaks | src/expt/streaks.py:22-52 | Returns the reference decomposition; the streaks are non-empty, each is headed by its minimum, they concatenate back to the input, and their leaders strictly decrease |
| ExptStreaks.KvStreaks | src/expt/streaks.py:54-80 | With no nonzero element the result is `{}`; otherwise it is the compact leader-to-length map. Without repeats, its keys are exactly the leaders, each maps to its streak's length, there is one key per streak, and the lengths sum to the input length |
| ExptStreaks.FindStreaksExamples | src/expt/streaks.py:32-36 | The documented examples, plus `[]` and `[1, 3, 2, 4]`, decompose as stated |
| ExptStreaks.KvStreaksExamples | src/expt/streaks.py:54-80 | The expected dicts `{1: 1}`, `{1: 3}`, `{3: 1, 2: 1, 1: 1}`, `{2: 1, 1: 2}` and `{1: 4}` are produced |
| StreakSpec.SplitIsSplit | src/streaks2/streaks.py:50-74 | Both decompositions meet the characterisation: non-empty streaks that concatenate back to the input, every element passes the comparison against its leader, and every next leader fails it against the previous one |
| StreakSpec.SplitUnique | src/streaks2/streaks.py:50-74 | Any sequence of streaks that meets the characterisation is the decomposition: streaks are uniquely determined |
| StreakSpec.SplitCount | src/streaks2/streaks.py:50-74 | A non-empty input has between 1 and `len(seq)` streaks |
| StreakSpec.DecomposeProperties | src/streaks2/streaks.py:50-74 | The decomposition concatenates back to the input, has non-empty streaks headed by their minima, and has strictly decreasing leaders |
| StreakSpec.CompactAgreesOnDistinct | src/streaks2/streaks.py:102-123 | Without repeats, the `>` rule of the dict scan splits exactly like the `>=` rule of the list scan |
| StreakSpec.LengthMapSum | src/streaks2/streaks.py:102-123 | When leaders are distinct, every leader is a key and the recorded lengths sum to the total length of the streaks |
| StreakSpec.DecomposeLengthMap | src/streaks2/streaks.py:128-132 | The leader-to-length map of the decomposition has exactly the leaders as keys, the streak lengths as values, one key per streak, and the lengths sum to the input length |
| StreakStats.PermutationsCount | src/streaks2/streak_stats.py:9 | There are `n!` permutations of `n` values |
| StreakStats.PermutationsArrange | src/streaks2/streak_stats.py:9 | Every permutation is a rearrangement of its input (same multiset) |
| StreakStats.PermutationsNoRepeats | src/streaks2/streak_stats.py:9 | Distinct values give pairwise different permutations, so no arrangement is counted twice |
| StreakStats.PermutationsComplete | src/streaks2/streak_stats.py:9 | Every rearrangement of the input (same multiset) is listed, so no arrangement is missed |
| StreakStats.PermutationsUpToExactlyOnce | src/streaks2/streak_stats.py:9-11 | The loop visits exactly the permutations of `1..n`, each once: every entry rearranges `1..n`, every rearrangement is an entry, and no entry repeats |
| StreakStats.CountStreaks | src/streaks2/streak_stats.py:7-12 | Returns items sorted by strictly increasing streak count; each count `k` is in `1..n` (0 for `n == 0`) and maps to the positive number of permutations with `k` streaks; the values sum to `n!` |
| StreakStats.CountStreaksProperties | src/streaks2/streak_stats.py:7-12 | Adds to the above that every streak count that occurs among the permutations is listed |
| StreakStats.CountStreaksZero | src/streaks2/streak_stats.py:7-12 | For `n == 0` the one empty permutation has 0 streaks: `{0: 1}` |
| StreakStats.StreaksArePrefixMinima | src/expt/streaks.py:44-49 | The number of streaks is the number of prefix minima (elements smaller than everything before them), and the last leader is the global minimum |
| StreakStats.CountStreaksOne | tests/streak_stats_test.py:14-17 | `count_streaks(1)` is `{1: s(1,1)}` (unsigned Stirling numbers of the first kind) |
| StreakStats.CountStreaksTwo | tests/streak_stats_test.py:14-17 | `count_streaks(2)` is `{1: s(2,1), 2: s(2,2)}` |
| StreakStats.CountStreaksThree | tests/streak_stats_test.py:14-17 | `count_streaks(3)` is `{1: s(3,1), 2: s(3,2), 3: s(3,3)}`, that is `{1: 2, 2: 3, 3: 1}` |
| Utils.AddSummaryRowColumn | src/streaks2/utils.py:26-55 | Returns a fresh matrix of the same shape and leaves the input untouched. With at most one row or column it is a copy; otherwise row 0 holds the column sums over rows `1..`, column 0 the row sums over columns `1..`, the corner the body sum, and every other cell is 0 |
| Utils.SummaryCrossCheck | src/streaks2/utils.py:52-53 | The corner equals the body sum, the sum of the summary row and the sum of the summary column (the cross-check of the commented-out `summarize_arr`) |
| Utils.SummaryBodyIsZero | src/streaks2/utils.py:48-50 | As written, every body cell of the result is 0 |
| Utils.SummaryTwiceIsZero | src/streaks2/utils.py:26-55 | As written, summarising a summary gives the zero matrix (the function is not idempotent) |
| Utils.SummaryExample | src/streaks2/utils.py:48-53 | On `[[0,0,0],[0,1,2],[0,3,4]]` the code as written gives `[[10,4,6],[3,0,0],[7,0,0]]`, not the expected `[[10,4,6],[3,1,2],[7,3,4]]` |
| Utils.SummaryKeepingBodyIdempotent | src/streaks2/utils.py:27-30 | The corrected summary, which keeps the body, is idempotent: summarising twice equals summarising once |
| Utils.SummaryKeepingBodyExample | tests/utils_test.py:13-22 | The corrected summary gives the expected matrices of both test cases |
| Utils.InvertZerosAndNonzeros | src/streaks2/utils.py:58-69 | Same shape; every cell is 0 or 1; a cell is 1 exactly when the input cell is 0 |
| Utils.InvertTwiceMarksNonzero | src/streaks2/utils.py:58-69 | Inverting twice marks the nonzero cells with 1 and the zero cells with 0 |
| Utils.InvertInvolutive | src/streaks2/utils.py:58-69 | On a 0/1 matrix, inverting twice gives the matrix back |
| Utils.InvertExamples | tests/utils_test.py:25-39 | The three tested inputs invert to the expected matrices |
| Utils.CreateArrayFromKv | src/streaks2/utils.py:72-96 | ValueError when the sizes differ. Empty keys give an empty array. ValueError when `max(keys) + 1` is negative. IndexError when a key lies below `-(max(keys) + 1)`. Otherwise a fresh array of length `max(keys) + 1`: each cell holds the value of the last key that addresses it (a negative key counts from the end), and 0 when no key does |
| Utils.CreateArrayFromKvDistinct | src/streaks2/utils.py:94 | With distinct indices, `arr[keys[i]] == vals[i]` for every `i`, and a cell no key addresses stays 0 |

## Left out

- `random_permutation` (in `src/expt/streaks.py:9-19` and `src/streaks2/utils.py:99-111`): it draws random numbers.
- `mean_kv_streaks` and `GAMMA`: random inputs and floating-point averages. `mean_kv_streaks` also calls `find_kv_streaks` and `random_permutation`, which `src/streaks2/streaks.py` does not define.
- `count_streaks` calls `streaks.find_streaks`, which `src/streaks2/streaks.py` does not define. It is modelled with the `find_streaks` of `src/expt/streaks.py`, the module-level function its tests use.
- The `__repr__` methods: output formatting only.
- Commented-out code is not part of this model: the snapshot's `random_permutation`, `first_kv_streak`, `streak_count_by_start` and `total_streak_length_by_start`, and `summarize_arr` in `utils.py`. The same goes for the script string at the end of `src/expt/streaks.py` and the unused enum `SummaryIndex`.
- The `ndim` checks of `add_summary_row_column` and `create_array_from_kv`, and the numeric-dtype check of `invert_zeros_and_nonzeros`: the Dafny types (`array2<int>`, `seq<int>`, `seq<seq<int>>` of integers) already enforce them, so those ValueError paths cannot be reached.
- `Utils.InvertZerosAndNonzeros`: modelled on two-dimensional integer arrays only. numpy applies the same cell rule to arrays of any dimension and to floats.
- `Utils.CreateArrayFromKv`: the empty result is `np.array([])`, a float array in numpy; the model returns an empty integer array. The model writes duplicate indices in order, so the last one wins; numpy does not document that order for fancy assignment.
- `int(streak_start)` in `_find_kv_streaks`: the model's values are already integers.
- `ExptStreaks.KvStreaks`: `lst.any()` is read on a one-dimensional integer array. Python lists, which have no `.any()`, are not modelled.
- `count_streaks`: `itertools.permutations` yields permutations lazily; the model enumerates them as a sequence (`StreakStats.Permutations`) and does not capture that laziness or the memory it saves.
- `StreakStats.CountStreaksThree`: the Stirling-number agreement that the (disabled) test states for `n = 1..9` is proved only for `n <= 3`, by `CountStreaksOne`, `CountStreaksTwo` and `CountStreaksThree`. For every `n`, `CountStreaksProperties` proves the weaker facts that every streak count that occurs is listed with a positive count, every listed count is in `1..n`, and the counts sum to `n!`.
- Integer width: numpy's `np.sum`, `np.zeros_like` and `np.zeros(..., dtype=int)` (`src/streaks2/utils.py:45-53`, `91-94`) compute in fixed-width integers (int64 on most platforms) and wrap around on overflow; the model's `int` is unbounded, so sums that would overflow are not modelled.
- Python's `min`, `set` and `len` on lists of arbitrary objects: only integer sequences are modelled.

## Findings

| source | as written | input that shows it | evidently intended | confidence | as-written member | corrected member |
|---|---|---|---|---|---|---|
| src/streaks2/utils.py:48-53 | `add_summary_row_column` builds its result with `np.zeros_like`, so every body cell (row and column >= 1) is 0 | `[[0,0,0],[0,1,2],[0,3,4]]` gives `[[10,4,6],[3,0,0],[7,0,0]]` | the docstring (`src/streaks2/utils.py:29-30`) says only the first row and column are replaced, i.e. the body is kept; the summarize test `tests/utils_test.py:13-17` expects `[[10,4,6],[3,1,2],[7,3,4]]`, but it calls the commented-out predecessor `summarize_arr` (line 16), not `add_summary_row_column`, so it supports the intent only indirectly | medium, not executed | Utils.SummaryExample | Utils.SummaryKeepingBodyExample |

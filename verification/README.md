# User-based collaborative filtering, modelled in Dafny

The repository implements a small user-based collaborative-filtering recommender, the class `CF`,
in two variants:

- `collaborative_filtering.py` is the current class.
- `models/collaborative_filtering.py` is an older copy of it.

A `CF` object is built from four inputs:

- a list of user identifiers;
- a list of item identifiers;
- a score dict keyed by composite name keys `"<user>_<item>"`;
- a similarity metric, `pearsonR` or `pearsonR+`.

The constructor does the following:

- It gives every identifier a dense index.
- It converts the score dict to index keys `"<user_id>_<item_id>"`.
- It lists the unrated index pairs in row-major order.
- It computes every rated user's mean score.
- The current class also records the commonly rated items of every pair of users.

`complete_for(keys)` and `complete()` proceed as follows:

1. They build a user-by-user similarity dict. Each off-diagonal entry is a Pearson correlation over the two users' common items. It is kept only when its p-value is below 0.1; otherwise it is 0. Under `pearsonR+`, negative values are clamped to 0.
2. For every requested unrated pair, they rank the user's row by decreasing absolute similarity.
3. They accumulate the first `num_neighbors` neighbours who rated the item.
4. They blend the neighbour estimate half-and-half with the user's mean.

Predictions come back under name keys. Per-pair exceptions come back under index keys.

The Dafny modules follow the program's structure:

| module | what it models |
|---|---|
| `Wrappers`, `Exceptions` | `Option`/`Result`, and the exception classes that reach callers |
| `Dicts` | Python's insertion-ordered `dict`: `d[k] = v` and key-renaming comprehensions |
| `KeyCodec` | the `"_"`-joined composite keys, `str.split("_")`, `str(n)` and `int(s)` on the strings `str(n)` produces |
| `Catalogs` | `user2id`/`item2id`, `_convert_pair2id` and `_convert_pair2name` |
| `RatingStore` | `_init`: converted scores, `non_eval_pairs`, `_user_items`, `user_mean_score`, `_common_items` |
| `Pearson` | the metric selector and the value one `try` block of `_compute_sim` stores |
| `SimSweep` | the nested `i < j` loops of `_compute_sim` over the similarity dict, for any value and any set of written pairs |
| `Similarity` | the current `_compute_sim` |
| `Ranking` | `list(row.items())` followed by the stable sort by `-abs(sim)` |
| `Predictor` | the neighbour loop and the blend of `_score_pair` |
| `Completion` | the loop of `complete_for` and the renaming of its result dicts, over any scorer |
| `Engine` | the current constructor, `_score_pair`, `complete_for` and `complete` |
| `Legacy` | the older class: its means, its `_compute_sim`, `_score_pair`, constructor and `complete` |

Three things are parameters of the model:

- **`scipy.stats.pearsonr`.** It is modelled as a function from two score lists to `Raised` or `Computed(r, p)`. The properties that need it assume the test is well behaved, via `IsPearsonTest`: fewer than two samples raise, and a computed coefficient lies in [-1, 1].
- **Iteration order of the Python `set` in the older `_compute_sim`.** It is modelled as a function that, per pair, enumerates the set of common items once each (`Enumerates`).
- **Floating-point values.** They are modelled as mathematical reals.

## Model

| member | source | states |
|---|---|---|
| Dicts.Put | collaborative_filtering.py:120-121 | `d[k] = v` gives `k` the new value and leaves every other key's value alone. A new key goes at the end of the key order; an existing key keeps its place. |
| Dicts.PutTwice | models/collaborative_filtering.py:90-91 | Writing one key twice is the same as writing it once with the second value. |
| Dicts.RenameKeys | collaborative_filtering.py:193 | A key-renaming comprehension has exactly the images of the original keys as keys. |
| Dicts.RenameKeysValue | collaborative_filtering.py:193 | When the renaming is injective on the keys, each value sits under its own key's image. |
| KeyCodec.Split | collaborative_filtering.py:88 | `str.split("_")` gives at least one part, no part contains the separator, and joining the parts gives the string back. |
| KeyCodec.SplitJoin | collaborative_filtering.py:88-89 | Splitting the join of separator-free parts gives those parts back. |
| KeyCodec.SplitJoinPair | collaborative_filtering.py:88-89 | `f"{a}_{b}".split("_") == [a, b]` when neither part contains `_`. |
| KeyCodec.SplitCount | collaborative_filtering.py:88 | A split has one part more than the string has separators. |
| KeyCodec.JoinPairParts | collaborative_filtering.py:88 | A composite key splits into exactly two parts if and only if neither identifier contains `_`. Otherwise it splits into three or more. |
| KeyCodec.Decimal | collaborative_filtering.py:59 | `str(n)` is a non-empty run of digits, without leading zeros or separators. |
| KeyCodec.ParseInt | collaborative_filtering.py:93 | `int(str(n)) == n` for every index `n`. The model accepts exactly the non-empty ASCII digit strings and raises `ValueError` otherwise. |
| KeyCodec.DecimalRoundTrip | collaborative_filtering.py:93 | The digits `str(n)` writes read back as `n`. |
| KeyCodec.IdKeyRoundTrip | collaborative_filtering.py:92-93 | Splitting and parsing the index key of a pair gives the pair back. |
| KeyCodec.IdKeyInjective | collaborative_filtering.py:59 | Distinct index pairs have distinct index keys. |
| Catalogs.IndexOf | collaborative_filtering.py:52-54 | The enumerate comprehension maps exactly the listed names. Each maps to a position holding that name, and to its last such position. |
| Catalogs.IndexOfDistinct | collaborative_filtering.py:52 | With distinct names, `user2id[user_list[k]] == k`. |
| Catalogs.Resolve | collaborative_filtering.py:87-89 | `_convert_pair2id` raises `ValueError` exactly when the key does not split into two parts. It raises `KeyError` exactly when it splits in two but a part is not a known identifier. Otherwise it yields an in-range pair whose name key is the input. |
| Catalogs.Pair2NameOfIdKey | collaborative_filtering.py:91-94 | `_convert_pair2name` of a pair's index key is the name key for in-range pairs and `IndexError` otherwise. |
| Catalogs.NameRoundTrip | collaborative_filtering.py:87-94 | A name key of separator-free catalog identifiers survives the trip to index form and back. |
| Catalogs.IdRoundTrip | collaborative_filtering.py:87-94 | In a catalog with distinct, separator-free identifiers, an in-range index pair survives the trip to names and back. |
| Catalogs.ResolveNameKey | collaborative_filtering.py:87-89 | The name key of an in-range pair resolves if and only if neither identifier contains `_`. When it fails, the error is `ValueError`. |
| Catalogs.NameKeyInjective | collaborative_filtering.py:193 | In such a catalog, distinct in-range pairs have distinct name keys. |
| RatingStore.ConvertScores | collaborative_filtering.py:56 | The converted score dict is well formed and holds only in-range pairs. |
| RatingStore.ConvertScoresSucceeds | collaborative_filtering.py:56 | The conversion succeeds if and only if every key resolves. Otherwise it fails with the error of some key that does not resolve. |
| RatingStore.ConvertScoresValues | collaborative_filtering.py:56 | A successful conversion holds each key's score under that key's index pair and nothing else. |
| RatingStore.Unrated | collaborative_filtering.py:59 | `non_eval_pairs` holds exactly the in-range pairs without a score, each once, in row-major order. |
| RatingStore.GroupItemsExact | collaborative_filtering.py:61-65 | `_user_items` has a list exactly for users with a rating. That list holds exactly their rated items, in score-dict order. |
| RatingStore.ScoresOfItems | collaborative_filtering.py:71-72 | Looking up a user's items one by one reads the same scores as filtering the score dict by user. |
| RatingStore.MeanOfOne | collaborative_filtering.py:72 | The mean of one rating is that rating. |
| RatingStore.MeanBounds | collaborative_filtering.py:72 | A mean lies within the range of the values it averages. |
| RatingStore.Keep | collaborative_filtering.py:83 | The common-item comprehension keeps exactly the items of the first list that occur in the second. |
| RatingStore.Init | collaborative_filtering.py:43-84 | `_init` succeeds if and only if every score key resolves. It then leaves a consistent store sized by the catalog. |
| RatingStore.UnratedExact | collaborative_filtering.py:59 | In a constructed store, `non_eval_pairs` is exactly the in-range unrated pairs, sorted and without repeats. |
| RatingStore.UserItemsExact | collaborative_filtering.py:61-65 | `_user_items[u]` exists if and only if `u` has a rating, and it lists exactly `u`'s rated items. |
| RatingStore.MeanExact | collaborative_filtering.py:67-72 | `user_mean_score[u]` is defined if and only if `u` is in range and has a rating. It is then the mean of `u`'s scores; the `None` branch never fires. |
| RatingStore.CommonExact | collaborative_filtering.py:74-84 | Both orders of each distinct user pair map to the same list. That list holds exactly the items both users rated, and it is empty when either user has no rating. |
| Pearson.ParseMetric | collaborative_filtering.py:36 | Only `pearsonR` and `pearsonR+` are accepted, and the latter selects clamping. Anything else raises `AssertionError`. |
| Pearson.StoredSimilarity | collaborative_filtering.py:115-131 | When the test raises, the stored value is 0. When p ≥ 0.1, it is 0. When p < 0.1, it is the coefficient, clamped at 0 under `pearsonR+`. It is never negative under `pearsonR+`. |
| Pearson.TooFewSamples | collaborative_filtering.py:115-127 | Under a well-behaved test, fewer than two common items give similarity 0. |
| Pearson.StoredSimilarityBounds | collaborative_filtering.py:115-131 | Under a well-behaved test, every stored similarity lies in [-1, 1]. |
| SimSweep.Write | collaborative_filtering.py:120-121 | `sim_dict[i][j] = v; sim_dict[j][i] = v` sets both directions and leaves all other entries alone. |
| SimSweep.WriteTwice | models/collaborative_filtering.py:90-91 | Writing a pair twice leaves the keys where the first write put them and the values of the second. |
| SimSweep.SweepStep | collaborative_filtering.py:108-131 | Visiting a written pair `i < j` advances the loop invariant by one pair. |
| SimSweep.SweepSkip | collaborative_filtering.py:110 | A skipped pair (`i >= j`) or an unwritten pair leaves the loop invariant where it was. |
| SimSweep.SweepFinishes | collaborative_filtering.py:108-131 | From any loop state, the rest of the loop leaves every row with its final keys and values. |
| SimSweep.DiagonalIsStart | collaborative_filtering.py:106 | The diagonal dict is the loop state before the first pair. |
| SimSweep.SweepAll | collaborative_filtering.py:106-131 | The full loop from the diagonal equals the closed-form final dict. |
| SimSweep.SweepAllShape | collaborative_filtering.py:106-131 | Each row lists itself first, then the users linked to it in ascending order, each once. A row holds a user if and only if that user is itself or is linked to it. The dict is symmetric, the diagonal is 1, and a written pair holds its value. |
| SimSweep.PickAll | collaborative_filtering.py:108-110 | When every pair is written, a row's users below or above it are the full ascending range. |
| Similarity.PairValueExact | collaborative_filtering.py:111-131 | On a consistent store, a pair's value is the stored similarity of the test on the two users' scores over their common items. It is 0 when they share fewer than two items. |
| Similarity.ComputeSim | collaborative_filtering.py:96-131 | `_compute_sim` gives one row per user, and every row holds every user. |
| Similarity.ComputeSimKeys | collaborative_filtering.py:106-110 | Row `a` lists `a` first, then every other user in ascending order. |
| Similarity.ComputeSimShape | collaborative_filtering.py:106-131 | The similarity dict is symmetric with a diagonal of 1. An entry above the diagonal is its pair's value. |
| Similarity.ComputeSimValue | collaborative_filtering.py:111-121 | An off-diagonal entry, in either direction, is the stored similarity of the test over the common items. |
| Similarity.ComputeSimBounds | collaborative_filtering.py:115-131 | Under a well-behaved test, every entry lies in [-1, 1], and in [0, 1] under `pearsonR+`. Users sharing fewer than two items have similarity 0. |
| Ranking.Entries | collaborative_filtering.py:141 | `list(row.items())` holds a pair exactly when its first part is a key of the row and its second part is that key's value. Since a dict's keys are distinct, no key appears twice. |
| Ranking.InsertPermutes | collaborative_filtering.py:142 | Inserting into the sorted list adds exactly that element. |
| Ranking.SortSorts | collaborative_filtering.py:142 | The sort permutes its input and orders it by non-increasing absolute similarity. |
| Ranking.SortStable | collaborative_filtering.py:142 | The sort is stable: entries of equal magnitude keep their relative order. |
| Ranking.Ranked | collaborative_filtering.py:141-142 | The ranking is a permutation of the row's entries, ordered by decreasing magnitude. |
| Ranking.RankedEntry | collaborative_filtering.py:141 | Every ranked neighbour is an entry of the row, with its similarity. |
| Predictor.Raters | collaborative_filtering.py:149 | The raters are exactly the ranked neighbours who scored the item. |
| Predictor.Take | collaborative_filtering.py:148 | The budgeted prefix has `min(k, n)` elements (none when `k <= 0`) and is a prefix. |
| Predictor.UsedIsNeighbours | collaborative_filtering.py:147-152 | The raters the loop picks up one at a time are exactly the first `num_neighbors` raters. |
| Predictor.ScanSums | collaborative_filtering.py:144-152 | From any loop state, the loop adds Σ score·sim, Σ\|sim\| and the count over the raters it uses with the remaining budget. |
| Predictor.Accumulate | collaborative_filtering.py:144-152 | Starting from zero, the loop sums exactly over the first `num_neighbors` raters of the item. It never uses more than `num_neighbors` of them, nor anyone who did not rate the item. |
| Predictor.AbsSumZero | collaborative_filtering.py:155-159 | When Σ\|sim\| = 0, the weighted sum is 0 too, so the mean-only branch loses nothing. |
| Predictor.PredictFormula | collaborative_filtering.py:154-159 | The prediction is Σ r·s / (2·Σ\|s\|) + mean/2 over the neighbours, or the mean alone when Σ\|s\| = 0. |
| Predictor.WeightedSumBounds | collaborative_filtering.py:150-151 | With non-negative similarities and scores in [lo, hi], the weighted sum lies between lo·Σ\|s\| and hi·Σ\|s\|. |
| Predictor.PredictWithinRange | collaborative_filtering.py:154-159 | With non-negative similarities, scores in [lo, hi] and a mean in [lo, hi], the prediction lies in [lo, hi]. |
| Completion.ConvertAllExact | collaborative_filtering.py:185 | A raising list comprehension succeeds if and only if every element converts, and then holds each image. Otherwise it raises the first failing element's error. |
| Completion.ResolveAllExact | collaborative_filtering.py:185 | `keys_in_id` exists if and only if every key resolves, and then holds each key's pair. Otherwise the first unresolvable key's error is raised. |
| Completion.ScoreAllExact | collaborative_filtering.py:186-191 | The loop stores exactly the requested pending pairs. A scorer success goes to the prediction dict with its value; a failure goes to the error dict with its exception. |
| Completion.PlainDistinctNames | collaborative_filtering.py:193 | In a catalog with distinct, separator-free identifiers, in-range pairs have distinct name keys. |
| Completion.CompleteIdsExact | collaborative_filtering.py:186-194 | When name keys tell the listed pairs apart, each pair ends up in exactly one place: nowhere if not pending; under its name key with the prediction; or under its index key with the exception. |
| Completion.CompleteWithFails | collaborative_filtering.py:185 | The tail of `complete_for` raises if and only if some key fails to resolve, with the first such key's error. |
| Completion.CompleteWithExact | collaborative_filtering.py:183-194 | A requested key ends up in one of three places. If its pair is not pending, it is nowhere. If the scorer succeeds, it is in the prediction dict under the key itself. If the scorer raises, it is in the error dict under its index key. |
| Completion.RenamedKey | collaborative_filtering.py:193 | An injective renaming keeps a stored pair's value under its new key and adds nothing under the new key of an unstored one. |
| Completion.ErrorKey | collaborative_filtering.py:191 | The error dict holds a pair's exception under its index key exactly when the pair failed. |
| Completion.CompleteWithOnlyRequested | collaborative_filtering.py:183-194 | Every result entry comes from a requested key. |
| Engine.New | collaborative_filtering.py:18-41 | The defaults are `pearsonR`, `user_based` and 3 neighbours. Construction succeeds if and only if the metric is valid, the method is `user_based` and every score key resolves. A bad selector raises `AssertionError`. The result is a well-formed model. |
| Engine.ScorePair | collaborative_filtering.py:135-162 | `_score_pair` fails exactly for an unknown user, a user without a mean entry, or a `None` mean. A user without a mean gives `ColdStartException`; otherwise the result is the blended prediction. |
| Engine.ColdStart | collaborative_filtering.py:154-161 | In a constructed model, an unrated user raises `ColdStartException`. A rated user is predicted from the mean of their scores. |
| Engine.CompleteForFails | collaborative_filtering.py:175-185 | `complete_for` raises if and only if some requested key does not resolve, with the error of the first such key. |
| Engine.CompleteForExact | collaborative_filtering.py:175-194 | For each requested key, one of three things holds. If its pair is already rated, it is absent from both dicts. If the user has ratings, it is predicted under the name key. Otherwise `ColdStartException` is recorded under the index key. |
| Engine.CompleteForOnlyRequested | collaborative_filtering.py:175-194 | Predictions are keyed by requested keys; errors by the index keys of requested pairs. |
| Engine.NamesAll | collaborative_filtering.py:172 | Converting index keys to names succeeds if and only if every pair is in range, and then yields the name keys. |
| Engine.NamesResolve | collaborative_filtering.py:172-173 | For distinct, separator-free identifiers, the name keys of in-range pairs resolve back to the same pairs. |
| Engine.PendingInRange | collaborative_filtering.py:59 | Every unrated pair is in range. |
| Engine.CompleteCovers | collaborative_filtering.py:165-173 | For distinct, separator-free identifiers, `complete()` succeeds. Every unrated pair is covered exactly once: a prediction under its name key, or `ColdStartException` under its index key. |
| Engine.CompleteRejectsSeparator | collaborative_filtering.py:165-173 | As written, `complete()` raises `ValueError` as soon as one unrated pair has an identifier containing `_`. |
| Engine.CompleteDirectCovers | collaborative_filtering.py:165-173 | The corrected completion covers every unrated pair exactly once whenever their name keys are distinct, whether or not identifiers contain `_`. |
| Engine.CompleteDirectAgrees | collaborative_filtering.py:165-194 | On distinct, separator-free identifiers, `complete()` as written returns exactly what the corrected completion returns. |
| Engine.SeparatorExample | collaborative_filtering.py:165-173 | Take one user `"a_b"`, one item `"x"` and no scores. `complete()` raises `ValueError`, while the corrected completion records `ColdStartException` for the pair. |
| Engine.RankingTies | collaborative_filtering.py:141-142 | Neighbours of equal magnitude keep row order: the user first, then ascending user index. |
| Engine.RankedNonNegative | collaborative_filtering.py:117-118 | Under `pearsonR+` and a well-behaved test, every ranked similarity is non-negative. |
| Engine.PredictionWithinScale | collaborative_filtering.py:141-162 | Under `pearsonR+`, a rated user's prediction lies within the range of the stored scores. |
| Legacy.UserScoresEmpty | models/collaborative_filtering.py:51 | The keys starting with a user's index are empty if and only if the user has no rating. |
| Legacy.LegacyMeansExact | models/collaborative_filtering.py:49-52 | Every in-range user has a mean entry. It is `None` if and only if the user has no rating, and otherwise it is the mean of the user's scores. |
| Legacy.MeansAgree | models/collaborative_filtering.py:49-52 | The older means agree with the current ones on rated users. Where the current class has no entry, the older class has `None`. |
| Legacy.CommonSet | models/collaborative_filtering.py:78-82 | The intersected set holds exactly the items both users rated. |
| Legacy.InnerLoopLast | models/collaborative_filtering.py:82-101 | Only the last write of the common-item loop is visible. Its keys sit where the first write put them. |
| Legacy.InnerLoopVisits | models/collaborative_filtering.py:82-101 | The whole inner loop is one write of the value over all common items, or nothing when there are none. |
| Legacy.LegacySweepIsSweep | models/collaborative_filtering.py:75-101 | The older loops are the shared sweep, writing exactly the pairs that have common items. |
| Legacy.LegacySim | models/collaborative_filtering.py:73-101 | The older `_compute_sim` equals the closed-form final dict of that sweep. |
| Legacy.HasCommonExact | models/collaborative_filtering.py:78-82 | A pair is written if and only if the two users share a rated item. The visited items are rated by both. |
| Legacy.LegacySimShape | models/collaborative_filtering.py:73-101 | A row holds a user if and only if that user is itself or shares a rated item with it. The dict is symmetric with a diagonal of 1. A written pair holds the stored similarity over all its common items. |
| Legacy.LegacySimBounds | models/collaborative_filtering.py:85-101 | Under a well-behaved test, entries lie in [-1, 1], and in [0, 1] under `pearsonR+`. Fewer than two common items give 0. |
| Legacy.LegacyPairBounds | models/collaborative_filtering.py:85-101 | The same bounds for a written pair `i < j`. |
| Legacy.LegacyNew | models/collaborative_filtering.py:9-52 | The defaults are `pearsonR`, `user_based` and 3 neighbours. Construction succeeds if and only if the metric is valid and every score key resolves; the method is not checked. The model's unrated pairs and means are the ones derived from its scores. |
| Legacy.LegacyScorePair | models/collaborative_filtering.py:105-129 | The older `_score_pair` raises `TypeError` for a `None` mean, and otherwise gives the blended prediction. |
| Legacy.LegacyColdStart | models/collaborative_filtering.py:124-128 | An unrated user raises `TypeError`. A rated user is predicted from the mean of their scores. |
| Legacy.LegacyCompleteCovers | models/collaborative_filtering.py:132-148 | Whenever the unrated pairs' name keys are distinct, every unrated pair is covered exactly once: a prediction under its name key, or `TypeError` under its index key. |
| Legacy.LegacyCompleteOnlyUnrated | models/collaborative_filtering.py:138-148 | Every entry of the older `complete()` comes from an unrated pair. |

## Left out

- **`scipy.stats.pearsonr`.** It is a parameter (`PearsonTest`); its numerics are not modelled. Whether it raises or warns is folded into `Raised`, and NaN results are not distinguished.
- **Arithmetic.** IEEE-754 doubles and numpy's `mean` are modelled as exact reals, so rounding and NaN are out of scope.
- **Output.** `tqdm` progress bars, the `verbose` printing and the `print` calls are left out: they do not affect results.
- **Demonstration blocks.** The `__main__` blocks of both files are left out: they are demonstrations with random input.
- **Exceptions.** Messages and instances are not kept. As with `sys.exc_info()[0]`, only the exception class is modelled.
- **Mutable state.** `_compute_sim` writes `self.sim_dict` and `complete_for` writes `self._pred_scores`. The model returns these values instead of storing them, so a model value is immutable.
- **`num_neighbors`.** It is an unbounded integer. The source passes it through untouched.
- **The older `method` argument.** It is accepted and never checked, as in the older class, which only stores it.
- KeyCodec.ParseInt: Python's `int()` also accepts a sign, surrounding whitespace and non-ASCII digits; the model accepts only ASCII digits. With `"-1"`, `_convert_pair2name` would index from the end of the list, where `Catalogs.Pair2Name` returns `ValueError`. No such key is reachable, because every index key is produced by `str` of a non-negative index.
- **Legacy non-integer prefixes.** The older class compares key prefixes with `str(i)`. The model reads the parsed index, which gives the same result because every index key is produced by `str`.

## Notes on the code

- **Duplicate identifiers.** Duplicates in `user_list` or `item_list` are not rejected, although a construction error for them would be the natural reading. `{name: idx for idx, name in enumerate(...)}` maps a duplicated name to its last position. `Catalogs.IndexOf` models that, and the round-trip lemmas state where distinctness is needed.
- **Zero-similarity raters.** A neighbour with similarity 0 who rated the item still uses one of the `num_neighbors` slots (`Predictor.Accumulate`).
- **Ties in the ranking.** Ties are broken by row order: the user first (similarity 1), then ascending user index (`Engine.RankingTies`).
- **The explicit `raise`.** In the current class, `raise ValueError(...)` for a high p-value lands in the `except ValueError` handler. In the older class, `raise (ValueError, "...")` raises a tuple. Python 3 turns that into `TypeError`, which the bare `except:` catches. Both store 0, as `Pearson.StoredSimilarity` states.
- **The `None` mean.** In the current class, `user_mean_score[i]` is only set for users with a `_user_items` entry, whose key list is never empty. So the `None` branch never fires (`RatingStore.MeanExact`).
- **Dead fallbacks.** `Completion.NameOf`, `Similarity.PairValue` and `Legacy.PrefixValue` each have a fallback branch. The lemmas show it is never taken on a constructed model.

## Findings

| source | as written | input that shows it | evidently intended | confidence | as-written member | corrected member |
|---|---|---|---|---|---|---|
| collaborative_filtering.py:172-173 | `complete()` turns every unrated index pair into a name key and sends it through `complete_for`, whose `_convert_pair2id` splits it on `_`. Any identifier containing `_` makes that split yield three or more parts, and `complete()` raises `ValueError`. | users `["a_b"]`, items `["x"]`, empty score dict: the one unrated pair `(0, 0)` has the distinct name key `"a_b_x"`, yet `complete()` raises | predict or record every unrated pair, as the older `complete()` does by scoring the index pairs directly | medium, not executed | Engine.CompleteRejectsSeparator | Engine.CompleteDirectCovers |

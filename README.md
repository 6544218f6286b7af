# Strike de-duplication and smile preparation

This project models the input-cleaning core of the risk-neutral density
script `test.py`. Option quotes for one expiry arrive as two parallel columns,
strike prices and implied volatilities.

- `remove_duplicates` pairs the columns up with `zip`. It gathers the
  volatilities quoted at each strike in a dictionary. It then returns each
  strike once, in the dictionary's insertion order, with the arithmetic mean
  of that strike's volatilities.
- The top of `compute_rnd` de-duplicates the quotes first. It then takes the
  permutation `np.argsort` returns for the strikes and reorders both columns
  by that one permutation, so the code sorts both columns by strike before
  interpolating (test.py:46-49).

The model is split into four modules:

- `Seqs` (`seqs.dfy`) holds facts about sequences. `Distinct` keeps each value
  at its first occurrence, which is the key order of a Python dictionary
  filled left to right. The module also proves that a strictly increasing
  listing of a set of values is unique.
- `Stats` (`stats.dfy`) defines `Sum` and `Mean` (`np.mean`) on exact reals.
- `Dedup` (`dedup.dfy`) has a specification function, `Deduplicated`. It also
  has the source's two loops as imperative methods proved against it:
  `GroupByStrike` fills the dictionary and `AverageGroups` emits the means.
  The dictionary is an insertion-ordered key sequence together with a
  `map<real, seq<real>>` of lists.
- `Prepare` (`prepare.dfy`) models `np.argsort` as `ArgSort`, numpy fancy
  indexing as `Reindex`, and the whole preparation as `Prepared`.

Volatilities and strikes are exact reals. Two strikes are the same dictionary
key exactly when they are equal.

## Model

| member | source | states |
|---|---|---|
| Seqs.Distinct | test.py:80-85 | the dictionary's keys: exactly the values of the input, none twice, no more of them than inputs |
| Seqs.DistinctKeepsFirstOccurrenceOrder | test.py:80-90 | dictionary keys come out in the order of each strike's first occurrence in the input |
| Seqs.DistinctCardinality | test.py:80-85 | the dictionary has one key per distinct input strike |
| Seqs.DistinctOfNoDups | test.py:80-85 | pairwise distinct strikes become keys in their input order, unchanged |
| Seqs.StrictlyIncreasingUnique | test.py:47-48 | two strictly increasing sequences with the same values are equal, so a sorted strike column is unique |
| Stats.MeanWithin | test.py:91 | the mean of volatilities lying in [lo, hi] lies in [lo, hi] |
| Stats.Mean | test.py:91 | `np.mean` of a non-empty list lies between its smallest and its largest value |
| Dedup.Paired | test.py:81 | `zip` pairs up no more entries than either column holds, and exactly as many as the shorter one |
| Dedup.Deduplicated | test.py:69-93 | the result of `remove_duplicates`: two columns of equal length, no strike twice, and a value is a returned strike if and only if it is a paired input strike |
| Dedup.GatheredAppend | test.py:82-83 | appending the next volatility to the list of a strike already in the dictionary keeps the dictionary equal to the keys and lists of the pairs read so far |
| Dedup.GatheredOpen | test.py:84-85 | opening a one-element list for a strike not yet in the dictionary adds it as the newest key and keeps the dictionary equal to the keys and lists of the pairs read so far |
| Dedup.Group | test.py:82-85 | the list gathered for strike k over the first m pairs is non-empty exactly when k occurs among those m strikes |
| Dedup.GroupByStrike | test.py:80-85 | the first loop yields the keys in first-occurrence order, a map whose keys are exactly those strikes, and for each key the non-empty list of its volatilities in input order |
| Dedup.AverageGroups | test.py:87-93 | the second loop returns the keys unchanged and, at each position, the mean of that key's list |
| Dedup.RemoveDuplicates | test.py:69-93 | the two loops together return exactly `Deduplicated` of the inputs |
| Dedup.DedupIgnoresUnpairedTail | test.py:81 | entries beyond the shorter column, which `zip` never pairs, do not affect the result |
| Dedup.DedupLengths | test.py:87-93 | both returned columns have one entry per distinct paired input strike |
| Dedup.DedupFirstOccurrenceOrder | test.py:80-90 | returned strikes appear in the order of their first occurrence in the input |
| Dedup.GroupCountsAndSums | test.py:82-85 | the list gathered for k has one entry per pair quoted at k and sums to those pairs' volatilities |
| Dedup.DedupAveragesEachStrike | test.py:82-91 | each returned volatility is the sum of all input volatilities quoted at its strike divided by how many there are, and that count is positive |
| Dedup.GroupWithin | test.py:82-85 | a gathered list holds only volatilities from the paired input, so bounds on those volatilities bound it |
| Dedup.DedupVolsWithinObserved | test.py:91 | if every paired input volatility lies in [lo, hi], so does every returned volatility |
| Dedup.GroupOfUniqueStrike | test.py:82-85 | a strike quoted once gathers exactly its one volatility |
| Dedup.DedupOfDistinctStrikes | test.py:80-93 | with pairwise distinct strikes the result is the paired input, unchanged |
| Dedup.DedupIdempotent | test.py:69-93 | de-duplicating a de-duplicated result returns it unchanged |
| Dedup.ExampleStrikes | test.py:80-85 | strikes [90, 95, 95, 100] give the keys [90, 95, 100] |
| Dedup.ExampleGroup90 | test.py:82-85 | in that example strike 90 gathers [0.22] |
| Dedup.ExampleGroup95 | test.py:82-85 | in that example strike 95 gathers [0.20, 0.24] |
| Dedup.ExampleGroup100 | test.py:82-85 | in that example strike 100 gathers [0.18] |
| Dedup.ExampleMean95 | test.py:91 | the mean of [0.20, 0.24] is 0.22 |
| Dedup.DedupExample | test.py:80-93 | strikes [90, 95, 95, 100] with volatilities [0.22, 0.20, 0.24, 0.18] give [90, 95, 100] with [0.22, 0.22, 0.18] |
| Prepare.Insert | test.py:47 | inserting an index yields a list one longer, with valid indices, holding the old indices and the new one |
| Prepare.SortPrefix | test.py:47 | the index list for a prefix of length m has length m and holds exactly the indices below m |
| Prepare.ArgSort | test.py:47 | `np.argsort` returns as many indices as there are keys, each valid, and every index of the keys occurs |
| Prepare.InsertSorted | test.py:47 | inserting into an index list sorted by key keeps it sorted |
| Prepare.InsertNoDups | test.py:47 | inserting a new index keeps the indices distinct |
| Prepare.SortPrefixSortsAndIsDistinct | test.py:47 | the prefix index list holds no index twice and reads the keys in non-decreasing order |
| Prepare.ArgSortSortsPermutation | test.py:47 | `np.argsort` returns a permutation of the indices that reads the keys in non-decreasing order |
| Prepare.Reindex | test.py:48-49 | indexing a column by a list of positions gives one entry per position, each taken from the column |
| Prepare.Prepared | test.py:44-49 | the prepared columns have equal length, the strikes are strictly increasing, and a value is a prepared strike if and only if it is a paired input strike |
| Prepare.ReindexSortedDistinct | test.py:47-48 | indexing distinct strikes by a sorting permutation gives a strictly increasing column |
| Prepare.ReindexSameValues | test.py:48 | indexing by a permutation keeps exactly the same values |
| Prepare.ReindexKeepsPairs | test.py:47-49 | indexing two parallel columns by one permutation keeps exactly the same set of (strike, volatility) pairs |
| Prepare.PreparedLengths | test.py:44-49 | both prepared columns have one entry per distinct paired input strike |
| Prepare.PreparedKeepsPairs | test.py:44-49 | the prepared columns hold exactly the (strike, volatility) pairs that `remove_duplicates` returned |
| Prepare.PreparedAveragesEachStrike | test.py:44-49 | each prepared volatility is the mean of all input volatilities quoted at the strike beside it |
| Prepare.PreparedStrikesDetermined | test.py:46-48 | any strictly increasing listing of the paired input strikes equals the prepared strikes, however ties would be broken |
| Prepare.PreparedExample | test.py:44-48 | strikes [100, 95, 90, 95] are prepared as [90, 95, 100] |

## Left out

- `black_scholes_call` (test.py:9-25) uses floating-point `log`, `exp`, `sqrt` and SciPy's `norm.cdf`. These are foreign numeric calls with no exact contract to state.
- The rest of `compute_rnd` (test.py:51-67) is left out. It covers cubic `interp1d` with extrapolation, the `np.linspace` grid over `min(strikes)`..`max(strikes)`, and the two `np.gradient` passes. These are floating-point NumPy/SciPy numerics whose code is not part of this model. The error they raise on empty or too-short input (for example fewer than four points for a cubic fit) is not modelled either: the model has no error case for short input.
- `main` in test.py (test.py:97-127) is I/O, a clock and a user interface: a CSV read, interactive `input`, `pd.Timestamp.today()` and plotting.
- CBOEDownloader.py, YFinanceDownloader.py and main.py are left out. They are browser automation, network downloads, file handling and interactive prompts. The `RNDCalculator` and `VolSurfaceCalculator` modules that main.py imports are not part of this model.
- Floating point is not modelled. Strikes and volatilities are exact reals, so float rounding in `np.mean` is left out. NaN keys, which a dictionary would never match, are also left out.
- Prepare.ArgSort picks the stable order (equal keys keep their input order). `np.argsort` uses a non-stable sort by default. The prepared strikes are pairwise distinct, so every sorting permutation gives the same result (`Prepare.PreparedStrikesDetermined`), and the tie order never matters here.
- Prepare.PreparedExample states only the prepared strikes of its example. The volatilities beside them follow from `Prepare.PreparedAveragesEachStrike`, which holds for every input.
- `remove_duplicates` returns numpy arrays. The model returns sequences of the same contents.

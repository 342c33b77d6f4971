# Mallows EDA core, modelled in Dafny

This project models the core of `mallows-eda`, an estimation-of-distribution
algorithm for permutation problems such as the travelling salesman problem.
It models these pieces:

- The Kendall-tau metric (`KendallTau`).
- The Mallows sampler and its batch form (`Mallows.sample`, `Mallows.sample_n`).
- The centre estimator `estimate_mean` and the empirical `V_hat` counts behind `estimate_theta`.
- The selection weights: top-k, linear ranking and adaptation roulette.
- The TSPLIB file helpers nested in `read_tsp_file`, with their slicing and dispatch.
- The experiment-configuration generator.

Permutations are `seq<nat>`.

- **Argsort:** numpy's `argsort` of a permutation is its inverse (`Inverse`).
- **Indexing:** `p[idx]` is `Relabel(p, idx)`.
- **General argsort:** `argsort` of real objectives is a stable insertion sort that is proved to satisfy the order specification `IsArgsort`. numpy's default sort promises no order among tied keys, so the model fixes one admissible tie order (see Left out).
- **Errors:** an exception the source raises is `None` or `Fail` in the model.
- **Randomness:** every random draw becomes an input.
  - The sampler takes its stage choices `r_j` as a vector.
  - The selection operators return the probability vectors that `np.random.choice` is handed.

Modules:

| file | module | models |
|---|---|---|
| `options.dfy` | `Options` | optional results |
| `perms.dfy` | `Permutations` | ranges, permutations, inverse, relabelling, sums |
| `inversions.dfy` | `InversionCount` | the inversion count of the metric's loop, as a number and as a set of pairs |
| `argsort.dfy` | `Sorting` | stable argsort |
| `metrics.dfy` | `Metrics` | `src/mallows/metrics.py` |
| `distribution.dfy` | `Distribution` | `Mallows.sample`, `sample_n`, Lehmer codes |
| `utils.dfy` | `Estimation` | `estimate_mean`, `V_hat` and `V` |
| `selection.dfy` | `Selection` | `src/mallows/selection.py` |
| `tsplib.dfy` | `Tsplib` | the helpers of `read_tsp_file` |
| `configs.dfy` | `ExperimentConfigs` | `experiments/generate_experiment_configs.py` |

Where the code departs from the standard definitions of the algorithms it implements, the model follows the code:

- **Linear ranking.** In linear ranking selection the best individual is drawn with probability `β/N` and the worst with `α/N`, linearly in between by rank, with `α + β = 2`. The code weights by the index array `argsort(...)[::-1]`, not by rank, and its factory admits `α + β < 2`. See Findings.
- **Sampler centre.** The Mallows model `P(σ) ∝ exp(-θ d(σ, σ₀))` has its mode at the centre `σ₀` when θ > 0. The code's sampler, with every choice zero (its most likely draw when θ > 0), returns `argsort(σ₀)`. That equals `σ₀` exactly when `σ₀` is an involution (`SampleCentreMismatch`). `estimate_mean` inverts that convention again (`EstimateMeanOfModalDraws`).

## Model

| member | source | states |
|---|---|---|
| Metrics.Call | src/mallows/metrics.py:7-13 | For any `q` (ties in `q` ordered as the stable argsort orders them), the call fails exactly when `p` is shorter than `q` (IndexError) or `n` exceeds `|q|`. Otherwise it sums, over the first `n` positions `i` of `p[argsort(q)]`, the later entries below position `i`; the sum is at most `n(2|q|-n-1)/2`. For a permutation `q` with `n == |p| == |q|`, it is the Kendall distance. |
| Metrics.SumRows | src/mallows/metrics.py:10-12 | The loop's running total is the sum of the first `k` row counts. |
| Metrics.CountRow | src/mallows/metrics.py:12 | `np.sum(s[i+1:] < s[i])` counts the later entries below `s[i]`, at most `|s|-1-i`. |
| Sorting.ArgsortPermIsInverse | src/mallows/metrics.py:8 | `argsort` of a permutation is its inverse permutation. |
| Sorting.ArgsortOfPerm | src/mallows/metrics.py:8 | Any order-respecting argsort of a permutation is its inverse, whatever the tie rule. |
| Metrics.DistanceIsDiscordance | src/mallows/metrics.py:7-13 | The distance equals the number of item pairs that `p` and `q` order oppositely. |
| Metrics.DistanceSelf | src/mallows/metrics.py:7-13 | `d(p, p) = 0`. |
| Metrics.DistanceZeroIff | src/mallows/metrics.py:7-13 | For permutations, `d(p, q) = 0` if and only if `p == q`. |
| Metrics.DistanceSymmetric | src/mallows/metrics.py:7-13 | `d(p, q) = d(q, p)`. |
| Metrics.DistanceTriangle | src/mallows/metrics.py:7-13 | `d(p, q) <= d(p, r) + d(r, q)`. |
| Metrics.DistanceRightInvariant | src/mallows/metrics.py:7-13 | Relabelling both arguments by the same permutation keeps the distance. |
| Metrics.DistanceToIdentity | src/mallows/metrics.py:7-13 | The distance to the identity is the inversion count of `p`. |
| Metrics.DistanceBound | src/mallows/metrics.py:7-13 | The distance is at most `n(n-1)/2`. |
| InversionCount.InversionsArePairs | src/mallows/metrics.py:11-12 | The loop's total equals the number of position pairs `i < j` with `s[j] < s[i]`. |
| InversionCount.InversionsZeroIffSorted | src/mallows/metrics.py:11-12 | The total is zero if and only if the sequence is non-decreasing. |
| InversionCount.LeadingInversionsBound | src/mallows/metrics.py:11-12 | The first `k` rows count at most `k(2n-k-1)/2`. |
| Distribution.Decode | src/mallows/distribution.py:14-21 | Placing the chosen pool entries position by position yields a permutation of `0..n-1`. |
| Distribution.SampleByDeletion | src/mallows/distribution.py:13-23 | The loop that deletes each chosen value from the pool computes `Sample`: the decoded ranking read at `argsort(sigma_0)`. |
| Distribution.Sample | src/mallows/distribution.py:13-23 | Fails exactly for an empty centre (`possible_values[0]` on the empty list raises `IndexError`); otherwise returns a permutation of the centre's size. |
| Distribution.RemoveKeepsIncreasing | src/mallows/distribution.py:20 | `del possible_values[r_j]` keeps the pool ascending and shrinks it by one. |
| Distribution.CountBelowInPool | src/mallows/distribution.py:19-20 | The value taken at pool index `k` has exactly `k` smaller values left in the pool. |
| Distribution.DecodeLehmer | src/mallows/distribution.py:14-21 | The choice vector is recovered from the ranking as its Lehmer code. |
| Distribution.EncodeDecode | src/mallows/distribution.py:14-21 | Every permutation's Lehmer code is a valid choice vector, and it decodes back to the permutation. |
| Distribution.DecodeInjective | src/mallows/distribution.py:14-21 | Distinct choice vectors give distinct rankings. |
| Distribution.InversionsOfDecode | src/mallows/distribution.py:16-21 | The ranking has exactly `sum r_j` inversions, the exponent that the stage weights `exp(-theta * r_j)` multiply to. |
| Distribution.SampleThroughCentre | src/mallows/distribution.py:22 | Reading the sample at the positions `sigma_0` gives back the decoded ranking. |
| Distribution.SampleDistance | src/mallows/distribution.py:13-23 | The sample's Kendall distance to `argsort(sigma_0)` is `sum r_j`. |
| Distribution.SampleSurjective | src/mallows/distribution.py:13-23 | Every permutation of the centre's size is the sample of some valid choice vector. |
| Distribution.SampleInjective | src/mallows/distribution.py:13-23 | Different choice vectors give different samples. |
| Distribution.ZeroChoicesSampleInverse | src/mallows/distribution.py:14-22 | With every choice zero (the most likely draw when θ > 0), the sample is `argsort(sigma_0)`. |
| Distribution.SampleCentreMismatch | src/mallows/distribution.py:13-23 | The most likely sample equals `sigma_0` if and only if `sigma_0` is an involution. |
| Distribution.CentreMismatchWitness | src/mallows/distribution.py:13-23 | For `sigma_0 = [1,2,0]`, the zero-choice sample is `[2,0,1]`, which lies at distance 2 from the centre. |
| Distribution.SampleN | src/mallows/distribution.py:25-26 | One sample per choice vector, each a permutation equal to `Sample` of its vector. Fails only for a non-empty batch with an empty centre. |
| Estimation.EstimateMean | src/mallows/utils.py:4-8 | The estimate is a permutation of the column indices and an argsort of the plain column sums: the `+1` shift and the division by `m` do not change the order. With no samples it is still a permutation, of `n` tied (NaN) keys. |
| Estimation.ColumnMeans | src/mallows/utils.py:5-6 | Computed as the column sums of the shifted matrix `samples + 1` divided by `m`; entry `j` equals the closed form `(sum_j + m) / m` of the plain column sum. |
| Sorting.ArgsortOrderInvariant | src/mallows/utils.py:5-7 | Two value lists ordered alike have the same argsorts. |
| Estimation.EstimateMeanOfCopies | src/mallows/utils.py:4-8 | `m` copies of a permutation `s` estimate `argsort(s)`. |
| Estimation.EstimateMeanRoundTrip | src/mallows/utils.py:4-8 | `m` copies of `argsort(sigma_0)` estimate `sigma_0`. |
| Estimation.EstimateMeanOfModalDraws | src/mallows/utils.py:4-8 | Estimating from copies of the sampler's most likely draw returns the centre `sigma_0`. |
| Estimation.VHatNumerators | src/mallows/utils.py:41-48 | Fails exactly for an empty centre (`np.zeros(-1)`); otherwise there are `n - 1` counts. |
| Estimation.VHat | src/mallows/utils.py:41-48 | Fails exactly for an empty centre (`np.zeros(-1)`) or for no samples with a centre of two or more positions (division by `m = 0`). A one-position centre gives `[]` whatever the samples. Otherwise entry `i` times `m` is the number of (sample, later position) pairs where the relabelled sample drops below position `i`. |
| Estimation.Quotients | src/mallows/utils.py:45-47 | Dividing the counts by `m` is undone by multiplying by `m`. |
| Estimation.VHatBound | src/mallows/utils.py:44-48 | `0 <= V_hat[i] <= n - 1 - i`. |
| Estimation.RowTotalBound | src/mallows/utils.py:46 | Row `i` counts at most `m(n-1-i)` pairs. |
| Estimation.VNumeratorIsTotalDistance | src/mallows/utils.py:41-49 | `m * V` is the total Kendall distance of the samples from `sigma_0`. |
| Estimation.VBounds | src/mallows/utils.py:41-49 | `m * V` is at most `m n(n-1)/2`, and it is zero if and only if every sample equals the centre. |
| Estimation.TotalDistanceZeroIff | src/mallows/utils.py:41-49 | The total distance is zero if and only if every sample is `sigma_0`. |
| Estimation.TotalDistanceBound | src/mallows/utils.py:41-49 | The total distance is at most `m n(n-1)/2`. |
| Sorting.Argsort | src/mallows/selection.py:5 | The result lists each index once, in non-decreasing order of the objective values. |
| Selection.SliceStop | src/mallows/selection.py:5 | `[:k]` keeps `min(k, N)` entries for `k >= 0`, and drops `|k|` from the end (clipped at 0) for negative `k`. |
| Selection.TopK | src/mallows/selection.py:4-5 | `SliceStop(k, N)` indices, exactly `k` for `0 <= k <= N`, and a whole argsort for `k >= N`. The indices are distinct and valid and listed best first. Every unselected individual is no better than every selected one. |
| Selection.MakeLinearRanking | src/mallows/selection.py:8-9 | The factory succeeds exactly when `0 <= alpha <= beta <= 2` and `alpha + beta <= 2`. |
| Selection.LinearWeightsAsWritten | src/mallows/selection.py:9-14 | The weights as the code computes them from `argsort(...)[::-1]`, failing at `N == 1` (`0/0`). Each weight lies in `[alpha/N, beta/N]` and the total is `(alpha+beta)/2`, so they form a distribution if and only if `alpha + beta == 2`. |
| Selection.LinearWeightsAsWrittenMisranks | src/mallows/selection.py:13-14 | On objectives `[1,0,2,3]` with `alpha=0, beta=2`, the best individual gets weight `1/3` while the second-best gets `1/2`, and the third gets 0 instead of the worst. |
| Selection.LinearWeights | src/mallows/selection.py:11-14 | The corrected weights apply the affine rank weight to each individual's rank, where the worst has rank 0. The best individual gets `beta/N` and the worst `alpha/N`. A strictly better individual never gets less weight. Every weight lies in `[alpha/N, beta/N]`, and the total is `(alpha+beta)/2`. The weights form a distribution if and only if `alpha + beta == 2`. |
| Selection.RanksArePerm | src/mallows/selection.py:13 | The ranks are a permutation of `0..N-1`. |
| Selection.BetterRanksHigher | src/mallows/selection.py:13 | A strictly better objective gets a strictly higher rank. |
| Selection.RankWeightBounds | src/mallows/selection.py:14 | A rank's weight lies between `alpha/N` and `beta/N`. |
| Selection.RankWeightMonotone | src/mallows/selection.py:14 | The weight does not decrease with rank. |
| Selection.FactoryAdmitsDeficientWeights | src/mallows/selection.py:9-15 | The assertion accepts `alpha=0, beta=1`, whose weights sum to `0.5`, so they are no distribution and the draw rejects them. |
| Selection.MakeLinearRankingChecked | src/mallows/selection.py:9-15 | The corrected factory accepts exactly `0 <= alpha <= beta <= 2` with `alpha + beta == 2`. For every population of two or more, each selection it builds gives weights that form a probability vector, both the corrected weights and the weights as written. |
| Selection.CheckedFactoryWeightsAreDistributions | src/mallows/selection.py:9-15 | For parameters the corrected factory accepts, the corrected weights and the weights as written are probability vectors for every population of two or more. |
| Selection.Max | src/mallows/selection.py:32 | `max()` is an entry of the array and bounds every entry. |
| Selection.RouletteRaw | src/mallows/selection.py:32-33 | Entry `i` is `worst - obj[i]`. Every entry is non-negative, zero exactly for the individuals with the worst objective, and `obj[i] <= obj[j]` exactly when entry `i` is at least entry `j`. |
| Selection.RouletteWeights | src/mallows/selection.py:30-35 | Fails exactly for an empty population (`max` of an empty array) or when all objectives are equal (the total is zero, so NaN). Otherwise the weights are non-negative and sum to 1, the worst individuals get 0, and a better or equal objective never gets less weight. |
| Tsplib.Split | src/mallows/tsp_utils.py:10 | `str.split()` yields non-empty words without whitespace. |
| Tsplib.SplitJoin | src/mallows/tsp_utils.py:31 | Splitting words joined by single spaces returns the words. This is also why `filter(x != "")` removes nothing. |
| Tsplib.ParseInt | src/mallows/tsp_utils.py:10 | A parsed token is non-empty. |
| Tsplib.ParseShowInt | src/mallows/tsp_utils.py:10 | `int(str(v)) == v` for every integer. |
| Tsplib.ParseIntRejects | src/mallows/tsp_utils.py:10 | `int()` rejects an empty string, a lone sign, `DIMENSION:29` and a doubled underscore, and accepts `1_0` as 10. |
| Tsplib.FirstMatch | src/mallows/tsp_utils.py:22-25 | Returns the first line starting with the key; `None` if and only if no line does. |
| Tsplib.FirstMatchUnique | src/mallows/tsp_utils.py:22-25 | A line that starts with the key, with no earlier such line, is the one found. |
| Tsplib.HeaderValue | src/mallows/tsp_utils.py:12-20 | Missing exactly when no line starts with the key; otherwise a word. |
| Tsplib.HeaderValueOfLine | src/mallows/tsp_utils.py:12-20 | The value is the last word of the first matching line. |
| Tsplib.EdgeWeightType | src/mallows/tsp_utils.py:12-16 | Missing exactly when no line starts with `EDGE_WEIGHT_TYPE`; otherwise a whitespace-free token. |
| Tsplib.EdgeWeightFormat | src/mallows/tsp_utils.py:17-20 | Missing exactly when no line starts with `EDGE_WEIGHT_FORMAT`; otherwise a whitespace-free token. |
| Tsplib.Dimension | src/mallows/tsp_utils.py:7-10 | `None` exactly when no `DIMENSION` line exists. Otherwise it is the integer that the last word parses to, or a failure. |
| Tsplib.DimensionRoundTrip | src/mallows/tsp_utils.py:7-10 | A `DIMENSION : v` header reads back as `v`. |
| Tsplib.ParseRow | src/mallows/tsp_utils.py:30-32 | One integer per word, each the word's `int()`. |
| Tsplib.ParseWords | src/mallows/tsp_utils.py:31 | `None` if and only if some word is not an integer. |
| Tsplib.ParseRows | src/mallows/tsp_utils.py:29-32 | Every line parsed; `None` if and only if some line has a non-integer word. |
| Tsplib.UpperRowLoop | src/mallows/tsp_utils.py:28-35 | The row-by-row assignments build the matrix `UpperRowMatrix`. |
| Tsplib.UpperRow | src/mallows/tsp_utils.py:27-35 | Succeeds if and only if `n >= 0`, every word parses, and line `i` fits the `n-1-i` cells right of the diagonal (a single value broadcasts). The result is a symmetric `n x n` matrix with a zero diagonal, holding line `i` in row `i`, and zeros in rows past the last line. |
| Tsplib.FullMatrix | src/mallows/tsp_utils.py:37-44 | Succeeds if and only if `n >= 0`, every word parses, there are at most `n` lines, and each line has `n` numbers or one. The result is an `n x n` matrix whose row `i` is line `i` and whose remaining rows are zero. |
| Tsplib.FullMatrixLoop | src/mallows/tsp_utils.py:38-44 | The row assignments build `FullMatrixOf`. |
| Tsplib.FullMatrixRowIsLine | src/mallows/tsp_utils.py:40-43 | A line of exactly `n` words is read back as its matrix row. |
| Tsplib.TourNode | src/mallows/tsp_utils.py:80 | Defined if and only if the line's first word is an integer whose predecessor fits in int64; the value is that predecessor. |
| Tsplib.TourNodeRoundTrip | src/mallows/tsp_utils.py:80 | A line holding node `v` reads back as `v - 1`. |
| Tsplib.OptimalTour | src/mallows/tsp_utils.py:77-81 | Succeeds if and only if `n >= 0`, there are at most `n` lines, and each gives a node. The result has length `n`, holds the nodes in line order, and is zero after them. |
| Tsplib.Slice | src/mallows/tsp_utils.py:96 | Python slicing with clipped bounds: `s[lo:hi]` in range, `s[lo:]` when only `hi` runs past the end, and empty when `lo` is at or past the end or `hi <= lo`. |
| Tsplib.UpperRowSection | src/mallows/tsp_utils.py:93-97 | A matrix only with a found section and `n >= 0`. When in range, it reads exactly the lines `loc+1 .. loc+n-1`; in a truncated file, the lines from `loc+1` to the end, or none. |
| Tsplib.FullMatrixSection | src/mallows/tsp_utils.py:98-102 | A matrix only with a found section and `n >= 0`. When in range, it reads exactly the lines `loc+1 .. loc+n`; in a truncated file, the lines from `loc+1` to the end, or none. |
| Tsplib.ExplicitMatrix | src/mallows/tsp_utils.py:92-102 | An explicit matrix exists only for the `UPPER_ROW` or `FULL_MATRIX` format with an `EDGE_WEIGHT_SECTION`. It is square. |
| Tsplib.ReadWeights | src/mallows/tsp_utils.py:88-108 | Success needs a parsed non-negative dimension. The EUC_2D branch succeeds if and only if the dimension is valid and `NODE_COORD_SECTION` exists. An explicit result needs the `EXPLICIT` type and `DISPLAY_DATA_SECTION`, and is square. |
| Tsplib.ReadExplicit | src/mallows/tsp_utils.py:92-103 | An explicit file is read by the builder its format names; without display data, or with another format, it fails. |
| Tsplib.TourSection | src/mallows/tsp_utils.py:110-115 | The tour has the dimension's length and is read from exactly the `n` lines after `TOUR_SECTION`, or in a truncated file from the lines after it up to the end. |
| Tsplib.ReadTsp | src/mallows/tsp_utils.py:83-118 | The tour is present if and only if the path ends in `tour.tsp`. The weights are those of `ReadWeights`, and a path without that suffix fails only where the weights do. A path ending in `tour.tsp` succeeds exactly when the weights and the `TOUR_SECTION` tour are both read. |
| ExperimentConfigs.GenerateConfig | experiments/generate_experiment_configs.py:6-19 | Every argument lands in its field, except that the seed is always 42. |
| ExperimentConfigs.GenerateExperiment | experiments/generate_experiment_configs.py:21-33 | Six configurations. Configuration `k` has population `size * 10^(k/2+1)`, selection a tenth of that, offspring one less, 100000 iterations, restart threshold 100 or 250 in turn, and series letter `k`. |
| ExperimentConfigs.PopulationTenth | experiments/generate_experiment_configs.py:24-25 | `(size * 10^(i+1)) // 10 == size * 10^i`, also for a negative size. |

## Left out

- Random draws. `np.random.choice` inside `sample` and the selection operators is replaced by inputs: the stage choices `r_j` and the returned probability vectors.
- The sampler's probabilities. The floating-point stage distributions `exp(-theta r)/V_j` are not modelled, and neither are `_compute_V`, `_compute_normalization_constant` or `probability`. Whether a draw follows them is a property of numpy's sampler.
- `estimate_theta`'s Newton-Raphson solver and its functions `f` and `f_prime`. These are floating-point root finding; only the `V_hat` counts and their sum `V` that feed it are modelled.
- `exponential_ranking_selection`. It uses `np.exp` in floating point, outside the model's exact reals.
- The EDA loop (`eda.py`), the example runner and the data downloader. They are callers and I/O, not part of the core.
- File I/O: `open`, `readlines` and `json.dump`. A file is its list of lines, and a configuration is a record.
- Coordinate reading (`get_coords`) and Euclidean distances (`get_dist_matrix_from_coords`). These are floating point; `Weights.FromCoordinates` marks that branch.
- `plot_solution`. It is plotting only.
- Tsplib.ReadWeights: does not model the failure of `float()` on a malformed coordinate line, or of a coordinate line with the wrong number of values, because coordinate reading is left out.
- Tsplib.ParseInt: accepts ASCII digits only, whereas Python's `int()` also accepts other Unicode decimal digits. It also has no 4300-digit limit.
- Tsplib.UpperRow: numpy stores the matrix as float64. The model keeps exact integers, so entries beyond 2^53 are not rounded as the source rounds them.
- Tsplib.FullMatrix: the same float64 storage is not modelled, for the same reason.
- Estimation.EstimateMean: the column means are exact rationals rather than float64. Ties between different column sums that float rounding could create are not modelled. With no samples numpy's means are NaN; the model returns the argsort of `n` equal keys, one of the permutations numpy may return.
- Estimation.VHat: with no samples and a centre of two or more positions, numpy's `0 / 0` gives NaN entries; this is modelled as a failure. A one-position centre produces no NaN and is modelled as `[]`.
- Selection.RouletteWeights: integer-typed objectives make numpy's in-place `/=` raise. The model uses real objectives only.
- Selection.LinearWeightsAsWritten: the `0/0` at `N == 1` gives NaN weights, which the draw rejects. This is modelled as a failure.
- Distribution.SampleN: `np.array` of the rows is a list of rows here.
- Distribution.Sample: `pi = np.zeros(n)` makes the sample a float64 array; the model returns natural numbers. At `theta == 0` `_compute_V` divides 0 by 0, so every stage weight is NaN and any draw with `n >= 2` raises; the model takes its choices as inputs and does not reproduce that failure.
- Sorting.Argsort: numpy's default argsort (introsort, or a vectorised sort on some CPUs) may return any order among tied keys, while the model fixes the stable order. Metrics.Call, Selection.TopK, Selection.LinearWeightsAsWritten and Estimation.EstimateMean are defined through it, so on tied inputs their exact index sequence is one admissible answer of several. Their contracts that rest on `IsArgsort` hold for every tie order: Sorting.ArgsortOfPerm, the selection facts of Selection.TopK, the column-sum order of Estimation.EstimateMean, and the bounds and sums of the linear-ranking weights. Selection.LinearWeights uses true ranks from the stable argsort, so tied individuals get distinct ranks there as well.

## Findings

| source | as written | input that shows it | evidently intended | confidence | as-written member | corrected member |
|---|---|---|---|---|---|---|
| src/mallows/selection.py:13-14 | The weights use `np.argsort(obj)[::-1]`, an index array, as if it held each individual's rank. | `obj = [1, 0, 2, 3]`, `alpha = 0`, `beta = 2`: weights `[1/2, 1/3, 0, 1/6]`. The best (index 1) gets `1/3`, and index 2 gets 0 although index 3 is the worst. | Weight `(alpha + rank/(N-1) (beta-alpha))/N` by rank, with the best at `beta/N` and the worst at `alpha/N` (ranks are `argsort(argsort(-obj))`). | not executed | Selection.LinearWeightsAsWrittenMisranks | Selection.LinearWeights |
| src/mallows/selection.py:9 | The factory asserts `alpha + beta <= 2`, but weights sum to `(alpha+beta)/2`, and `np.random.choice` needs them to sum to 1. | `alpha = 0`, `beta = 1`: accepted, weights sum to `0.5`, and the draw raises `ValueError`. | Accept exactly `alpha + beta == 2`. | not executed | Selection.FactoryAdmitsDeficientWeights | Selection.MakeLinearRankingChecked |

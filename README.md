# Balanced team pairing and polynomial feature tables, in Dafny

This project models two small Python programs and proves what they promise.

**Team pairing** (`daletski_denis_task_1_src/task1.py`) draws a tournament round.
Teams are numbered by input position and have integer ratings. `matching`
sorts the teams by rating; the sort is stable, so ties keep input order.
With an even number of teams, `even_matching` pairs sorted neighbours
(0, 1), (2, 3), and so on. With an odd number, `odd_matching` first picks the
team to leave out (the bye). It builds two prefix sums of neighbour gaps,
`cumsum_1` over the pairs (0, 1), (2, 3), ... and `cumsum_2` over the pairs
(1, 2), (3, 4), .... From them `cost_without` reads the cost of leaving out
each position. The first position of least cost is dropped, and the rest are
paired as neighbours.

The model proves the following:
- The `cost_without` formula is exact for every position, odd or even, on any
  ratings of odd length. Its asymmetric right-hand term for odd positions is
  correct: the two gaps it adds make up the gap of the pair that bridges the
  removed team.
- The team left out gives the most balanced neighbour pairing among all
  single exclusions.
- Pairing sorted neighbours is a most balanced perfect matching. So
  `matching` returns, for an even number of teams, a matching of least total
  imbalance among all perfect matchings. For an odd number, no matching of
  all teams but any single one beats it.
- Every team is drawn exactly once, or all but one for an odd number, and the
  ids come out in rank order.

**Polynomial feature tables** (`features.py`). `power_combinations` lists
every exponent row, one power per feature, whose total degree is
1..max_power. It collects the rows through the recursive closure `combos`,
sorts them by degree and drops the all-zero row. `powers` lists only the
pure powers p·e_i, block by block. The name loop of `get_features` turns each
row into a feature name. It uses the power pattern and the product pattern,
with defaults `x0, x1, ...`, `"f^p"` and `"a * b"`.

The model proves the following:
- `power_combinations` yields each row of degree 1..max_power exactly once,
  in nondecreasing degree.
- `powers` puts power p of feature i at row (p − 1)·n + i.
- The name loop gives each row the left fold of its factor names.
- The default names are pairwise distinct.
- With the default product pattern the fold equals `" * ".join`.

Modules:
- `Seqs`: shared sequence vocabulary (sums, removal, sortedness, distinctness).
- `StableSort`: Python's `sorted(..., key=...)` as a stable insertion sort.
- `NeighbourPairing`: the optimality of pairing sorted neighbours.
- `TeamMatching`: `task1.py`.
- `PolynomialFeatures`: `power_combinations`, `combos` and `powers`.
- `FeatureNames`: the name loop and the defaults of `get_features`.

## Model

| member | source | states |
|---|---|---|
| TeamMatching.CumsumAtIsPrefixSum | daletski_denis_task_1_src/task1.py:25-29 | `cumsum_at(k, cumsum(g))` is the sum of the first k + 1 gaps, and 0 for k = −1 |
| TeamMatching.RunningSumsAt | daletski_denis_task_1_src/task1.py:52-54 | entry k of `np.cumsum` is the sum of the first k + 1 gaps |
| TeamMatching.NeighbourCostIsGapSum | daletski_denis_task_1_src/task1.py:47-52 | the sum of the gaps of the pairs (0,1), (2,3), ... is the cost of pairing neighbours |
| TeamMatching.LeftGaps | daletski_denis_task_1_src/task1.py:47-52 | the first p gaps of `pairs_1` are the neighbour pairing of the first 2p teams |
| TeamMatching.RightGaps | daletski_denis_task_1_src/task1.py:49-54 | the gaps of `pairs_2` from the p-th on are the neighbour pairing of the teams after position 2p |
| TeamMatching.CumsumLengths | daletski_denis_task_1_src/task1.py:47-54 | for n odd teams both prefix sums have (n − 1)/2 entries, so every index `cost_without` reads is in range |
| TeamMatching.CostWithoutExact | daletski_denis_task_1_src/task1.py:32-41 | for every position of an odd number of ratings, `cost_without` equals the cost of pairing neighbours once that position is removed, for odd and even positions alike |
| TeamMatching.OddMatching | daletski_denis_task_1_src/task1.py:44-67 | the scan finds a position that is the bye (least cost, first among equals), and the pairs are the neighbour pairs of the teams without it |
| TeamMatching.ByeMinimisesImbalance | daletski_denis_task_1_src/task1.py:56-63 | removing the bye leaves a neighbour pairing no costlier than removing any other position, and strictly cheaper than removing any earlier one |
| TeamMatching.ByeUnique | daletski_denis_task_1_src/task1.py:57-61 | only one position satisfies the bye condition |
| TeamMatching.ByeExample | daletski_denis_task_1_src/task1.py:56-63 | for ratings 10, 12, 50, 51, 52 the bye is position 2 and the rest pair up at cost 3 |
| TeamMatching.ExampleExclusion | daletski_denis_task_1_src/task1.py:56-63 | for ratings 10, 12, 50, 51, 52, the neighbour cost with position i removed is 39, 41, 3, 4, 3 for i = 0..4 |
| TeamMatching.OddExample | daletski_denis_task_1_src/task1.py:63-66 | for ratings 10, 12, 50, 51, 52 with team 2 out, the pairs are 0 v 1 and 3 v 4 |
| TeamMatching.OddExampleBye | daletski_denis_task_1_src/task1.py:56-61 | for ratings 10, 12, 50, 51, 52 no sorted position but 2 meets the bye condition |
| TeamMatching.MatchingOddExample | daletski_denis_task_1_src/task1.py:76-81 | any result meeting `matching`'s odd-case contract for ratings 10, 12, 50, 51, 52 is exactly 0 v 1 and 3 v 4, with team 2 on the bye |
| TeamMatching.EvenMatchingIds | daletski_denis_task_1_src/task1.py:70-73 | `even_matching` lists the teams' ids in order, two per pair; an odd last team is left out |
| TeamMatching.EvenMatchingImbalance | daletski_denis_task_1_src/task1.py:70-73 | the imbalance of the pairs drawn is the pairwise cost of the teams' ratings in the given order |
| TeamMatching.EvenExample | daletski_denis_task_1_src/task1.py:76-79 | ratings 10, 20, 30, 40 are drawn as 0 v 1 and 2 v 3 |
| TeamMatching.SortTeamsFacts | daletski_denis_task_1_src/task1.py:77 | `sorted(enumerate(...), key=rating)` keeps every position once with its own rating, ordered by rating and, on ties, by position |
| TeamMatching.SortByRatings | daletski_denis_task_1_src/task1.py:77 | the ratings of the sorted teams are sorted and a permutation of the input ratings |
| TeamMatching.RankOrderedPairs | daletski_denis_task_1_src/task1.py:76-81 | ids in rank order mean no id twice, the lower rating first in each pair, and each pair no higher than the next |
| TeamMatching.RemoveTeamFacts | daletski_denis_task_1_src/task1.py:63 | `teams[:i] + teams[i+1:]` keeps the other teams sorted, ranked and with their own ratings |
| TeamMatching.RemoveTeamCover | daletski_denis_task_1_src/task1.py:63-66 | after the bye is removed, every team id but the bye's is left, and the bye's is not |
| TeamMatching.Matching | daletski_denis_task_1_src/task1.py:76-81 | `matching` draws n/2 pairs of valid ids in rank order. Even n: the neighbour pairs of the stably sorted teams, every team once, and no perfect matching has less imbalance. Odd n: the neighbour pairs of the sorted teams without the first sorted position of least `cost_without` (the bye, which is unique), all teams but that one, and no matching of all teams but any single one has less imbalance |
| TeamMatching.EvenCaseFacts | daletski_denis_task_1_src/task1.py:78-79 | the even branch: every team drawn once, rank order, least total imbalance among perfect matchings |
| TeamMatching.OddCaseFacts | daletski_denis_task_1_src/task1.py:80-81 | the odd branch: all teams but one, rank order, least imbalance among matchings that leave any one team out |
| TeamMatching.ExcludedRatingOptimal | daletski_denis_task_1_src/task1.py:57-66 | leaving out a team of some rating and matching the rest in any way costs at least the sorted neighbour pairing with one position holding that rating removed |
| NeighbourPairing.NeighbourPairingOptimal | daletski_denis_task_1_src/task1.py:70-73 | on sorted ratings of even length, pairing neighbours costs no more than any perfect matching of the same ratings |
| NeighbourPairing.SortedCostIsImbalance | daletski_denis_task_1_src/task1.py:52-72 | on sorted ratings the signed gaps `pair[1]-pair[0]` add up to the absolute imbalance |
| NeighbourPairing.PartnerSplit | daletski_denis_task_1_src/task1.py:70-73 | a matching splits into the pair holding a given team and the matching of the others, at the same total cost |
| StableSort.SortBySorted | daletski_denis_task_1_src/task1.py:77 | the sort orders by key |
| StableSort.SortByKeepsTiesInOrder | daletski_denis_task_1_src/task1.py:77 | elements of equal key keep their input order (Python's sort is stable) |
| StableSort.SortByOrdered | daletski_denis_task_1_src/task1.py:77 | input already in key order comes out unchanged |
| StableSort.SortByKeepsDistinct | features.py:91 | sorting a list without repeats keeps it without repeats |
| PolynomialFeatures.ComboCollector.Combos | features.py:81-88 | each `combos(k, p, i)` call appends to `result` exactly the rows ComboRows(k, p, i) describes; with a negative k, allowed only past the last feature, it appends p alone |
| PolynomialFeatures.ComboRowsMembers | features.py:81-88 | `combos(k, p, i)` reaches exactly the rows that keep p before i, raise it from i on, and add at most k to the degree |
| PolynomialFeatures.ComboRowsDistinct | features.py:81-88 | `combos` never appends the same row twice |
| PolynomialFeatures.ZeroCombosMembers | features.py:90 | starting from the all-zero row, `combos` reaches every non-negative row of degree at most max_power |
| PolynomialFeatures.SumBump | features.py:87 | raising one power adds one to the degree |
| PolynomialFeatures.ZeroRowSortsFirst | features.py:90-91 | after sorting by degree the all-zero row comes first, once, and the rows stay distinct and complete |
| PolynomialFeatures.DroppedZeroRow | features.py:91 | `sorted(result, key=sum)[1:]` is every row of degree 1..max_power, each once, in nondecreasing degree, and empty for max_power 0 |
| PolynomialFeatures.PowerCombinations | features.py:67-92 | `power_combinations` lists each non-negative row of length nfeatures and degree 1..max_power exactly once, in nondecreasing degree; none for max_power ≤ 0, a negative max_power being accepted with no features |
| PolynomialFeatures.PowerRowsIndex | features.py:106-109 | after the blocks for 1..m, there are n·m rows of length n, and row (p − 1)·n + i is p·e_i |
| PolynomialFeatures.Powers | features.py:95-109 | `powers` has n·max(0, max_power) rows of length n, and row (p − 1)·n + i is power p of feature i alone |
| PolynomialFeatures.PowersRowsAreCombinations | features.py:96-104 | every row of `powers` is also a row of `power_combinations`, with one feature raised |
| PolynomialFeatures.UnitRowSum | features.py:108 | the degree of p·e_i is p |
| FeatureNames.PolyNames | features.py:36-54 | the name loop gives row k the left fold, with the product pattern, of the factor names of the features it raises |
| FeatureNames.JoinFactorsSnoc | features.py:42-53 | one more factor is folded in with the product pattern, unless it is the first |
| FeatureNames.FactorsCount | features.py:38-53 | `count` ends as the number of features with power at least 1 |
| FeatureNames.UnraisedRowName | features.py:38-54 | a row that raises no named feature gets the empty name |
| FeatureNames.UnitRowName | features.py:40-52 | the row p·e_i is named by the bare name for p = 1 and by the power pattern above that |
| FeatureNames.NatToDecimal | features.py:27-29 | `"%d"` of a natural number is a non-empty string of digits without a leading zero |
| FeatureNames.DecimalRoundTrip | features.py:27-29 | reading back the digits of `"%d" % n` gives n |
| FeatureNames.DefaultNamesDistinct | features.py:29 | the default names `x0, x1, ...` are pairwise different |
| FeatureNames.JoinWithSnoc | features.py:28 | appending a part to a join adds the separator and the part |
| FeatureNames.DefaultJoin | features.py:28-53 | with the default product pattern the left fold is `" * ".join` of the factors |
| FeatureNames.DefaultNameExample | features.py:27-54 | with every default, the row [2, 0, 1] is named `x0^2 * x2` |
| FeatureNames.GetFeatureNames | features.py:26-54 | one name per row of the exponent table, in its order, each the row's name. With mix the table holds every row of degree 1..max_power once, by nondecreasing degree, so each such row's name is present. Without mix there are n·max(0, max_power) names; name (p − 1)·n + i names power p of feature i: the bare name for p = 1, the power pattern above that, and the empty name for a feature without a name |
| FeatureNames.ExponentRowBounds | features.py:36-41 | rows exist only when there are features and max_power ≥ 1, so indexing `power[idx]` is safe |
| FeatureNames.MixedNamesComplete | features.py:32-54 | naming the rows of `power_combinations` names every exponent row |
| FeatureNames.PowersNames | features.py:34-54 | naming the rows of `powers` puts power p of feature i's name at row (p − 1)·n + i |
| FeatureNames.PowersUnnamed | features.py:38-54 | naming the rows of `powers` gives power p of a feature past the end of the names the empty name |

## Left out

- `read_data` and both `__main__` blocks: file input and output. Team ratings are the input of `TeamMatching.Matching`.
- The numeric half of `get_features` (features.py:56-64), the matrix of products of powers: numpy floating point.
- numpy integer widths: `uint16` player ratings, `int32` team ratings and their sums are unbounded integers here, so wrap-around is not modelled.
- `powers` builds a float matrix (`np.eye(n) * power`). Its rows are integer rows here, and the name loop's `power[idx] > 1` tests are integer tests.
- `np.array(result)` and `np.concatenate` are sequences of rows here.
- TeamMatching.OddMatching: requires an odd number of teams. With an even number n ≥ 2, `cost_without` of the last position reads `cumsum_1` one past its end (an IndexError), and `matching` never calls it so.
- PolynomialFeatures.PowerCombinations: requires `max_power >= 0` when there is at least one feature. The source's `combos` then recurses until Python's recursion limit (a RecursionError). With no features it stops at once and no rows come out, as in the model.
- FeatureNames.GetFeatureNames: requires `max_power >= 0` when mixing with at least one feature, for the same reason. It also requires that no more names than columns are given when there are rows to name, because the source then indexes a row out of range.
- FeatureNames.GetFeatureNames: the power and product patterns are total functions on strings. A pattern that raises or has side effects is not modelled.
- StableSort.SortBy: Python's `sorted` (Timsort) is modelled as a stable insertion sort. The two agree on every input because a stable sort's output is determined by the keys and the input order.
- `kwargs.get(...)` falls back to the defaults on a missing key and on an empty value. The model has an `Option` per argument, and `ChooseNames` treats an empty list as missing. A falsy power or product pattern cannot be expressed.

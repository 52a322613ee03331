# Cafe menu recommender: scorer, ranker and bundle search

This project models the recommendation engine of a small cafe menu app
(`app.py`). The engine has three pure parts.

- **The scorer (`calculate_score`).** It gives every catalog row three integers:
  - `sweetness_match`: 5 when the row's sweetness lies in the user's inclusive range, else 0.
  - `tag_score`: 10 for every selected tag that the row's tag list contains.
  - `total_score`: their sum.
- **The ranker (`get_best_items`).** It works on one catalog:
  - it keeps only rows with `sweetness_match > 0` and sorts them by `total_score`, highest first;
  - it prefers tag-matched rows and takes `limit * people` of them;
  - when those fall short, it backfills from the rest of the eligible rows, then drops rows whose name already occurred;
  - finally it truncates to `limit * people`.
- **The bundle search (`recommend_combinations`).** It works on the bakery and drink catalogs together:
  - it takes the 20 best eligible rows of each catalog;
  - it tries every multiset of `people` drinks with every set of one to four bakery items;
  - it skips drink multisets whose price already reaches the budget;
  - it keeps a bundle when its total price is within the budget;
  - it returns the three bundles with the highest score.

The two catalogs are parameters instead of module-level globals. A catalog is a
`seq<MenuItem>` whose tags are the loader's already-cleaned `seq<string>`.

Structure:

- `seqs.dfy` (`Seqs`) holds the shared sequence vocabulary:
  - pandas `head(n)`;
  - position runs and boolean masks over positions;
  - picking rows at positions;
  - ordering and distinctness predicates.
- `sorting.dfy` (`Sorting`) holds the descending sort by an integer key:
  - it is stable, and the model proves that;
  - it carries the top-k facts about its prefixes.
- `menu.dfy` (`Menu`) holds the catalog rows, the scorer, and the eligible pool.
- `ranker.dfy` (`Ranker`) holds `get_best_items`.
- `combinations.dfy` (`Combinatorics`) holds `combinations_with_replacement` and `combinations` as position tuples.
- `bundles.dfy` (`Bundles`) holds `recommend_combinations`.
- `scenarios.dfy` (`Scenarios`) holds worked examples on small catalogs.

Rows are identified by position:

- The ranker computes positions in the eligible pool and picks the rows at the end. "Each eligible row at most once" is therefore a statement about positions.
- A drink choice is a non-decreasing position tuple.
- A bakery choice is a strictly increasing position tuple.

The pandas sort in both functions (`sort_values`) is not stable, so rows with equal
scores may come out in any order:

- The contract `Menu.IsRankedPool` describes every admissible outcome. An admissible outcome is a rearrangement of the eligible rows with non-increasing `total_score`.
- The ranker and bundle lemmas are stated for any pool that meets the contract, or for any sorted, well-scored pool (`Menu.SortedPool`).
- `Ranker.GetBestItems` and `Bundles.RecommendCombinations` compute with one admissible order, which `Menu.RankedPool` produces.

The final `combinations.sort(..., reverse=True)` is Python's stable list sort.
`Sorting.SortDesc` models it, and `Bundles.TopBundlesStable` states that ties
keep their collection order. That order is fixed by the enumerations:
`Bundles.DrinkChoicesOrder` and `Bundles.BakeryChoicesOrder` state the order
in which drink multisets and bakery sets are tried.

Three behaviours of app.py are easy to misread. The model states each as the
code computes it.

- **The ranker never repeats a row.** The drink tab's caption at app.py:287 says the same menu item may be recommended more than once for a party. But `get_best_items` cannot return a row twice:
  - `head` never repeats a row;
  - the backfill at app.py:101-102 excludes rows that are already chosen, by index.

  `Ranker.BestPositions` returns distinct positions.
- **A budget equal to the cheapest drink subtotal keeps no bundle.** This holds even when a bakery item costs 0. The drink check at app.py:151 is strict, so it rejects every drink multiset whose subtotal reaches the budget before any bakery item is tried. For two drinks priced 4000 and 4500 and a party of two, the subtotals are 8000, 8500 and 9000, so a budget of 8000 gives nothing. `Scenarios.DrinkSubtotalAtBudget` and `Scenarios.NoBundleAtBudget` prove this.
- **Bakery names can repeat within a bundle.** app.py:156 makes the chosen bakery rows distinct, not their names. Names are distinct when the catalog's names are (`Bundles.KeptBakeryNamesDistinct`).

## Model

| member | source | states |
|---|---|---|
| Menu.SweetnessMatch | app.py:52-55 | the sweetness column is 5 exactly when `lo <= sweetness <= hi`, both ends inclusive, and 0 exactly otherwise |
| Menu.TagScoreCounts | app.py:58-61 | the tag score is 10 times the number of positions of the selected list whose tag the row carries, so a repeated selection counts again; it is 0 when either list is empty and at most 10 per selected tag |
| Menu.TagMatchedIff | app.py:58-61 | a row has a positive tag score exactly when some selected tag occurs in its tag list |
| Menu.ScoreColumns | app.py:44-68 | scoring a row keeps the row, sets the sweetness column by the inclusive range test in both directions, counts tags as above, and makes the total the sum of the two columns |
| Menu.Eligible | app.py:83 | the filter `sweetness_match > 0` keeps every row with a positive sweetness column exactly as often as it occurs and drops every other row |
| Menu.EligibleIffInRange | app.py:83 | a scored row is eligible exactly when it is the score of some catalog row whose sweetness lies in the range |
| Menu.RankedPool | app.py:83-85 | the computed pool is an admissible sort outcome: a rearrangement of the eligible rows in non-increasing total score |
| Menu.RankedPoolRows | app.py:83-85 | every row of any admissible pool has sweetness in range, a sweetness column of 5 and a total of tag score plus 5, and is the score of a catalog row |
| Menu.RankedPoolIsSorted | app.py:83-85 | every admissible pool is descending and well scored |
| Menu.NoneInRangeNoPool | app.py:83-85 | when no catalog row's sweetness is in range, the eligible pool is empty |
| Seqs.Take | app.py:92 | `head(n)` returns the first `min(n, len)` rows, in order |
| Seqs.RangeWhere | app.py:88 | a boolean mask over positions keeps exactly the positions where it holds, in increasing order |
| Sorting.SortDesc | app.py:180 | the sort returns a rearrangement of its input, same length, in non-increasing key order |
| Sorting.SortDescStable | app.py:180 | for every key value, the elements with that key come out in the order they went in |
| Sorting.PrefixOfSorted | app.py:182 | a prefix of a descending sequence is a descending sub-multiset, and no element after it has a larger key than its last element |
| Sorting.TopK | app.py:180-182 | sorting and taking `k` gives `min(k, len)` elements of the input, descending, with nothing left out scoring above the last one kept |
| Sorting.PickSorted | app.py:101-104 | rows picked at increasing positions of a descending pool stay descending |
| Ranker.Matched | app.py:88 | the tag-matched positions are exactly the pool positions with `tag_score > 0`, increasing |
| Ranker.Unchosen | app.py:101-102 | the backfill candidates are exactly the pool positions not already chosen, increasing |
| Ranker.DedupByName | app.py:104 | de-duplication keeps only positions from its input, never more of them |
| Ranker.DedupNamesDistinct | app.py:104 | after de-duplication no two kept rows share a name |
| Ranker.DedupIncreasing | app.py:104 | de-duplication keeps the order of the positions |
| Ranker.DedupKeepsDistinctNames | app.py:104 | when no name repeats, de-duplication changes nothing |
| Ranker.DedupKeepsEveryName | app.py:104 | every name of the input survives on some kept row |
| Ranker.DedupDropsLater | app.py:104 | of two rows sharing a name, the later one is dropped (first occurrence wins) |
| Ranker.Preferred | app.py:88-95 | the preferred positions, tag-matched rows when any exist and the whole pool otherwise, are increasing pool positions |
| Ranker.Backfilled | app.py:98-104 | the backfilled, de-duplicated selection holds distinct pool positions |
| Ranker.BestPositions | app.py:88-108 | the ranker returns distinct pool positions, at most `limit * people` of them when a limit is given |
| Ranker.GetBestItems | app.py:75-110 | an empty catalog gives nothing; every returned row has sweetness in range, the rows are in non-increasing score order, and there are at most `limit * people` of them |
| Ranker.MatchedIsLeadingRun | app.py:83-88 | in a sorted eligible pool the tag-matched rows are exactly the first ones, because each outscores every unmatched row |
| Ranker.PreferredIsRun | app.py:88-95 | in a sorted eligible pool the preferred rows are a leading run: the matched ones, or the whole pool when none match |
| Ranker.UnchosenAfterRun | app.py:101-102 | excluding a leading run of positions leaves exactly the positions after it |
| Ranker.BackfillAfterRun | app.py:98-104 | backfilling after a leading run de-duplicates the leading run of length `min(target, len)` |
| Ranker.ShapeWithoutBackfill | app.py:92-95 | with enough preferred rows the ranker returns the first `limit * people` positions and does not de-duplicate |
| Ranker.ShapeWithBackfill | app.py:98-108 | with too few preferred rows the ranker returns the de-duplicated first `min(limit * people, len)` positions |
| Ranker.BestPositionsShape | app.py:88-108 | in a sorted eligible pool the result is the leading run of preferred rows without a limit, and with a limit either the first `limit * people` or the de-duplicated first `min(limit * people, len)` |
| Ranker.PickLeadingRun | app.py:92 | picking the first `m` positions gives the first `m` rows |
| Ranker.UniqueNamesOnRun | app.py:104 | in a pool of distinct names, de-duplicating a leading run changes nothing |
| Ranker.BestItemsFromPool | app.py:92-108 | every returned row is a row of the pool, for any order of the pool |
| Ranker.BestPositionsIncreasing | app.py:88-108 | in a sorted pool the returned positions are increasing |
| Ranker.BestItemsSorted | app.py:83-108 | in a sorted pool the returned rows are in non-increasing score order |
| Ranker.BestItemsSound | app.py:77-108 | for every admissible sort outcome, the ranker returns eligible catalog rows in non-increasing score, at most `limit * people`, and nothing for an empty pool |
| Ranker.EnoughMatchedPositions | app.py:88-108 | with at least `limit * people` tag-matched rows, the ranker returns the first `limit * people` of them and no backfill happens |
| Ranker.EnoughMatchedOnlyMatched | app.py:88-95 | with at least `limit * people` tag-matched rows, exactly `limit * people` rows come back and all are tag-matched, whatever the order among ties |
| Ranker.NoMatchIsPrefix | app.py:90-92 | with no tag-matched row, the result is the whole pool without a limit, and the first `limit * people` rows when the pool is long enough or its names are unique |
| Ranker.BestItemsLength | app.py:90-108 | in a sorted pool of distinct names, `min(limit * people, len)` rows come back; without a limit, all matched rows, or the whole pool when none match |
| Combinatorics.Multichoose | app.py:141 | every tuple yielded has length `k`, lies in `[lo, n)` and is non-decreasing |
| Combinatorics.MultichooseComplete | app.py:141 | every non-decreasing tuple of length `k` over `[lo, n)` is yielded |
| Combinatorics.MultichooseDistinct | app.py:141 | no drink tuple is yielded twice |
| Combinatorics.MultichooseLexSorted | app.py:141 | the drink tuples are yielded in strictly increasing lexicographic order, as `itertools.combinations_with_replacement` emits them |
| Combinatorics.Choose | app.py:156 | every tuple yielded has length `k`, lies in `[lo, n)` and is strictly increasing |
| Combinatorics.ChooseComplete | app.py:156 | every strictly increasing tuple of length `k` over `[lo, n)` is yielded |
| Combinatorics.ChooseDistinct | app.py:156 | no bakery tuple of a given size is yielded twice |
| Combinatorics.ChooseLexSorted | app.py:156 | the bakery tuples of one size are yielded in strictly increasing lexicographic order, as `itertools.combinations` emits them |
| Combinatorics.ChooseTooMany | app.py:155-156 | `combinations` asked for `k >= 1` items from a range of fewer than `k` positions yields nothing |
| Bundles.DrinkChoices | app.py:141 | every drink choice is a multiset of `people` positions over the drink pool |
| Bundles.BakeryChoices | app.py:155-156 | every bakery choice is a set of one to four positions over the bakery pool |
| Bundles.DrinkChoicesIff | app.py:141 | the drink choices are exactly the multisets of `people` drinks, each yielded once |
| Bundles.BakeryChoicesIff | app.py:155-156 | the bakery choices are exactly the sets of one to four bakery items |
| Bundles.BakeryChoicesDistinct | app.py:155-156 | no bakery choice is tried twice across the four sizes |
| Bundles.DrinkChoicesOrder | app.py:141-143 | the outer loop tries the drink multisets in lexicographic order of their positions |
| Bundles.BakeryChoicesOrder | app.py:155-156 | the inner loop tries every bakery set of one item, then of two, three and four, each size in lexicographic order |
| Bundles.PriceSumConcat | app.py:147-163 | the price of drinks and bakery items together is the drink sum plus the bakery sum |
| Bundles.ScoreSumConcat | app.py:148-166 | the score of drinks and bakery items together is the drink sum plus the bakery sum |
| Bundles.ForBakeryIff | app.py:155-177 | the inner loop collects exactly the bundles whose bakery choice keeps the total within the budget |
| Bundles.DrinkStep | app.py:151-177 | one drink multiset whose price reaches the budget adds nothing; otherwise it adds exactly its bundles with the bakery sets that keep the total within the budget |
| Bundles.ForDrinksIff | app.py:143-177 | the outer loop collects exactly the bundles whose drink subtotal is below the budget and whose total is within it |
| Bundles.AllDrinksTooDear | app.py:151-152 | when every drink subtotal reaches the budget, nothing is collected |
| Bundles.CandidatesIff | app.py:141-177 | a bundle is collected exactly when it is made of a drink multiset priced below the budget and a one-to-four bakery set that keeps the total within the budget |
| Bundles.KeptShape | app.py:147-177 | a kept bundle has `people` drink names, one per chosen position, and one to four bakery names; its price is the sum of its rows' prices and within the budget, and its score is the sum of their total scores |
| Bundles.CandidatesShape | app.py:141-177 | every collected bundle fits the budget, with `people` drinks and one to four bakery items |
| Bundles.KeptBakeryNamesDistinct | app.py:156-170 | over a bakery pool of distinct names, no bundle names a bakery item twice |
| Bundles.TopBundlesBest | app.py:180-182 | the result is `min(3, count)` collected bundles, best first, and no collected bundle left out scores above the last one returned |
| Bundles.TopBundlesStable | app.py:180-182 | for every score, the returned bundles with that score are the earliest collected ones with that score, in collection order |
| Bundles.CombinationsFrom | app.py:128-182 | an empty pool gives nothing; otherwise at most three bundles in non-increasing score |
| Bundles.CombinationsShape | app.py:136-177 | every returned bundle fits the budget, with `people` drinks and one to four bakery items |
| Bundles.CombinationsKept | app.py:136-177 | every returned bundle is made of a kept choice over the first 20 rows of each pool |
| Bundles.CombinationsBest | app.py:136-182 | over non-empty pools the result is the best `min(3, count)` bundles kept from the first 20 rows of each pool |
| Bundles.RecommendCombinations | app.py:112-182 | an empty catalog, or a catalog with no sweetness in range, gives nothing; otherwise at most three bundles in non-increasing score, each within the budget, with `people` drinks and one to four bakery items |
| Scenarios.SingleItemScoresFive | app.py:44-110 | a single in-range row with no tag selected comes back alone with tag score 0 and total 5 |
| Scenarios.EmptyRangeNothing | app.py:83-85 | the range 0..0 over rows none of which has sweetness 0 gives nothing |
| Scenarios.DrinkPairs | app.py:141 | over two drinks for two people the drink choices are (0,0), (0,1) and (1,1) |
| Scenarios.DrinkSubtotals | app.py:147-148 | those choices cost 8000, 8500 and 9000 and score 10 |
| Scenarios.SingleBakeryChoice | app.py:155-156 | over one bakery item the only bakery choice is that item |
| Scenarios.KeptWithScone | app.py:151-165 | at budget 9000, only two Americanos or an Americano and a Latte are kept with the scone |
| Scenarios.SconeWithin | app.py:151-165 | both of those choices are kept; the 9000 total passes the inclusive check |
| Scenarios.StrictDrinkCutoff | app.py:151-165 | at budget 9000 the collected bundles are exactly those two; the two Lattes (9000) fail the strict drink check |
| Scenarios.SconeBundleTwoAmericanos | app.py:166-177 | that bundle scores 15, costs 8500 and names two Americanos and the scone |
| Scenarios.SconeBundleAmericanoLatte | app.py:166-177 | that bundle scores 15, costs 9000 and names an Americano, a Latte and the scone |
| Scenarios.DrinkSubtotalAtBudget | app.py:151-152 | at budget 8000 nothing is collected, whatever the bakery items cost, a zero-priced one included |
| Scenarios.NoBundleAtBudget | app.py:151-152 | hence the search returns no bundle at budget 8000 |

## Left out

- CSV loading and tag cleaning (app.py:15-39), the cache decorator and the module-level catalogs. Catalogs are parameters, and tags arrive already cleaned.
- The Streamlit UI (app.py:187-318), the slider bounds, `value_counts` and the score formatting. These are presentation only.
- Image loading (app.py:320-337). This is I/O.
- Ranker.GetBestItems: returns whole scored rows instead of the six-column projection at app.py:110. The projection only selects columns.
- Ranker.BestPositions: `limit` is `None` or a natural number and `people` is a natural number. pandas' `head` with a negative count is not modelled, because the UI's sliders only produce positive values.
- Bundles.RecommendCombinations: `people` is a natural number, for the same reason.
- Ranker.GetBestItems and Bundles.RecommendCombinations compute with one admissible order of the unstable pandas sort. The order-independent statements are the lemmas over `Menu.IsRankedPool` or `Menu.SortedPool`.
- Ranker.BestItemsLength and Ranker.NoMatchIsPrefix: the exact-length and prefix results with backfill assume distinct names in the pool. With repeated names, de-duplication can return fewer rows, and the source promises nothing more there.
- Bundles.KeptBakeryNamesDistinct: assumes distinct names in the bakery pool, because the code only makes the chosen bakery rows distinct.
- Prices and scores are unbounded integers. The source's numpy integer columns could overflow only far beyond menu prices.
- The running time of the brute-force enumeration. The model describes its result, not its cost.

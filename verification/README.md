# Apriori frequent-itemset miner — a Dafny model

This project models the level-wise Apriori miner of `Apriori/index.py`.
The miner takes a transaction store, which is a list of transactions, each
a list of non-negative item ids. It also takes a minimum support degree.
It reports, level by level, the itemsets whose count reaches the degree.
Level 1 counts item occurrences, so an item repeated inside one
transaction counts twice there. Later levels count the transactions that
hold the itemset:

- **Level 1** (`get_1_fi`) counts every item occurrence into an array
  indexed by item id. The array size is the largest item plus one. It keeps,
  in ascending id order, every id whose count reaches the degree.
- **Level k ≥ 2** (`get_k_fi`) has three steps.
  - Join: it forms the sorted union of every pair of (k-1)-itemsets at
    positions i < j, in `itertools.combinations` order. It keeps a union when
    it has exactly k items and is not yet a candidate.
  - Count: it counts each candidate over the store with the subset test
    `check_ele_exist`.
  - Filter: it keeps the candidates whose count reaches the degree.
- **Stopping.** The run stops when the previous level has exactly one
  itemset, or when the filtered level is empty. Otherwise it goes on at
  k + 1.
- **`get_frequent_items`** runs level 1 and then `get_k_fi` from k = 2.
  The run finds every itemset of two or more items whose support reaches
  the degree, provided its items are at most the largest item of the store.
  Each is reported at the level of its size (`GetFrequentItemsComplete`).

The model is written as pure functions over immutable sequences:

- `ItemSets` (`itemsets.dfy`) defines the following.
  - Items, transactions and itemsets. An itemset is an ascending list
    without repeats.
  - The reported entry `Frequent(items, support)`.
  - The subset test `Contains`.
  - The sorted union `Union`, a merge of two ascending lists.
- `Counting` (`counting.dfy`) defines the following.
  - The support scan `Support`.
  - The counting loop of `get_k_fi` as the method `CountPass`.
  - The level-1 occurrence counting `Tally`/`Occurrences`.
- `Filtering` (`filtering.dfy`) defines the filter shared by both levels:
  `Kept` selects the positions, `KeepFrequent` builds the entries.
- `Candidates` (`candidates.dfy`) defines the join loop `JoinFrom`/`Join`.
- `Apriori` (`apriori.dfy`) defines the following.
  - Level 1: `FrequentOnes`.
  - One pass of `get_k_fi`: `NextLevel`.
  - The recursion over k: `Mine`. It terminates with the measure
    `bound + 2 - k`, where `bound` is the largest item. A level of k
    distinct items from `0..bound` needs k ≤ bound + 1.
  - The whole run: `GetFrequentItems`.
- `Completeness` (`completeness.dfy`) proves that the run misses no
  frequent itemset. It argues by induction on the size of the itemset:
  dropping the last item and dropping the first item give two frequent
  itemsets one level below, and their join is the itemset itself.
- `RowMax` (`rowmax.dfy`) models how the source computes the size of the
  level-1 counting array (see Findings).
- `Scenarios` (`scenarios.dfy`) holds three worked runs of
  `GetFrequentItems`.
  - A single transaction {5} at degree 1 gives level 1 = {5: 1}, and level 2
    is never attempted (`SingleItemStore`).
  - Two transactions {1, 2} at degree 2 give level 1 = {1: 2, 2: 2} and
    level 2 = {(1, 2): 2}, and then the run stops (`PairStore`, built from
    the steps `PairLevelOne`, `PairLevelTwo` and `PairMine`).
  - Transactions {1, 2}, {1} and {2} at degree 2 give level 1 =
    {1: 2, 2: 2}. Only one transaction holds both items, so the candidate
    (1, 2) has support 1 and level 2 comes out empty. The run stops there
    with level 1 alone (`ScatteredStore`, built from the steps
    `ScatteredLevelOne`, `ScatteredLevelTwo` and `ScatteredMine`).

The degree is an integer parameter. The store and the degree are the only
inputs, because the core does no I/O.

The code computes the largest item with numpy's `max` over the whole
store, and numpy's `max` raises on a zero-size array: a store with no
transactions, or with only empty transactions of equal length. In the model
`MaxItem` is `None` exactly when no transaction holds an item, and
`GetFrequentItems` then returns `NoItems`. `RowMax.SourceMaxFails` shows
that the source's own bound fails in exactly those cases.

## Model

| member | source | states |
|---|---|---|
| ItemSets.Contains | Apriori/index.py:10-17 | `check_ele_exist`; it has no contract of its own: `ContainsIsSubset` states that it is the subset test `set(elem) <= set(line)` |
| ItemSets.Union | Apriori/index.py:172 | `sorted(set(a) \| set(b))` as a merge of two ascending lists; it has no contract of its own: `UnionIsSetUnion` states that on ascending inputs it is ascending and holds exactly the items of both |
| ItemSets.ContainsIsSubset | Apriori/index.py:17 | `check_ele_exist(elem, line)` holds exactly when every item of `elem` is an item of `line`, i.e. `set(elem) <= set(line)` |
| ItemSets.UnionIsSetUnion | Apriori/index.py:172 | the merge of two ascending itemsets is ascending without repeats and holds exactly the items of both, i.e. it is `sorted(set(a) \| set(b))` |
| ItemSets.SortedUnique | Apriori/index.py:172-173 | two ascending lists with the same items are equal, so the list test `t_e not in tmp_k_l` rejects exactly the candidates already present as sets |
| ItemSets.SortedLengthBound | Apriori/index.py:173 | an itemset over items `0..bound` has at most `bound + 1` items, which bounds how far k can grow |
| Counting.Support | Apriori/index.py:176-179 | the number of transactions that contain a candidate; its contract bounds it by the number of transactions, and `SupportCountsHolders` states that it counts exactly the holding transactions |
| Counting.Supports | Apriori/index.py:181 | the counters `arr[1:]` read by the filter; it has no contract of its own: `CountPass` states that the counting loop leaves exactly these counts in `arr[1:]` |
| Counting.SupportCountsHolders | Apriori/index.py:176-179 | the count recorded for a candidate is the number of transactions of which it is a subset |
| Counting.CountPass | Apriori/index.py:176-179 | the counting loop fills an array of `len(candidates) + 1` slots, leaves slot 0 at zero, and holds each candidate's support in the slot after it; so `arr[1:]`, which the filter reads, is `Supports(ts, cands)`, the per-candidate supports that `NextLevel` filters |
| Counting.SupportAntiMonotone | Apriori/index.py:17 | a superset of items is contained in no more transactions than its subset |
| Counting.BumpAll | Apriori/index.py:130-131 | `for j in line: arr[j] += 1` adds to each slot the number of times its id occurs in the line, and keeps the array size |
| Counting.Tally | Apriori/index.py:127-131 | the level-1 counting loop leaves in slot i the number of occurrences of item i over the whole store, repeats inside one transaction included |
| Counting.OccurrencesBoundSupport | Apriori/index.py:127-131 | the level-1 count of an item is at least the number of transactions that contain it, and equal to it when no transaction repeats an item |
| Filtering.Kept | Apriori/index.py:133-135 | the positions `i` of `enumerate(arr)` with `e >= degree`; it has no contract of its own: `KeptPositions` states which positions it selects and in what order |
| Filtering.KeepFrequent | Apriori/index.py:181-184 | the entries `{tuple(tmp_k_l[i]): e}` appended by the filter; it has no contract of its own: `KeepFrequentPicksKept` and `KeepFrequentExactly` state which entries it keeps |
| Filtering.KeptPositions | Apriori/index.py:133-135 | the filter selects, in increasing order, exactly the positions whose count is at least the degree |
| Filtering.KeepFrequentPicksKept | Apriori/index.py:181-184 | the filter keeps the candidates at exactly the selected positions, in candidate order, each with its own count |
| Filtering.KeepFrequentExactly | Apriori/index.py:181-184 | every kept entry reaches the degree, every candidate that reaches it is kept, and nothing else is kept |
| Candidates.JoinFrom | Apriori/index.py:171-174 | the `itertools.combinations` join loop from a pair (i, j) on; it has no contract of its own: `JoinFromValid` and `JoinFromCovers` state what it collects |
| Candidates.Join | Apriori/index.py:171-174 | the whole join, `tmp_k_l`; it has no contract of its own: `JoinCandidates` states what the candidates are |
| Candidates.ValidCandidatesMeans | Apriori/index.py:173-174 | a candidate list built by appending only new size-k unions has every entry of size k, every entry a union of two earlier itemsets, and no entry twice |
| Candidates.JoinFromValid | Apriori/index.py:171-174 | the join loop keeps the candidate list valid: size k, a union of a pair i < j, no repeats |
| Candidates.JoinFromCovers | Apriori/index.py:171-174 | the join loop, run from a pair on, leaves every size-k union of every pair i < j in the candidate list |
| Candidates.JoinCandidates | Apriori/index.py:171-174 | every candidate is sorted, has exactly k items and is the union of two itemsets at positions i < j; every such union of size k is a candidate; no two candidates have the same items; with fewer than two itemsets there are no candidates |
| Apriori.MaxOf | Apriori/index.py:125 | `max(line)` of a non-empty row is an item of the row and no item of the row exceeds it |
| Apriori.MaxItem | Apriori/index.py:123-125 | the array bound is absent exactly when no transaction holds an item; otherwise it is an item of the store and no item exceeds it |
| Apriori.FrequentOnes | Apriori/index.py:113-150 | level 1 lists one-item itemsets over ids `0..max`, each with its occurrence count and reaching the degree, strictly ascending by id, and misses no id whose count reaches the degree |
| Apriori.OnesKept | Apriori/index.py:127-135 | filtering the per-id counts gives one-item entries with their counts, at least the degree, strictly ascending, missing no id that reaches the degree |
| Apriori.ItemsOf | Apriori/index.py:168-183 | `fi_k_l`, the itemsets of a level without their counts, kept in level order beside `fi_k`; it is a projection with no contract of its own |
| Apriori.NextLevel | Apriori/index.py:168-184 | one pass of `get_k_fi` yields sorted itemsets of exactly k items, each with its subset-scan support and reaching the degree, no two with the same items; with fewer than two itemsets it yields nothing |
| Apriori.NextLevelJoined | Apriori/index.py:171-184 | every itemset of the next level is the union of two itemsets of the previous level at positions i < j |
| Apriori.NextLevelComplete | Apriori/index.py:171-184 | every union of two previous itemsets that has k items and reaches the degree is in the next level with its support |
| Apriori.KeptEntries | Apriori/index.py:171-184 | the filtered candidates form a frequent level of width k whose entries are joins of the previous level |
| Apriori.KeptComplete | Apriori/index.py:171-184 | the filter loses no size-k union of two previous itemsets whose support reaches the degree |
| Apriori.NextLevelBounded | Apriori/index.py:171-174 | the next level uses only items of the previous level, so it stays within `0..bound` |
| Apriori.Advance | Apriori/index.py:186-203 | a non-empty next level is again a valid starting point for the recursion at k + 1 |
| Apriori.MineSteps | Apriori/index.py:159-203 | the recursion stops at once when the previous level has at most one itemset; otherwise it stops exactly when the filtered level is empty; otherwise it reports the level and continues at k + 1 from it |
| Apriori.Mine | Apriori/index.py:152-203 | the recursion of `get_k_fi` from level k; it has no contract of its own: `MineSteps`, `MineReports` and `MineChain` state what it does |
| Apriori.MineChain | Apriori/index.py:159-203 | the levels the recursion reports are exactly the chain of next levels from the starting level: each is the non-empty next level of the one before it, and the run stops only where the next level is empty |
| Apriori.ChainLinks | Apriori/index.py:171-203 | along such a chain, level n + 1 is the next level of level n for every n |
| Apriori.ChainUnique | Apriori/index.py:152-203 | two chains from the same starting level are equal, so the chain fixes every reported level |
| Apriori.MineReports | Apriori/index.py:152-203 | every level the recursion reports is non-empty, a frequent level of its width, and every level but the last has at least two itemsets; the first is the next level of the starting one |
| Apriori.GetFrequentItems | Apriori/index.py:78-82 | the run fails exactly when no transaction holds an item; otherwise its first level is level 1, every later level k is non-empty with frequent k-itemsets and their supports, a level follows only one with at least two itemsets, each level from 2 on is the next level of the one before it, and the run stops only where the next level of the last one is empty |
| Apriori.SingleLevelRun | Apriori/index.py:82 | a run whose level 1 joins to an empty level 2 reports level 1 alone |
| Completeness.GetFrequentItemsComplete | Apriori/index.py:78-82 | for every sorted itemset of at least two items up to the largest item whose subset-scan support reaches the degree, the run succeeds and reports that itemset, with that support, at the level of its size |
| Completeness.ChainComplete | Apriori/index.py:152-203 | from a level 1 that holds the singleton of each of its items, a frequent itemset of k ≥ 2 items is reported at level k of the chain of next levels |
| Completeness.OnesHoldSingletons | Apriori/index.py:127-135 | level 1 holds the singleton of every item, up to the largest one, of an itemset whose support reaches the degree |
| Completeness.GrowReported | Apriori/index.py:171-188 | when both end parts of a frequent k-itemset are reported at level k - 1, the itemset is reported at level k and the run gets that far |
| Completeness.PairReported | Apriori/index.py:163-188 | a frequent pair whose two singletons are at level 1 is reported at level 2 |
| Completeness.JoinedBack | Apriori/index.py:171-184 | when two distinct entries of a level together hold exactly the items of a frequent k-itemset, the next level reports that itemset with its support, in either order |
| Completeness.ChainGoesOn | Apriori/index.py:186-203 | a chain of levels goes on past level n whenever the next level of level n is not empty |
| Completeness.ChainSorted | Apriori/index.py:172-174 | every level of a chain holds sorted itemsets, so its next level is defined |
| Completeness.EndPartsFrequent | Apriori/index.py:171-179 | dropping the last or the first item of a frequent itemset gives frequent sorted itemsets whose singletons are still at level 1 |
| Apriori.CandidateSupportBound | Apriori/index.py:171-179 | a union's support is at most the recorded count of either itemset it was joined from |
| Apriori.FrequentOnesCountAtLeastSupport | Apriori/index.py:127-135 | every level-1 count is at least the subset-scan support of its singleton |
| Apriori.NextLevelApriori | Apriori/index.py:171-184 | every itemset of the next level is a union of two previous itemsets whose counts are at least its support |
| RowMax.LexLess | Apriori/index.py:123-125 | Python's `<` on two lists, by which numpy picks the largest row; it has no contract of its own: `LexAsymmetric` and `RaggedRowDecides` state its use |
| RowMax.LargestRow | Apriori/index.py:123-125 | the row numpy's `max` picks on a ragged store is one of the transactions; `LargestRowIsMax` states that no transaction compares larger |
| RowMax.LargestRowIsMax | Apriori/index.py:123-125 | no transaction compares larger, under Python's list `<`, than the row numpy's `max` picks |
| RowMax.LexTrans | Apriori/index.py:123 | Python's `<` on lists is transitive, so a largest row exists |
| RowMax.LexIrrefl | Apriori/index.py:123 | no list compares smaller than itself under Python's `<` |
| RowMax.SourceMax | Apriori/index.py:123-125 | the source's array bound as written; it has no contract of its own: `SourceMaxFails`, `SourceMaxInStore`, `RectangularAgrees` and `RaggedBoundTooSmall` state what it gives |
| RowMax.LargestRowEmpty | Apriori/index.py:123-125 | the largest row is empty only when every transaction is empty |
| RowMax.SourceMaxFails | Apriori/index.py:123-125 | the source's bound fails exactly when no transaction holds an item, the case in which the model reports `NoItems` |
| RowMax.SourceMaxInStore | Apriori/index.py:123-125 | when the source's bound exists it is an item of the store |
| RowMax.FlattenHolds | Apriori/index.py:123 | the flattened store holds exactly the items of its transactions |
| RowMax.RectangularAgrees | Apriori/index.py:123-125 | when every transaction has the same length, the source's array bound is the largest item |
| RowMax.LexAsymmetric | Apriori/index.py:123 | Python's `<` on two lists never holds both ways, so the largest row is well defined |
| RowMax.RaggedRowDecides | Apriori/index.py:123-125 | on two transactions of different lengths the source's bound is the largest item of the row that compares larger, whatever the other row holds |
| RowMax.RaggedBoundTooSmall | Apriori/index.py:123-131 | for the ragged store [[1], [0, 5]] the source's bound is 1 while item 5 is counted at `arr[5]` |
| Scenarios.SingleItemStore | Apriori/index.py:78-82 | the store {5} at degree 1 gives exactly level 1 = {5: 1} and no further level |
| Scenarios.SingleItemLevelOne | Apriori/index.py:113-135 | the store {5} has largest item 5 and at degree 1 gives level 1 = {5: 1} |
| Scenarios.PairLevelOne | Apriori/index.py:113-135 | the store {1, 2}, {1, 2} has largest item 2 and at degree 2 gives level 1 = {1: 2, 2: 2} |
| Scenarios.PairJoin | Apriori/index.py:171-174 | joining [1] and [2] at k = 2 gives the single candidate [1, 2] |
| Scenarios.PairLevelTwo | Apriori/index.py:163-184 | from level 1 = {1: 2, 2: 2} one pass of `get_k_fi` gives exactly level 2 = {(1, 2): 2} |
| Scenarios.PairMine | Apriori/index.py:159-203 | from that level 1 the run reports level 2 = {(1, 2): 2} and then stops, one itemset being left |
| Scenarios.PairStore | Apriori/index.py:78-82 | the whole run on the store {1, 2}, {1, 2} at degree 2 gives exactly level 1 = {1: 2, 2: 2} and level 2 = {(1, 2): 2} |
| Scenarios.ScatteredLevelOne | Apriori/index.py:113-135 | the store {1, 2}, {1}, {2} has largest item 2 and at degree 2 gives level 1 = {1: 2, 2: 2} |
| Scenarios.ScatteredSupport | Apriori/index.py:176-179 | on that store the candidate (1, 2) is counted in one transaction only |
| Scenarios.ScatteredLevelTwo | Apriori/index.py:168-184 | from level 1 = {1: 2, 2: 2} on that store, one pass of `get_k_fi` gives an empty level 2 |
| Scenarios.ScatteredMine | Apriori/index.py:186-188 | from that level 1 the recursion stops at once on the empty level 2 and reports nothing more |
| Scenarios.ScatteredStore | Apriori/index.py:78-82 | the whole run on the store {1, 2}, {1}, {2} at degree 2 gives exactly level 1 = {1: 2, 2: 2} |

## Left out

- File loading, result writing, console output and timing are not modelled. This covers `file_load`, `file_write`, the `print` calls, the `time.time()` bookkeeping and the `__main__` sweep over rates. They do not affect the mined levels.
- The conversion from rate to degree, `ceil(rate * len(ls))`, uses floating point. The model takes the degree as an integer input instead.
- The constructor's choice between an in-memory list and a data file is not modelled. The model receives the transaction sequence directly.
- Negative or non-integer item ids are not modelled, because items are `nat`. The source would index the counting array from the end for a negative id.
- Apriori.MaxItem: the model sizes the level-1 array with the true largest item. On ragged stores the source's numpy call can give a smaller bound and then fail; `RowMax` models that separately.
- Apriori.GetFrequentItems: the failure on a store without items is `NoItems`. The source raises numpy's error instead.
- Completeness.GetFrequentItemsComplete: it covers only itemsets whose items are at most the largest item. At a degree of 0 or below, an itemset holding a larger item also has support reaching the degree, but its items are never counted, so no level reports it (the source behaves the same).
- Candidates.JoinCandidates: the candidates are stated as a set. Their order is fixed by the definition of `JoinFrom` (pairs in `itertools.combinations` order), but no contract states that order.
- Apriori.Mine: `bound` (the largest item) serves only as the termination measure; it is not a parameter of the source.
- The source keeps the itemsets without counts (`fi_k_l`) next to the level (`fi_k`). In the model it is the projection `ItemsOf(level)`, so both always name the same itemsets in the same order.
- The level-1 keys are plain ids (`{i: e}`); later levels use tuples. The model writes every key as an itemset, and a level-1 key as the one-item itemset `[i]`.
- `K-Means/index.py` is not part of this model.

## Findings

| source | as written | input that shows it | evidently intended | confidence | as-written member | corrected member |
|---|---|---|---|---|---|---|
| Apriori/index.py:123-131 | `np.array(self.ls, dtype=list).max()` compares whole rows as lists when the transactions have different lengths. It then takes `max` inside the largest row only, and `arr` is sized from that item | `[[1], [0, 5]]`: the larger row is `[1]`, so `arr` has two slots and `arr[5] += 1` is out of range | size `arr` by the largest item over all transactions | medium, not executed (numpy's comparison of list rows is taken from its documented object-array behaviour) | RowMax.SourceMax, RowMax.RaggedBoundTooSmall | Apriori.MaxItem |

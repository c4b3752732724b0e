# Shop-bag association rules, modelled in Dafny

This project models the core of ShopBagAssociationRulesExtractor, a small Apriori miner for shopping baskets. Each row of a CSV data frame is one transaction: the non-missing cells of the row, lower-cased.

- **Index.** The `Arules` engine builds an inverted index from the transactions. It maps each item to the set of row numbers that hold it.
- **Support.** The support of an itemset is the share of rows holding all of its items. It is computed by intersecting the items' index entries.
- **Mining.** Frequent itemsets are found level by level. The candidates of size k are generated from the frequent itemsets of size k-1. For k >= 3 they are pruned by downward closure.
- **Rules.** Every split of a frequent itemset into a non-empty left side and a non-empty right side yields an association rule, with confidence and lift. Rules below either threshold are dropped.
- **Helpers.** `csv2list` and `list2map` build the transaction list and its inverted index. `DataAnalyzerUtil` computes the mean transaction length and splits the transactions by length.

Modules:

- `Wrappers` (wrappers.dfy): `Option`.
- `Itemsets` (itemsets.dfy): items as strings and itemsets as `set<string>`.
  - Python's string order, and `sorted` of a set of labels (`SortedItems`).
  - `itertools.combinations` over a sorted sequence of labels (`Combinations`).
  - Binomial counting.
- `Utils` (utils.dfy):
  - the data frame as a grid of optional cells, and `csv2list`;
  - the inverted index as a specification (`InvertedIndex`), and `list2map` as a loop proved equal to it.
- `Arules` (arules.dfy):
  - support as a specification function (`Support`);
  - candidate generation;
  - the `Arules` class. Its three fields are fixed by its constructor. Its loops are methods: `ConvertData`, `CalculateSupport`, `GetFrequentItemSets`. Its rule generators are functions.
- `DataAnalyzer` (data_analyzer.dfy): the `DataAnalyzerUtil` class.

The lower-casing `str(value).lower()` is the parameter `norm: string -> string`. Support, confidence and lift are exact `real`s.

## Model

| member | source | states |
|---|---|---|
| Utils.Transactions | src/Utils.py:8-15 | `csv2list` yields exactly one transaction per row of the grid, rows without items included, the i-th being that row's items |
| Utils.RowItems | src/Utils.py:11-14 | the transaction of one row: never longer than the row; its membership and column order are stated by RowItemsMembers and RowItemsAppend |
| Utils.RowItemsMembers | src/Utils.py:11-14 | an item is in a row's transaction exactly when some non-missing cell of the row normalises to it |
| Utils.RowItemsAppend | src/Utils.py:11-14 | the transaction of a row keeps the non-missing cells in column order: splitting the row splits the transaction |
| Utils.Csv2List | src/Utils.py:5-16 | the nested append loops return exactly the per-row transactions of the grid |
| Utils.InvertedIndex | src/Utils.py:19-26 | an item is a key exactly when it occurs in some transaction; its entry is exactly the rows holding it; every stored row is below the number of transactions |
| Utils.IndexUnique | src/Utils.py:19-26 | the inverted index of a list of transactions is unique, so any loop building a valid index builds this one |
| Utils.List2Map | src/Utils.py:19-26 | `list2map`'s nested loop returns the inverted index of its argument |
| Utils.IndexRow | src/Utils.py:22-25 | the inner loop of `list2map` for transaction `index` extends a valid index of the earlier transactions to one that includes this transaction |
| Utils.InvertedIndexOfNothing | src/Utils.py:20-26 | the index of no transactions is the empty map |
| Utils.InvertedIndexAppendEmpty | src/Utils.py:20-26 | appending an empty transaction leaves the index unchanged |
| Utils.InvertedIndexIgnoresRepeats | src/Utils.py:22-25 | only which items a transaction holds matters: a repeated item adds its row once, and order within a transaction is irrelevant |
| Itemsets.SortedItems | src/Arules.py:137 | `sorted` of a set of labels (also at src/Arules.py:77); no ensures of its own; see SortedItemsSpec |
| Itemsets.SortedItemsSpec | src/Arules.py:77 | `sorted` of a set lists each of its labels exactly once, in strictly increasing string order |
| Itemsets.Combinations | src/Arules.py:142 | `combinations` as sets (also at src/Arules.py:84); no ensures of its own; see CombinationsMembers, CombinationsDistinct and CombinationsCount |
| Itemsets.CombinationsMembers | src/Arules.py:142 | over distinct labels, the k-combinations are exactly the k-element subsets |
| Itemsets.CombinationsDistinct | src/Arules.py:142 | over distinct labels, no combination is produced twice |
| Itemsets.CombinationsCount | src/Arules.py:84 | there are Choose(n, k) k-combinations of n labels |
| Itemsets.SumChooseAll | src/Arules.py:82-84 | the binomial coefficients of n add up to 2^n |
| Arules.Support | src/Arules.py:106-127 | support is 1 for the empty itemset, even with no rows; otherwise it is 0 with no rows or with an item missing from the index; it is never negative, and at most 1 over an index of `count` rows |
| Arules.SupportAntiMonotone | src/Arules.py:115-127 | adding items never raises support |
| Arules.SupportIsShareOfRows | src/Arules.py:115-127 | over the index of a list of transactions, support is the number of transactions holding every item divided by the number of transactions |
| Arules.Arules.SupportInUnitInterval | src/Arules.py:106-127 | on an engine built by the constructor, every support lies in [0, 1] |
| Arules.Arules.constructor | src/Arules.py:8-9 | the fields are the index of the data frame's transactions, its key set, and its row count, and every indexed row lies below that count |
| Arules.Arules.ConvertData | src/Arules.py:161-176 | the index is exactly the inverted index of the per-row transactions; `items` is its key set; the row count includes rows with no items |
| Arules.Arules.RegisterRow | src/Arules.py:168-175 | the column loop for one row adds that row to the entry of each of its items, creating the entry and the item on first sight |
| Arules.Arules.CalculateSupport | src/Arules.py:106-127 | the loop intersecting index entries returns `Support` of the itemset, including the early returns for no items, no rows and an unknown item |
| Arules.UnionAll | src/Arules.py:137 | every item of any previous-level itemset; no ensures of its own; see GenerateNextCandidatesMembers |
| Arules.SubsetsIn | src/Arules.py:153 | the `all(...)` test of the prune; no ensures of its own; see SubsetsInMeaning and KeepClosedMembers |
| Arules.SubsetsInMeaning | src/Arules.py:153 | the prune's test over `combinations(candidate, k - 1)` holds exactly when every (k-1)-element subset of the candidate is in the previous level |
| Arules.GenerateNextCandidates | src/Arules.py:133-155 | no ensures of its own; see GenerateNextCandidatesMembers, GenerateNextCandidatesDistinct and GenerateNextCandidatesRunsDry |
| Arules.GenerateNextCandidatesMembers | src/Arules.py:133-155 | a candidate has exactly `currentK` items, all from the previous level; below size 3 every such set is a candidate; from size 3 on, a set is a candidate exactly when all its (currentK-1)-subsets are in `prevLarge` |
| Arules.GenerateNextCandidatesDistinct | src/Arules.py:137-155 | no candidate is generated twice |
| Arules.GenerateNextCandidatesRunsDry | src/Arules.py:134-147 | once the size asked for exceeds the number of items left, there are no candidates, which ends the search |
| Arules.KeepClosed | src/Arules.py:151-154 | the prune for k >= 3, never longer than its input; see KeepClosedMembers and KeepClosedDistinct |
| Arules.KeepClosedMembers | src/Arules.py:151-154 | the prune keeps exactly the combinations all of whose (k-1)-subsets, as listed by `combinations`, are in the previous level |
| Arules.AprioriComplete | src/Arules.py:32-34 | if the previous level holds every frequent k-itemset, the next candidates include every frequent (k+1)-itemset |
| Arules.Arules.GetFrequentItemSets | src/Arules.py:15-34 | every emitted itemset is a non-empty set of known items, emitted with its true support, which is at least `minSupport`; every frequent itemset is emitted; each exactly once, smaller sizes first |
| Arules.Arules.ScanLevel | src/Arules.py:23-31 | one level emits exactly the candidates meeting `minSupport`, each once with its support, and `larges` is exactly their set |
| Arules.Arules.NextLevel | src/Arules.py:21-34 | one pass of the outer loop keeps the level invariant: the next candidates are distinct, of the next size, and include every frequent itemset of that size, and the result covers all frequent itemsets below it |
| Arules.Arules.LevelBelowItems | src/Arules.py:21 | while candidates remain, the level size is at most the number of items, so the loop terminates |
| Arules.Arules.LastLevel | src/Arules.py:21 | when no candidate is left, no frequent itemset of that size or larger exists |
| Arules.Singletons | src/Arules.py:19 | one singleton per label, in the labels' order; see SingletonsOfItems for the first level |
| Arules.SingletonsOfItems | src/Arules.py:19 | the first candidates are exactly the one-item sets of known items, each once |
| Arules.SplitLefts | src/Arules.py:82-84 | no ensures of its own; see SplitLeftsOfItemset, SplitLeftsDistinct and SplitCount |
| Arules.SplitLeftsOfItemset | src/Arules.py:82-86 | the left sides enumerated for an itemset are exactly its non-empty proper subsets |
| Arules.SplitLeftsDistinct | src/Arules.py:82-86 | no left side is enumerated twice |
| Arules.SplitComplement | src/Arules.py:86-87 | left and right sides are disjoint, non-empty, and make up the itemset; the right side is the left side of the mirrored split |
| Arules.SplitCount | src/Arules.py:82-84 | an itemset of n >= 1 items has exactly 2^n - 2 splits |
| Arules.Arules.GenerateRulesFromSingleFrequentItemSet | src/Arules.py:74-100 | one rule per split: the sides partition the itemset, and each rule carries the sides' supports, the itemset's support, confidence = support / left support and lift = confidence / right support |
| Arules.Arules.MakeRule | src/Arules.py:86-100 | the rule of one split; no ensures of its own; see GenerateRulesFromSingleFrequentItemSet, RuleScores and RulesOfItemset |
| Arules.Arules.RulesOfItemset | src/Arules.py:82-100 | a rule is generated for an itemset exactly when it is the rule of one of its splits |
| Arules.Arules.RulesOfItemsetDistinct | src/Arules.py:82-100 | no rule of an itemset repeats |
| Arules.Arules.RuleCount | src/Arules.py:74-84 | an itemset of n >= 1 items has 2^n - 2 rules, and one of fewer than two items has none |
| Arules.Arules.EmittedHaveSplits | src/Arules.py:88-93 | with a positive `minSupport`, every side of a split of an emitted itemset has positive support, so neither division is by zero |
| Arules.Arules.RuleScores | src/Arules.py:88-93 | the confidence of a rule of an emitted itemset lies in (0, 1]; lift is the itemset's support over the product of the sides' supports, so a rule and its mirror have the same lift |
| Arules.KeepStrong | src/Arules.py:63-64 | the rules meeting both thresholds, never more than given; see KeepStrongMembers and KeepStrongAppend |
| Arules.KeepStrongMembers | src/Arules.py:63-64 | the filter keeps exactly the rules meeting both thresholds |
| Arules.KeepStrongAppend | src/Arules.py:63-64 | the filter keeps the rules' relative order |
| Arules.Arules.GenerateAndFilterRules | src/Arules.py:58-68 | no empty group is produced: an itemset with no surviving rule contributes nothing |
| Arules.Flatten | src/Arules.py:42 | `chain.from_iterable` over the groups; no ensures of its own; see FlattenMembers and GetArulesCons |
| Arules.FlattenMembers | src/Arules.py:42 | flattening the groups loses and adds no rule |
| Arules.Arules.GetArules | src/Arules.py:40-51 | the flattened rules before ranking; no ensures of its own; see GetArulesMembers and GetArulesCons |
| Arules.Arules.GetArulesMembers | src/Arules.py:40-68 | a rule is reported exactly when it is a rule of some itemset of at least two items and meets both thresholds |
| Arules.Arules.GetArulesCons | src/Arules.py:42-68 | the rules of the first itemset come first, itemsets below two items contributing none |
| DataAnalyzer.DataAnalyzerUtil.constructor | src/DataAnalyzerUtil.py:9-10 | the transactions are those that `csv2list` yields for the data frame |
| DataAnalyzer.TotalLength | src/DataAnalyzerUtil.py:13 | the sum of the lengths inside `mean`; no ensures of its own; see AverageLength and TotalLengthBounds |
| DataAnalyzer.AverageLength | src/DataAnalyzerUtil.py:12-13 | the mean is undefined exactly for no transactions; otherwise it times the number of transactions is the total number of items |
| DataAnalyzer.DataAnalyzerUtil.GetAverageOfItemCountInEachTransaction | src/DataAnalyzerUtil.py:12-13 | the same for the analyser's transactions |
| DataAnalyzer.TotalLengthBounds | src/DataAnalyzerUtil.py:13 | when every transaction has between lo and hi items, the total lies between lo and hi times the number of transactions |
| DataAnalyzer.AverageLengthBounds | src/DataAnalyzerUtil.py:12-13 | the mean lies between the shortest and the longest transaction |
| DataAnalyzer.DataAnalyzerUtil.GetSmallBagsItems | src/DataAnalyzerUtil.py:15-16 | a transaction is yielded exactly when it is one of the transactions with fewer items than `indicator` |
| DataAnalyzer.DataAnalyzerUtil.GetBigBagsItems | src/DataAnalyzerUtil.py:18-19 | a transaction is yielded exactly when it is one of the transactions with more items than `indicator` |
| DataAnalyzer.Keeps | src/DataAnalyzerUtil.py:15-25 | the length comparisons of the bag filters and of the division; no ensures of its own; see ByLengthMembers and NeitherSmallNorBig |
| DataAnalyzer.ByLength | src/DataAnalyzerUtil.py:15-28 | the length filter behind both bag generators and the division, never longer than its input; see ByLengthMembers, ByLengthAppend and DivisionPartitions |
| DataAnalyzer.ByLengthMembers | src/DataAnalyzerUtil.py:15-28 | the length filter keeps exactly the transactions that pass its bound |
| DataAnalyzer.ByLengthAppend | src/DataAnalyzerUtil.py:24-28 | the length filter keeps relative order: filtering a concatenation concatenates the filtered parts |
| DataAnalyzer.NeitherSmallNorBig | src/DataAnalyzerUtil.py:15-19 | a transaction of exactly `indicator` items is neither a small nor a big bag |
| DataAnalyzer.DataAnalyzerUtil.DivideTransactionByItemCount | src/DataAnalyzerUtil.py:21-29 | the big bag is the transactions with more items than `indicator` and the small bag the rest, both in order, together holding every transaction exactly once |
| DataAnalyzer.DivisionPartitions | src/DataAnalyzerUtil.py:22-29 | the small and big bags are a partition of the transactions as a multiset, and their lengths add up to the number of transactions |

## Left out

- Reading the CSV file (`pd.read_csv`) is not modelled. The data frame arrives as a grid of cells, each `Missing` (what `pd.isna` detects) or `Present` with its text.
- Rows of different lengths: the grid may be ragged. pandas (with `header=None`) takes the column count from the first line, pads shorter lines with missing cells and rejects longer lines with a tokenizing error. Padding does not change a row's transaction, but the model also accepts grids whose later rows are longer than the first, which the source refuses.
- The lower-casing `str(item).lower()` is an arbitrary function `norm` supplied by the caller; case folding itself is not modelled.
- Python's set iteration order is unspecified. The first candidates follow the sorted order of the items. `calculate_support` picks the items of an itemset in any order, which does not affect its result.
- Arules.Arules.GetFrequentItemSets: the generator becomes a method returning the whole sequence. Laziness and early termination by the consumer are not modelled.
- Arules.Arules.GetFrequentItemSets: the inner loop over the candidates is the helper method `ScanLevel`. The column loop of `convert_data` is the helper method `RegisterRow`, and the inner loop of `list2map` is `IndexRow`. Each helper keeps the loop and its invariants.
- Arules.Arules.MakeRule: a zero left or right support raises `ZeroDivisionError` in the source. The model requires every split side to have positive support. `EmittedHaveSplits` shows this always holds for itemsets mined with a positive `minSupport`.
- Arules.Arules.GetArules: the DataFrame construction and `sort_values` ranking are not modelled; the model returns the flattened rules in generation order.
- The `None` defaults of `min_confidence` and `min_lift` make the comparisons raise `TypeError` in Python; the model takes real thresholds.
- Floating-point rounding: support, confidence, lift and the mean are exact reals.
- DataAnalyzer.AverageLength: `statistics.mean` raising on no transactions is `None`.
- The small/big bag generators become functions returning sequences.
- `list2series`, `export_html`, the scatter plot, the bar and tree-map charts and `src/main.py` are presentation and I/O, and are not part of this model.

# Beta-diversity visualizers of q2-diversity, modelled in Dafny

This project models the computational core of the QIIME 2 beta-diversity
visualizers in `q2_diversity/_beta/_visualizer.py`. It covers three of them.

`beta_group_significance`:
- the method lookup and the error for an unknown name;
- aligning the metadata category with the distance matrix, which keeps only sample ids with a usable value;
- the strict filter of the matrix to those ids;
- the groupings, ordered by sorted category value;
- the within-group and between-group distances and tick labels of each boxplot;
- the pairwise tests over every pair of groups, their q-values and the sort of the pairwise table.

`beta_rarefaction`:
- the phylogeny check, which picks a plain or a phylogenetic beta function;
- the loop that rarefies and computes a distance matrix `iterations` times.

`mantel`:
- the symmetric difference of the two matrices' ids, and the error that lists it sorted;
- the strict filter of both matrices to the shared ids when `intersect_ids` is requested;
- the result fields;
- the scatter data of paired distances over every pair of ids.

A distance matrix is its ids plus an opaque distance lookup. Several things are
function parameters, so the model says what the visualizers do with them and
nothing about how they work:
- the statistics (PERMANOVA, ANOSIM, Mantel, pairwise Mantel);
- the Benjamini-Hochberg correction;
- rarefaction;
- beta-diversity computation.

Modules, one file each:
- `Wrappers`: the `Option` and `Result` types and the error kinds with their messages.
- `Sorting`: Python's `sorted` over distinct values, and code-point string order.
- `DistanceMatrices`: the matrix and its strict `filter`.
- `Itertools`: `itertools.combinations(s, 2)`.
- `Alignment`: category values and the aligned series.
- `Grouping`: the groupings.
- `Boxplots`: `_get_distance_boxplot_data`.
- `GroupSignificance`: the method lookup, the pairwise statistics and the top-level flow.
- `Rarefaction`: `beta_rarefaction` and `_get_multiple_rarefaction`.
- `Mantel`: the id matching and the scatter loop.

Loops in the source are methods with loop invariants, each proved equal to a
specification function. The properties are proved about those functions:
- the boxplot loops;
- the pairwise loop;
- the rarefaction loop;
- the scatter loop.

The aligned series, and so each group's sample order, follows the distance
matrix's id order (`metadata.loc[list(distance_matrix.ids)]`), not the order of
the metadata rows; `AlignedGroupOrder` states this.

The within-group distances pair `group[i]` with `group[j]` only for `j < i`, so
each unordered pair appears once, with the later sample first.

## Model

| member | source | states |
|---|---|---|
| Sorting.SortUniqueSorted | q2_diversity/_beta/_visualizer.py:152-154 | under a strict total order, the sorted distinct values are strictly ascending and duplicate-free |
| Sorting.SortUniqueOfSorted | q2_diversity/_beta/_visualizer.py:205 | sorting an already strictly ascending sequence gives it back unchanged |
| Sorting.SortUnique | q2_diversity/_beta/_visualizer.py:152-154 | `sorted` of the distinct labels holds exactly the values of its input |
| Sorting.StrictlySortedNoDup | q2_diversity/_beta/_visualizer.py:152-154 | a strictly ascending sequence repeats no element |
| Sorting.StrLess | q2_diversity/_beta/_visualizer.py:308 | reference definition of Python's string comparison: lexicographic on code points, a proper prefix first; its order laws are the three lemmas below |
| Sorting.InOrderOf | q2_diversity/_beta/_visualizer.py:153 | reference definition of "keeps the relative order of": every element occurs, and earlier elements occur earlier |
| Sorting.InOrderTrans | q2_diversity/_beta/_visualizer.py:131-153 | keeping relative order is transitive, which chains the alignment order and the group order |
| Sorting.StrLessIrreflexive | q2_diversity/_beta/_visualizer.py:308 | no string sorts before itself |
| Sorting.StrLessTransitive | q2_diversity/_beta/_visualizer.py:308 | Python's string order is transitive |
| Sorting.StrLessConnected | q2_diversity/_beta/_visualizer.py:308 | of two distinct strings, one sorts before the other |
| Sorting.StrLessIsStrictTotal | q2_diversity/_beta/_visualizer.py:308 | Python's code-point string order is a strict total order |
| DistanceMatrices.Filter | q2_diversity/_beta/_visualizer.py:107 | the strict filter succeeds exactly when every requested id is in the matrix and none repeats; it then holds exactly the requested ids in that order with the same distances; a missing id is reported as one the matrix lacks |
| DistanceMatrices.DistanceMatrix.Get | q2_diversity/_beta/_visualizer.py:83 | reference definition of `dm[a, b]`: the distance between two ids the matrix holds |
| DistanceMatrices.FirstMissing | q2_diversity/_beta/_visualizer.py:138 | finds nothing exactly when every requested id is present, otherwise a requested id that is absent |
| DistanceMatrices.NoDupSubsetLength | q2_diversity/_beta/_visualizer.py:137-139 | a duplicate-free id list drawn from the matrix's ids is no longer than them |
| DistanceMatrices.FilterNoLarger | q2_diversity/_beta/_visualizer.py:137-139 | a successful strict filter never yields more samples than the matrix had |
| Itertools.CombinationsLength | q2_diversity/_beta/_visualizer.py:183 | there are n(n-1)/2 pairs |
| Itertools.Combinations | q2_diversity/_beta/_visualizer.py:183 | reference definition of `itertools.combinations(s, 2)`: the pairs with the first element, then the pairs of the rest; characterised by the four lemmas below |
| Itertools.CombinationsAt | q2_diversity/_beta/_visualizer.py:183 | each pair is the elements at two positions, the earlier one first |
| Itertools.CombinationsCover | q2_diversity/_beta/_visualizer.py:335 | every pair of positions i < j occurs |
| Itertools.CombinationsMembership | q2_diversity/_beta/_visualizer.py:335 | a pair occurs if and only if it is the elements at two positions in order |
| Alignment.ValueLessIsStrictTotal | q2_diversity/_beta/_visualizer.py:154 | the order of category values (missing, then numbers, then text) is a strict total order |
| Alignment.Align | q2_diversity/_beta/_visualizer.py:130-132 | the aligned series is no longer than the matrix's ids; each row is a matrix id with a present (non-missing, non-empty) metadata value equal to its metadata |
| Alignment.Lookup | q2_diversity/_beta/_visualizer.py:131 | reference definition of `metadata.loc[id]`: the metadata value, or missing for an id without metadata |
| Alignment.AlignKeeps | q2_diversity/_beta/_visualizer.py:131-132 | an id survives alignment if and only if the matrix holds it and its metadata value is present |
| Alignment.AlignNoDup | q2_diversity/_beta/_visualizer.py:131-132 | alignment introduces no repeated ids |
| Alignment.AlignInOrder | q2_diversity/_beta/_visualizer.py:131-132 | the aligned series lists its samples in the order of the matrix's ids |
| Alignment.AlignThenFilter | q2_diversity/_beta/_visualizer.py:137-139 | the strict filter of the matrix to the aligned ids cannot fail, keeps exactly those ids, and gives at most the initial number of samples |
| Alignment.ValueOf | q2_diversity/_beta/_visualizer.py:106 | `metadata[id]` is the value of a row with that id, or missing when there is none |
| Alignment.ValueOfRow | q2_diversity/_beta/_visualizer.py:106 | in a series with unique ids, looking up a row's id gives that row's value |
| Grouping.GroupOf | q2_diversity/_beta/_visualizer.py:80 | `groupings[key]` is the sample list stored under that key |
| Grouping.GroupOfAt | q2_diversity/_beta/_visualizer.py:105 | with unique keys, looking up the k-th key gives the k-th group |
| Grouping.MembersHave | q2_diversity/_beta/_visualizer.py:153-154 | an id is in a value's group if and only if the series has that id with that value |
| Grouping.Members | q2_diversity/_beta/_visualizer.py:153 | reference definition of `list(series.index)` for the group of one value: the ids of its rows, in series order |
| Grouping.MakeGroupings | q2_diversity/_beta/_visualizer.py:152-154 | reference definition of the groupings: one (value, members) pair per sorted distinct value; characterised by the Grouping lemmas |
| Grouping.MembersInOrder | q2_diversity/_beta/_visualizer.py:153 | a group lists its samples in the order of the series |
| Grouping.GroupingInOrder | q2_diversity/_beta/_visualizer.py:152-154 | every group of the groupings lists its samples in the order of the series |
| Grouping.MembersNoDup | q2_diversity/_beta/_visualizer.py:153-154 | a group repeats no sample |
| Grouping.GroupingKeys | q2_diversity/_beta/_visualizer.py:152-154 | the group ids are the sorted distinct category values: strictly ascending, unique, and exactly the values present |
| Grouping.GroupingCovers | q2_diversity/_beta/_visualizer.py:152-154 | every sample of the aligned series is in some group |
| Grouping.GroupingExclusive | q2_diversity/_beta/_visualizer.py:152-154 | no sample is in two groups |
| Grouping.GroupingWithin | q2_diversity/_beta/_visualizer.py:152-154 | every grouped sample is in the aligned series |
| Grouping.GroupingMembersCarryLabel | q2_diversity/_beta/_visualizer.py:152-154 | every group is non-empty, and a sample is in a group if and only if it carries that group's value |
| Grouping.MakeGroupingsWellFormed | q2_diversity/_beta/_visualizer.py:152-154 | the groupings have unique keys and duplicate-free, pairwise disjoint groups drawn from the series |
| Boxplots.WithinDistances | q2_diversity/_beta/_visualizer.py:79-83 | the nested within-group loop computes exactly the within-group distance list |
| Boxplots.Within | q2_diversity/_beta/_visualizer.py:79-83 | reference definition of the within-group list: for each sample, its distances to every earlier sample of the group; characterised by WithinLength and WithinAt |
| Boxplots.Between | q2_diversity/_beta/_visualizer.py:90-95 | reference definition of the between-group list: for each sample of the group, its distances to every sample of the other group; characterised by BetweenLength and BetweenAt |
| Boxplots.Others | q2_diversity/_beta/_visualizer.py:89-92 | reference definition of the groups other than the target, in grouping order; characterised by OthersSkip |
| Boxplots.BoxplotLists | q2_diversity/_beta/_visualizer.py:74-98 | reference definition of `all_group_distances`: the within-group list, then the between-group list of each other group; characterised by BoxplotLayout and BoxplotOthers |
| Boxplots.BoxplotTicks | q2_diversity/_beta/_visualizer.py:84-97 | reference definition of `x_ticklabels`: each group with the number of distances in its list; characterised by BoxplotLayout and BoxplotOthers |
| Boxplots.BetweenDistances | q2_diversity/_beta/_visualizer.py:90-95 | the nested between-group loop computes exactly the between-group distance list |
| Boxplots.DistanceBoxplotData | q2_diversity/_beta/_visualizer.py:74-99 | the procedure returns exactly the boxplot lists and tick labels of the target group: its within-group list, then one between-group list per other group in grouping order |
| Boxplots.WithinLength | q2_diversity/_beta/_visualizer.py:79-85 | a group of n samples has n(n-1)/2 within-group distances |
| Boxplots.WithinPrefix | q2_diversity/_beta/_visualizer.py:81-83 | the distances of a prefix of the group are a prefix of the group's distances |
| Boxplots.WithinAt | q2_diversity/_beta/_visualizer.py:81-83 | entry i(i-1)/2 + j, for j < i, is the distance between samples i and j |
| Boxplots.BetweenLength | q2_diversity/_beta/_visualizer.py:93-97 | between groups of n and m samples there are n·m distances |
| Boxplots.BetweenPrefix | q2_diversity/_beta/_visualizer.py:93-95 | the distances of a prefix of the group are a prefix of its between-group distances |
| Boxplots.BetweenAt | q2_diversity/_beta/_visualizer.py:93-95 | entry i·m + j is the distance between sample i of the group and sample j of the other group |
| Boxplots.OthersNotThere | q2_diversity/_beta/_visualizer.py:89-92 | if no group has the target key, no group is skipped |
| Boxplots.OthersSkip | q2_diversity/_beta/_visualizer.py:89-92 | the other groups are all groups except the target's, in order |
| Boxplots.BoxplotUnfold | q2_diversity/_beta/_visualizer.py:84-98 | the lists and ticks are the within-group entry followed by the entries for the other groups |
| Boxplots.BoxplotLayout | q2_diversity/_beta/_visualizer.py:74-99 | one list and one tick per group; each tick's n is its list's length; the first list is the within-group distances, its tick names the target group with n = k(k-1)/2 |
| Boxplots.BoxplotOthers | q2_diversity/_beta/_visualizer.py:88-98 | list k+1 is the between-group distances to the k-th other group, and its tick names that group with n = the product of the two group sizes |
| GroupSignificance.LookupMethod | q2_diversity/_beta/_visualizer.py:118-124 | the lookup succeeds if and only if the name is one of "permanova" and "anosim", finds the method of that name, and otherwise fails with the list of available options |
| Wrappers.Message | q2_diversity/_beta/_visualizer.py:121-124 | reference definition of the texts the errors are raised with: the unknown-method text here, the missing-phylogeny text of lines 233-236 and the id-mismatch text of lines 303-308 |
| GroupSignificance.LookupMethodName | q2_diversity/_beta/_visualizer.py:70-71 | each method is found under its own name |
| GroupSignificance.PairSubset | q2_diversity/_beta/_visualizer.py:102-107 | the pairwise subset holds group 1's samples then group 2's, with their metadata values and the same distances |
| GroupSignificance.PairSamplesFilter | q2_diversity/_beta/_visualizer.py:105-107 | the strict filter to the two groups' samples cannot fail |
| GroupSignificance.GroupedValue | q2_diversity/_beta/_visualizer.py:105-106 | every sample of a group has that group's value in the metadata |
| GroupSignificance.PairSubsetLabels | q2_diversity/_beta/_visualizer.py:105-106 | in the pairwise metadata the first rows carry group 1's value and the rest group 2's |
| GroupSignificance.CombinationsArePairs | q2_diversity/_beta/_visualizer.py:183 | each pair of group ids is two distinct keys of the groupings |
| GroupSignificance.AllPairResults | q2_diversity/_beta/_visualizer.py:182-198 | one result per pair of groups, naming the pairs in combinations order |
| GroupSignificance.PairwiseResults | q2_diversity/_beta/_visualizer.py:181-198 | the pairwise loop computes exactly the results for all pairs of groups |
| GroupSignificance.KeyLessIsStrictTotal | q2_diversity/_beta/_visualizer.py:205 | the lexicographic order on (Group 1, Group 2) is a strict total order |
| GroupSignificance.RowWithKey | q2_diversity/_beta/_visualizer.py:205 | the row of the table with a given key, which `sort_index` places at that key's position; the result carries the key and is a row of the table |
| GroupSignificance.RowWithKeyAt | q2_diversity/_beta/_visualizer.py:205 | with a unique index, looking up the k-th row's key gives the k-th row |
| GroupSignificance.SortIndex | q2_diversity/_beta/_visualizer.py:205 | `sort_index` of a table with a unique index: each output row is a row of the table; its ordering and key set are stated by SortIndexSorted |
| GroupSignificance.SortIndexSorted | q2_diversity/_beta/_visualizer.py:205 | after `sort_index` the keys are strictly ascending and are exactly the keys of the table |
| GroupSignificance.SortIndexOfSorted | q2_diversity/_beta/_visualizer.py:205 | `sort_index` leaves an already sorted table unchanged |
| GroupSignificance.CombinationsSorted | q2_diversity/_beta/_visualizer.py:183 | the pairs of sorted group ids come out in ascending (Group 1, Group 2) order |
| GroupSignificance.MakePairwiseTable | q2_diversity/_beta/_visualizer.py:199-205 | the table has one row per pair with its q-value in ascending key order; it fails exactly when the correction returns a different number of values than there are p-values |
| GroupSignificance.PairwiseTableRows | q2_diversity/_beta/_visualizer.py:193-204 | the rows come in combinations order; row k's p-value and q-value are the k-th input and output of the correction |
| GroupSignificance.PairwiseTableLayout | q2_diversity/_beta/_visualizer.py:183-205 | a table for n groups has n(n-1)/2 rows in ascending key order; each row pairs two groups with Group 1 earlier, and every such pair has a row |
| GroupSignificance.KeyedLayout | q2_diversity/_beta/_visualizer.py:183-205 | the same layout facts hold for any rows keyed by the pairs of sorted group ids |
| GroupSignificance.AlignedMatrix | q2_diversity/_beta/_visualizer.py:137-139 | the filtered matrix holds exactly the aligned ids with the same distances, and is no larger than the initial one |
| GroupSignificance.AlignedGroupings | q2_diversity/_beta/_visualizer.py:130-154 | the groupings of the aligned data are well formed over the filtered matrix, lie within it, and have strictly sorted keys |
| GroupSignificance.AlignedGroupOrder | q2_diversity/_beta/_visualizer.py:130-154 | each group of the aligned data lists its samples in the order of the matrix's ids, before and after filtering |
| GroupSignificance.BetaGroupSignificance | q2_diversity/_beta/_visualizer.py:118-205 | an unknown method fails with the options error and nothing else; a known method without pairwise always succeeds; with pairwise it succeeds if and only if the correction returns one q-value per pair tested (`CorrectionFits`, which `multipletests` always meets), and otherwise fails with the length mismatch; a success records the initial and filtered sizes, the test on the aligned data, the groupings, one boxplot per group, and the pairwise table exactly when it was requested |
| Rarefaction.SelectBetaFunc | q2_diversity/_beta/_visualizer.py:231-240 | it fails if and only if the metric is phylogenetic and no tree is given; a phylogenetic metric gets the tree-bound function, any other the plain one |
| Rarefaction.MultipleRarefaction | q2_diversity/_beta/_visualizer.py:268-275 | exactly `iterations` matrices (none for a negative count), the k-th computed from the k-th rarefaction of the table |
| Rarefaction.Draw | q2_diversity/_beta/_visualizer.py:272-273 | reference definition of one iteration: the beta function applied to the k-th rarefaction of the table |
| Rarefaction.BetaRarefaction | q2_diversity/_beta/_visualizer.py:231-246 | a phylogenetic metric without a tree fails before any rarefaction; for every other input the model succeeds, with the correlation computed over `iterations` rarefied matrices |
| Mantel.Common | q2_diversity/_beta/_visualizer.py:311 | `ids1 & ids2`: exactly the ids held by both matrices |
| Mantel.Missing | q2_diversity/_beta/_visualizer.py:300 | the ids one matrix holds and the other lacks |
| Mantel.MismatchedIds | q2_diversity/_beta/_visualizer.py:298-308 | `sorted(ids1 ^ ids2)`: exactly the ids held by one matrix only, strictly ascending |
| Mantel.MismatchedEmpty | q2_diversity/_beta/_visualizer.py:302-310 | there are no mismatches if and only if both matrices hold the same ids |
| Mantel.MatchIds | q2_diversity/_beta/_visualizer.py:298-315 | it fails exactly when the id sets differ and `intersect_ids` is off, listing the sorted mismatches; otherwise both matrices hold exactly the shared ids, filtered to the same order when they differed and otherwise unchanged |
| Mantel.PairsIn | q2_diversity/_beta/_visualizer.py:335 | both ids of every pair are ids of the matrix |
| Mantel.MatchedShared | q2_diversity/_beta/_visualizer.py:332-337 | after a successful match every id of the first matrix is in the second, so every scatter lookup succeeds |
| Mantel.ScatterData | q2_diversity/_beta/_visualizer.py:335-337 | the scatter loop computes the pairs of both matrices' distances over the combinations of ids |
| Mantel.Scatter | q2_diversity/_beta/_visualizer.py:335-337 | reference definition of `scatter_data`: the two matrices' distances for each pair of the first matrix's ids, in combinations order; characterised by ScatterLayout |
| Mantel.ScatterLayout | q2_diversity/_beta/_visualizer.py:335-337 | k shared ids give k(k-1)/2 points; each point is the two matrices' distances between ids at positions i < j, and every such pair has its point |
| Mantel.RunMantel | q2_diversity/_beta/_visualizer.py:298-337 | an id mismatch without `intersect_ids` gives the matching error before any test; otherwise the matched matrices share their ids and the result is the report of those matrices |
| Mantel.MantelOutcome | q2_diversity/_beta/_visualizer.py:298-337 | the call fails exactly on an id mismatch without `intersect_ids`; otherwise the report shows the sorted mismatches, the two-sided test of the matched matrices under the method's title and statistic label, and k(k-1)/2 scatter points for k shared ids |

## Left out

- Statistics: the PERMANOVA, ANOSIM, Mantel and pairwise Mantel statistics, sample sizes and p-values are scikit-bio floating-point computations. They are opaque function parameters.
- Benjamini-Hochberg: `multipletests` is a statsmodels call on floats. It is an opaque parameter; the model keeps only pandas's error when the column it returns has the wrong length.
- `bioenv`: the numeric coercion and the zero-variance filter are pandas dtype and floating-point behaviour, so the visualizer is not modelled.
- Numeric coercion: `pd.to_numeric(..., errors='ignore')` is not modelled. Category values arrive already typed as missing, number or text.
- Mixed-type sort: sorting a category that mixes numbers and text raises in Python. The model orders missing before numbers before text instead.
- Missing metadata ids: `metadata.loc` on a matrix id with no metadata row is modelled the way the pandas of the time treated it, as a missing value that is then dropped. Later pandas raises instead.
- Rarefaction: `q2_feature_table.rarefy` draws at random. It is a parameter that receives the iteration index in place of a fresh random draw, and its own checks on the sampling depth are not modelled.
- Beta diversity: `beta` and `beta_phylogenetic` are opaque parameters, and so is the set of phylogenetic metric names.
- Mantel.MatchIds: with `intersect_ids`, the shared ids are modelled in the first matrix's order. The source filters both with the same Python set, so both matrices get the same order, but that order is the set's iteration order.
- Mantel.RunMantel: a correlation method other than Spearman or Pearson is not modelled; scikit-bio rejects it inside the Mantel call.
- Errors raised inside scikit-bio for malformed matrices are not modelled.
- GroupSignificance.BetaGroupSignificance: errors raised inside the delegated calls are not modelled, because the model treats those calls as total. Examples are the test raising for a category with a single group, pandas raising when no matrix id has metadata, and scikit-bio refusing the empty matrix that filtering would then build.
- Mantel.RunMantel: errors raised inside scikit-bio's `mantel` are not modelled, because the model treats that call as total. An example is `mantel` raising when fewer than three ids are shared.
- Rarefaction.BetaRarefaction: errors raised inside `rarefy`, the beta functions and `pwmantel` are not modelled, because the model treats those calls as total. An example is `pwmantel` raising for an unknown correlation method.
- GroupSignificance.SortIndex: it is modelled for a table with a unique index. With a repeated key it keeps one row per key, whereas pandas keeps every row. The pairwise table's index is always unique, as CombinationsSorted shows.
- Tick labels `'%s (n=%d)'` are kept as (group, count) pairs; the string formatting is not modelled.
- Plotting and output: seaborn and matplotlib figures, `savefig`, `to_csv`, `df_to_html`, `q2templates.render`, file names and URL quoting are rendering and file I/O.

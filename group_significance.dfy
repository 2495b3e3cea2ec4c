/**
 * `beta_group_significance`: the method lookup, the alignment of the category
 * with the distance matrix, the global test, one boxplot per group and the
 * optional pairwise tests with their q-values, sorted by group pair.
 * The permutation tests themselves (PERMANOVA, ANOSIM) and the
 * Benjamini-Hochberg correction are opaque functions given as parameters.
 */
module GroupSignificance {
  import opened Wrappers
  import opened Sorting
  import opened DistanceMatrices
  import opened Itertools
  import opened Alignment
  import opened Grouping
  import opened Boxplots

  datatype Method = Permanova | Anosim

  /** The keys of `_beta_group_significance_fns`, in their order. */
  const MethodNames: seq<string> := ["permanova", "anosim"]

  function MethodName(m: Method): string
  {
    match m
    case Permanova => "permanova"
    case Anosim => "anosim"
  }

  /** `_beta_group_significance_fns[method]`, a `ValueError` listing the options for an unknown name. */
  function LookupMethod(name: string): (r: Result<Method, Error>)
    ensures r.Ok? <==> name in MethodNames
    ensures r.Ok? ==> MethodName(r.value) == name
    ensures r.Err? ==> r.error == UnknownMethod(name, MethodNames)
  {
    if name == "permanova" then Ok(Permanova)
    else if name == "anosim" then Ok(Anosim)
    else Err(UnknownMethod(name, MethodNames))
  }

  /** Looking up a method's own name finds that method. */
  lemma LookupMethodName(m: Method)
    ensures LookupMethod(MethodName(m)) == Ok(m)
  {
  }

  /** The fields of the result Series of a scikit-bio group significance test. */
  datatype TestResult<F> = TestResult(statisticName: string, sampleSize: int, statistic: F, pValue: F)

  /** The two-group subset a pairwise test runs on. */
  datatype Subset<V> = Subset(dm: DistanceMatrix<V>, metadata: Series)

  /**
   * The inputs of `_get_pairwise_group_significance_stats`: the matrix strictly
   * filtered to `groupings[g1] + groupings[g2]` and the metadata for those samples.
   */
  function PairSubset<V>(dm: DistanceMatrix<V>, g1: Value, g2: Value, gs: Groupings, s: Series): (r: Subset<V>)
    requires WellFormed(gs, dm.ids) && g1 in Keys(gs) && g2 in Keys(gs) && g1 != g2
    ensures r.dm.ids == GroupOf(gs, g1) + GroupOf(gs, g2)
    ensures r.dm.dist == dm.dist && r.dm.Valid()
    ensures RowIds(r.metadata) == r.dm.ids
    ensures forall k :: 0 <= k < |r.metadata| ==> r.metadata[k].value == ValueOf(s, r.dm.ids[k])
  {
    var samples := GroupOf(gs, g1) + GroupOf(gs, g2);
    PairSamplesFilter(dm, g1, g2, gs);
    Subset(Filter(dm, samples).value, Select(s, samples))
  }

  /** Two duplicate-free, disjoint sequences concatenate to a duplicate-free one. */
  lemma ConcatNoDup(x: seq<Id>, y: seq<Id>)
    requires NoDup(x) && NoDup(y) && Disjoint(x, y)
    ensures NoDup(x + y)
  {
    forall i, j | 0 <= i < j < |x + y| ensures (x + y)[i] != (x + y)[j] {
      if i >= |x| {
        assert (x + y)[i] == y[i - |x|] && (x + y)[j] == y[j - |x|];
      } else if j >= |x| {
        assert (x + y)[j] == y[j - |x|];
      }
    }
  }

  /** The strict filter in `_get_pairwise_group_significance_stats` cannot fail. */
  lemma PairSamplesFilter<V>(dm: DistanceMatrix<V>, g1: Value, g2: Value, gs: Groupings)
    requires WellFormed(gs, dm.ids) && g1 in Keys(gs) && g2 in Keys(gs) && g1 != g2
    ensures Filter(dm, GroupOf(gs, g1) + GroupOf(gs, g2)).Ok?
  {
    var a :| 0 <= a < |gs| && gs[a] == (g1, GroupOf(gs, g1));
    var b :| 0 <= b < |gs| && gs[b] == (g2, GroupOf(gs, g2));
    assert a != b;
    assert Disjoint(gs[a].1, gs[b].1);
    assert NoDup(gs[a].1) && Includes(dm.ids, gs[a].1);
    assert NoDup(gs[b].1) && Includes(dm.ids, gs[b].1);
    ConcatNoDup(gs[a].1, gs[b].1);
  }

  /** A grouped sample's metadata value is its group's label. */
  lemma GroupedValue(s: Series, k: nat, i: nat)
    requires NoDup(RowIds(s)) && k < |MakeGroupings(s)| && i < |MakeGroupings(s)[k].1|
    ensures ValueOf(s, MakeGroupings(s)[k].1[i]) == MakeGroupings(s)[k].0
  {
    var gs := MakeGroupings(s);
    GroupingMembersCarryLabel(s, k, gs[k].1[i]);
    ValueOfRow(s, gs[k].1[i], gs[k].0);
  }

  /**
   * On grouped aligned metadata, the two-group subset holds exactly the two
   * groups: the samples of g1, all labelled g1, then those of g2, all labelled g2.
   */
  lemma PairSubsetLabels<V>(dm: DistanceMatrix<V>, s: Series, gs: Groupings, a: nat, b: nat)
    requires NoDup(RowIds(s)) && gs == MakeGroupings(s) && WellFormed(gs, dm.ids)
    requires a < |gs| && b < |gs| && a != b
    ensures gs[a].0 in Keys(gs) && gs[b].0 in Keys(gs) && gs[a].0 != gs[b].0
    ensures var sub := PairSubset(dm, gs[a].0, gs[b].0, gs, s);
            && sub.dm.ids == gs[a].1 + gs[b].1
            && (forall k :: 0 <= k < |gs[a].1| ==> sub.metadata[k].value == gs[a].0)
            && (forall k :: |gs[a].1| <= k < |sub.metadata| ==> sub.metadata[k].value == gs[b].0)
  {
    var ga, gb := gs[a].1, gs[b].1;
    assert Keys(gs)[a] == gs[a].0 && Keys(gs)[b] == gs[b].0;
    GroupOfAt(gs, a);
    GroupOfAt(gs, b);
    var sub := PairSubset(dm, gs[a].0, gs[b].0, gs, s);
    forall i | 0 <= i < |ga| ensures ValueOf(s, ga[i]) == gs[a].0 { GroupedValue(s, a, i); }
    forall i | 0 <= i < |gb| ensures ValueOf(s, gb[i]) == gs[b].0 { GroupedValue(s, b, i); }
    ConcatValues(s, sub.metadata, sub.dm.ids, ga, gb, gs[a].0, gs[b].0);
  }

  /** Metadata looked up for `x + y` holds x's value in its first part and y's in the rest. */
  lemma ConcatValues(s: Series, md: Series, ids: seq<Id>, x: seq<Id>, y: seq<Id>, u: Value, v: Value)
    requires ids == x + y && RowIds(md) == ids
    requires forall k :: 0 <= k < |md| ==> md[k].value == ValueOf(s, ids[k])
    requires forall i :: 0 <= i < |x| ==> ValueOf(s, x[i]) == u
    requires forall i :: 0 <= i < |y| ==> ValueOf(s, y[i]) == v
    ensures forall k :: 0 <= k < |x| ==> md[k].value == u
    ensures forall k :: |x| <= k < |md| ==> md[k].value == v
  {
    forall k | 0 <= k < |x| ensures md[k].value == u {
      assert ids[k] == x[k];
    }
    forall k | |x| <= k < |md| ensures md[k].value == v {
      assert ids[k] == y[k - |x|];
    }
  }

  /** One row of the pairwise table before the q-value column is added. */
  datatype PairResult<F> = PairResult(
    group1: Value, group2: Value, sampleSize: int, permutations: int, statistic: F, pValue: F)

  /** A pair of distinct groups of the groupings. */
  ghost predicate GroupPair(gs: Groupings, pair: (Value, Value))
  {
    pair.0 in Keys(gs) && pair.1 in Keys(gs) && pair.0 != pair.1
  }

  /** The row the pairwise loop appends for one pair of groups. */
  function PairResultFor<V, F>(
    dm: DistanceMatrix<V>, pair: (Value, Value), gs: Groupings, s: Series, m: Method,
    test: (Method, DistanceMatrix<V>, Series, int) -> TestResult<F>, permutations: int): (r: PairResult<F>)
    requires WellFormed(gs, dm.ids) && GroupPair(gs, pair)
    ensures (r.group1, r.group2) == pair && r.permutations == permutations
  {
    var sub := PairSubset(dm, pair.0, pair.1, gs, s);
    var t := test(m, sub.dm, sub.metadata, permutations);
    PairResult(pair.0, pair.1, t.sampleSize, permutations, t.statistic, t.pValue)
  }

  /** With unique labels, every pair `itertools.combinations` yields is a pair of distinct groups. */
  lemma CombinationsArePairs(gs: Groupings)
    requires NoDup(Keys(gs))
    ensures forall k :: 0 <= k < |Combinations(Keys(gs))| ==> GroupPair(gs, Combinations(Keys(gs))[k])
  {
    forall k | 0 <= k < |Combinations(Keys(gs))| ensures GroupPair(gs, Combinations(Keys(gs))[k]) {
      CombinationsAt(Keys(gs), k);
    }
  }

  /** The results of the pairwise tests, one per pair of groups in combinations order. */
  function AllPairResults<V, F>(
    dm: DistanceMatrix<V>, gs: Groupings, s: Series, m: Method,
    test: (Method, DistanceMatrix<V>, Series, int) -> TestResult<F>, permutations: int): (r: seq<PairResult<F>>)
    requires WellFormed(gs, dm.ids)
    ensures |r| == |Combinations(Keys(gs))|
    ensures forall k :: 0 <= k < |r| ==> (r[k].group1, r[k].group2) == Combinations(Keys(gs))[k]
  {
    CombinationsArePairs(gs);
    var pairs := Combinations(Keys(gs));
    seq(|pairs|, k requires 0 <= k < |pairs| => PairResultFor(dm, pairs[k], gs, s, m, test, permutations))
  }

  /** The loop over `itertools.combinations(groupings, 2)` that collects the pairwise results. */
  method PairwiseResults<V, F>(
    dm: DistanceMatrix<V>, gs: Groupings, s: Series, m: Method,
    test: (Method, DistanceMatrix<V>, Series, int) -> TestResult<F>, permutations: int)
    returns (results: seq<PairResult<F>>)
    requires WellFormed(gs, dm.ids)
    ensures results == AllPairResults(dm, gs, s, m, test, permutations)
  {
    var pairs := Combinations(Keys(gs));
    CombinationsArePairs(gs);
    results := [];
    for k := 0 to |pairs|
      invariant |results| == k
      invariant forall i :: 0 <= i < k ==> results[i] == PairResultFor(dm, pairs[i], gs, s, m, test, permutations)
    {
      var sub := PairSubset(dm, pairs[k].0, pairs[k].1, gs, s);
      var t := test(m, sub.dm, sub.metadata, permutations);
      results := results + [PairResult(pairs[k].0, pairs[k].1, t.sampleSize, permutations, t.statistic, t.pValue)];
    }
  }

  /** A row of the final pairwise table, with its q-value. */
  datatype PairRow<F> = PairRow(result: PairResult<F>, qValue: F)

  datatype PairwiseTable<F> = PairwiseTable(statisticName: string, rows: seq<PairRow<F>>)

  /** The p-value column, in row order. */
  function PValues<F>(results: seq<PairResult<F>>): (r: seq<F>)
    ensures |r| == |results| && forall k :: 0 <= k < |results| ==> r[k] == results[k].pValue
  {
    seq(|results|, k requires 0 <= k < |results| => results[k].pValue)
  }

  /** The (Group 1, Group 2) index of a row. */
  function RowKey<F>(r: PairRow<F>): (Value, Value)
  {
    (r.result.group1, r.result.group2)
  }

  function RowKeys<F>(rows: seq<PairRow<F>>): (r: seq<(Value, Value)>)
    ensures |r| == |rows| && forall k :: 0 <= k < |rows| ==> r[k] == RowKey(rows[k])
  {
    seq(|rows|, k requires 0 <= k < |rows| => RowKey(rows[k]))
  }

  /** Lexicographic order on (Group 1, Group 2). */
  function KeyLess(p: (Value, Value), q: (Value, Value)): bool
  {
    ValueLess(p.0, q.0) || (p.0 == q.0 && ValueLess(p.1, q.1))
  }

  lemma KeyLessIsStrictTotal()
    ensures StrictTotal(KeyLess)
  {
    ValueLessIsStrictTotal();
  }

  /** The first row with a given index. */
  function RowWithKey<F>(rows: seq<PairRow<F>>, key: (Value, Value)): (r: PairRow<F>)
    requires key in RowKeys(rows)
    ensures RowKey(r) == key && r in rows
  {
    if RowKey(rows[0]) == key then rows[0]
    else
      assert RowKeys(rows) == [RowKey(rows[0])] + RowKeys(rows[1..]);
      RowWithKey(rows[1..], key)
  }

  lemma {:induction false} RowWithKeyAt<F>(rows: seq<PairRow<F>>, k: nat)
    requires NoDup(RowKeys(rows)) && k < |rows|
    ensures RowWithKey(rows, RowKey(rows[k])) == rows[k]
  {
    if k > 0 {
      assert RowKeys(rows)[0] != RowKeys(rows)[k];
      assert RowKeys(rows) == [RowKey(rows[0])] + RowKeys(rows[1..]);
      RowWithKeyAt(rows[1..], k - 1);
    }
  }

  /**
   * `sort_index()` on the (Group 1, Group 2) index: the rows in ascending
   * index order. For an index without repeats this is pandas' stable sort.
   */
  function SortIndex<F>(rows: seq<PairRow<F>>): (r: seq<PairRow<F>>)
    ensures forall k :: 0 <= k < |r| ==> r[k] in rows
  {
    var keys := SortUnique(RowKeys(rows), KeyLess);
    assert forall k :: 0 <= k < |keys| ==> keys[k] in Elems(RowKeys(rows));
    seq(|keys|, k requires 0 <= k < |keys| => RowWithKey(rows, keys[k]))
  }

  /** Whatever the input order, the sorted table is in strictly ascending (Group 1, Group 2) order. */
  lemma SortIndexSorted<F>(rows: seq<PairRow<F>>)
    ensures StrictlySorted(RowKeys(SortIndex(rows)), KeyLess)
    ensures Elems(RowKeys(SortIndex(rows))) == Elems(RowKeys(rows))
  {
    KeyLessIsStrictTotal();
    SortUniqueSorted(RowKeys(rows), KeyLess);
    var keys := SortUnique(RowKeys(rows), KeyLess);
    assert RowKeys(SortIndex(rows)) == keys;
  }

  /** A table already in strictly ascending index order is left as it is. */
  lemma SortIndexOfSorted<F>(rows: seq<PairRow<F>>)
    requires StrictlySorted(RowKeys(rows), KeyLess)
    ensures SortIndex(rows) == rows
  {
    KeyLessIsStrictTotal();
    StrictlySortedNoDup(RowKeys(rows), KeyLess);
    SortUniqueOfSorted(RowKeys(rows), KeyLess);
    forall k | 0 <= k < |rows| ensures SortIndex(rows)[k] == rows[k] {
      RowWithKeyAt(rows, k);
    }
  }

  /** Over labels in ascending order, `itertools.combinations` yields pairs in ascending (Group 1, Group 2) order. */
  lemma {:induction false} CombinationsSorted(keys: seq<Value>)
    requires StrictlySorted(keys, ValueLess)
    ensures StrictlySorted(Combinations(keys), KeyLess)
  {
    if |keys| > 0 {
      var rest := keys[1..];
      CombinationsSorted(rest);
      var head := PairWith(keys[0], rest);
      var tail := Combinations(rest);
      assert Combinations(keys) == head + tail;
      forall i, j | 0 <= i < j < |head + tail| ensures KeyLess((head + tail)[i], (head + tail)[j]) {
        if j < |head| {
          assert head[i] == (keys[0], keys[i + 1]) && head[j] == (keys[0], keys[j + 1]);
        } else if i < |head| {
          HeadBeforeTail(keys, i, j - |head|);
        } else {
          assert (head + tail)[i] == tail[i - |head|] && (head + tail)[j] == tail[j - |head|];
        }
      }
    }
  }

  /** A pair with the first key sorts before every pair of the later keys. */
  lemma HeadBeforeTail(keys: seq<Value>, i: nat, k: nat)
    requires StrictlySorted(keys, ValueLess) && |keys| > 0
    requires i < |keys| - 1 && k < |Combinations(keys[1..])|
    ensures KeyLess(PairWith(keys[0], keys[1..])[i], Combinations(keys[1..])[k])
  {
    var rest := keys[1..];
    CombinationsAt(rest, k);
    var a, b :| 0 <= a < b < |rest| && Combinations(rest)[k] == (rest[a], rest[b]);
    assert ValueLess(keys[0], keys[a + 1]);
  }

  /** What a pairwise table holds: one row per pair of groups, in combinations order, with its q-value. */
  ghost predicate IsPairwiseTable<V, F>(
    t: PairwiseTable<F>, dm: DistanceMatrix<V>, gs: Groupings, s: Series, m: Method,
    test: (Method, DistanceMatrix<V>, Series, int) -> TestResult<F>, permutations: int,
    statisticName: string, fdr: seq<F> -> seq<F>)
    requires WellFormed(gs, dm.ids)
  {
    var results := AllPairResults(dm, gs, s, m, test, permutations);
    var qs := fdr(PValues(results));
    && t.statisticName == statisticName
    && |t.rows| == |results| == |qs|
    && forall k :: 0 <= k < |results| ==> t.rows[k] == PairRow(results[k], qs[k])
  }

  /**
   * The pairwise block of `beta_group_significance`: the results, their
   * q-values from the p-values in the order the pairs were tested, then
   * `sort_index`. The column assignment fails when the correction returns a
   * different number of q-values.
   */
  method MakePairwiseTable<V, F>(
    dm: DistanceMatrix<V>, gs: Groupings, s: Series, m: Method,
    test: (Method, DistanceMatrix<V>, Series, int) -> TestResult<F>, permutations: int,
    statisticName: string, fdr: seq<F> -> seq<F>)
    returns (r: Result<PairwiseTable<F>, Error>)
    requires WellFormed(gs, dm.ids) && StrictlySorted(Keys(gs), ValueLess)
    ensures var results := AllPairResults(dm, gs, s, m, test, permutations);
            && (r.Err? <==> |fdr(PValues(results))| != |results|)
            && (r.Err? ==> r.error == LengthMismatch(|results|, |fdr(PValues(results))|))
    ensures r.Ok? ==> IsPairwiseTable(r.value, dm, gs, s, m, test, permutations, statisticName, fdr)
    ensures r.Ok? ==> StrictlySorted(RowKeys(r.value.rows), KeyLess)
  {
    var results := PairwiseResults(dm, gs, s, m, test, permutations);
    var qs := fdr(PValues(results));
    if |qs| != |results| {
      return Err(LengthMismatch(|results|, |qs|));
    }
    var rows := seq(|results|, k requires 0 <= k < |results| => PairRow(results[k], qs[k]));
    assert RowKeys(rows) == Combinations(Keys(gs));
    CombinationsSorted(Keys(gs));
    SortIndexOfSorted(rows);
    rows := SortIndex(rows);
    r := Ok(PairwiseTable(statisticName, rows));
  }

  /** The rows of a pairwise table come in combinations order, each with its q-value. */
  lemma PairwiseTableRows<V, F>(
    t: PairwiseTable<F>, dm: DistanceMatrix<V>, gs: Groupings, s: Series, m: Method,
    test: (Method, DistanceMatrix<V>, Series, int) -> TestResult<F>, permutations: int,
    statisticName: string, fdr: seq<F> -> seq<F>)
    requires WellFormed(gs, dm.ids)
    requires IsPairwiseTable(t, dm, gs, s, m, test, permutations, statisticName, fdr)
    ensures RowKeys(t.rows) == Combinations(Keys(gs))
    ensures forall k :: 0 <= k < |t.rows| ==>
              t.rows[k].qValue == fdr(PValues(AllPairResults(dm, gs, s, m, test, permutations)))[k]
              && t.rows[k].result.pValue == PValues(AllPairResults(dm, gs, s, m, test, permutations))[k]
  {
    var results := AllPairResults(dm, gs, s, m, test, permutations);
    assert forall k :: 0 <= k < |t.rows| ==> RowKey(t.rows[k]) == (results[k].group1, results[k].group2);
  }

  /**
   * The pairwise table of n groups has C(n, 2) rows, in ascending
   * (Group 1, Group 2) order; each row is a pair of groups with Group 1 before
   * Group 2 in grouping order, and every such pair has a row.
   */
  lemma PairwiseTableLayout<V, F>(
    t: PairwiseTable<F>, dm: DistanceMatrix<V>, gs: Groupings, s: Series, m: Method,
    test: (Method, DistanceMatrix<V>, Series, int) -> TestResult<F>, permutations: int,
    statisticName: string, fdr: seq<F> -> seq<F>)
    requires WellFormed(gs, dm.ids) && StrictlySorted(Keys(gs), ValueLess)
    requires IsPairwiseTable(t, dm, gs, s, m, test, permutations, statisticName, fdr)
    ensures 2 * |t.rows| == |gs| * (|gs| - 1)
    ensures StrictlySorted(RowKeys(t.rows), KeyLess)
    ensures forall k :: 0 <= k < |t.rows| ==>
              exists a, b :: 0 <= a < b < |gs| && RowKey(t.rows[k]) == (gs[a].0, gs[b].0)
    ensures forall a, b :: 0 <= a < b < |gs| ==> (gs[a].0, gs[b].0) in RowKeys(t.rows)
  {
    PairwiseTableRows(t, dm, gs, s, m, test, permutations, statisticName, fdr);
    KeyedLayout(t.rows, gs);
  }

  /** The layout facts for any rows whose keys are the combinations of sorted group keys. */
  lemma KeyedLayout<F>(rows: seq<PairRow<F>>, gs: Groupings)
    requires RowKeys(rows) == Combinations(Keys(gs)) && StrictlySorted(Keys(gs), ValueLess)
    ensures 2 * |rows| == |gs| * (|gs| - 1)
    ensures StrictlySorted(RowKeys(rows), KeyLess)
    ensures forall k :: 0 <= k < |rows| ==>
              exists a, b :: 0 <= a < b < |gs| && RowKey(rows[k]) == (gs[a].0, gs[b].0)
    ensures forall a, b :: 0 <= a < b < |gs| ==> (gs[a].0, gs[b].0) in RowKeys(rows)
  {
    var keys := Keys(gs);
    CombinationsLength(keys);
    CombinationsSorted(keys);
    forall k | 0 <= k < |rows| ensures exists a, b :: 0 <= a < b < |gs| && RowKey(rows[k]) == (gs[a].0, gs[b].0) {
      CombinationsAt(keys, k);
      var a, b :| 0 <= a < b < |keys| && Combinations(keys)[k] == (keys[a], keys[b]);
      assert RowKeys(rows)[k] == RowKey(rows[k]);
    }
    forall a, b | 0 <= a < b < |gs| ensures (gs[a].0, gs[b].0) in RowKeys(rows) {
      CombinationsCover(keys, a, b);
    }
  }

  /** What `beta_group_significance` computes for rendering. */
  datatype Report<V, F> = Report(
    initialLength: nat, filteredLength: nat, result: TestResult<F>, groupings: Groupings,
    boxplots: seq<(seq<seq<V>>, seq<TickLabel>)>, pairwise: Option<PairwiseTable<F>>)

  /** `distance_matrix.filter(metadata.index)` after alignment. */
  function AlignedMatrix<V>(dm: DistanceMatrix<V>, md: map<Id, Value>): (r: DistanceMatrix<V>)
    requires dm.Valid()
    ensures r.ids == RowIds(Align(dm.ids, md)) && r.dist == dm.dist && r.Valid()
    ensures |r.ids| <= |dm.ids|
  {
    AlignThenFilter(dm, md);
    Filter(dm, RowIds(Align(dm.ids, md))).value
  }

  /** The groupings of the aligned metadata are well formed over the aligned matrix. */
  lemma AlignedGroupings<V>(dm: DistanceMatrix<V>, md: map<Id, Value>)
    requires dm.Valid()
    ensures NoDup(RowIds(Align(dm.ids, md)))
    ensures WellFormed(MakeGroupings(Align(dm.ids, md)), AlignedMatrix(dm, md).ids)
    ensures GroupsInMatrix(AlignedMatrix(dm, md), MakeGroupings(Align(dm.ids, md)))
    ensures StrictlySorted(Keys(MakeGroupings(Align(dm.ids, md))), ValueLess)
  {
    var s := Align(dm.ids, md);
    AlignNoDup(dm.ids, md);
    MakeGroupingsWellFormed(s);
    GroupingKeys(s);
    var gs := MakeGroupings(s);
    forall k, i | 0 <= k < |gs| && 0 <= i < |gs[k].1| ensures gs[k].1[i] in AlignedMatrix(dm, md).ids {
      assert Includes(RowIds(s), gs[k].1);
    }
  }

  /**
   * Each group of the aligned data lists its samples in the order of the
   * matrix's ids, before and after filtering.
   */
  lemma AlignedGroupOrder<V>(dm: DistanceMatrix<V>, md: map<Id, Value>, k: nat)
    requires dm.Valid() && k < |MakeGroupings(Align(dm.ids, md))|
    ensures InOrderOf(MakeGroupings(Align(dm.ids, md))[k].1, AlignedMatrix(dm, md).ids)
    ensures InOrderOf(MakeGroupings(Align(dm.ids, md))[k].1, dm.ids)
  {
    var s := Align(dm.ids, md);
    GroupingInOrder(s, k);
    AlignInOrder(dm.ids, md);
    InOrderTrans(MakeGroupings(s)[k].1, RowIds(s), dm.ids);
  }

  /**
   * The correction returns one q-value per p-value of the pairs of the aligned
   * groups, so that the `q-value` column can be assigned.
   */
  ghost predicate CorrectionFits<V, F>(
    dm: DistanceMatrix<V>, md: map<Id, Value>, m: Method, permutations: int,
    test: (Method, DistanceMatrix<V>, Series, int) -> TestResult<F>, fdr: seq<F> -> seq<F>)
    requires dm.Valid()
  {
    AlignedGroupings(dm, md);
    var results := AllPairResults(AlignedMatrix(dm, md), MakeGroupings(Align(dm.ids, md)), Align(dm.ids, md), m, test, permutations);
    |fdr(PValues(results))| == |results|
  }

  /** The report `beta_group_significance` renders for a recognised method. */
  ghost predicate IsReport<V, F>(
    rep: Report<V, F>, dm: DistanceMatrix<V>, md: map<Id, Value>, m: Method, pairwise: bool,
    permutations: int, test: (Method, DistanceMatrix<V>, Series, int) -> TestResult<F>,
    fdr: seq<F> -> seq<F>)
    requires dm.Valid()
  {
    var s := Align(dm.ids, md);
    var f := AlignedMatrix(dm, md);
    var gs := MakeGroupings(s);
    AlignedGroupings(dm, md);
    && rep.initialLength == |dm.ids|
    && rep.filteredLength == |f.ids|
    && rep.result == test(m, f, s, permutations)
    && rep.groupings == gs
    && |rep.boxplots| == |gs|
    && (forall k :: 0 <= k < |gs| ==>
          gs[k].0 in Keys(gs)
          && rep.boxplots[k] == (BoxplotLists(f, gs[k].0, gs), BoxplotTicks(f, gs[k].0, gs)))
    && (pairwise <==> rep.pairwise.Some?)
    && (rep.pairwise.Some? ==>
          IsPairwiseTable(rep.pairwise.value, f, gs, s, m, test, permutations, rep.result.statisticName, fdr))
  }

  /**
   * `beta_group_significance` up to rendering: an unknown method fails before
   * anything is computed; otherwise the global test runs on the aligned data,
   * one boxplot is computed per group, and the pairwise table if requested.
   */
  method BetaGroupSignificance<V, F>(
    dm: DistanceMatrix<V>, md: map<Id, Value>, methodName: string, pairwise: bool,
    permutations: int, test: (Method, DistanceMatrix<V>, Series, int) -> TestResult<F>,
    fdr: seq<F> -> seq<F>)
    returns (r: Result<Report<V, F>, Error>)
    requires dm.Valid()
    ensures methodName !in MethodNames ==> r == Err(UnknownMethod(methodName, MethodNames))
    ensures methodName in MethodNames && !pairwise ==> r.Ok?
    ensures r.Err? ==> r.error.UnknownMethod? || (pairwise && r.error.LengthMismatch?)
    ensures methodName in MethodNames && pairwise ==>
              (r.Ok? <==> CorrectionFits(dm, md, LookupMethod(methodName).value, permutations, test, fdr))
    ensures r.Ok? ==> methodName in MethodNames
                      && IsReport(r.value, dm, md, LookupMethod(methodName).value, pairwise, permutations, test, fdr)
  {
    var lookup := LookupMethod(methodName);
    if lookup.Err? {
      return Err(lookup.error);
    }
    var m := lookup.value;

    var s := Align(dm.ids, md);
    var initialLength := |dm.ids|;
    var f := AlignedMatrix(dm, md);
    var filteredLength := |f.ids|;

    var result := test(m, f, s, permutations);

    var gs := MakeGroupings(s);
    AlignedGroupings(dm, md);
    var boxplots: seq<(seq<seq<V>>, seq<TickLabel>)> := [];
    for k := 0 to |gs|
      invariant |boxplots| == k
      invariant forall i :: 0 <= i < k ==>
                  gs[i].0 in Keys(gs)
                  && boxplots[i] == (BoxplotLists(f, gs[i].0, gs), BoxplotTicks(f, gs[i].0, gs))
    {
      assert Keys(gs)[k] == gs[k].0;
      var lists, ticks := DistanceBoxplotData(f, gs[k].0, gs);
      boxplots := boxplots + [(lists, ticks)];
    }

    var table: Option<PairwiseTable<F>> := None;
    if pairwise {
      var t := MakePairwiseTable(f, gs, s, m, test, permutations, result.statisticName, fdr);
      if t.Err? {
        return Err(t.error);
      }
      table := Some(t.value);
    }
    r := Ok(Report(initialLength, filteredLength, result, gs, boxplots, table));
  }
}

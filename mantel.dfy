/**
 * The Mantel visualizer's handling of the two matrices: matching their ids
 * (refusing or discarding the mismatches), the test result as shown, and the
 * scatter data of paired distances. The Mantel statistic itself is an opaque
 * function given as a parameter.
 */
module Mantel {
  import opened Wrappers
  import opened Sorting
  import opened DistanceMatrices
  import opened Itertools

  /** The ids of `a` that `b` holds, in the order of `a`. */
  function Common(a: seq<Id>, b: seq<Id>): (r: seq<Id>)
    ensures forall x :: x in r <==> x in a && x in b
  {
    if a == [] then []
    else
      assert forall x :: x in a <==> x == a[0] || x in a[1..];
      (if a[0] in b then [a[0]] else []) + Common(a[1..], b)
  }

  /** The ids of `a` that `b` does not hold, in the order of `a`. */
  function Missing(a: seq<Id>, b: seq<Id>): (r: seq<Id>)
    ensures forall x :: x in r <==> x in a && x !in b
  {
    if a == [] then []
    else
      assert forall x :: x in a <==> x == a[0] || x in a[1..];
      (if a[0] !in b then [a[0]] else []) + Missing(a[1..], b)
  }

  lemma {:induction false} CommonNoDup(a: seq<Id>, b: seq<Id>)
    requires NoDup(a)
    ensures NoDup(Common(a, b))
  {
    if a != [] {
      CommonNoDup(a[1..], b);
      assert a[0] !in a[1..];
    }
  }

  /** `sorted(ids1 ^ ids2)`: the ids held by exactly one of the matrices, in sorted order. */
  function MismatchedIds<V>(dm1: DistanceMatrix<V>, dm2: DistanceMatrix<V>): (r: seq<Id>)
    ensures forall x :: x in r <==> (x in dm1.ids) != (x in dm2.ids)
    ensures StrictlySorted(r, StrLess) && NoDup(r)
  {
    var both := Missing(dm1.ids, dm2.ids) + Missing(dm2.ids, dm1.ids);
    StrLessIsStrictTotal();
    SortUniqueSorted(both, StrLess);
    assert forall x :: x in SortUnique(both, StrLess) <==> x in Elems(both);
    SortUnique(both, StrLess)
  }

  /** The matrices a Mantel test runs on, and the mismatches shown as a warning. */
  datatype Matched<V> = Matched(dm1: DistanceMatrix<V>, dm2: DistanceMatrix<V>, mismatched: seq<Id>)

  /**
   * The id matching of `mantel`: with mismatches and no `intersect_ids` the call
   * fails listing them; with mismatches both matrices are filtered strictly to
   * the shared ids, which cannot fail; without mismatches both are kept as given.
   */
  function MatchIds<V>(dm1: DistanceMatrix<V>, dm2: DistanceMatrix<V>, intersectIds: bool): (r: Result<Matched<V>, Error>)
    requires dm1.Valid() && dm2.Valid()
    ensures r.Err? <==> !intersectIds && Elems(dm1.ids) != Elems(dm2.ids)
    ensures r.Err? ==> r.error == IdMismatch(MismatchedIds(dm1, dm2))
    ensures r.Ok? ==> r.value.mismatched == MismatchedIds(dm1, dm2)
    ensures r.Ok? ==> r.value.dm1.Valid() && r.value.dm2.Valid()
                      && r.value.dm1.dist == dm1.dist && r.value.dm2.dist == dm2.dist
    ensures r.Ok? ==> Elems(r.value.dm1.ids) == Elems(r.value.dm2.ids) == Elems(dm1.ids) * Elems(dm2.ids)
    ensures r.Ok? && Elems(dm1.ids) == Elems(dm2.ids) ==> r.value.dm1 == dm1 && r.value.dm2 == dm2
    ensures r.Ok? && Elems(dm1.ids) != Elems(dm2.ids) ==> r.value.dm1.ids == r.value.dm2.ids
  {
    var mismatched := MismatchedIds(dm1, dm2);
    MismatchedEmpty(dm1, dm2);
    if !intersectIds && mismatched != [] then
      Err(IdMismatch(mismatched))
    else if mismatched != [] then
      var keep := Common(dm1.ids, dm2.ids);
      CommonNoDup(dm1.ids, dm2.ids);
      Ok(Matched(Filter(dm1, keep).value, Filter(dm2, keep).value, mismatched))
    else
      Ok(Matched(dm1, dm2, mismatched))
  }

  /** There are no mismatches exactly when the two matrices hold the same ids. */
  lemma MismatchedEmpty<V>(dm1: DistanceMatrix<V>, dm2: DistanceMatrix<V>)
    ensures MismatchedIds(dm1, dm2) == [] <==> Elems(dm1.ids) == Elems(dm2.ids)
  {
    var m := MismatchedIds(dm1, dm2);
    if m != [] {
      assert (m[0] in dm1.ids) != (m[0] in dm2.ids);
      assert (m[0] in Elems(dm1.ids)) != (m[0] in Elems(dm2.ids));
    }
    if Elems(dm1.ids) != Elems(dm2.ids) {
      var x :| x in Elems(dm1.ids) - Elems(dm2.ids) || x in Elems(dm2.ids) - Elems(dm1.ids);
      assert x in m;
    }
  }

  /** The pairs `(dm1[id1, id2], dm2[id1, id2])` over `itertools.combinations(dm1.ids, 2)`. */
  function Scatter<V>(dm1: DistanceMatrix<V>, dm2: DistanceMatrix<V>): (r: seq<(V, V)>)
    requires forall id :: id in dm1.ids ==> id in dm2.ids
  {
    var pairs := Combinations(dm1.ids);
    PairsIn(dm1.ids);
    seq(|pairs|, k requires 0 <= k < |pairs| =>
                   (dm1.Get(pairs[k].0, pairs[k].1), dm2.Get(pairs[k].0, pairs[k].1)))
  }

  /** Both ids of every pair come from the sequence. */
  lemma PairsIn(s: seq<Id>)
    ensures forall k :: 0 <= k < |Combinations(s)| ==> Combinations(s)[k].0 in s && Combinations(s)[k].1 in s
  {
    forall k | 0 <= k < |Combinations(s)| ensures Combinations(s)[k].0 in s && Combinations(s)[k].1 in s {
      CombinationsAt(s, k);
    }
  }

  /** The scatter loop of `mantel`. */
  method ScatterData<V>(dm1: DistanceMatrix<V>, dm2: DistanceMatrix<V>) returns (scatter: seq<(V, V)>)
    requires forall id :: id in dm1.ids ==> id in dm2.ids
    ensures scatter == Scatter(dm1, dm2)
  {
    var pairs := Combinations(dm1.ids);
    PairsIn(dm1.ids);
    scatter := [];
    for k := 0 to |pairs|
      invariant |scatter| == k
      invariant forall i :: 0 <= i < k ==>
                  scatter[i] == (dm1.Get(pairs[i].0, pairs[i].1), dm2.Get(pairs[i].0, pairs[i].1))
    {
      var (id1, id2) := pairs[k];
      scatter := scatter + [(dm1.Get(id1, id2), dm2.Get(id1, id2))];
    }
  }

  /**
   * For k ids the scatter data has C(k, 2) points; each is the two matrices'
   * distances between the ids at two positions i < j, and every such pair has
   * its point.
   */
  lemma ScatterLayout<V>(dm1: DistanceMatrix<V>, dm2: DistanceMatrix<V>)
    requires forall id :: id in dm1.ids ==> id in dm2.ids
    ensures var ids := dm1.ids; 2 * |Scatter(dm1, dm2)| == |ids| * (|ids| - 1)
    ensures forall k :: 0 <= k < |Scatter(dm1, dm2)| ==>
              exists i, j :: 0 <= i < j < |dm1.ids|
                             && Scatter(dm1, dm2)[k] == (dm1.Get(dm1.ids[i], dm1.ids[j]), dm2.Get(dm1.ids[i], dm1.ids[j]))
    ensures forall i, j :: 0 <= i < j < |dm1.ids| ==>
              (dm1.Get(dm1.ids[i], dm1.ids[j]), dm2.Get(dm1.ids[i], dm1.ids[j])) in Scatter(dm1, dm2)
  {
    CombinationsLength(dm1.ids);
    forall k | 0 <= k < |Scatter(dm1, dm2)|
      ensures exists i, j :: 0 <= i < j < |dm1.ids|
                             && Scatter(dm1, dm2)[k] == (dm1.Get(dm1.ids[i], dm1.ids[j]), dm2.Get(dm1.ids[i], dm1.ids[j]))
    {
      ScatterAt(dm1, dm2, k);
    }
    forall i, j | 0 <= i < j < |dm1.ids|
      ensures (dm1.Get(dm1.ids[i], dm1.ids[j]), dm2.Get(dm1.ids[i], dm1.ids[j])) in Scatter(dm1, dm2)
    {
      ScatterCover(dm1, dm2, i, j);
    }
  }

  /** Point k of the scatter data is the pair of distances between the ids at two positions i < j. */
  lemma ScatterAt<V>(dm1: DistanceMatrix<V>, dm2: DistanceMatrix<V>, k: nat)
    requires (forall id :: id in dm1.ids ==> id in dm2.ids) && k < |Scatter(dm1, dm2)|
    ensures exists i, j :: 0 <= i < j < |dm1.ids|
                           && Scatter(dm1, dm2)[k] == (dm1.Get(dm1.ids[i], dm1.ids[j]), dm2.Get(dm1.ids[i], dm1.ids[j]))
  {
    var ids := dm1.ids;
    CombinationsAt(ids, k);
    var i, j :| 0 <= i < j < |ids| && Combinations(ids)[k] == (ids[i], ids[j]);
    assert Scatter(dm1, dm2)[k] == (dm1.Get(ids[i], ids[j]), dm2.Get(ids[i], ids[j]));
  }

  /** The ids at positions i < j have their point in the scatter data. */
  lemma ScatterCover<V>(dm1: DistanceMatrix<V>, dm2: DistanceMatrix<V>, i: nat, j: nat)
    requires (forall id :: id in dm1.ids ==> id in dm2.ids) && i < j < |dm1.ids|
    ensures (dm1.Get(dm1.ids[i], dm1.ids[j]), dm2.Get(dm1.ids[i], dm1.ids[j])) in Scatter(dm1, dm2)
  {
    var ids := dm1.ids;
    CombinationsCover(ids, i, j);
    var k :| 0 <= k < |Combinations(ids)| && Combinations(ids)[k] == (ids[i], ids[j]);
    assert Scatter(dm1, dm2)[k] == (dm1.Get(ids[i], ids[j]), dm2.Get(ids[i], ids[j]));
  }

  /** The correlation methods scikit-bio's `mantel` accepts. */
  datatype Correlation = Spearman | Pearson

  /** `method.title()` */
  function Title(c: Correlation): string
  {
    match c
    case Spearman => "Spearman"
    case Pearson => "Pearson"
  }

  /** `'%s %s' % (method.title(), test_statistics[method])` */
  function StatisticLabel(c: Correlation): string
  {
    match c
    case Spearman => "Spearman rho"
    case Pearson => "Pearson r"
  }

  /** The `Mantel test results` series. */
  datatype MantelResult<F> = MantelResult(
    methodTitle: string, sampleSize: int, permutations: int, alternative: string,
    statisticLabel: string, statistic: F, pValue: F)

  /** What `mantel` renders. */
  datatype MantelReport<V, F> = MantelReport(result: MantelResult<F>, scatter: seq<(V, V)>, mismatched: seq<Id>)

  /** Every id of the first matched matrix is in the second, so the scatter loop can index both. */
  ghost predicate Shared<V>(m: Matched<V>)
  {
    forall id :: id in m.dm1.ids ==> id in m.dm2.ids
  }

  /** A successful match always leaves the first matrix's ids in the second. */
  lemma MatchedShared<V>(dm1: DistanceMatrix<V>, dm2: DistanceMatrix<V>, intersectIds: bool)
    requires dm1.Valid() && dm2.Valid() && MatchIds(dm1, dm2, intersectIds).Ok?
    ensures Shared(MatchIds(dm1, dm2, intersectIds).value)
  {
    var m := MatchIds(dm1, dm2, intersectIds).value;
    assert forall id :: id in m.dm1.ids ==> id in Elems(m.dm2.ids);
  }

  /** The two-sided test on the matched matrices, the result series and the scatter data. */
  function MantelReportOf<V, F>(
    m: Matched<V>, c: Correlation, permutations: int,
    test: (DistanceMatrix<V>, DistanceMatrix<V>, Correlation, int, string) -> (F, F, int))
    : MantelReport<V, F>
    requires Shared(m)
  {
    var (stat, p, n) := test(m.dm1, m.dm2, c, permutations, "two-sided");
    MantelReport(MantelResult(Title(c), n, permutations, "two-sided", StatisticLabel(c), stat, p),
                 Scatter(m.dm1, m.dm2), m.mismatched)
  }

  /**
   * `mantel` up to rendering: an id mismatch without `intersect_ids` fails
   * before any test; otherwise the report of the matched matrices.
   */
  method RunMantel<V, F>(
    dm1: DistanceMatrix<V>, dm2: DistanceMatrix<V>, c: Correlation, permutations: int, intersectIds: bool,
    test: (DistanceMatrix<V>, DistanceMatrix<V>, Correlation, int, string) -> (F, F, int))
    returns (r: Result<MantelReport<V, F>, Error>)
    requires dm1.Valid() && dm2.Valid()
    ensures MatchIds(dm1, dm2, intersectIds).Err? ==> r == Err(MatchIds(dm1, dm2, intersectIds).error)
    ensures MatchIds(dm1, dm2, intersectIds).Ok? ==>
              && Shared(MatchIds(dm1, dm2, intersectIds).value)
              && r == Ok(MantelReportOf(MatchIds(dm1, dm2, intersectIds).value, c, permutations, test))
  {
    var matched := MatchIds(dm1, dm2, intersectIds);
    if matched.Err? {
      return Err(matched.error);
    }
    var m := matched.value;
    var alternative := "two-sided";
    var (stat, p, n) := test(m.dm1, m.dm2, c, permutations, alternative);
    var result := MantelResult(Title(c), n, permutations, alternative, StatisticLabel(c), stat, p);
    MatchedShared(dm1, dm2, intersectIds);
    var scatter := ScatterData(m.dm1, m.dm2);
    r := Ok(MantelReport(result, scatter, m.mismatched));
  }

  /**
   * What `mantel` reports: it fails exactly on an id mismatch without
   * `intersect_ids`, listing the sorted mismatches; otherwise it shows the
   * mismatches, the two-sided test of the matched matrices under the method's
   * title and statistic label, and one scatter point per pair of shared ids.
   */
  lemma MantelOutcome<V, F>(
    dm1: DistanceMatrix<V>, dm2: DistanceMatrix<V>, c: Correlation, permutations: int, intersectIds: bool,
    test: (DistanceMatrix<V>, DistanceMatrix<V>, Correlation, int, string) -> (F, F, int))
    requires dm1.Valid() && dm2.Valid()
    ensures MatchIds(dm1, dm2, intersectIds).Err? <==> !intersectIds && Elems(dm1.ids) != Elems(dm2.ids)
    ensures MatchIds(dm1, dm2, intersectIds).Ok? ==>
              var m := MatchIds(dm1, dm2, intersectIds).value;
              var t := test(m.dm1, m.dm2, c, permutations, "two-sided");
              && Shared(m)
              && Elems(m.dm1.ids) == Elems(dm1.ids) * Elems(dm2.ids)
              && MantelReportOf(m, c, permutations, test).mismatched == MismatchedIds(dm1, dm2)
              && MantelReportOf(m, c, permutations, test).result
                 == MantelResult(Title(c), t.2, permutations, "two-sided", StatisticLabel(c), t.0, t.1)
              && 2 * |MantelReportOf(m, c, permutations, test).scatter| == |m.dm1.ids| * (|m.dm1.ids| - 1)
  {
    if MatchIds(dm1, dm2, intersectIds).Ok? {
      var m := MatchIds(dm1, dm2, intersectIds).value;
      MatchedShared(dm1, dm2, intersectIds);
      ScatterLayout(m.dm1, m.dm2);
    }
  }
}

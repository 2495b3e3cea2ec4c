/**
 * A scikit-bio distance matrix, seen only through its ids: an ordered sequence
 * of sample ids and a lookup `dm[id1, id2]` returning an opaque distance value.
 */
module DistanceMatrices {
  import opened Wrappers
  import opened Sorting

  type Id = string

  datatype DistanceMatrix<V> = DistanceMatrix(ids: seq<Id>, dist: (Id, Id) -> V) {

    /** scikit-bio refuses to build a matrix whose ids repeat. */
    predicate Valid()
    {
      NoDup(ids)
    }

    /** `dm[a, b]`; scikit-bio raises for an id the matrix does not hold. */
    function Get(a: Id, b: Id): V
      requires a in ids && b in ids
    {
      dist(a, b)
    }
  }

  datatype FilterError = MissingId(id: Id) | DuplicateIds

  /** The first requested id that the matrix does not hold, if any. */
  function FirstMissing(keep: seq<Id>, ids: seq<Id>): (r: Option<Id>)
    ensures r.None? <==> forall id :: id in keep ==> id in ids
    ensures r.Some? ==> r.value in keep && r.value !in ids
  {
    if keep == [] then None
    else if keep[0] !in ids then Some(keep[0])
    else
      assert forall id :: id in keep ==> id == keep[0] || id in keep[1..];
      FirstMissing(keep[1..], ids)
  }

  /**
   * `dm.filter(keep)` in strict mode: the matrix of exactly the requested ids,
   * in the requested order; an id the matrix lacks, or a repeated id, is an error.
   */
  function Filter<V>(dm: DistanceMatrix<V>, keep: seq<Id>): (r: Result<DistanceMatrix<V>, FilterError>)
    ensures r.Ok? <==> (forall id :: id in keep ==> id in dm.ids) && NoDup(keep)
    ensures r.Ok? ==> r.value.ids == keep && r.value.dist == dm.dist && r.value.Valid()
    ensures r.Ok? ==> |r.value.ids| == |keep|
    ensures r.Err? && r.error.MissingId? ==> r.error.id in keep && r.error.id !in dm.ids
  {
    var missing := FirstMissing(keep, dm.ids);
    if missing.Some? then Err(MissingId(missing.value))
    else if !NoDup(keep) then Err(DuplicateIds)
    else Ok(DistanceMatrix(keep, dm.dist))
  }

  /** A duplicate-free sequence is no longer than any sequence holding all its elements. */
  lemma {:induction false} NoDupSubsetLength(keep: seq<Id>, ids: seq<Id>)
    requires NoDup(keep) && forall id :: id in keep ==> id in ids
    ensures |keep| <= |ids|
  {
    var k := Elems(keep);
    NoDupCard(keep);
    assert k <= Elems(ids);
    SubsetCard(k, Elems(ids));
    ElemsCard(ids);
  }

  lemma {:induction false} SubsetCard(a: set<Id>, b: set<Id>)
    requires a <= b
    ensures |a| <= |b|
    decreases a
  {
    if a != {} {
      var x :| x in a;
      SubsetCard(a - {x}, b - {x});
    }
  }

  lemma {:induction false} NoDupCard(s: seq<Id>)
    requires NoDup(s)
    ensures |Elems(s)| == |s|
  {
    if s != [] {
      NoDupCard(s[1..]);
      assert Elems(s) == {s[0]} + Elems(s[1..]);
      assert s[0] !in Elems(s[1..]);
    }
  }

  lemma {:induction false} ElemsCard(s: seq<Id>)
    ensures |Elems(s)| <= |s|
  {
    if s != [] {
      ElemsCard(s[1..]);
      assert Elems(s) == {s[0]} + Elems(s[1..]);
    }
  }

  /** A strict filter never yields a larger matrix than the one it filters. */
  lemma FilterNoLarger<V>(dm: DistanceMatrix<V>, keep: seq<Id>)
    requires Filter(dm, keep).Ok?
    ensures |Filter(dm, keep).value.ids| <= |dm.ids|
  {
    NoDupSubsetLength(keep, dm.ids);
  }
}

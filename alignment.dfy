/**
 * A metadata category aligned with a distance matrix: the category is
 * restricted to the matrix's ids, missing and empty values are dropped, and the
 * matrix is then strictly filtered to the ids that survive.
 */
module Alignment {
  import opened Wrappers
  import opened Sorting
  import opened DistanceMatrices

  /** A metadata value after numeric coercion; `Missing` is NaN or None. */
  datatype Value = Missing | Number(x: real) | Text(s: string)

  /** One entry of a pandas Series indexed by sample id. */
  datatype Row = Row(id: Id, value: Value)

  type Series = seq<Row>

  /** The order `sorted` uses on group labels: numbers by value, text as Python strings. */
  function ValueLess(a: Value, b: Value): bool
  {
    match (a, b)
    case (Missing, Missing) => false
    case (Missing, _) => true
    case (Number(x), Number(y)) => x < y
    case (Number(_), Text(_)) => true
    case (Text(s), Text(t)) => StrLess(s, t)
    case _ => false
  }

  lemma ValueLessIsStrictTotal()
    ensures StrictTotal(ValueLess)
  {
    forall a ensures !ValueLess(a, a) {
      if a.Text? { StrLessIrreflexive(a.s); }
    }
    forall a, b, c | ValueLess(a, b) && ValueLess(b, c) ensures ValueLess(a, c) {
      if a.Text? && b.Text? && c.Text? { StrLessTransitive(a.s, b.s, c.s); }
    }
    forall a, b | a != b ensures ValueLess(a, b) || ValueLess(b, a) {
      if a.Text? && b.Text? { StrLessConnected(a.s, b.s); }
    }
  }

  /** The Series index. */
  function RowIds(s: Series): (r: seq<Id>)
    ensures |r| == |s| && forall k :: 0 <= k < |s| ==> r[k] == s[k].id
  {
    seq(|s|, k requires 0 <= k < |s| => s[k].id)
  }

  /** A value `dropna` keeps once empty strings have been replaced by NaN. */
  predicate Present(v: Value)
  {
    v != Missing && v != Text("")
  }

  /** `metadata.loc[id]`; an id the metadata lacks reads as NaN. */
  function Lookup(md: map<Id, Value>, id: Id): Value
  {
    if id in md then md[id] else Missing
  }

  /**
   * `metadata.loc[list(ids)].replace('', nan).dropna()`: the rows for `ids`,
   * in the order of `ids`, that have a present value.
   */
  function Align(ids: seq<Id>, md: map<Id, Value>): (s: Series)
    ensures |s| <= |ids|
    ensures forall k :: 0 <= k < |s| ==> s[k].id in ids && s[k].id in md
    ensures forall k :: 0 <= k < |s| ==> Present(s[k].value) && s[k].value == md[s[k].id]
  {
    if ids == [] then []
    else
      var v := Lookup(md, ids[0]);
      var rest := Align(ids[1..], md);
      assert forall id :: id in ids[1..] ==> id in ids;
      if Present(v) then [Row(ids[0], v)] + rest else rest
  }

  /** An id survives alignment exactly when the matrix holds it and its value is present. */
  lemma {:induction false} AlignKeeps(ids: seq<Id>, md: map<Id, Value>, id: Id)
    ensures id in RowIds(Align(ids, md)) <==> id in ids && Present(Lookup(md, id))
  {
    if ids != [] {
      AlignKeeps(ids[1..], md, id);
      var rest := Align(ids[1..], md);
      var v := Lookup(md, ids[0]);
      if Present(v) {
        assert RowIds([Row(ids[0], v)] + rest) == [ids[0]] + RowIds(rest);
      }
      assert id in ids <==> id == ids[0] || id in ids[1..];
    }
  }

  /** The aligned series lists its samples in the order of the matrix's ids. */
  lemma {:induction false} AlignInOrder(ids: seq<Id>, md: map<Id, Value>)
    ensures InOrderOf(RowIds(Align(ids, md)), ids)
  {
    if ids != [] {
      var rest := Align(ids[1..], md);
      AlignInOrder(ids[1..], md);
      assert ids == [ids[0]] + ids[1..];
      var v := Lookup(md, ids[0]);
      if Present(v) {
        assert RowIds([Row(ids[0], v)] + rest) == [ids[0]] + RowIds(rest);
        InOrderKeep(RowIds(rest), ids[1..], ids[0]);
      } else {
        InOrderSkip(RowIds(rest), ids[1..], ids[0]);
      }
    }
  }

  /** Each surviving row is for a different sample, as the matrix's ids are. */
  lemma {:induction false} AlignNoDup(ids: seq<Id>, md: map<Id, Value>)
    requires NoDup(ids)
    ensures NoDup(RowIds(Align(ids, md)))
  {
    if ids != [] {
      AlignNoDup(ids[1..], md);
      var rest := Align(ids[1..], md);
      var v := Lookup(md, ids[0]);
      if Present(v) {
        AlignKeeps(ids[1..], md, ids[0]);
        assert ids[0] !in ids[1..];
        assert RowIds([Row(ids[0], v)] + rest) == [ids[0]] + RowIds(rest);
      }
    }
  }

  /**
   * `distance_matrix.filter(metadata.index)` after alignment cannot fail: it
   * yields a matrix of exactly the surviving ids, no larger than the original.
   */
  lemma AlignThenFilter<V>(dm: DistanceMatrix<V>, md: map<Id, Value>)
    requires dm.Valid()
    ensures Filter(dm, RowIds(Align(dm.ids, md))).Ok?
    ensures Filter(dm, RowIds(Align(dm.ids, md))).value.ids == RowIds(Align(dm.ids, md))
    ensures |RowIds(Align(dm.ids, md))| <= |dm.ids|
  {
    AlignNoDup(dm.ids, md);
  }

  /** The value of the first row for `id`. */
  function ValueOf(s: Series, id: Id): (v: Value)
    ensures (exists k :: 0 <= k < |s| && s[k].id == id) ==> exists k :: 0 <= k < |s| && s[k] == Row(id, v)
    ensures (forall k :: 0 <= k < |s| ==> s[k].id != id) ==> v == Missing
  {
    if s == [] then Missing
    else if s[0].id == id then s[0].value
    else
      var v := ValueOf(s[1..], id);
      assert forall k :: 1 <= k < |s| ==> s[1..][k - 1] == s[k];
      v
  }

  /** `series[ids]`: the rows for `ids`, in the order of `ids`. */
  function Select(s: Series, ids: seq<Id>): (r: Series)
    ensures RowIds(r) == ids
    ensures forall k :: 0 <= k < |ids| ==> r[k].value == ValueOf(s, ids[k])
  {
    seq(|ids|, k requires 0 <= k < |ids| => Row(ids[k], ValueOf(s, ids[k])))
  }

  /** With one row per sample, a sample's value is the value on its row. */
  lemma {:induction false} ValueOfRow(s: Series, id: Id, v: Value)
    requires NoDup(RowIds(s)) && Row(id, v) in s
    ensures ValueOf(s, id) == v
  {
    assert RowIds(s) == [s[0].id] + RowIds(s[1..]);
    if s[0] != Row(id, v) {
      assert Row(id, v) in s[1..];
      var k :| 0 <= k < |s[1..]| && s[1..][k] == Row(id, v);
      assert RowIds(s)[k + 1] == id;
      assert s[0].id != id;
      ValueOfRow(s[1..], id, v);
    }
  }
}

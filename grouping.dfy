/**
 * The groupings of a metadata category:
 * `OrderedDict((id, list(series.index)) for id, series in sorted(metadata.groupby(metadata)))`,
 * an ordered map from group key to the ids of that group's samples.
 */
module Grouping {
  import opened Sorting
  import opened DistanceMatrices
  import opened Alignment

  /** An ordered map from group key to sample ids, as a sequence of entries. */
  type Groupings = seq<(Value, seq<Id>)>

  /** The group labels, in iteration order. */
  function Keys(gs: Groupings): (r: seq<Value>)
    ensures |r| == |gs| && forall k :: 0 <= k < |gs| ==> r[k] == gs[k].0
  {
    seq(|gs|, k requires 0 <= k < |gs| => gs[k].0)
  }

  /** `groupings[key]` */
  function GroupOf(gs: Groupings, key: Value): (r: seq<Id>)
    requires key in Keys(gs)
    ensures exists k :: 0 <= k < |gs| && gs[k] == (key, r)
  {
    if gs[0].0 == key then gs[0].1
    else
      assert Keys(gs) == [gs[0].0] + Keys(gs[1..]);
      var r := GroupOf(gs[1..], key);
      assert forall k :: 1 <= k < |gs| ==> gs[1..][k - 1] == gs[k];
      r
  }

  /** With unique labels, looking a key up finds its own entry. */
  lemma {:induction false} GroupOfAt(gs: Groupings, k: nat)
    requires NoDup(Keys(gs)) && k < |gs|
    ensures GroupOf(gs, gs[k].0) == gs[k].1
  {
    if k > 0 {
      assert Keys(gs)[0] != Keys(gs)[k];
      assert Keys(gs) == [gs[0].0] + Keys(gs[1..]);
      GroupOfAt(gs[1..], k - 1);
    }
  }

  /**
   * The shape the group significance driver relies on: unique labels, every
   * sample in `ids`, no sample repeated within a group or shared by two groups.
   */
  ghost predicate WellFormed(gs: Groupings, ids: seq<Id>)
  {
    && NoDup(Keys(gs))
    && (forall k :: 0 <= k < |gs| ==> NoDup(gs[k].1) && Includes(ids, gs[k].1))
    && (forall a, b :: 0 <= a < |gs| && 0 <= b < |gs| && a != b ==> Disjoint(gs[a].1, gs[b].1))
  }

  /** Every element of `g` is in `ids`. */
  ghost predicate Includes(ids: seq<Id>, g: seq<Id>)
  {
    forall x :: x in g ==> x in ids
  }

  /** No element is shared. */
  ghost predicate Disjoint(x: seq<Id>, y: seq<Id>)
  {
    forall i, j :: 0 <= i < |x| && 0 <= j < |y| ==> x[i] != y[j]
  }

  /** The values of a series, in its order. */
  function Labels(s: Series): (r: seq<Value>)
    ensures |r| == |s| && forall k :: 0 <= k < |s| ==> r[k] == s[k].value
  {
    seq(|s|, k requires 0 <= k < |s| => s[k].value)
  }

  /** `list(series.index)` of the group with value `key`, in series order. */
  function Members(s: Series, key: Value): seq<Id>
  {
    if s == [] then []
    else (if s[0].value == key then [s[0].id] else []) + Members(s[1..], key)
  }

  function MakeGroupings(s: Series): Groupings
  {
    var keys := SortUnique(Labels(s), ValueLess);
    seq(|keys|, k requires 0 <= k < |keys| => (keys[k], Members(s, keys[k])))
  }

  /** A sample is in the group of `key` exactly when its row carries that key. */
  lemma {:induction false} MembersHave(s: Series, key: Value, id: Id)
    ensures id in Members(s, key) <==> Row(id, key) in s
  {
    if s != [] {
      MembersHave(s[1..], key, id);
      assert s == [s[0]] + s[1..];
      assert Row(id, key) in s <==> s[0] == Row(id, key) || Row(id, key) in s[1..];
    }
  }

  /** A group lists its samples in the order of the series. */
  lemma {:induction false} MembersInOrder(s: Series, key: Value)
    ensures InOrderOf(Members(s, key), RowIds(s))
  {
    if s != [] {
      MembersInOrder(s[1..], key);
      assert RowIds(s) == [s[0].id] + RowIds(s[1..]);
      if s[0].value == key {
        InOrderKeep(Members(s[1..], key), RowIds(s[1..]), s[0].id);
      } else {
        InOrderSkip(Members(s[1..], key), RowIds(s[1..]), s[0].id);
      }
    }
  }

  lemma {:induction false} MembersNoDup(s: Series, key: Value)
    requires NoDup(RowIds(s))
    ensures NoDup(Members(s, key))
  {
    if s != [] {
      assert RowIds(s) == [s[0].id] + RowIds(s[1..]);
      MembersNoDup(s[1..], key);
      if s[0].value == key {
        MembersHave(s[1..], key, s[0].id);
        assert s[0].id !in RowIds(s[1..]);
        assert forall r :: r in s[1..] ==> r.id in RowIds(s[1..]);
        assert s[0].id !in Members(s[1..], key);
      }
    }
  }

  /** The group labels are the distinct values of the series, in ascending order. */
  lemma GroupingKeys(s: Series)
    ensures Keys(MakeGroupings(s)) == SortUnique(Labels(s), ValueLess)
    ensures StrictlySorted(Keys(MakeGroupings(s)), ValueLess)
    ensures NoDup(Keys(MakeGroupings(s)))
    ensures Elems(Keys(MakeGroupings(s))) == Elems(Labels(s))
  {
    ValueLessIsStrictTotal();
    SortUniqueSorted(Labels(s), ValueLess);
  }

  /** Every sample of the series is in some group. */
  lemma GroupingCovers(s: Series, id: Id)
    requires id in RowIds(s)
    ensures exists k :: 0 <= k < |MakeGroupings(s)| && id in MakeGroupings(s)[k].1
  {
    var gs := MakeGroupings(s);
    GroupingKeys(s);
    var i :| 0 <= i < |s| && s[i].id == id;
    assert s[i].value in Elems(Labels(s));
    assert s[i].value in Elems(Keys(gs));
    var k :| 0 <= k < |gs| && Keys(gs)[k] == s[i].value;
    MembersHave(s, s[i].value, id);
    assert s[i] == Row(id, s[i].value);
    assert id in gs[k].1;
  }

  /** No sample is in two groups, since each sample has one row. */
  lemma GroupingExclusive(s: Series, id: Id, a: nat, b: nat)
    requires NoDup(RowIds(s))
    requires a < |MakeGroupings(s)| && b < |MakeGroupings(s)|
    requires id in MakeGroupings(s)[a].1 && id in MakeGroupings(s)[b].1
    ensures a == b
  {
    var gs := MakeGroupings(s);
    GroupingKeys(s);
    MembersHave(s, gs[a].0, id);
    MembersHave(s, gs[b].0, id);
    var i :| 0 <= i < |s| && s[i] == Row(id, gs[a].0);
    var j :| 0 <= j < |s| && s[j] == Row(id, gs[b].0);
    assert RowIds(s)[i] == RowIds(s)[j];
    assert i == j;
    assert Keys(gs)[a] == Keys(gs)[b];
  }

  /** The groups hold only samples of the series. */
  lemma GroupingWithin(s: Series, id: Id, k: nat)
    requires k < |MakeGroupings(s)| && id in MakeGroupings(s)[k].1
    ensures id in RowIds(s)
  {
    var gs := MakeGroupings(s);
    MembersHave(s, gs[k].0, id);
    var i :| 0 <= i < |s| && s[i] == Row(id, gs[k].0);
    assert RowIds(s)[i] == id;
  }

  /** No group is empty, and every sample in a group carries the group's key. */
  lemma GroupingMembersCarryLabel(s: Series, k: nat, id: Id)
    requires k < |MakeGroupings(s)|
    ensures |MakeGroupings(s)[k].1| > 0
    ensures id in MakeGroupings(s)[k].1 <==> Row(id, MakeGroupings(s)[k].0) in s
  {
    var gs := MakeGroupings(s);
    GroupingKeys(s);
    assert gs[k].0 in Elems(Labels(s));
    var i :| 0 <= i < |s| && Labels(s)[i] == gs[k].0;
    MembersHave(s, gs[k].0, s[i].id);
    assert s[i] == Row(s[i].id, gs[k].0);
    MembersHave(s, gs[k].0, id);
  }

  /** Every group lists its samples in the order of the series, as `list(series.index)` does. */
  lemma GroupingInOrder(s: Series, k: nat)
    requires k < |MakeGroupings(s)|
    ensures InOrderOf(MakeGroupings(s)[k].1, RowIds(s))
  {
    MembersInOrder(s, MakeGroupings(s)[k].0);
  }

  /** The groupings of an aligned series are well formed over its ids. */
  lemma MakeGroupingsWellFormed(s: Series)
    requires NoDup(RowIds(s))
    ensures WellFormed(MakeGroupings(s), RowIds(s))
  {
    var gs := MakeGroupings(s);
    GroupingKeys(s);
    forall k | 0 <= k < |gs| ensures NoDup(gs[k].1) && Includes(RowIds(s), gs[k].1) {
      MembersNoDup(s, gs[k].0);
      forall id | id in gs[k].1 ensures id in RowIds(s) { GroupingWithin(s, id, k); }
    }
    forall a, b | 0 <= a < |gs| && 0 <= b < |gs| && a != b ensures Disjoint(gs[a].1, gs[b].1) {
      forall i, j | 0 <= i < |gs[a].1| && 0 <= j < |gs[b].1| ensures gs[a].1[i] != gs[b].1[j] {
        if gs[a].1[i] == gs[b].1[j] {
          GroupingExclusive(s, gs[a].1[i], a, b);
        }
      }
    }
  }
}

/**
 * The data behind one group's distance boxplot: the distances within the
 * group, then the distances from the group to every other group, each list
 * with an x-axis label `"<group> (n=<count>)"`.
 */
module Boxplots {
  import opened Sorting
  import opened DistanceMatrices
  import opened Alignment
  import opened Grouping

  /** The x-axis label `'%s (n=%d)' % (group, n)`. */
  datatype TickLabel = TickLabel(group: Value, n: nat)

  /** Every id of `g` is held by the matrix. */
  ghost predicate InMatrix<V>(dm: DistanceMatrix<V>, g: seq<Id>)
  {
    forall x :: x in g ==> x in dm.ids
  }

  /** `[dm[sid, o] for o in others]` */
  function Against<V>(dm: DistanceMatrix<V>, sid: Id, others: seq<Id>): (r: seq<V>)
    requires sid in dm.ids && InMatrix(dm, others)
    ensures |r| == |others| && forall j :: 0 <= j < |others| ==> r[j] == dm.Get(sid, others[j])
  {
    seq(|others|, j requires 0 <= j < |others| => dm.Get(sid, others[j]))
  }

  /** The within-group distances: for each sample, its distance to every earlier sample. */
  function Within<V>(dm: DistanceMatrix<V>, g: seq<Id>): seq<V>
    requires InMatrix(dm, g)
    decreases |g|
  {
    if g == [] then []
    else
      var last := |g| - 1;
      assert InMatrix(dm, g[..last]) && g[last] in dm.ids;
      Within(dm, g[..last]) + Against(dm, g[last], g[..last])
  }

  /** The between-group distances: for each sample of `g`, its distance to every sample of `o`. */
  function Between<V>(dm: DistanceMatrix<V>, g: seq<Id>, o: seq<Id>): seq<V>
    requires InMatrix(dm, g) && InMatrix(dm, o)
    decreases |g|
  {
    if g == [] then []
    else
      var last := |g| - 1;
      assert InMatrix(dm, g[..last]) && g[last] in dm.ids;
      Between(dm, g[..last], o) + Against(dm, g[last], o)
  }

  /** The entries of the groupings other than `target`, in iteration order. */
  function Others(gs: Groupings, target: Value): seq<(Value, seq<Id>)>
  {
    if gs == [] then []
    else
      var last := |gs| - 1;
      Others(gs[..last], target) + (if gs[last].0 == target then [] else [gs[last]])
  }

  /** Every sample of every group is held by the matrix. */
  ghost predicate GroupsInMatrix<V>(dm: DistanceMatrix<V>, gs: seq<(Value, seq<Id>)>)
  {
    forall k, i :: 0 <= k < |gs| && 0 <= i < |gs[k].1| ==> gs[k].1[i] in dm.ids
  }

  function OtherLists<V>(dm: DistanceMatrix<V>, g: seq<Id>, os: seq<(Value, seq<Id>)>): seq<seq<V>>
    requires InMatrix(dm, g) && GroupsInMatrix(dm, os)
  {
    seq(|os|, k requires 0 <= k < |os| => Between(dm, g, os[k].1))
  }

  function OtherTicks<V>(dm: DistanceMatrix<V>, g: seq<Id>, os: seq<(Value, seq<Id>)>): seq<TickLabel>
    requires InMatrix(dm, g) && GroupsInMatrix(dm, os)
  {
    seq(|os|, k requires 0 <= k < |os| => TickLabel(os[k].0, |Between(dm, g, os[k].1)|))
  }

  lemma {:induction false} OthersInMatrix<V>(dm: DistanceMatrix<V>, gs: Groupings, target: Value)
    requires GroupsInMatrix(dm, gs)
    ensures GroupsInMatrix(dm, Others(gs, target))
    ensures forall k :: 0 <= k < |Others(gs, target)| ==> Others(gs, target)[k] in gs
    decreases |gs|
  {
    if gs != [] {
      OthersInMatrix(dm, gs[..|gs| - 1], target);
    }
  }

  lemma GroupInMatrix<V>(dm: DistanceMatrix<V>, gs: Groupings, target: Value)
    requires target in Keys(gs) && GroupsInMatrix(dm, gs)
    ensures InMatrix(dm, GroupOf(gs, target))
  {
  }

  /** The lists `_get_distance_boxplot_data` returns: within-group first, then one per other group. */
  function BoxplotLists<V>(dm: DistanceMatrix<V>, target: Value, gs: Groupings): seq<seq<V>>
    requires target in Keys(gs) && GroupsInMatrix(dm, gs)
  {
    GroupInMatrix(dm, gs, target);
    OthersInMatrix(dm, gs, target);
    var g := GroupOf(gs, target);
    [Within(dm, g)] + OtherLists(dm, g, Others(gs, target))
  }

  /** The x-axis labels `_get_distance_boxplot_data` returns, one per list. */
  function BoxplotTicks<V>(dm: DistanceMatrix<V>, target: Value, gs: Groupings): seq<TickLabel>
    requires target in Keys(gs) && GroupsInMatrix(dm, gs)
  {
    GroupInMatrix(dm, gs, target);
    OthersInMatrix(dm, gs, target);
    var g := GroupOf(gs, target);
    [TickLabel(target, |Within(dm, g)|)] + OtherTicks(dm, g, Others(gs, target))
  }

  /** The nested loops that collect the within-group distances. */
  method WithinDistances<V>(dm: DistanceMatrix<V>, group: seq<Id>) returns (within: seq<V>)
    requires InMatrix(dm, group)
    ensures within == Within(dm, group)
  {
    within := [];
    for i := 0 to |group|
      invariant within == Within(dm, group[..i])
    {
      for j := 0 to i
        invariant within == Within(dm, group[..i]) + Against(dm, group[i], group[..i])[..j]
      {
        within := within + [dm.Get(group[i], group[j])];
      }
      assert group[..i + 1][..i] == group[..i];
    }
    assert group[..|group|] == group;
  }

  /** The nested loops that collect the distances from `group` to `other`. */
  method BetweenDistances<V>(dm: DistanceMatrix<V>, group: seq<Id>, other: seq<Id>) returns (between: seq<V>)
    requires InMatrix(dm, group) && InMatrix(dm, other)
    ensures between == Between(dm, group, other)
  {
    between := [];
    for a := 0 to |group|
      invariant between == Between(dm, group[..a], other)
    {
      for b := 0 to |other|
        invariant between == Between(dm, group[..a], other) + Against(dm, group[a], other)[..b]
      {
        between := between + [dm.Get(group[a], other[b])];
      }
      assert group[..a + 1][..a] == group[..a];
    }
    assert group[..|group|] == group;
  }

  /** `_get_distance_boxplot_data(distance_matrix, group_id, groupings)` */
  method DistanceBoxplotData<V>(dm: DistanceMatrix<V>, target: Value, gs: Groupings)
    returns (lists: seq<seq<V>>, ticks: seq<TickLabel>)
    requires target in Keys(gs) && GroupsInMatrix(dm, gs)
    ensures lists == BoxplotLists(dm, target, gs)
    ensures ticks == BoxplotTicks(dm, target, gs)
  {
    ticks := [];
    lists := [];

    var group := GroupOf(gs, target);
    GroupInMatrix(dm, gs, target);
    var within := WithinDistances(dm, group);
    ticks := ticks + [TickLabel(target, |within|)];
    lists := lists + [within];

    for k := 0 to |gs|
      invariant GroupsInMatrix(dm, Others(gs[..k], target))
      invariant lists == [Within(dm, group)] + OtherLists(dm, group, Others(gs[..k], target))
      invariant ticks == [TickLabel(target, |Within(dm, group)|)] + OtherTicks(dm, group, Others(gs[..k], target))
    {
      assert gs[..k + 1][..k] == gs[..k];
      OthersInMatrix(dm, gs[..k + 1], target);
      ghost var os := Others(gs[..k], target);
      if gs[k].0 != target {
        assert Others(gs[..k + 1], target) == os + [gs[k]];
        var between := BetweenDistances(dm, group, gs[k].1);
        ticks := ticks + [TickLabel(gs[k].0, |between|)];
        lists := lists + [between];
        assert OtherLists(dm, group, os + [gs[k]]) == OtherLists(dm, group, os) + [between];
        assert OtherTicks(dm, group, os + [gs[k]]) == OtherTicks(dm, group, os) + [TickLabel(gs[k].0, |between|)];
      } else {
        assert Others(gs[..k + 1], target) == os;
      }
    }
    assert gs[..|gs|] == gs;
  }

  /** A group of n samples has n * (n - 1) / 2 within-group distances, one per unordered pair. */
  lemma {:induction false} WithinLength<V>(dm: DistanceMatrix<V>, g: seq<Id>)
    requires InMatrix(dm, g)
    ensures 2 * |Within(dm, g)| == |g| * (|g| - 1)
    decreases |g|
  {
    if g != [] {
      var n := |g|;
      WithinLength(dm, g[..n - 1]);
      calc {
        2 * |Within(dm, g)|;
        (n - 1) * (n - 2) + 2 * (n - 1);
        n * (n - 1);
      }
    }
  }

  /** The within-group distances for a prefix of the group come first, in the same order. */
  lemma {:induction false} WithinPrefix<V>(dm: DistanceMatrix<V>, g: seq<Id>, i: nat)
    requires InMatrix(dm, g) && i <= |g|
    ensures InMatrix(dm, g[..i])
    ensures |Within(dm, g[..i])| <= |Within(dm, g)|
    ensures Within(dm, g)[..|Within(dm, g[..i])|] == Within(dm, g[..i])
    decreases |g|
  {
    if i < |g| {
      var last := |g| - 1;
      assert g[..last][..i] == g[..i];
      WithinPrefix(dm, g[..last], i);
    } else {
      assert g[..i] == g;
    }
  }

  /**
   * Sample i is paired with every earlier sample j exactly at position
   * i * (i - 1) / 2 + j: each unordered pair contributes `dm[g[i], g[j]]` once.
   */
  lemma WithinAt<V>(dm: DistanceMatrix<V>, g: seq<Id>, i: nat, j: nat)
    requires InMatrix(dm, g) && j < i < |g|
    ensures 2 * |Within(dm, g)| == |g| * (|g| - 1)
    ensures i * (i - 1) / 2 + j < |Within(dm, g)|
    ensures Within(dm, g)[i * (i - 1) / 2 + j] == dm.Get(g[i], g[j])
  {
    WithinLength(dm, g);
    WithinPrefix(dm, g, i + 1);
    assert g[..i + 1][..i] == g[..i];
    WithinLength(dm, g[..i]);
    var w := Within(dm, g[..i + 1]);
    assert w == Within(dm, g[..i]) + Against(dm, g[i], g[..i]);
    assert 2 * |Within(dm, g[..i])| == i * (i - 1);
    assert |Within(dm, g[..i])| == i * (i - 1) / 2;
    assert w[i * (i - 1) / 2 + j] == dm.Get(g[i], g[j]);
  }

  /** A group of n samples and another of m samples have n * m between-group distances. */
  lemma {:induction false} BetweenLength<V>(dm: DistanceMatrix<V>, g: seq<Id>, o: seq<Id>)
    requires InMatrix(dm, g) && InMatrix(dm, o)
    ensures |Between(dm, g, o)| == |g| * |o|
    decreases |g|
  {
    if g != [] {
      BetweenLength(dm, g[..|g| - 1], o);
      assert |Between(dm, g, o)| == (|g| - 1) * |o| + |o|;
    }
  }

  lemma {:induction false} BetweenPrefix<V>(dm: DistanceMatrix<V>, g: seq<Id>, o: seq<Id>, i: nat)
    requires InMatrix(dm, g) && InMatrix(dm, o) && i <= |g|
    ensures InMatrix(dm, g[..i])
    ensures |Between(dm, g[..i], o)| <= |Between(dm, g, o)|
    ensures Between(dm, g, o)[..|Between(dm, g[..i], o)|] == Between(dm, g[..i], o)
    decreases |g|
  {
    if i < |g| {
      var last := |g| - 1;
      assert g[..last][..i] == g[..i];
      BetweenPrefix(dm, g[..last], o, i);
    } else {
      assert g[..i] == g;
    }
  }

  /** Sample i of the group meets sample j of the other group exactly at position i * m + j. */
  lemma BetweenAt<V>(dm: DistanceMatrix<V>, g: seq<Id>, o: seq<Id>, i: nat, j: nat)
    requires InMatrix(dm, g) && InMatrix(dm, o) && i < |g| && j < |o|
    ensures |Between(dm, g, o)| == |g| * |o|
    ensures i * |o| + j < |Between(dm, g, o)|
    ensures Between(dm, g, o)[i * |o| + j] == dm.Get(g[i], o[j])
  {
    BetweenLength(dm, g, o);
    assert InMatrix(dm, g[..i]) && InMatrix(dm, g[..i + 1]);
    var pre := Between(dm, g[..i], o);
    BetweenLength(dm, g[..i], o);
    assert |pre| == i * |o|;
    var w := Between(dm, g[..i + 1], o);
    assert g[..i + 1][..i] == g[..i] && g[..i + 1][i] == g[i];
    assert w == pre + Against(dm, g[i], o);
    assert w[|pre| + j] == dm.Get(g[i], o[j]);
    BetweenPrefix(dm, g, o, i + 1);
    assert Between(dm, g, o)[|pre| + j] == w[|pre| + j];
  }

  lemma {:induction false} OthersNotThere(gs: Groupings, target: Value)
    requires target !in Keys(gs)
    ensures Others(gs, target) == gs
    decreases |gs|
  {
    if gs != [] {
      assert Keys(gs[..|gs| - 1]) == Keys(gs)[..|gs| - 1];
      OthersNotThere(gs[..|gs| - 1], target);
    }
  }

  /** With unique labels, the other groups are all groups but the target, in order. */
  lemma {:induction false} OthersSkip(gs: Groupings, p: nat)
    requires NoDup(Keys(gs)) && p < |gs|
    ensures Others(gs, gs[p].0) == gs[..p] + gs[p + 1..]
    decreases |gs|
  {
    var last := |gs| - 1;
    var t := gs[p].0;
    if p == last {
      assert t !in Keys(gs[..last]) by {
        assert forall k :: 0 <= k < last ==> Keys(gs)[k] != Keys(gs)[last];
      }
      OthersNotThere(gs[..last], t);
      assert gs[p + 1..] == [];
    } else {
      assert Keys(gs[..last]) == Keys(gs)[..last];
      OthersSkip(gs[..last], p);
      assert Keys(gs)[p] != Keys(gs)[last];
      assert gs[..last][p + 1..] + [gs[last]] == gs[p + 1..];
    }
  }

  lemma BoxplotUnfold<V>(dm: DistanceMatrix<V>, gs: Groupings, p: nat)
    requires NoDup(Keys(gs)) && p < |gs| && GroupsInMatrix(dm, gs)
    ensures gs[p].0 in Keys(gs) && InMatrix(dm, gs[p].1)
    ensures GroupsInMatrix(dm, gs[..p] + gs[p + 1..])
    ensures BoxplotLists(dm, gs[p].0, gs)
            == [Within(dm, gs[p].1)] + OtherLists(dm, gs[p].1, gs[..p] + gs[p + 1..])
    ensures BoxplotTicks(dm, gs[p].0, gs)
            == [TickLabel(gs[p].0, |Within(dm, gs[p].1)|)] + OtherTicks(dm, gs[p].1, gs[..p] + gs[p + 1..])
  {
    assert Keys(gs)[p] == gs[p].0;
    GroupOfAt(gs, p);
    OthersSkip(gs, p);
    OthersInMatrix(dm, gs, gs[p].0);
  }

  /**
   * The layout of one group's boxplot data: one list and one label per group,
   * the target's within-group list first, holding n * (n - 1) / 2 distances,
   * and every label's count is its list's length.
   */
  lemma BoxplotLayout<V>(dm: DistanceMatrix<V>, gs: Groupings, p: nat)
    requires NoDup(Keys(gs)) && p < |gs| && GroupsInMatrix(dm, gs)
    ensures gs[p].0 in Keys(gs) && InMatrix(dm, gs[p].1)
    ensures |BoxplotLists(dm, gs[p].0, gs)| == |BoxplotTicks(dm, gs[p].0, gs)| == |gs|
    ensures forall k :: 0 <= k < |gs| ==>
              BoxplotTicks(dm, gs[p].0, gs)[k].n == |BoxplotLists(dm, gs[p].0, gs)[k]|
    ensures BoxplotLists(dm, gs[p].0, gs)[0] == Within(dm, gs[p].1)
    ensures BoxplotTicks(dm, gs[p].0, gs)[0].group == gs[p].0
    ensures 2 * BoxplotTicks(dm, gs[p].0, gs)[0].n == |gs[p].1| * (|gs[p].1| - 1)
  {
    BoxplotUnfold(dm, gs, p);
    WithinLength(dm, gs[p].1);
  }

  /**
   * After the within-group list come the other groups in grouping order, the
   * target skipped: list k + 1 holds the n * m distances from the target's n
   * samples to the m samples of the k-th other group, and is labelled with it.
   */
  lemma BoxplotOthers<V>(dm: DistanceMatrix<V>, gs: Groupings, p: nat, k: nat)
    requires NoDup(Keys(gs)) && p < |gs| && GroupsInMatrix(dm, gs)
    requires k < |gs| - 1
    ensures gs[p].0 in Keys(gs) && InMatrix(dm, gs[p].1)
    ensures var o := if k < p then gs[k] else gs[k + 1];
            && InMatrix(dm, o.1)
            && |BoxplotLists(dm, gs[p].0, gs)| == |gs|
            && BoxplotLists(dm, gs[p].0, gs)[k + 1] == Between(dm, gs[p].1, o.1)
            && BoxplotTicks(dm, gs[p].0, gs)[k + 1] == TickLabel(o.0, |gs[p].1| * |o.1|)
  {
    BoxplotUnfold(dm, gs, p);
    var os := gs[..p] + gs[p + 1..];
    var o := if k < p then gs[k] else gs[k + 1];
    assert os[k] == o;
    BetweenLength(dm, gs[p].1, o.1);
  }
}

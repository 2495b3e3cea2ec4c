/**
 * The beta rarefaction visualizer up to its Mantel correlation: the choice of
 * the plain or the phylogenetic beta-diversity function, and the repeated
 * rarefy-then-compute loop. Rarefying, computing a distance matrix and the
 * pairwise Mantel correlations are opaque functions given as parameters; the
 * draw index stands for the fresh random choice of each rarefaction.
 */
module Rarefaction {
  import opened Wrappers

  /** `beta`, or `beta_phylogenetic` with the tree bound by `functools.partial`. */
  datatype BetaFunc<Tree> = Plain | Phylogenetic(phylogeny: Tree)

  /**
   * The metric check of `beta_rarefaction`: a phylogenetic metric needs a tree,
   * and gets the phylogenetic function bound to it; any other metric gets the
   * plain function, whether or not a tree was given.
   */
  function SelectBetaFunc<Tree>(metric: string, phylogeneticMetrics: set<string>, phylogeny: Option<Tree>)
    : (r: Result<BetaFunc<Tree>, Error>)
    ensures r.Err? <==> metric in phylogeneticMetrics && phylogeny.None?
    ensures r.Err? ==> r.error == MissingPhylogeny(metric)
    ensures r.Ok? && metric in phylogeneticMetrics ==> r.value == Phylogenetic(phylogeny.value)
    ensures r.Ok? && metric !in phylogeneticMetrics ==> r.value == Plain
  {
    if metric in phylogeneticMetrics then
      if phylogeny.None? then Err(MissingPhylogeny(metric))
      else Ok(Phylogenetic(phylogeny.value))
    else Ok(Plain)
  }

  /** `range(iterations)` runs no times for a negative count. */
  function Runs(iterations: int): nat
  {
    if iterations < 0 then 0 else iterations
  }

  /** The distance matrix of the k-th rarefaction. */
  function Draw<T, B, D>(
    betaFunc: B, metric: string, table: T, samplingDepth: int,
    rarefy: (T, int, nat) -> T, beta: (B, string, T) -> D, k: nat): D
  {
    beta(betaFunc, metric, rarefy(table, samplingDepth, k))
  }

  /**
   * `_get_multiple_rarefaction`: `iterations` times, rarefy the table to the
   * sampling depth and compute its distance matrix.
   */
  method MultipleRarefaction<T, B, D>(
    betaFunc: B, metric: string, iterations: int, table: T, samplingDepth: int,
    rarefy: (T, int, nat) -> T, beta: (B, string, T) -> D)
    returns (dms: seq<D>)
    ensures |dms| == Runs(iterations)
    ensures forall k :: 0 <= k < |dms| ==> dms[k] == Draw(betaFunc, metric, table, samplingDepth, rarefy, beta, k)
  {
    dms := [];
    for k := 0 to Runs(iterations)
      invariant |dms| == k
      invariant forall i :: 0 <= i < k ==> dms[i] == Draw(betaFunc, metric, table, samplingDepth, rarefy, beta, i)
    {
      var rarefied := rarefy(table, samplingDepth, k);
      var dm := beta(betaFunc, metric, rarefied);
      dms := dms + [dm];
    }
  }

  /**
   * `beta_rarefaction` up to plotting: a phylogenetic metric without a tree
   * fails before any rarefaction; otherwise the matrices of all iterations go
   * to the pairwise Mantel correlation.
   */
  method BetaRarefaction<Tree, T, D, S>(
    table: T, metric: string, samplingDepth: int, iterations: int, phylogeny: Option<Tree>,
    phylogeneticMetrics: set<string>, correlationMethod: string,
    rarefy: (T, int, nat) -> T, beta: (BetaFunc<Tree>, string, T) -> D,
    pwmantel: (seq<D>, string) -> S)
    returns (r: Result<S, Error>)
    ensures r.Err? <==> metric in phylogeneticMetrics && phylogeny.None?
    ensures r.Err? ==> r.error == MissingPhylogeny(metric)
    ensures r.Ok? ==>
              var f := SelectBetaFunc(metric, phylogeneticMetrics, phylogeny).value;
              exists dms: seq<D> ::
                && |dms| == Runs(iterations)
                && (forall k :: 0 <= k < |dms| ==> dms[k] == Draw(f, metric, table, samplingDepth, rarefy, beta, k))
                && r.value == pwmantel(dms, correlationMethod)
  {
    var selected := SelectBetaFunc(metric, phylogeneticMetrics, phylogeny);
    if selected.Err? {
      return Err(selected.error);
    }
    var dms := MultipleRarefaction(selected.value, metric, iterations, table, samplingDepth, rarefy, beta);
    r := Ok(pwmantel(dms, correlationMethod));
  }
}

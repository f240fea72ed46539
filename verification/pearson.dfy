/** The correlation test `_compute_sim` calls (`scipy.stats.pearsonr`) as an abstract function,
    the two similarity metrics, and the policy that turns one test outcome into a similarity. */
module Pearson {
  import opened Wrappers
  import opened Exceptions

  /** The outcome of `stats.pearsonr(xs, ys)`: it raises, or returns the coefficient and its
      two-sided p-value. A NaN result (constant input) goes with `Raised`: the engine stores 0
      for both, since a NaN p-value fails `p_val < 0.1`. */
  datatype Correlation = Raised | Computed(r: real, p: real)

  /** The correlation test is a parameter of the model; nothing about it is assumed except
      where a lemma asks for `IsPearsonTest`. */
  type PearsonTest = (seq<real>, seq<real>) -> Correlation

  /** What the model relies on from scipy: fewer than two samples raise, and a computed
      coefficient lies in [-1, 1]. */
  ghost predicate IsPearsonTest(pearson: PearsonTest) {
    forall xs, ys ::
      && (|xs| < 2 ==> pearson(xs, ys) == Raised)
      && (pearson(xs, ys).Computed? ==> -1.0 <= pearson(xs, ys).r <= 1.0)
  }

  /** `sim_metric`: plain correlation, or correlation with negative values clamped to 0. */
  datatype Metric = PearsonR | PearsonRPlus

  /** `assert sim_metric in ['pearsonR', 'pearsonR+']`. */
  function ParseMetric(name: string): (r: Result<Metric, Exception>)
    ensures r.Success? <==> name == "pearsonR" || name == "pearsonR+"
    ensures r.Success? ==> (r.value == PearsonRPlus <==> name == "pearsonR+")
    ensures r.Failure? ==> r.error == AssertionError
  {
    if name == "pearsonR" then Success(PearsonR)
    else if name == "pearsonR+" then Success(PearsonRPlus)
    else Failure(AssertionError)
  }

  /** A correlation is kept only when its p-value is below this level. */
  const SignificanceLevel: real := 0.1

  function Max(a: real, b: real): real {
    if a < b then b else a
  }

  /** The value the `try` block of `_compute_sim` writes for one pair: the (clamped, under
      `pearsonR+`) coefficient when the test succeeds with p < 0.1, and 0 when the test raises
      or the p-value is too high (the explicit `raise ValueError` lands in the same handler). */
  function StoredSimilarity(metric: Metric, c: Correlation): (sim: real)
    ensures c.Raised? ==> sim == 0.0
    ensures c.Computed? && c.p >= SignificanceLevel ==> sim == 0.0
    ensures c.Computed? && c.p < SignificanceLevel ==>
      sim == (if metric == PearsonRPlus then Max(0.0, c.r) else c.r)
    ensures metric == PearsonRPlus ==> sim >= 0.0
    ensures c.Computed? && -1.0 <= c.r <= 1.0 ==> -1.0 <= sim <= 1.0
  {
    match c
    case Raised => 0.0
    case Computed(r, p) =>
      var kept := if metric == PearsonRPlus then Max(0.0, r) else r;
      if p < SignificanceLevel then kept else 0.0
  }

  /** Under a well-behaved test, fewer than two samples always give similarity 0. */
  lemma TooFewSamples(metric: Metric, pearson: PearsonTest, xs: seq<real>, ys: seq<real>)
    requires IsPearsonTest(pearson)
    requires |xs| < 2
    ensures StoredSimilarity(metric, pearson(xs, ys)) == 0.0
  {
  }

  /** Under a well-behaved test, every stored similarity lies in [-1, 1]. */
  lemma StoredSimilarityBounds(metric: Metric, pearson: PearsonTest, xs: seq<real>, ys: seq<real>)
    requires IsPearsonTest(pearson)
    ensures -1.0 <= StoredSimilarity(metric, pearson(xs, ys)) <= 1.0
  {
  }
}

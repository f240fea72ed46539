/** `CF._compute_sim` (root variant): every pair `i < j` is written, with the stored similarity
    of the correlation test on the two users' scores over their common items. */
module Similarity {
  import opened Dicts
  import opened SimSweep
  import opened KeyCodec
  import opened RatingStore
  import opened Pearson

  /** What `_compute_sim` reads: the store, the metric and the correlation test. */
  datatype Setting = Setting(store: Store, metric: Metric, pearson: PearsonTest)

  ghost predicate Ready(g: Setting) {
    Consistent(g.store)
  }

  function Users(g: Setting): nat {
    g.store.userCount
  }

  /** `self._common_items[(i, j)]`. */
  function CommonOf(s: Store, i: nat, j: nat): seq<nat> {
    if (i, j) in s.common then s.common[(i, j)] else []
  }

  predicate BothScored(s: Store, i: nat, j: nat, items: seq<nat>) {
    forall x :: x in items ==> (i, x) in s.scores.vals && (j, x) in s.scores.vals
  }

  /** The `try` block for users `i < j`: the stored similarity of the test on the two users'
      scores over their common items, in `_common_items` order. The guard never fails on a
      consistent store (`PairValueExact`). */
  function PairValue(g: Setting, i: nat, j: nat): real {
    var common := CommonOf(g.store, i, j);
    if BothScored(g.store, i, j, common) then
      StoredSimilarity(g.metric, g.pearson(ScoresAt(g.store.scores.vals, i, common),
                                           ScoresAt(g.store.scores.vals, j, common)))
    else 0.0
  }

  /** The scores user `u` gave to the items `i` and `j` have in common. */
  function CommonScores(g: Setting, i: nat, j: nat, u: nat): seq<real>
    requires Ready(g) && i < Users(g) && j < Users(g) && i != j && (u == i || u == j)
  {
    CommonExact(g.store, i, j);
    ScoresAt(g.store.scores.vals, u, g.store.common[(i, j)])
  }

  /** On a consistent store the pair value is the stored similarity of the test on the common
      scores; it is 0 when the two users share fewer than two items under a well-behaved test. */
  lemma PairValueExact(g: Setting, i: nat, j: nat)
    requires Ready(g) && i < j < Users(g)
    ensures PairValue(g, i, j) == StoredSimilarity(g.metric, g.pearson(CommonScores(g, i, j, i), CommonScores(g, i, j, j)))
    ensures IsPearsonTest(g.pearson) && |CommonOf(g.store, i, j)| < 2 ==> PairValue(g, i, j) == 0.0
  {
    CommonExact(g.store, i, j);
    if IsPearsonTest(g.pearson) && |CommonOf(g.store, i, j)| < 2 {
      TooFewSamples(g.metric, g.pearson, CommonScores(g, i, j, i), CommonScores(g, i, j, j));
    }
  }

  /** `_compute_sim`: the full similarity dict, one row per user. */
  function ComputeSim(g: Setting): (sim: seq<Dict<nat, real>>)
    ensures |sim| == Users(g)
    ensures forall k, x :: 0 <= k < Users(g) && 0 <= x < Users(g) ==> x in sim[k].vals
    ensures forall k :: 0 <= k < Users(g) ==> KeysMapped(sim[k])
  {
    var sim := SweepAll(Value(g), EveryPair, Users(g));
    assert forall k, x :: 0 <= k < Users(g) && 0 <= x < Users(g) ==> x in FinalKeys(EveryPair, k, Users(g));
    sim
  }

  /** The pair value as the loop sees it. */
  function Value(g: Setting): (nat, nat) -> real {
    (i: nat, j: nat) => PairValue(g, i, j)
  }

  /** The root loop writes every pair `i < j`. */
  function EveryPair(i: nat, j: nat): bool {
    true
  }

  /** Each row lists the user itself first and then every other user ascending, once each. */
  lemma ComputeSimKeys(g: Setting, a: nat)
    requires a < Users(g)
    ensures ComputeSim(g)[a].keys == [a] + Range(0, a) + Range(a + 1, Users(g))
    ensures Valid(ComputeSim(g)[a])
  {
    SweepAllShape(Value(g), EveryPair, Users(g), a, a);
    PickAll(EveryPair, a, 0, a);
    PickAll(EveryPair, a, a + 1, Users(g));
  }

  /** The diagonal is 1, the dict is symmetric, and the entry above the diagonal is the pair value. */
  lemma ComputeSimShape(g: Setting, a: nat, b: nat)
    requires a < Users(g) && b < Users(g)
    ensures ComputeSim(g)[a].vals[b] == ComputeSim(g)[b].vals[a]
    ensures ComputeSim(g)[a].vals[a] == 1.0
    ensures a < b ==> ComputeSim(g)[a].vals[b] == PairValue(g, a, b)
  {
    SweepAllShape(Value(g), EveryPair, Users(g), a, b);
    if a < b {
      assert ComputeSim(g)[a].vals[b] == Value(g)(a, b);
    }
  }

  /** On a consistent store an off-diagonal entry is the stored similarity of the test on the two
      users' scores over their common items. */
  lemma ComputeSimValue(g: Setting, a: nat, b: nat)
    requires Ready(g) && a < b < Users(g)
    ensures ComputeSim(g)[a].vals[b] == ComputeSim(g)[b].vals[a]
      == StoredSimilarity(g.metric, g.pearson(CommonScores(g, a, b, a), CommonScores(g, a, b, b)))
  {
    ComputeSimShape(g, a, b);
    PairValueExact(g, a, b);
  }

  /** Under a well-behaved test every entry lies in [-1, 1], and in [0, 1] under `pearsonR+`;
      users sharing fewer than two items have similarity 0. */
  lemma ComputeSimBounds(g: Setting, a: nat, b: nat)
    requires Ready(g) && IsPearsonTest(g.pearson) && a < Users(g) && b < Users(g)
    ensures -1.0 <= ComputeSim(g)[a].vals[b] <= 1.0
    ensures g.metric == PearsonRPlus ==> 0.0 <= ComputeSim(g)[a].vals[b]
    ensures a != b && |CommonOf(g.store, a, b)| < 2 ==> ComputeSim(g)[a].vals[b] == 0.0
  {
    ComputeSimShape(g, a, b);
    ComputeSimShape(g, b, a);
    if a != b {
      var i := if a < b then a else b;
      var j := if a < b then b else a;
      CommonExact(g.store, i, j);
      ComputeSimValue(g, i, j);
      PairValueExact(g, i, j);
      StoredSimilarityBounds(g.metric, g.pearson, CommonScores(g, i, j, i), CommonScores(g, i, j, j));
    }
  }
}

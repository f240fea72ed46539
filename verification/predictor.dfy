/** The neighbour loop and the blend of `_score_pair`, shared by both variants: walk the ranking,
    stop once `num_neighbors` raters have been used, skip users who did not rate the item, and
    blend the weighted neighbour estimate half and half with the user's mean. */
module Predictor {
  import opened KeyCodec
  import opened Ranking

  /** The loop variables `pred`, `sim_sum` and `num_neighbor`. */
  datatype Tally = Tally(pred: real, weight: real, count: int)

  /** The loop `for neighbor_user_id, sim_score in sim_list: ...` from the given state on. */
  function Scan(ranking: seq<Neighbour>, scores: map<Pair, real>, item: nat, limit: int, t: Tally): Tally
    decreases |ranking|
  {
    if |ranking| == 0 || limit <= t.count then t
    else
      var v := ranking[0].0;
      var s := ranking[0].1;
      if (v, item) !in scores then Scan(ranking[1..], scores, item, limit, t)
      else Scan(ranking[1..], scores, item, limit,
                Tally(t.pred + scores[(v, item)] * s, t.weight + Magnitude(s), t.count + 1))
  }

  /** The users in the ranking who rated the item, in ranking order. */
  function Raters(ranking: seq<Neighbour>, scores: map<Pair, real>, item: nat): (r: seq<Neighbour>)
    ensures forall z :: z in r <==> z in ranking && (z.0, item) in scores
    ensures |r| <= |ranking|
  {
    if |ranking| == 0 then []
    else (if (ranking[0].0, item) in scores then [ranking[0]] else []) + Raters(ranking[1..], scores, item)
  }

  /** The first `k` elements, or all of them when there are fewer (none when `k <= 0`). */
  function Take<T>(s: seq<T>, k: int): (r: seq<T>)
    ensures |r| == if k <= 0 then 0 else if k < |s| then k else |s|
    ensures r <= s
  {
    if k <= 0 then [] else if k < |s| then s[..k] else s
  }

  /** The neighbours `_score_pair` uses: the first `num_neighbors` raters of the item. */
  function Neighbours(ranking: seq<Neighbour>, scores: map<Pair, real>, item: nat, limit: int): seq<Neighbour> {
    Take(Raters(ranking, scores, item), limit)
  }

  /** Σ score · sim over the neighbours. */
  function WeightedSum(ns: seq<Neighbour>, scores: map<Pair, real>, item: nat): real
    requires forall z :: z in ns ==> (z.0, item) in scores
  {
    if |ns| == 0 then 0.0
    else scores[(ns[0].0, item)] * ns[0].1 + WeightedSum(ns[1..], scores, item)
  }

  /** Σ |sim| over the neighbours. */
  function AbsSum(ns: seq<Neighbour>): real {
    if |ns| == 0 then 0.0 else Magnitude(ns[0].1) + AbsSum(ns[1..])
  }

  /** A rater at the head of the ranking is the first neighbour while the budget lasts. */
  lemma TakeRatersCons(ranking: seq<Neighbour>, scores: map<Pair, real>, item: nat, k: int)
    requires |ranking| > 0 && (ranking[0].0, item) in scores && k > 0
    ensures Take(Raters(ranking, scores, item), k) == [ranking[0]] + Take(Raters(ranking[1..], scores, item), k - 1)
  {
    var rs := Raters(ranking, scores, item);
    var rest := Raters(ranking[1..], scores, item);
    assert rs == [ranking[0]] + rest;
    if k < |rs| {
      assert rs[..k] == [ranking[0]] + rest[..k - 1];
    }
  }

  /** The raters the loop uses, one at a time: the head when it rated the item and the budget
      lasts, then the rest of the ranking with the budget that remains. */
  function Used(ranking: seq<Neighbour>, scores: map<Pair, real>, item: nat, k: int): seq<Neighbour>
    decreases |ranking|
  {
    if |ranking| == 0 || k <= 0 then []
    else if (ranking[0].0, item) in scores then [ranking[0]] + Used(ranking[1..], scores, item, k - 1)
    else Used(ranking[1..], scores, item, k)
  }

  /** The raters used one at a time are the first `k` raters. */
  lemma {:induction false} UsedIsNeighbours(ranking: seq<Neighbour>, scores: map<Pair, real>, item: nat, k: int)
    ensures Used(ranking, scores, item, k) == Neighbours(ranking, scores, item, k)
    decreases |ranking|
  {
    if |ranking| == 0 || k <= 0 {
    } else if (ranking[0].0, item) in scores {
      UsedIsNeighbours(ranking[1..], scores, item, k - 1);
      TakeRatersCons(ranking, scores, item, k);
    } else {
      UsedIsNeighbours(ranking[1..], scores, item, k);
      assert Raters(ranking, scores, item) == Raters(ranking[1..], scores, item);
    }
  }

  /** The loop from any state adds the sums over the raters it uses with the remaining budget. */
  lemma {:induction false} ScanSums(ranking: seq<Neighbour>, scores: map<Pair, real>, item: nat, limit: int, t: Tally)
    ensures var ns := Used(ranking, scores, item, limit - t.count);
      && (forall z :: z in ns ==> (z.0, item) in scores)
      && Scan(ranking, scores, item, limit, t) ==
         Tally(t.pred + WeightedSum(ns, scores, item), t.weight + AbsSum(ns), t.count + |ns|)
    decreases |ranking|
  {
    if |ranking| == 0 || limit <= t.count {
    } else if (ranking[0].0, item) !in scores {
      ScanSums(ranking[1..], scores, item, limit, t);
      assert Used(ranking, scores, item, limit - t.count) == Used(ranking[1..], scores, item, limit - t.count);
      assert Scan(ranking, scores, item, limit, t) == Scan(ranking[1..], scores, item, limit, t);
    } else {
      var h := ranking[0];
      var t' := Tally(t.pred + scores[(h.0, item)] * h.1, t.weight + Magnitude(h.1), t.count + 1);
      ScanSums(ranking[1..], scores, item, limit, t');
      var ns' := Used(ranking[1..], scores, item, limit - t'.count);
      var ns := Used(ranking, scores, item, limit - t.count);
      assert ns == [h] + ns';
      ScanRated(ranking, scores, item, limit, t);
      assert forall z :: z in ns ==> z == h || z in ns';
      SumsCons(ns, scores, item, h, ns');
      assert t' == Tally(t.pred + scores[(ranking[0].0, item)] * ranking[0].1, t.weight + Magnitude(ranking[0].1), t.count + 1);
      assert Scan(ranking, scores, item, limit, t) == Scan(ranking[1..], scores, item, limit, t');
      assert Scan(ranking[1..], scores, item, limit, t') ==
        Tally(t'.pred + WeightedSum(ns', scores, item), t'.weight + AbsSum(ns'), t'.count + |ns'|);
      assert |ns| == 1 + |ns'|;
    }
  }

  /** One rated step of the loop. */
  lemma ScanRated(ranking: seq<Neighbour>, scores: map<Pair, real>, item: nat, limit: int, t: Tally)
    requires |ranking| > 0 && (ranking[0].0, item) in scores && t.count < limit
    ensures Scan(ranking, scores, item, limit, t) ==
      Scan(ranking[1..], scores, item, limit,
           Tally(t.pred + scores[(ranking[0].0, item)] * ranking[0].1, t.weight + Magnitude(ranking[0].1), t.count + 1))
  {
  }

  /** Both sums split into the head's term and the sums over the tail. */
  lemma SumsCons(ns: seq<Neighbour>, scores: map<Pair, real>, item: nat, h: Neighbour, tail: seq<Neighbour>)
    requires ns == [h] + tail && forall z :: z in ns ==> (z.0, item) in scores
    ensures WeightedSum(ns, scores, item) == scores[(h.0, item)] * h.1 + WeightedSum(tail, scores, item)
    ensures AbsSum(ns) == Magnitude(h.1) + AbsSum(tail)
  {
    assert ns[0] == h && ns[1..] == tail;
  }

  /** The loop started from zero sums exactly the first `num_neighbors` raters, and never uses more
      than `num_neighbors` of them nor anyone who did not rate the item. */
  lemma Accumulate(ranking: seq<Neighbour>, scores: map<Pair, real>, item: nat, limit: int)
    ensures var ns := Neighbours(ranking, scores, item, limit);
      Scan(ranking, scores, item, limit, Tally(0.0, 0.0, 0)) ==
      Tally(WeightedSum(ns, scores, item), AbsSum(ns), |ns|)
    ensures Scan(ranking, scores, item, limit, Tally(0.0, 0.0, 0)).count <= (if limit < 0 then 0 else limit)
    ensures forall z :: z in Neighbours(ranking, scores, item, limit) ==> z in ranking && (z.0, item) in scores
  {
    ScanSums(ranking, scores, item, limit, Tally(0.0, 0.0, 0));
    UsedIsNeighbours(ranking, scores, item, limit);
  }

  /** The blend after the loop: half the weighted neighbour estimate plus half the mean, or the
      mean alone when the weights sum to 0. */
  function Blend(pred: real, weight: real, mean: real): real {
    if weight != 0.0 then pred / (weight * 2.0) + mean * 0.5 else pred + mean
  }

  lemma {:induction false} AbsSumZero(ns: seq<Neighbour>, scores: map<Pair, real>, item: nat)
    requires forall z :: z in ns ==> (z.0, item) in scores
    requires AbsSum(ns) == 0.0
    ensures WeightedSum(ns, scores, item) == 0.0
  {
    if |ns| > 0 {
      assert AbsSum(ns[1..]) >= 0.0 by { AbsSumNonNegative(ns[1..]); }
      assert ns[0] in ns;
      AbsSumZero(ns[1..], scores, item);
    }
  }

  lemma {:induction false} AbsSumNonNegative(ns: seq<Neighbour>)
    ensures AbsSum(ns) >= 0.0
  {
    if |ns| > 0 {
      AbsSumNonNegative(ns[1..]);
    }
  }

  /** The prediction for a user with the given mean. */
  function Predict(ranking: seq<Neighbour>, scores: map<Pair, real>, item: nat, limit: int, mean: real): real {
    var t := Scan(ranking, scores, item, limit, Tally(0.0, 0.0, 0));
    Blend(t.pred, t.weight, mean)
  }

  /** Σ r·s / (2·Σ|s|) + mean/2 over the neighbours, or the mean alone when Σ|s| = 0 (then no
      neighbour had a non-zero similarity, so the weighted sum is 0 too). */
  lemma PredictFormula(ranking: seq<Neighbour>, scores: map<Pair, real>, item: nat, limit: int, mean: real)
    ensures var ns := Neighbours(ranking, scores, item, limit);
      && (AbsSum(ns) != 0.0 ==>
            Predict(ranking, scores, item, limit, mean) == WeightedSum(ns, scores, item) / (2.0 * AbsSum(ns)) + mean / 2.0)
      && (AbsSum(ns) == 0.0 ==> Predict(ranking, scores, item, limit, mean) == mean)
  {
    Accumulate(ranking, scores, item, limit);
    var ns := Neighbours(ranking, scores, item, limit);
    if AbsSum(ns) == 0.0 {
      AbsSumZero(ns, scores, item);
    }
  }

  /** Between `lo` and `hi` times the total weight: the neighbour estimate is a weighted
      average of their scores when the weights are non-negative. */
  lemma {:induction false} WeightedSumBounds(ns: seq<Neighbour>, scores: map<Pair, real>, item: nat, lo: real, hi: real)
    requires forall z :: z in ns ==> (z.0, item) in scores && z.1 >= 0.0 && lo <= scores[(z.0, item)] <= hi
    ensures WithinWeight(WeightedSum(ns, scores, item), AbsSum(ns), lo, hi)
    decreases |ns|
  {
    if |ns| > 0 {
      assert ns[0] in ns;
      assert forall z :: z in ns[1..] ==> z in ns;
      WeightedSumBounds(ns[1..], scores, item, lo, hi);
      WeightedSumStep(ns, scores, item, lo, hi);
    }
  }

  /** The inductive step of `WeightedSumBounds`: the head of the sequence joins the sum. */
  lemma WeightedSumStep(ns: seq<Neighbour>, scores: map<Pair, real>, item: nat, lo: real, hi: real)
    requires |ns| > 0 && (ns[0].0, item) in scores && ns[0].1 >= 0.0 && lo <= scores[(ns[0].0, item)] <= hi
    requires forall z :: z in ns[1..] ==> (z.0, item) in scores
    requires WithinWeight(WeightedSum(ns[1..], scores, item), AbsSum(ns[1..]), lo, hi)
    requires forall z :: z in ns ==> (z.0, item) in scores
    ensures WithinWeight(WeightedSum(ns, scores, item), AbsSum(ns), lo, hi)
  {
    AddWeighted(scores[(ns[0].0, item)], ns[0].1, WeightedSum(ns[1..], scores, item), AbsSum(ns[1..]),
                WeightedSum(ns, scores, item), AbsSum(ns), lo, hi);
  }

  /** A weighted sum `sum` of values in `[lo, hi]` with total weight `total`. */
  predicate WithinWeight(sum: real, total: real, lo: real, hi: real) {
    lo * total <= sum <= hi * total
  }

  /** One more value `r` in `[lo, hi]` with weight `w >= 0` keeps a weighted sum in bounds. */
  lemma AddWeighted(r: real, w: real, sum: real, total: real, sum': real, total': real, lo: real, hi: real)
    requires w >= 0.0 && lo <= r <= hi && WithinWeight(sum, total, lo, hi)
    requires sum' == r * w + sum && total' == Magnitude(w) + total
    ensures WithinWeight(sum', total', lo, hi)
  {
    assert Magnitude(w) == w;
    assert lo * w <= r * w <= hi * w;
    assert lo * (w + total) == lo * w + lo * total;
    assert hi * (w + total) == hi * w + hi * total;
  }

  /** `w / (2a)` of a weighted sum `w` of values in `[lo, hi]` with total weight `a > 0`. */
  lemma HalfWeightedAverage(w: real, a: real, lo: real, hi: real)
    requires a > 0.0 && WithinWeight(w, a, lo, hi)
    ensures lo / 2.0 <= w / (2.0 * a) <= hi / 2.0
  {
    assert w / (2.0 * a) - lo / 2.0 == (w - lo * a) / (2.0 * a);
    assert hi / 2.0 - w / (2.0 * a) == (hi * a - w) / (2.0 * a);
  }

  /** With non-negative similarities (as under `pearsonR+`), a prediction stays within any range
      that holds every rating and the user's mean. */
  lemma PredictWithinRange(ranking: seq<Neighbour>, scores: map<Pair, real>, item: nat, limit: int, mean: real, lo: real, hi: real)
    requires forall z :: z in ranking ==> z.1 >= 0.0
    requires forall p :: p in scores ==> lo <= scores[p] <= hi
    requires lo <= mean <= hi
    ensures lo <= Predict(ranking, scores, item, limit, mean) <= hi
  {
    PredictFormula(ranking, scores, item, limit, mean);
    var ns := Neighbours(ranking, scores, item, limit);
    var a := AbsSum(ns);
    var w := WeightedSum(ns, scores, item);
    AbsSumNonNegative(ns);
    WeightedSumBounds(ns, scores, item, lo, hi);
    if a != 0.0 {
      assert a > 0.0;
      HalfWeightedAverage(w, a, lo, hi);
    }
  }
}

/** The older `CF` class (`models/collaborative_filtering.py`). It shares the catalog, the score
    conversion, the unrated pairs, the neighbour scan and the blend with the current class, and
    differs in four places: the constructor checks only the metric; every user gets a mean, `None`
    when they have no ratings; a pair's similarity is written once per common item, inside the
    loop over the set of common items, so a pair without common items gets no entry; and
    `complete` scores every unrated pair with no cold-start translation, so a `None` mean raises
    `TypeError`. */
module Legacy {
  import opened Wrappers
  import opened Exceptions
  import opened Dicts
  import opened KeyCodec
  import opened Catalogs
  import opened RatingStore
  import opened Pearson
  import opened SimSweep
  import opened Ranking
  import opened Predictor
  import opened Completion

  /** `user_mean_score`: every user gets an entry, `None` when no index key starts with that user. */
  function LegacyMeans(U: nat, scores: Dict<Pair, real>): map<nat, Option<real>>
    requires KeysMapped(scores)
  {
    map u | 0 <= u < U ::
      if |UserScores(scores, u)| == 0 then None else Some(Mean(UserScores(scores, u)))
  }

  /** A user's scores are empty exactly when the user has no rating. */
  lemma UserScoresEmpty(scores: Dict<Pair, real>, u: nat)
    requires Valid(scores)
    ensures |UserScores(scores, u)| == 0 <==> forall x :: (u, x) !in scores.vals
  {
    ScoresOfItems(scores, u);
    if |UserScores(scores, u)| > 0 {
      var x := ItemsOf(scores.keys, u)[0];
      assert (u, x) in scores.keys;
    }
    forall x | (u, x) in scores.vals ensures |UserScores(scores, u)| > 0 {
      assert x in ItemsOf(scores.keys, u);
    }
  }

  /** Every in-range user has a mean entry: `None` exactly when the user has no rating, and
      otherwise the mean of that user's scores. */
  lemma LegacyMeansExact(U: nat, scores: Dict<Pair, real>, u: nat)
    requires Valid(scores)
    ensures u in LegacyMeans(U, scores) <==> u < U
    ensures u < U ==> (LegacyMeans(U, scores)[u].None? <==> forall x :: (u, x) !in scores.vals)
    ensures u < U && LegacyMeans(U, scores)[u].Some? ==>
      |UserScores(scores, u)| > 0 && LegacyMeans(U, scores)[u].value == Mean(UserScores(scores, u))
  {
    UserScoresEmpty(scores, u);
  }

  /** The two classes agree on every user with ratings; where the current class has no entry,
      the older one has `None`. */
  lemma MeansAgree(s: Store, u: nat)
    requires Consistent(s) && u < s.userCount
    ensures u in s.means <==> LegacyMeans(s.userCount, s.scores)[u].Some?
    ensures u in s.means ==> s.means[u] == LegacyMeans(s.userCount, s.scores)[u]
  {
    MeanExact(s, u);
    LegacyMeansExact(s.userCount, s.scores, u);
  }

  /** The iteration order of a Python set, which depends on hashing: a parameter of the model. */
  type SetOrder = set<nat> -> seq<nat>

  /** The list names every element of the set exactly once. */
  ghost predicate Lists(xs: seq<nat>, s: set<nat>) {
    Distinct(xs) && (forall x :: x in xs <==> x in s)
  }

  /** An order that enumerates each set once, as iteration over a Python set does. */
  ghost predicate Enumerates(order: SetOrder) {
    forall s :: Lists(order(s), s)
  }

  /** What the older `_compute_sim` reads. */
  datatype LegacySetting = LegacySetting(
    scores: Dict<Pair, real>, users: nat, metric: Metric, pearson: PearsonTest, order: SetOrder)

  /** `set(i's items).intersection(j's items)`, over the item parts of the index keys. */
  function CommonSet(scores: Dict<Pair, real>, i: nat, j: nat): (r: set<nat>)
    ensures forall x :: x in r <==> (i, x) in scores.keys && (j, x) in scores.keys
  {
    set x | x in ItemsOf(scores.keys, i) && x in ItemsOf(scores.keys, j)
  }

  /** The common items of users `i` and `j` in the order the loop visits them. */
  function Order(g: LegacySetting, i: nat, j: nat): seq<nat> {
    g.order(CommonSet(g.scores, i, j))
  }

  /** The value one iteration of the inner loop writes: the stored similarity of the test on the
      scores of the items visited so far. The guard holds whenever the order enumerates the set. */
  function PrefixValue(g: LegacySetting, i: nat, j: nat, xs: seq<nat>): real {
    if forall x :: x in xs ==> (i, x) in g.scores.vals && (j, x) in g.scores.vals then
      StoredSimilarity(g.metric, g.pearson(ScoresAt(g.scores.vals, i, xs), ScoresAt(g.scores.vals, j, xs)))
    else 0.0
  }

  /** The value the inner loop leaves behind: the one computed over all the common items. */
  function LegacyValue(g: LegacySetting): (nat, nat) -> real {
    (i: nat, j: nat) => PrefixValue(g, i, j, Order(g, i, j))
  }

  /** The inner loop writes at least once. */
  function HasCommon(g: LegacySetting): (nat, nat) -> bool {
    (i: nat, j: nat) => |Order(g, i, j)| > 0
  }

  /** `for common_item in ...:` from iteration `t` on: each iteration writes both directions
      with the value over the first `t + 1` common items. */
  function InnerLoop(g: LegacySetting, rows: seq<Dict<nat, real>>, i: nat, j: nat, xs: seq<nat>, t: nat): (r: seq<Dict<nat, real>>)
    requires i < |rows| && j < |rows| && t <= |xs|
    ensures |r| == |rows|
    decreases |xs| - t
  {
    if t == |xs| then rows
    else InnerLoop(g, Write(rows, i, j, PrefixValue(g, i, j, xs[..t + 1])), i, j, xs, t + 1)
  }

  /** Only the last write of the inner loop is visible: the keys sit where the first write put
      them and hold the value over all the common items. */
  lemma {:induction false} InnerLoopLast(g: LegacySetting, rows: seq<Dict<nat, real>>, i: nat, j: nat, xs: seq<nat>, t: nat)
    requires i < |rows| && j < |rows| && i != j && t < |xs|
    ensures InnerLoop(g, rows, i, j, xs, t) == Write(rows, i, j, PrefixValue(g, i, j, xs))
    decreases |xs| - t
  {
    var v := PrefixValue(g, i, j, xs[..t + 1]);
    if t + 1 == |xs| {
      assert xs[..t + 1] == xs;
    } else {
      InnerLoopLast(g, Write(rows, i, j, v), i, j, xs, t + 1);
      WriteTwice(rows, i, j, v, PrefixValue(g, i, j, xs));
    }
  }

  /** The whole inner loop is one visit of the pair, or nothing when there are no common items. */
  lemma InnerLoopVisits(g: LegacySetting, rows: seq<Dict<nat, real>>, i: nat, j: nat)
    requires i < j < |rows|
    ensures InnerLoop(g, rows, i, j, Order(g, i, j), 0) ==
      if HasCommon(g)(i, j) then Visit(LegacyValue(g), rows, i, j) else rows
  {
    if HasCommon(g)(i, j) {
      InnerLoopLast(g, rows, i, j, Order(g, i, j), 0);
    }
  }

  /** The older `_compute_sim` loops from `(a, b)` on. */
  function LegacySweep(g: LegacySetting, a: nat, b: nat, rows: seq<Dict<nat, real>>): (r: seq<Dict<nat, real>>)
    requires a <= g.users && b <= g.users && |rows| == g.users
    ensures |r| == g.users
    decreases g.users - a, g.users - b
  {
    if a == g.users then rows
    else if b == g.users then LegacySweep(g, a + 1, 0, rows)
    else if a >= b then LegacySweep(g, a, b + 1, rows)
    else LegacySweep(g, a, b + 1, InnerLoop(g, rows, a, b, Order(g, a, b), 0))
  }

  /** The older loops are the shared sweep that visits exactly the pairs with common items. */
  lemma {:induction false} LegacySweepIsSweep(g: LegacySetting, a: nat, b: nat, rows: seq<Dict<nat, real>>)
    requires a <= g.users && b <= g.users && |rows| == g.users
    ensures LegacySweep(g, a, b, rows) == Sweep(LegacyValue(g), HasCommon(g), g.users, a, b, rows)
    decreases g.users - a, g.users - b
  {
    if a == g.users {
    } else if b == g.users {
      LegacySweepIsSweep(g, a + 1, 0, rows);
    } else if a >= b {
      LegacySweepIsSweep(g, a, b + 1, rows);
    } else {
      InnerLoopVisits(g, rows, a, b);
      LegacySweepIsSweep(g, a, b + 1, InnerLoop(g, rows, a, b, Order(g, a, b), 0));
    }
  }

  /** The older `_compute_sim`: the diagonal, then the loops. */
  function LegacySim(g: LegacySetting): (sim: seq<Dict<nat, real>>)
    ensures sim == SweepAll(LegacyValue(g), HasCommon(g), g.users)
    ensures forall k :: 0 <= k < g.users ==> KeysMapped(sim[k])
  {
    LegacySweepIsSweep(g, 0, 0, Diagonal(g.users));
    LegacySweep(g, 0, 0, Diagonal(g.users))
  }

  /** Two users share a rated item. */
  ghost predicate ShareItem(scores: Dict<Pair, real>, a: nat, b: nat) {
    exists x :: (a, x) in scores.vals && (b, x) in scores.vals
  }

  /** With a valid score dict and an order that enumerates sets, a pair has common items to
      visit exactly when the two users share a rated item, and the visit reads only rated items. */
  lemma HasCommonExact(g: LegacySetting, a: nat, b: nat)
    requires Valid(g.scores) && Enumerates(g.order)
    ensures HasCommon(g)(a, b) <==> ShareItem(g.scores, a, b)
    ensures forall x :: x in Order(g, a, b) ==> (a, x) in g.scores.vals && (b, x) in g.scores.vals
  {
    var s := CommonSet(g.scores, a, b);
    assert Lists(g.order(s), s);
    if ShareItem(g.scores, a, b) {
      var x :| (a, x) in g.scores.vals && (b, x) in g.scores.vals;
      assert x in g.order(s);
    }
    if HasCommon(g)(a, b) {
      assert g.order(s)[0] in s;
    }
  }

  /** Row `a` holds user `b` exactly when `a == b` or the two share a rated item; entries are
      symmetric, the diagonal is 1, and a shared pair holds the stored similarity of the test on
      the two users' scores over all their common items in set order. */
  lemma LegacySimShape(g: LegacySetting, a: nat, b: nat)
    requires Valid(g.scores) && Enumerates(g.order) && a < g.users && b < g.users
    ensures b in LegacySim(g)[a].vals <==> a == b || ShareItem(g.scores, a, b)
    ensures b in LegacySim(g)[a].vals ==> a in LegacySim(g)[b].vals && LegacySim(g)[a].vals[b] == LegacySim(g)[b].vals[a]
    ensures LegacySim(g)[a].vals[a] == 1.0
    ensures a < b && ShareItem(g.scores, a, b) ==>
      LegacySim(g)[a].vals[b] ==
        StoredSimilarity(g.metric, g.pearson(ScoresAt(g.scores.vals, a, Order(g, a, b)), ScoresAt(g.scores.vals, b, Order(g, a, b))))
  {
    SweepAllShape(LegacyValue(g), HasCommon(g), g.users, a, b);
    HasCommonExact(g, a, b);
    HasCommonExact(g, b, a);
    if a < b && ShareItem(g.scores, a, b) {
      assert LegacySim(g)[a].vals[b] == LegacyValue(g)(a, b);
    }
  }

  /** Under a well-behaved test every entry lies in [-1, 1], and in [0, 1] under `pearsonR+`; a
      pair sharing a single item has similarity 0. */
  lemma LegacySimBounds(g: LegacySetting, a: nat, b: nat)
    requires Valid(g.scores) && Enumerates(g.order) && IsPearsonTest(g.pearson)
    requires a < g.users && b < g.users && b in LegacySim(g)[a].vals
    ensures -1.0 <= LegacySim(g)[a].vals[b] <= 1.0
    ensures g.metric == PearsonRPlus ==> 0.0 <= LegacySim(g)[a].vals[b]
    ensures a != b && |CommonSet(g.scores, a, b)| < 2 ==> LegacySim(g)[a].vals[b] == 0.0
  {
    LegacySimShape(g, a, b);
    LegacySimShape(g, b, a);
    if a < b {
      LegacyPairBounds(g, a, b);
    } else if b < a {
      LegacyPairBounds(g, b, a);
      assert CommonSet(g.scores, a, b) == CommonSet(g.scores, b, a);
    }
  }

  /** `LegacySimBounds` for a visited pair `i < j`. */
  lemma LegacyPairBounds(g: LegacySetting, i: nat, j: nat)
    requires Valid(g.scores) && Enumerates(g.order) && IsPearsonTest(g.pearson)
    requires i < j < g.users && ShareItem(g.scores, i, j)
    ensures j in LegacySim(g)[i].vals
    ensures -1.0 <= LegacySim(g)[i].vals[j] <= 1.0
    ensures g.metric == PearsonRPlus ==> 0.0 <= LegacySim(g)[i].vals[j]
    ensures |CommonSet(g.scores, i, j)| < 2 ==> LegacySim(g)[i].vals[j] == 0.0
  {
    LegacySimShape(g, i, j);
    HasCommonExact(g, i, j);
    var xs := Order(g, i, j);
    var s := CommonSet(g.scores, i, j);
    assert Lists(xs, s);
    DistinctCard(xs, s);
    var left := ScoresAt(g.scores.vals, i, xs);
    var right := ScoresAt(g.scores.vals, j, xs);
    StoredSimilarityBounds(g.metric, g.pearson, left, right);
    if |s| < 2 {
      TooFewSamples(g.metric, g.pearson, left, right);
    }
  }

  /** A list naming every element of a set once is as long as the set is large. */
  lemma {:induction false} DistinctCard(xs: seq<nat>, s: set<nat>)
    requires Lists(xs, s)
    ensures |xs| == |s|
    decreases |xs|
  {
    if |xs| > 0 {
      var rest := xs[1..];
      assert Lists(rest, s - {xs[0]}) by {
        forall x ensures x in rest <==> x in s - {xs[0]} {
          if x in rest {
            var k :| 0 <= k < |rest| && rest[k] == x;
            assert xs[k + 1] == x;
          }
          if x in s - {xs[0]} {
            assert x in xs;
            var k :| 0 <= k < |xs| && xs[k] == x;
            assert k > 0 && rest[k - 1] == x;
          }
        }
      }
      DistinctCard(rest, s - {xs[0]});
    } else {
      assert forall x :: x !in s;
    }
  }

  /** A constructed older `CF` object. */
  datatype LegacyModel = LegacyModel(
    catalog: Catalog,
    scores: Dict<Pair, real>,
    unrated: seq<Pair>,
    means: map<nat, Option<real>>,
    metric: Metric,
    neighbours: int)

  /** A model as the older constructor leaves it. */
  ghost predicate LegacyGood(m: LegacyModel) {
    && WellFormed(m.catalog)
    && Valid(m.scores)
    && (forall p :: p in m.scores.vals ==> InRange(m.catalog, p))
    && m.unrated == Unrated(|m.catalog.users|, |m.catalog.items|, m.scores.vals)
    && m.means == LegacyMeans(|m.catalog.users|, m.scores)
  }

  /** The older `CF(...)`: only the metric is asserted (the method argument is stored and never
      checked), then every key of the score dict is converted. */
  function LegacyNew(users: seq<string>, items: seq<string>, scoreDict: Dict<string, real>,
                     simMetric: string := "pearsonR", mode: string := "user_based", neighbours: int := 3)
    : (r: Result<LegacyModel, Exception>)
    requires Valid(scoreDict)
    ensures r.Success? <==>
      ParseMetric(simMetric).Success? && forall k :: k in scoreDict.keys ==> Resolve(Build(users, items), k).Success?
    ensures r.Success? ==> LegacyGood(r.value) && r.value.catalog == Build(users, items) && r.value.neighbours == neighbours
    ensures ParseMetric(simMetric).Failure? ==> r == Failure(AssertionError)
  {
    var metric :- ParseMetric(simMetric);
    var c := Build(users, items);
    ConvertScoresSucceeds(c, scoreDict);
    var scores :- ConvertScores(c, scoreDict);
    Success(LegacyModel(c, scores, Unrated(|users|, |items|, scores.vals), LegacyMeans(|users|, scores), metric, neighbours))
  }

  /** What the older `_compute_sim` reads from a model. */
  function SettingOf(m: LegacyModel, pearson: PearsonTest, order: SetOrder): LegacySetting {
    LegacySetting(m.scores, |m.catalog.users|, m.metric, pearson, order)
  }

  /** The older `_score_pair`: rank the row, scan the neighbours, blend with the mean; a `None`
      mean makes the blend raise `TypeError`. */
  function LegacyScorePair(sim: seq<Dict<nat, real>>, scores: map<Pair, real>, means: map<nat, Option<real>>,
                           limit: int, u: nat, item: nat): (r: Result<real, Exception>)
    requires forall k :: 0 <= k < |sim| ==> KeysMapped(sim[k])
    ensures r.Failure? <==> u >= |sim| || u !in means || means[u].None?
    ensures u < |sim| && u in means && means[u].None? ==> r == Failure(TypeError)
    ensures u < |sim| && u in means && means[u].Some? ==>
      r == Success(Predict(Ranked(sim[u]), scores, item, limit, means[u].value))
  {
    if u >= |sim| then Failure(KeyError)
    else
      var ranking := Ranked(sim[u]);
      if u !in means then Failure(KeyError)
      else match means[u]
        case None => Failure(TypeError)
        case Some(mean) => Success(Predict(ranking, scores, item, limit, mean))
  }

  /** The older `_score_pair` on the similarity dict `complete` builds. */
  function LegacyScorer(m: LegacyModel, pearson: PearsonTest, order: SetOrder): Completion.Scorer {
    (p: Pair) => LegacyScorePair(LegacySim(SettingOf(m, pearson, order)), m.scores.vals, m.means, m.neighbours, p.0, p.1)
  }

  /** The older `complete()`: score every unrated pair, then rename the prediction dict to name
      keys; errors stay keyed by index strings. */
  function LegacyComplete(m: LegacyModel, pearson: PearsonTest, order: SetOrder): (r: (Dict<string, real>, Dict<string, Exception>))
    ensures Valid(r.0) && Valid(r.1)
  {
    CompleteIds(m.unrated, LegacyScorer(m, pearson, order), m.unrated, Names(m.catalog))
  }

  /** A user with ratings is scored from the mean of those ratings; a user without ratings
      raises `TypeError`. */
  lemma LegacyColdStart(m: LegacyModel, pearson: PearsonTest, order: SetOrder, p: Pair)
    requires LegacyGood(m) && p.0 < |m.catalog.users|
    ensures var r := LegacyScorer(m, pearson, order)(p);
            && ((forall x :: (p.0, x) !in m.scores.vals) ==> r == Failure(TypeError))
            && ((exists x :: (p.0, x) in m.scores.vals) ==>
                  && |UserScores(m.scores, p.0)| > 0
                  && r == Success(Predict(Ranked(LegacySim(SettingOf(m, pearson, order))[p.0]), m.scores.vals, p.1,
                                          m.neighbours, Mean(UserScores(m.scores, p.0)))))
  {
    LegacyMeansExact(|m.catalog.users|, m.scores, p.0);
  }

  /** The older `complete()` covers every unrated pair exactly once whenever the name keys of
      the unrated pairs are distinct, separators or not: a user with ratings gets a prediction
      under the pair's name key, and a user without ratings gets `TypeError` under the pair's
      index key. */
  lemma LegacyCompleteCovers(m: LegacyModel, pearson: PearsonTest, order: SetOrder, p: Pair)
    requires LegacyGood(m) && DistinctNames(m.catalog, m.unrated) && p in m.unrated
    ensures InRange(m.catalog, p)
    ensures var named := LegacyComplete(m, pearson, order).0;
            var errs := LegacyComplete(m, pearson, order).1;
            && ((exists x :: (p.0, x) in m.scores.vals) ==>
                  && NameKey(m.catalog, p) in named.vals && IdKey(p) !in errs.vals
                  && |UserScores(m.scores, p.0)| > 0
                  && named.vals[NameKey(m.catalog, p)] ==
                       Predict(Ranked(LegacySim(SettingOf(m, pearson, order))[p.0]), m.scores.vals, p.1,
                               m.neighbours, Mean(UserScores(m.scores, p.0))))
            && ((forall x :: (p.0, x) !in m.scores.vals) ==>
                  NameKey(m.catalog, p) !in named.vals && IdKey(p) in errs.vals && errs.vals[IdKey(p)] == TypeError)
  {
    CompleteIdsExact(m.unrated, LegacyScorer(m, pearson, order), m.unrated, Names(m.catalog), p);
    LegacyColdStart(m, pearson, order, p);
  }

  /** Every entry of the older `complete()` comes from an unrated pair. */
  lemma LegacyCompleteOnlyUnrated(m: LegacyModel, pearson: PearsonTest, order: SetOrder)
    requires LegacyGood(m)
    ensures forall y :: y in LegacyComplete(m, pearson, order).0.vals ==>
      exists p :: p in m.unrated && InRange(m.catalog, p) && y == NameKey(m.catalog, p)
    ensures forall y :: y in LegacyComplete(m, pearson, order).1.vals ==>
      exists p :: p in m.unrated && y == IdKey(p)
  {
    var c := m.catalog;
    var score := LegacyScorer(m, pearson, order);
    var start := Outcome(Empty(), Empty());
    var out := ScoreAll(m.unrated, score, m.unrated, start);
    StoredRequested(m.unrated, score, m.unrated);
    forall y | y in RenameKeys(out.preds, Names(c)).vals
      ensures exists p :: p in m.unrated && InRange(c, p) && y == NameKey(c, p)
    {
      var q :| q in out.preds.keys && Names(c)(q) == y;
      assert q in m.unrated;
      assert InRange(c, q);
    }
    forall y | y in RenameKeys(out.errors, IdKey).vals ensures exists p :: p in m.unrated && y == IdKey(p) {
      var q :| q in out.errors.keys && IdKey(q) == y;
      assert q in m.unrated;
    }
  }
}

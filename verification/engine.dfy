/** The root `CF` class: construction (`__init__` and `_init`), `_score_pair`, `complete_for` and
    `complete`. A model is immutable here: `complete_for` recomputes the similarity dict from the
    store on every call, as the source does, so calling it twice gives the same answer. */
module Engine {
  import opened Wrappers
  import opened Exceptions
  import opened Dicts
  import opened KeyCodec
  import opened Catalogs
  import opened RatingStore
  import opened Pearson
  import opened SimSweep
  import opened Similarity
  import opened Ranking
  import opened Predictor
  import opened Completion

  /** A constructed `CF` object: its catalog, its store, `sim_metric` and `num_neighbors`. */
  datatype Model = Model(catalog: Catalog, store: Store, metric: Metric, neighbours: int)

  /** A model as the constructor leaves it. */
  ghost predicate Good(m: Model) {
    && WellFormed(m.catalog)
    && Consistent(m.store)
    && m.store.userCount == |m.catalog.users|
    && m.store.itemCount == |m.catalog.items|
  }

  /** `CF(user_list, item_list, score_dict, sim_metric, method, num_neighbors)`: the metric is
      checked first, then the method, then every key of the score dict is resolved. */
  function New(users: seq<string>, items: seq<string>, scoreDict: Dict<string, real>,
               simMetric: string := "pearsonR", mode: string := "user_based", neighbours: int := 3)
    : (r: Result<Model, Exception>)
    requires Valid(scoreDict)
    ensures r.Success? ==> Good(r.value) && r.value.catalog == Build(users, items) && r.value.neighbours == neighbours
    ensures r.Success? <==>
      && ParseMetric(simMetric).Success?
      && mode == "user_based"
      && forall k :: k in scoreDict.keys ==> Resolve(Build(users, items), k).Success?
    ensures ParseMetric(simMetric).Failure? || mode != "user_based" ==> r == Failure(AssertionError)
  {
    var metric :- ParseMetric(simMetric);
    if mode != "user_based" then Failure(AssertionError)
    else
      var c := Build(users, items);
      var store :- Init(c, scoreDict);
      Success(Model(c, store, metric, neighbours))
  }

  /** The similarity dict `complete_for` computes. */
  function SimOf(m: Model, pearson: PearsonTest): seq<Dict<nat, real>> {
    ComputeSim(Setting(m.store, m.metric, pearson))
  }

  /** `_score_pair(user_id, item_id)`: rank the user's row, accumulate the neighbours, and blend
      with the user's mean; a user without a mean raises `ColdStartException`. */
  function ScorePair(sim: seq<Dict<nat, real>>, scores: map<Pair, real>, means: map<nat, Option<real>>,
                     limit: int, u: nat, item: nat): (r: Result<real, Exception>)
    requires forall k :: 0 <= k < |sim| ==> KeysMapped(sim[k])
    ensures r.Failure? <==> u >= |sim| || u !in means || means[u].None?
    ensures u < |sim| && u in means && means[u].Some? ==>
      r == Success(Predict(Ranked(sim[u]), scores, item, limit, means[u].value))
    ensures u < |sim| && u !in means ==> r == Failure(ColdStartException)
  {
    if u >= |sim| then Failure(KeyError)
    else
      var ranking := Ranked(sim[u]);
      if u !in means then Failure(ColdStartException)
      else match means[u]
        case None => Failure(TypeError)
        case Some(mean) => Success(Predict(ranking, scores, item, limit, mean))
  }

  /** `_score_pair` on a model's own data. */
  function Score(m: Model, sim: seq<Dict<nat, real>>, p: Pair): Result<real, Exception>
    requires forall k :: 0 <= k < |sim| ==> KeysMapped(sim[k])
  {
    ScorePair(sim, m.store.scores.vals, m.store.means, m.neighbours, p.0, p.1)
  }

  /** A user without ratings cannot be scored (`ColdStartException`); a user with ratings always
      can, with the prediction built from that user's mean. */
  lemma ColdStart(m: Model, sim: seq<Dict<nat, real>>, p: Pair)
    requires Good(m) && p.0 < m.store.userCount && |sim| == m.store.userCount
    requires forall k :: 0 <= k < |sim| ==> KeysMapped(sim[k])
    ensures !Rated(m.store, p.0) ==> Score(m, sim, p) == Failure(ColdStartException)
    ensures Rated(m.store, p.0) ==>
      && |UserScores(m.store.scores, p.0)| > 0
      && Score(m, sim, p) == Success(Predict(Ranked(sim[p.0]), m.store.scores.vals, p.1, m.neighbours,
                                             Mean(UserScores(m.store.scores, p.0))))
  {
    MeanExact(m.store, p.0);
  }

  /** `_score_pair` on the similarity dict `complete_for` builds. */
  function Scorer(m: Model, pearson: PearsonTest): Completion.Scorer {
    p => Score(m, SimOf(m, pearson), p)
  }

  /** `complete_for(keys)`: the similarity dict, the key conversion (which may raise), the loop,
      and the renaming of the prediction dict to name keys; errors stay keyed by index strings. */
  function CompleteFor(m: Model, pearson: PearsonTest, keys: seq<string>): Result<(Dict<string, real>, Dict<string, Exception>), Exception>
    requires WellFormed(m.catalog)
  {
    CompleteWith(m.catalog, m.store.unrated, Scorer(m, pearson), keys)
  }

  /** `complete_for` raises exactly when some key does not resolve, with the error of the first
      such key: `ValueError` for a key that does not split in two, `KeyError` for an unknown name. */
  lemma CompleteForFails(m: Model, pearson: PearsonTest, keys: seq<string>)
    requires WellFormed(m.catalog)
    ensures CompleteFor(m, pearson, keys).Success? <==> forall t :: 0 <= t < |keys| ==> Resolve(m.catalog, keys[t]).Success?
    ensures CompleteFor(m, pearson, keys).Failure? ==>
      exists t :: 0 <= t < |keys| && (forall s :: 0 <= s < t ==> Resolve(m.catalog, keys[s]).Success?) &&
                  Resolve(m.catalog, keys[t]) == Failure(CompleteFor(m, pearson, keys).error)
  {
    CompleteWithFails(m.catalog, m.store.unrated, Scorer(m, pearson), keys);
  }


  /** Where a requested key of a successful `complete_for` ends up: nowhere when its pair is
      already rated; otherwise in the prediction dict under its own name, with the blended
      prediction, when the user has ratings; and otherwise in the error dict under its index key
      with `ColdStartException`. */
  lemma CompleteForExact(m: Model, pearson: PearsonTest, keys: seq<string>, t: nat)
    requires Good(m) && CompleteFor(m, pearson, keys).Success? && t < |keys|
    ensures Resolve(m.catalog, keys[t]).Success?
    ensures var p := Resolve(m.catalog, keys[t]).value;
            var named := CompleteFor(m, pearson, keys).value.0;
            var errs := CompleteFor(m, pearson, keys).value.1;
            && (p !in m.store.unrated ==> keys[t] !in named.vals && IdKey(p) !in errs.vals)
            && (p in m.store.unrated && Rated(m.store, p.0) ==>
                  && keys[t] in named.vals && IdKey(p) !in errs.vals
                  && |UserScores(m.store.scores, p.0)| > 0
                  && named.vals[keys[t]] == Predict(Ranked(SimOf(m, pearson)[p.0]), m.store.scores.vals, p.1,
                                                    m.neighbours, Mean(UserScores(m.store.scores, p.0))))
            && (p in m.store.unrated && !Rated(m.store, p.0) ==>
                  keys[t] !in named.vals && IdKey(p) in errs.vals && errs.vals[IdKey(p)] == ColdStartException)
  {
    CompleteWithExact(m.catalog, m.store.unrated, Scorer(m, pearson), keys, t);
    var p := Resolve(m.catalog, keys[t]).value;
    ColdStart(m, SimOf(m, pearson), p);
  }

  /** Every entry of `complete_for`'s result comes from a requested key. */
  lemma CompleteForOnlyRequested(m: Model, pearson: PearsonTest, keys: seq<string>)
    requires WellFormed(m.catalog) && CompleteFor(m, pearson, keys).Success?
    ensures forall y :: y in CompleteFor(m, pearson, keys).value.0.vals ==> y in keys
    ensures forall y :: y in CompleteFor(m, pearson, keys).value.1.vals ==>
      exists t :: 0 <= t < |keys| && Resolve(m.catalog, keys[t]).Success? && y == IdKey(Resolve(m.catalog, keys[t]).value)
  {
    CompleteWithOnlyRequested(m.catalog, m.store.unrated, Scorer(m, pearson), keys);
  }

  /** `non_eval_pairs_in_name = [self._convert_pair2name(k) for k in self.non_eval_pairs]`. */
  function NamesAll(c: Catalog, pairs: seq<Pair>): (r: Result<seq<string>, Exception>)
    ensures r.Success? <==> forall t :: 0 <= t < |pairs| ==> InRange(c, pairs[t])
    ensures r.Success? ==> |r.value| == |pairs| && forall t :: 0 <= t < |pairs| ==> r.value[t] == NameKey(c, pairs[t])
    ensures r.Failure? ==> r.error == IndexError
    decreases |pairs|
  {
    if |pairs| == 0 then Success([])
    else
      Pair2NameOfIdKey(c, pairs[0]);
      var name :- Pair2Name(c, IdKey(pairs[0]));
      var rest :- NamesAll(c, pairs[1..]);
      assert forall t :: 1 <= t < |pairs| ==> pairs[t] == pairs[1..][t - 1];
      Success([name] + rest)
  }

  /** `complete()`: `complete_for` on the name keys of every unrated pair. */
  function Complete(m: Model, pearson: PearsonTest): Result<(Dict<string, real>, Dict<string, Exception>), Exception>
    requires WellFormed(m.catalog)
  {
    var names :- NamesAll(m.catalog, m.store.unrated);
    CompleteFor(m, pearson, names)
  }

  /** For a catalog whose identifiers are distinct and free of the separator, the name keys of
      in-range pairs resolve back to the same pairs. */
  lemma NamesResolve(c: Catalog, pairs: seq<Pair>)
    requires WellFormed(c) && Plain(c)
    requires forall t :: 0 <= t < |pairs| ==> InRange(c, pairs[t])
    ensures NamesAll(c, pairs).Success?
    ensures forall t :: 0 <= t < |pairs| ==> Resolve(c, NamesAll(c, pairs).value[t]) == Success(pairs[t])
  {
    forall t | 0 <= t < |pairs| ensures Resolve(c, NamesAll(c, pairs).value[t]) == Success(pairs[t]) {
      IdRoundTrip(c, pairs[t]);
    }
  }

  /** Every unrated pair is an in-range pair of the catalog. */
  lemma PendingInRange(m: Model)
    requires Good(m)
    ensures forall s :: 0 <= s < |m.store.unrated| ==> InRange(m.catalog, m.store.unrated[s])
  {
    UnratedExact(m.store);
  }

  /** The position of a pending pair in the list `complete()` passes on, where its name key is. */
  lemma PendingName(c: Catalog, pending: seq<Pair>, p: Pair) returns (t: nat)
    requires forall s :: 0 <= s < |pending| ==> InRange(c, pending[s])
    requires p in pending
    ensures NamesAll(c, pending).Success? && InRange(c, p)
    ensures t < |NamesAll(c, pending).value| && NamesAll(c, pending).value[t] == NameKey(c, p)
  {
    t :| 0 <= t < |pending| && pending[t] == p;
  }

  /** For a catalog whose identifiers are distinct and free of the separator, `complete()`
      succeeds and covers every unrated pair exactly once: a prediction under its name key when
      the user has ratings, `ColdStartException` under its index key otherwise. */
  lemma CompleteCovers(m: Model, pearson: PearsonTest, p: Pair)
    requires Good(m) && Plain(m.catalog) && p in m.store.unrated
    ensures Complete(m, pearson).Success?
    ensures InRange(m.catalog, p)
    ensures var named := Complete(m, pearson).value.0;
            var errs := Complete(m, pearson).value.1;
            && (Rated(m.store, p.0) ==>
                  && NameKey(m.catalog, p) in named.vals && IdKey(p) !in errs.vals
                  && |UserScores(m.store.scores, p.0)| > 0
                  && named.vals[NameKey(m.catalog, p)] ==
                    Predict(Ranked(SimOf(m, pearson)[p.0]), m.store.scores.vals, p.1,
                            m.neighbours, Mean(UserScores(m.store.scores, p.0))))
            && (!Rated(m.store, p.0) ==>
                  NameKey(m.catalog, p) !in named.vals && IdKey(p) in errs.vals && errs.vals[IdKey(p)] == ColdStartException)
  {
    var c := m.catalog;
    PendingInRange(m);
    NamesResolve(c, m.store.unrated);
    var names := NamesAll(c, m.store.unrated).value;
    CompleteForFails(m, pearson, names);
    var t := PendingName(c, m.store.unrated, p);
    CompleteForExact(m, pearson, names, t);
  }

  /** As written, `complete()` raises `ValueError` as soon as one unrated pair has a user or item
      identifier containing the separator: its name key splits into three or more parts. The
      identifiers need not be ambiguous for this to happen. */
  lemma CompleteRejectsSeparator(m: Model, pearson: PearsonTest, p: Pair)
    requires Good(m) && p in m.store.unrated && InRange(m.catalog, p)
    requires Separator in m.catalog.users[p.0] || Separator in m.catalog.items[p.1]
    ensures Complete(m, pearson) == Failure(ValueError)
  {
    var c := m.catalog;
    PendingInRange(m);
    var t := PendingName(c, m.store.unrated, p);
    var names := NamesAll(c, m.store.unrated).value;
    ResolveNameKey(c, p);
    CompleteForFails(m, pearson, names);
    var s :| 0 <= s < |names| && Resolve(c, names[s]) == Failure(CompleteFor(m, pearson, names).error);
    ResolveNameKey(c, m.store.unrated[s]);
  }

  /** `complete()` as evidently intended: the loop of `complete_for` run on the unrated index
      pairs themselves, without the round trip through name keys. */
  function CompleteDirect(m: Model, pearson: PearsonTest): (Dict<string, real>, Dict<string, Exception>) {
    CompleteIds(m.store.unrated, Scorer(m, pearson), m.store.unrated, Names(m.catalog))
  }

  /** Whenever the name keys of the unrated pairs are distinct, separators or not, the corrected
      completion covers every unrated pair exactly once: a prediction under its name key when
      the user has ratings, `ColdStartException` under its index key otherwise. */
  lemma CompleteDirectCovers(m: Model, pearson: PearsonTest, p: Pair)
    requires Good(m) && DistinctNames(m.catalog, m.store.unrated) && p in m.store.unrated
    ensures InRange(m.catalog, p)
    ensures var named := CompleteDirect(m, pearson).0;
            var errs := CompleteDirect(m, pearson).1;
            && (Rated(m.store, p.0) ==>
                  && NameKey(m.catalog, p) in named.vals && IdKey(p) !in errs.vals
                  && |UserScores(m.store.scores, p.0)| > 0
                  && named.vals[NameKey(m.catalog, p)] ==
                    Predict(Ranked(SimOf(m, pearson)[p.0]), m.store.scores.vals, p.1,
                            m.neighbours, Mean(UserScores(m.store.scores, p.0))))
            && (!Rated(m.store, p.0) ==>
                  NameKey(m.catalog, p) !in named.vals && IdKey(p) in errs.vals && errs.vals[IdKey(p)] == ColdStartException)
  {
    PendingInRange(m);
    CompleteIdsExact(m.store.unrated, Scorer(m, pearson), m.store.unrated, Names(m.catalog), p);
    ColdStart(m, SimOf(m, pearson), p);
  }

  /** Where `complete()` as written succeeds on a plain catalog, it returns what the corrected
      completion returns. */
  lemma CompleteDirectAgrees(m: Model, pearson: PearsonTest)
    requires Good(m) && Plain(m.catalog)
    ensures DistinctNames(m.catalog, m.store.unrated)
    ensures Complete(m, pearson) == Success(CompleteDirect(m, pearson))
  {
    var c := m.catalog;
    var pending := m.store.unrated;
    PendingInRange(m);
    NamesResolve(c, pending);
    var names := NamesAll(c, pending).value;
    ResolveAllExact(c, names);
    var ids := ResolveAll(c, names).value;
    assert ids == pending by {
      forall t | 0 <= t < |pending| ensures ids[t] == pending[t] {
        assert Resolve(c, names[t]) == Success(pending[t]);
      }
    }
    PlainDistinctNames(c, pending);
  }

  /** The smallest instance of the finding: one user `"a_b"`, one item `"x"`, no scores. Its one
      unrated pair has a distinct name key, yet `complete()` raises `ValueError`, while the
      corrected completion records `ColdStartException` for it. */
  lemma SeparatorExample(pearson: PearsonTest)
    ensures New(["a_b"], ["x"], Empty()).Success?
    ensures var m := New(["a_b"], ["x"], Empty()).value;
            && Complete(m, pearson) == Failure(ValueError)
            && IdKey((0, 0)) in CompleteDirect(m, pearson).1.vals
            && CompleteDirect(m, pearson).1.vals[IdKey((0, 0))] == ColdStartException
  {
    var r := New(["a_b"], ["x"], Empty());
    assert ParseMetric("pearsonR").Success?;
    assert Valid(Empty<string, real>());
    var m := r.value;
    UnratedExact(m.store);
    assert (0, 0) in m.store.unrated;
    assert ["a_b"][0] == "a_b" && Separator in "a_b";
    CompleteRejectsSeparator(m, pearson, (0, 0));
    assert DistinctNames(m.catalog, m.store.unrated);
    assert !Rated(m.store, 0);
    CompleteDirectCovers(m, pearson, (0, 0));
  }

  /** Neighbours of equal magnitude keep the order of the similarity row, which lists the user
      first and then every other user in ascending order. */
  lemma RankingTies(m: Model, pearson: PearsonTest, u: nat, mag: real)
    requires u < m.store.userCount
    ensures SimOf(m, pearson)[u].keys == [u] + Range(0, u) + Range(u + 1, m.store.userCount)
    ensures WithMagnitude(Ranked(SimOf(m, pearson)[u]), mag) == WithMagnitude(Entries(SimOf(m, pearson)[u]), mag)
  {
    ComputeSimKeys(Setting(m.store, m.metric, pearson), u);
    SortStable(Entries(SimOf(m, pearson)[u]), mag);
  }

  /** Under `pearsonR+` and a well-behaved test, every similarity in a user's ranking is
      non-negative. */
  lemma RankedNonNegative(m: Model, pearson: PearsonTest, u: nat)
    requires Good(m) && IsPearsonTest(pearson) && m.metric == PearsonRPlus && u < m.store.userCount
    ensures forall z :: z in Ranked(SimOf(m, pearson)[u]) ==> z.1 >= 0.0
  {
    var g := Setting(m.store, m.metric, pearson);
    var row := SimOf(m, pearson)[u];
    ComputeSimKeys(g, u);
    forall z | z in Ranked(row) ensures z.1 >= 0.0 {
      RankedEntry(row, z);
      RowKeysBelow(u, Users(g), z.0);
      ComputeSimBounds(g, u, z.0);
    }
  }

  /** Under `pearsonR+` and a well-behaved test, the prediction for a user with ratings lies
      within the range of the stored scores. */
  lemma PredictionWithinScale(m: Model, pearson: PearsonTest, p: Pair, lo: real, hi: real)
    requires Good(m) && IsPearsonTest(pearson) && m.metric == PearsonRPlus
    requires p.0 < m.store.userCount && Rated(m.store, p.0)
    requires forall q :: q in m.store.scores.vals ==> lo <= m.store.scores.vals[q] <= hi
    ensures Score(m, SimOf(m, pearson), p).Success?
    ensures lo <= Score(m, SimOf(m, pearson), p).value <= hi
  {
    ColdStart(m, SimOf(m, pearson), p);
    RankedNonNegative(m, pearson, p.0);
    UserScoresWithin(m.store.scores, p.0, lo, hi);
    MeanBounds(UserScores(m.store.scores, p.0), lo, hi);
    PredictWithinRange(Ranked(SimOf(m, pearson)[p.0]), m.store.scores.vals, p.1, m.neighbours,
                       Mean(UserScores(m.store.scores, p.0)), lo, hi);
  }
}

/** The rating store `CF._init` builds once: the score dict in index form, the unrated pairs,
    each user's rated items, each user's mean and the commonly rated items of every user pair. */
module RatingStore {
  import opened Wrappers
  import opened Exceptions
  import opened Dicts
  import opened KeyCodec
  import opened Catalogs

  /** `{self._convert_pair2id(k): v for k, v in score_dict.items()}`: the first key that does not
      convert raises, and the comprehension stops there. */
  function ConvertScores(c: Catalog, d: Dict<string, real>): (r: Result<Dict<Pair, real>, Exception>)
    requires WellFormed(c)
    requires KeysMapped(d)
    ensures r.Success? ==> Valid(r.value) && forall p :: p in r.value.vals ==> InRange(c, p)
    decreases |d.keys|
  {
    if |d.keys| == 0 then Success(Empty())
    else
      var n := |d.keys| - 1;
      var r0 :- ConvertScores(c, Dict(d.keys[..n], d.vals));
      var p :- Resolve(c, d.keys[n]);
      Success(Put(r0, p, d.vals[d.keys[n]]))
  }

  /** The prefix of a dict's key list, over the same values. */
  function Prefix<K, V>(d: Dict<K, V>): Dict<K, V>
    requires |d.keys| > 0
  {
    Dict(d.keys[..|d.keys| - 1], d.vals)
  }

  lemma PrefixKeys<K, V>(d: Dict<K, V>)
    requires |d.keys| > 0
    ensures forall k :: k in d.keys <==> k in Prefix(d).keys || k == d.keys[|d.keys| - 1]
    ensures Distinct(d.keys) ==> Distinct(Prefix(d).keys) && d.keys[|d.keys| - 1] !in Prefix(d).keys
  {
    assert d.keys == Prefix(d).keys + [d.keys[|d.keys| - 1]];
  }

  /** The conversion succeeds exactly when every key resolves, and otherwise fails with the
      error of some key. */
  lemma {:induction false} ConvertScoresSucceeds(c: Catalog, d: Dict<string, real>)
    requires WellFormed(c)
    requires KeysMapped(d)
    ensures ConvertScores(c, d).Success? <==> forall k :: k in d.keys ==> Resolve(c, k).Success?
    ensures ConvertScores(c, d).Failure? ==>
      exists k :: k in d.keys && Resolve(c, k) == Failure(ConvertScores(c, d).error)
    decreases |d.keys|
  {
    if |d.keys| > 0 {
      PrefixKeys(d);
      ConvertScoresSucceeds(c, Prefix(d));
    }
  }

  /** A successful conversion holds each key's score under the key's index pair, and nothing else. */
  lemma {:induction false} ConvertScoresValues(c: Catalog, d: Dict<string, real>)
    requires WellFormed(c)
    requires Distinct(d.keys) && KeysMapped(d)
    requires ConvertScores(c, d).Success?
    ensures forall k :: k in d.keys ==>
      Resolve(c, k).Success? &&
      Resolve(c, k).value in ConvertScores(c, d).value.vals &&
      ConvertScores(c, d).value.vals[Resolve(c, k).value] == d.vals[k]
    ensures forall p :: p in ConvertScores(c, d).value.vals ==>
      exists k :: k in d.keys && Resolve(c, k) == Success(p)
    decreases |d.keys|
  {
    if |d.keys| > 0 {
      var last := d.keys[|d.keys| - 1];
      PrefixKeys(d);
      var r0 := ConvertScores(c, Prefix(d));
      assert r0.Success?;
      ConvertScoresValues(c, Prefix(d));
      var p := Resolve(c, last).value;
      var r := Put(r0.value, p, d.vals[last]);
      assert ConvertScores(c, d) == Success(r);
      forall k | k in d.keys
        ensures Resolve(c, k).Success? && Resolve(c, k).value in r.vals && r.vals[Resolve(c, k).value] == d.vals[k]
      {
        if k != last {
          assert k in Prefix(d).keys;
          assert Resolve(c, k).value != p;
        }
      }
      forall q | q in r.vals ensures exists k :: k in d.keys && Resolve(c, k) == Success(q) {
        if q != p {
          assert q in r0.value.vals;
          var k :| k in Prefix(d).keys && Resolve(c, k) == Success(q);
          assert k in d.keys;
        } else {
          assert last in d.keys && Resolve(c, last) == Success(q);
        }
      }
    }
  }

  /** Index pairs in row-major order: by user, then by item. */
  predicate RowMajorBefore(p: Pair, q: Pair) {
    p.0 < q.0 || (p.0 == q.0 && p.1 < q.1)
  }

  predicate RowMajorSorted(s: seq<Pair>) {
    forall a, b :: 0 <= a < b < |s| ==> RowMajorBefore(s[a], s[b])
  }

  /** The inner loop of the `non_eval_pairs` comprehension: items `i..I-1` of row `u`. */
  function UnratedRow(u: nat, i: nat, I: nat, scored: map<Pair, real>): (r: seq<Pair>)
    ensures forall p :: p in r <==> p.0 == u && i <= p.1 < I && p !in scored
    ensures forall a :: 0 <= a < |r| ==> r[a].0 == u && i <= r[a].1
    ensures RowMajorSorted(r)
    decreases I - i
  {
    if i >= I then []
    else
      var rest := UnratedRow(u, i + 1, I, scored);
      if (u, i) in scored then rest else [(u, i)] + rest
  }

  /** The `non_eval_pairs` comprehension from user `u` on: every in-range pair that has no score,
      user by user and item by item. */
  function UnratedFrom(u: nat, U: nat, I: nat, scored: map<Pair, real>): (r: seq<Pair>)
    ensures forall p :: p in r <==> u <= p.0 < U && p.1 < I && p !in scored
    ensures forall a :: 0 <= a < |r| ==> u <= r[a].0
    ensures RowMajorSorted(r)
    decreases U - u
  {
    if u >= U then []
    else
      var row := UnratedRow(u, 0, I, scored);
      var rest := UnratedFrom(u + 1, U, I, scored);
      row + rest
  }

  /** `non_eval_pairs`: exactly the in-range pairs absent from the score dict, in row-major order. */
  function Unrated(U: nat, I: nat, scored: map<Pair, real>): (r: seq<Pair>)
    ensures forall p :: p in r <==> p.0 < U && p.1 < I && p !in scored
    ensures RowMajorSorted(r) && Distinct(r)
  {
    UnratedFrom(0, U, I, scored)
  }

  /** The items user `u` rated, in the score dict's insertion order. */
  function ItemsOf(keys: seq<Pair>, u: nat): (r: seq<nat>)
    ensures forall x :: x in r <==> (u, x) in keys
    decreases |keys|
  {
    if |keys| == 0 then []
    else
      var n := |keys| - 1;
      assert forall k :: k in keys <==> k in keys[..n] || k == keys[n] by {
        assert keys == keys[..n] + [keys[n]];
      }
      ItemsOf(keys[..n], u) + (if keys[n].0 == u then [keys[n].1] else [])
  }

  /** The loop that fills `_user_items`: walk the score dict, appending each item to its user's
      list and creating the list on the user's first rating. */
  function GroupItems(keys: seq<Pair>): map<nat, seq<nat>>
    decreases |keys|
  {
    if |keys| == 0 then map[]
    else
      var n := |keys| - 1;
      var m0 := GroupItems(keys[..n]);
      var u := keys[n].0;
      var x := keys[n].1;
      m0[u := (if u in m0 then m0[u] else []) + [x]]
  }

  /** `_user_items` has a list exactly for the users with a rating, and that list is their rated
      items in insertion order. */
  lemma {:induction false} GroupItemsExact(keys: seq<Pair>, u: nat)
    ensures u in GroupItems(keys) <==> |ItemsOf(keys, u)| > 0
    ensures u in GroupItems(keys) ==> GroupItems(keys)[u] == ItemsOf(keys, u)
    decreases |keys|
  {
    if |keys| > 0 {
      GroupItemsExact(keys[..|keys| - 1], u);
    }
  }

  lemma GroupItemsRated(keys: seq<Pair>)
    ensures forall u, x :: u in GroupItems(keys) && x in GroupItems(keys)[u] ==> (u, x) in keys
  {
    forall u | u in GroupItems(keys) {
      GroupItemsExact(keys, u);
    }
  }

  /** A user's scores, in insertion order: the legacy mean reads them this way. */
  function UserScores(scores: Dict<Pair, real>, u: nat): seq<real>
    requires KeysMapped(scores)
    decreases |scores.keys|
  {
    if |scores.keys| == 0 then []
    else
      var n := |scores.keys| - 1;
      var k := scores.keys[n];
      UserScores(Dict(scores.keys[..n], scores.vals), u) + (if k.0 == u then [scores.vals[k]] else [])
  }

  /** `[score_dict_in_id[f"{u}_{x}"] for x in items]`. */
  function ScoresAt(scores: map<Pair, real>, u: nat, items: seq<nat>): (r: seq<real>)
    requires forall x :: x in items ==> (u, x) in scores
    ensures |r| == |items|
    ensures forall k :: 0 <= k < |items| ==> r[k] == scores[(u, items[k])]
    decreases |items|
  {
    if |items| == 0 then [] else [scores[(u, items[0])]] + ScoresAt(scores, u, items[1..])
  }

  lemma {:induction false} ScoresAtAppend(scores: map<Pair, real>, u: nat, xs: seq<nat>, ys: seq<nat>)
    requires forall x :: x in xs + ys ==> (u, x) in scores
    ensures ScoresAt(scores, u, xs + ys) == ScoresAt(scores, u, xs) + ScoresAt(scores, u, ys)
  {
  }

  /** Looking the user's items up one by one reads the same scores as filtering the dict by user. */
  lemma {:induction false} ScoresOfItems(scores: Dict<Pair, real>, u: nat)
    requires KeysMapped(scores)
    ensures ScoresAt(scores.vals, u, ItemsOf(scores.keys, u)) == UserScores(scores, u)
    decreases |scores.keys|
  {
    if |scores.keys| > 0 {
      var n := |scores.keys| - 1;
      var init := Dict(scores.keys[..n], scores.vals);
      assert forall k :: k in init.keys ==> k in scores.keys;
      ScoresOfItems(init, u);
      var k := scores.keys[n];
      ScoresAtAppend(scores.vals, u, ItemsOf(init.keys, u), if k.0 == u then [k.1] else []);
    }
  }

  /** A user's scores are among the dict's values. */
  lemma UserScoresWithin(scores: Dict<Pair, real>, u: nat, lo: real, hi: real)
    requires KeysMapped(scores)
    requires forall p :: p in scores.vals ==> lo <= scores.vals[p] <= hi
    ensures forall k :: 0 <= k < |UserScores(scores, u)| ==> lo <= UserScores(scores, u)[k] <= hi
  {
    ScoresOfItems(scores, u);
  }

  function Sum(xs: seq<real>): real
    decreases |xs|
  {
    if |xs| == 0 then 0.0 else xs[0] + Sum(xs[1..])
  }

  /** `np.array(xs).mean()`. */
  function Mean(xs: seq<real>): real
    requires |xs| > 0
  {
    Sum(xs) / (|xs| as real)
  }

  /** One rating r has mean r. */
  lemma MeanOfOne(r: real)
    ensures Mean([r]) == r
  {
    assert Sum([r]) == r + Sum([]);
  }

  lemma {:induction false} SumBounds(xs: seq<real>, lo: real, hi: real)
    requires forall k :: 0 <= k < |xs| ==> lo <= xs[k] <= hi
    ensures (|xs| as real) * lo <= Sum(xs) <= (|xs| as real) * hi
    decreases |xs|
  {
    if |xs| > 0 {
      SumBounds(xs[1..], lo, hi);
    }
  }

  /** A mean lies within the range of the values it averages. */
  lemma MeanBounds(xs: seq<real>, lo: real, hi: real)
    requires |xs| > 0
    requires forall k :: 0 <= k < |xs| ==> lo <= xs[k] <= hi
    ensures lo <= Mean(xs) <= hi
  {
    SumBounds(xs, lo, hi);
    var n := |xs| as real;
    assert n * lo <= Sum(xs) <= n * hi;
    assert Mean(xs) * n == Sum(xs);
  }

  /** The `user_mean_score` loop: a user appears only if `_user_items` has them, and then gets the
      mean of their scores (the `None` branch is kept though every listed user has ratings). */
  function MeanTable(U: nat, scores: map<Pair, real>, userItems: map<nat, seq<nat>>): map<nat, Option<real>>
    requires forall u, x :: u in userItems && x in userItems[u] ==> (u, x) in scores
  {
    map u | 0 <= u < U && u in userItems ::
      if |userItems[u]| == 0 then None else Some(Mean(ScoresAt(scores, u, userItems[u])))
  }

  /** `[item for item in self._user_items[i] if item in self._user_items[j]]`. */
  function Keep(xs: seq<nat>, ys: seq<nat>): (r: seq<nat>)
    ensures forall x :: x in r <==> x in xs && x in ys
    decreases |xs|
  {
    if |xs| == 0 then [] else (if xs[0] in ys then [xs[0]] else []) + Keep(xs[1..], ys)
  }

  /** The commonly rated items of users `i < j`, empty when either has no `_user_items` entry. */
  function CommonItems(userItems: map<nat, seq<nat>>, i: nat, j: nat): seq<nat> {
    if i !in userItems || j !in userItems then [] else Keep(userItems[i], userItems[j])
  }

  /** `_common_items`: both orders of each distinct pair hold the list computed for the smaller
      index first. */
  function CommonTable(U: nat, userItems: map<nat, seq<nat>>): map<Pair, seq<nat>> {
    map i, j | 0 <= i < U && 0 <= j < U && i != j ::
      (i, j) := if i < j then CommonItems(userItems, i, j) else CommonItems(userItems, j, i)
  }

  /** What `_init` stores after the catalog: the index-keyed scores and everything derived. */
  datatype Store = Store(
    userCount: nat,
    itemCount: nat,
    scores: Dict<Pair, real>,
    unrated: seq<Pair>,
    userItems: map<nat, seq<nat>>,
    means: map<nat, Option<real>>,
    common: map<Pair, seq<nat>>)

  /** Everything `_init` derives from the index-keyed scores. */
  function Derive(U: nat, I: nat, scores: Dict<Pair, real>): Store
    requires KeysMapped(scores)
  {
    var userItems := GroupItems(scores.keys);
    GroupItemsRated(scores.keys);
    Store(U, I, scores, Unrated(U, I, scores.vals), userItems,
          MeanTable(U, scores.vals, userItems), CommonTable(U, userItems))
  }

  /** A store as `_init` leaves it: its scores are a well-formed dict of in-range pairs and every
      other field is derived from them. */
  ghost predicate Consistent(s: Store) {
    && Valid(s.scores)
    && (forall p :: p in s.scores.vals ==> p.0 < s.userCount && p.1 < s.itemCount)
    && s == Derive(s.userCount, s.itemCount, s.scores)
  }

  /** `_init` after the catalog is built. */
  function Init(c: Catalog, scoreDict: Dict<string, real>): (r: Result<Store, Exception>)
    requires WellFormed(c) && Valid(scoreDict)
    ensures r.Success? <==> forall k :: k in scoreDict.keys ==> Resolve(c, k).Success?
    ensures r.Success? ==> Consistent(r.value)
    ensures r.Success? ==> r.value.userCount == |c.users| && r.value.itemCount == |c.items|
  {
    ConvertScoresSucceeds(c, scoreDict);
    var scores :- ConvertScores(c, scoreDict);
    Success(Derive(|c.users|, |c.items|, scores))
  }

  /** The user has at least one rating. */
  ghost predicate Rated(s: Store, u: nat) {
    exists x :: (u, x) in s.scores.vals
  }

  /** `non_eval_pairs` holds exactly the in-range index pairs without a score, row-major, once each. */
  lemma UnratedExact(s: Store)
    requires Consistent(s)
    ensures forall p :: p in s.unrated <==> p.0 < s.userCount && p.1 < s.itemCount && p !in s.scores.vals
    ensures RowMajorSorted(s.unrated) && Distinct(s.unrated)
  {
  }

  /** `_user_items[u]` exists exactly for users with ratings and lists the items they rated. */
  lemma UserItemsExact(s: Store, u: nat)
    requires Consistent(s)
    ensures u in s.userItems <==> Rated(s, u)
    ensures u in s.userItems ==> forall x :: x in s.userItems[u] <==> (u, x) in s.scores.vals
  {
    GroupItemsExact(s.scores.keys, u);
    if u in s.userItems {
      var x := s.userItems[u][0];
      assert (u, x) in s.scores.keys;
    }
    if Rated(s, u) {
      var x :| (u, x) in s.scores.vals;
      assert x in ItemsOf(s.scores.keys, u);
    }
  }

  /** `user_mean_score[u]` is defined exactly for in-range users with a rating, and is then the
      mean of that user's scores. */
  lemma MeanExact(s: Store, u: nat)
    requires Consistent(s)
    ensures u in s.means <==> u < s.userCount && Rated(s, u)
    ensures u in s.means ==> |UserScores(s.scores, u)| > 0 && s.means[u] == Some(Mean(UserScores(s.scores, u)))
  {
    UserItemsExact(s, u);
    GroupItemsExact(s.scores.keys, u);
    GroupItemsRated(s.scores.keys);
    assert s.userItems == GroupItems(s.scores.keys);
    assert s.means == MeanTable(s.userCount, s.scores.vals, s.userItems);
    if u in s.means {
      var items := s.userItems[u];
      assert items == ItemsOf(s.scores.keys, u);
      ScoresOfItems(s.scores, u);
      assert s.means[u] == Some(Mean(ScoresAt(s.scores.vals, u, items)));
    }
  }

  /** `_common_items` holds both orders of every distinct in-range pair with the same list, which
      lists exactly the items both users rated (so it is empty when either has no rating). */
  lemma CommonExact(s: Store, i: nat, j: nat)
    requires Consistent(s) && i < s.userCount && j < s.userCount && i != j
    ensures (i, j) in s.common && (j, i) in s.common && s.common[(i, j)] == s.common[(j, i)]
    ensures forall x :: x in s.common[(i, j)] <==> (i, x) in s.scores.vals && (j, x) in s.scores.vals
    ensures !Rated(s, i) || !Rated(s, j) ==> s.common[(i, j)] == []
  {
    UserItemsExact(s, i);
    UserItemsExact(s, j);
  }
}

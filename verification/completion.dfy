/** The loop of `complete_for` and the conversions around it, over an arbitrary scorer: the key
    conversion to index pairs, the walk over the requested pairs that skips every pair not in the
    pending list, and the renaming of the two result dicts. `Engine` plugs in `_score_pair`. */
module Completion {
  import opened Wrappers
  import opened Exceptions
  import opened Dicts
  import opened KeyCodec
  import opened Catalogs

  /** `_score_pair` for one index pair: a prediction or the exception it raises. */
  type Scorer = Pair -> Result<real, Exception>

  /** A list comprehension whose element conversion may raise: the first failure propagates. */
  function ConvertAll<K, V>(f: K -> Result<V, Exception>, keys: seq<K>): (r: Result<seq<V>, Exception>)
    ensures r.Success? ==> |r.value| == |keys|
    decreases |keys|
  {
    if |keys| == 0 then Success([])
    else
      var p :- f(keys[0]);
      var rest :- ConvertAll(f, keys[1..]);
      Success([p] + rest)
  }

  /** The comprehension succeeds exactly when every element converts, and then holds each
      element's image; otherwise it raises the error of the first element that fails. */
  lemma {:induction false} ConvertAllExact<K, V>(f: K -> Result<V, Exception>, keys: seq<K>)
    ensures ConvertAll(f, keys).Success? <==> forall t :: 0 <= t < |keys| ==> f(keys[t]).Success?
    ensures ConvertAll(f, keys).Success? ==>
      forall t :: 0 <= t < |keys| ==> f(keys[t]) == Success(ConvertAll(f, keys).value[t])
    ensures ConvertAll(f, keys).Failure? ==>
      exists t :: 0 <= t < |keys| && (forall s :: 0 <= s < t ==> f(keys[s]).Success?) &&
                  f(keys[t]) == Failure(ConvertAll(f, keys).error)
    decreases |keys|
  {
    if |keys| > 0 {
      ConvertAllExact(f, keys[1..]);
      assert forall t :: 1 <= t < |keys| ==> keys[t] == keys[1..][t - 1];
      if f(keys[0]).Success? && ConvertAll(f, keys[1..]).Failure? {
        var t :| 0 <= t < |keys| - 1 &&
          (forall s :: 0 <= s < t ==> f(keys[1..][s]).Success?) &&
          f(keys[1..][t]) == Failure(ConvertAll(f, keys[1..]).error);
        assert forall s :: 0 <= s < t + 1 ==> f(keys[s]).Success? by {
          forall s | 0 <= s < t + 1 ensures f(keys[s]).Success? {
            if s > 0 { assert keys[s] == keys[1..][s - 1]; }
          }
        }
        assert f(keys[t + 1]) == Failure(ConvertAll(f, keys).error);
      }
    }
  }

  /** `_convert_pair2id` as a conversion that cannot be called on a malformed catalog. */
  function Resolver(c: Catalog): string -> Result<Pair, Exception>
    requires WellFormed(c)
  {
    (k: string) => Resolve(c, k)
  }

  /** `keys_in_id = [self._convert_pair2id(k) for k in keys]`: the first key that fails raises. */
  function ResolveAll(c: Catalog, keys: seq<string>): (r: Result<seq<Pair>, Exception>)
    requires WellFormed(c)
    ensures r.Success? ==> |r.value| == |keys|
  {
    ConvertAll(Resolver(c), keys)
  }

  /** The conversion succeeds exactly when every key resolves, and then holds each key's pair;
      otherwise it raises the error of the first key that does not resolve. */
  lemma ResolveAllExact(c: Catalog, keys: seq<string>)
    requires WellFormed(c)
    ensures ResolveAll(c, keys).Success? <==> forall t :: 0 <= t < |keys| ==> Resolve(c, keys[t]).Success?
    ensures ResolveAll(c, keys).Success? ==>
      forall t :: 0 <= t < |keys| ==> Resolve(c, keys[t]) == Success(ResolveAll(c, keys).value[t])
    ensures ResolveAll(c, keys).Failure? ==>
      exists t :: 0 <= t < |keys| && (forall s :: 0 <= s < t ==> Resolve(c, keys[s]).Success?) &&
                  Resolve(c, keys[t]) == Failure(ResolveAll(c, keys).error)
  {
    ConvertAllExact(Resolver(c), keys);
    assert forall k :: Resolver(c)(k) == Resolve(c, k);
  }

  /** The prediction and error dicts of `complete_for`, keyed by index pair. */
  datatype Outcome = Outcome(preds: Dict<Pair, real>, errors: Dict<Pair, Exception>)

  /** The `for _pair in keys_in_id` loop from the given dicts on: pairs that are not unrated are
      skipped, the others are scored and land in the prediction or the error dict. */
  function ScoreAll(pending: seq<Pair>, score: Scorer, ids: seq<Pair>, out: Outcome): (r: Outcome)
    ensures Valid(out.preds) && Valid(out.errors) ==> Valid(r.preds) && Valid(r.errors)
    decreases |ids|
  {
    if |ids| == 0 then out
    else
      var p := ids[0];
      if p !in pending then ScoreAll(pending, score, ids[1..], out)
      else match score(p)
        case Success(v) => ScoreAll(pending, score, ids[1..], Outcome(Put(out.preds, p, v), out.errors))
        case Failure(e) => ScoreAll(pending, score, ids[1..], Outcome(out.preds, Put(out.errors, p, e)))
  }

  /** The dicts agree with `_score_pair`: predictions hold successes, errors hold failures. */
  ghost predicate Agrees(pending: seq<Pair>, score: Scorer, out: Outcome)
  {
    && Valid(out.preds) && Valid(out.errors)
    && (forall p :: p in out.preds.vals ==> p in pending && score(p) == Success(out.preds.vals[p]))
    && (forall p :: p in out.errors.vals ==> p in pending && score(p) == Failure(out.errors.vals[p]))
  }

  /** The loop adds exactly the requested unrated pairs, each to the dict its outcome selects. */
  lemma {:induction false} ScoreAllExact(pending: seq<Pair>, score: Scorer, ids: seq<Pair>, out: Outcome)
    requires Agrees(pending, score, out)
    ensures Agrees(pending, score, ScoreAll(pending, score, ids, out))
    ensures forall p :: p in ScoreAll(pending, score, ids, out).preds.vals <==>
      p in out.preds.vals || (p in ids && p in pending && score(p).Success?)
    ensures forall p :: p in ScoreAll(pending, score, ids, out).errors.vals <==>
      p in out.errors.vals || (p in ids && p in pending && score(p).Failure?)
    decreases |ids|
  {
    if |ids| > 0 {
      var p := ids[0];
      assert forall q :: q in ids <==> q == p || q in ids[1..];
      if p !in pending {
        ScoreAllExact(pending, score, ids[1..], out);
      } else {
        match score(p)
        case Success(v) =>
          ScoreAllExact(pending, score, ids[1..], Outcome(Put(out.preds, p, v), out.errors));
        case Failure(e) =>
          ScoreAllExact(pending, score, ids[1..], Outcome(out.preds, Put(out.errors, p, e)));
      }
    }
  }

  /** `complete_for` raises exactly when some key does not resolve, with the error of the first
      such key: `ValueError` for a key that does not split in two, `KeyError` for an unknown name. */
  lemma CompleteWithFails(c: Catalog, pending: seq<Pair>, score: Scorer, keys: seq<string>)
    requires WellFormed(c)
    ensures CompleteWith(c, pending, score, keys).Success? <==> forall t :: 0 <= t < |keys| ==> Resolve(c, keys[t]).Success?
    ensures CompleteWith(c, pending, score, keys).Failure? ==>
      exists t :: 0 <= t < |keys| && (forall s :: 0 <= s < t ==> Resolve(c, keys[s]).Success?) &&
                  Resolve(c, keys[t]) == Failure(CompleteWith(c, pending, score, keys).error)
  {
    ResolveAllExact(c, keys);
  }

  /** The name key of a pair the loop stored; every such pair is in range, so the fallback is
      never used. */
  function NameOf(c: Catalog, p: Pair): string {
    if InRange(c, p) then NameKey(c, p) else IdKey(p)
  }

  /** `_convert_pair2name` as the renaming of the prediction dict applies it. */
  function Names(c: Catalog): Pair -> string {
    p => NameOf(c, p)
  }

  /** The name keys of the listed pairs tell the pairs apart. */
  ghost predicate DistinctNames(c: Catalog, pairs: seq<Pair>) {
    forall a, b :: a in pairs && b in pairs && Names(c)(a) == Names(c)(b) ==> a == b
  }

  /** In a plain catalog, in-range pairs have distinct name keys. */
  lemma PlainDistinctNames(c: Catalog, pairs: seq<Pair>)
    requires WellFormed(c) && Plain(c)
    requires forall t :: 0 <= t < |pairs| ==> InRange(c, pairs[t])
    ensures DistinctNames(c, pairs)
  {
    forall a, b | a in pairs && b in pairs && Names(c)(a) == Names(c)(b) ensures a == b {
      NameKeyInjective(c, a, b);
    }
  }

  /** The loop of `complete_for` over already resolved index pairs, followed by the renaming of
      the prediction dict by `name` and of the error dict to index keys. */
  function CompleteIds(pending: seq<Pair>, score: Scorer, ids: seq<Pair>, name: Pair -> string): (r: (Dict<string, real>, Dict<string, Exception>))
    ensures Valid(r.0) && Valid(r.1)
  {
    var start := Outcome(Empty(), Empty());
    assert Valid(start.preds) && Valid(start.errors);
    var out := ScoreAll(pending, score, ids, start);
    (RenameKeys(out.preds, name), RenameKeys(out.errors, IdKey))
  }

  /** Where one pair of the list ends up when `name` tells the listed pairs apart: nowhere when it
      is not pending, in the prediction dict under its name when the scorer succeeds, and in the
      error dict under its index key when the scorer raises. */
  lemma CompleteIdsExact(pending: seq<Pair>, score: Scorer, ids: seq<Pair>, name: Pair -> string, p: Pair)
    requires forall a, b :: a in ids && b in ids && name(a) == name(b) ==> a == b
    requires p in ids
    ensures var named := CompleteIds(pending, score, ids, name).0;
            var errs := CompleteIds(pending, score, ids, name).1;
            && (p !in pending ==> name(p) !in named.vals && IdKey(p) !in errs.vals)
            && (p in pending && score(p).Success? ==>
                  name(p) in named.vals && named.vals[name(p)] == score(p).value && IdKey(p) !in errs.vals)
            && (p in pending && score(p).Failure? ==>
                  name(p) !in named.vals && IdKey(p) in errs.vals && errs.vals[IdKey(p)] == score(p).error)
  {
    var start := Outcome(Empty(), Empty());
    assert Valid(start.preds) && Valid(start.errors);
    var out := ScoreAll(pending, score, ids, start);
    ScoreAllExact(pending, score, ids, start);
    StoredRequested(pending, score, ids);
    RenamedKey(out.preds, name, ids, p);
    ErrorKey(out.errors, p);
  }

  /** The part of `complete_for` after the similarity dict is built. */
  function CompleteWith(c: Catalog, pending: seq<Pair>, score: Scorer, keys: seq<string>): (r: Result<(Dict<string, real>, Dict<string, Exception>), Exception>)
    requires WellFormed(c)
    ensures r.Success? ==> Valid(r.value.0) && Valid(r.value.1)
  {
    var ids :- ResolveAll(c, keys);
    Success(CompleteIds(pending, score, ids, Names(c)))
  }

  /** Where one requested key ends up: nowhere when its pair is not pending, in the prediction
      dict under its own name key when the scorer succeeds, and in the error dict under its
      index key when the scorer raises. */
  lemma CompleteWithExact(c: Catalog, pending: seq<Pair>, score: Scorer, keys: seq<string>, t: nat)
    requires WellFormed(c)
    requires CompleteWith(c, pending, score, keys).Success? && t < |keys|
    ensures Resolve(c, keys[t]).Success?
    ensures var p := Resolve(c, keys[t]).value;
            var named := CompleteWith(c, pending, score, keys).value.0;
            var errs := CompleteWith(c, pending, score, keys).value.1;
            && (p !in pending ==> keys[t] !in named.vals && IdKey(p) !in errs.vals)
            && (p in pending && score(p).Success? ==>
                  keys[t] in named.vals && named.vals[keys[t]] == score(p).value && IdKey(p) !in errs.vals)
            && (p in pending && score(p).Failure? ==>
                  keys[t] !in named.vals && IdKey(p) in errs.vals && errs.vals[IdKey(p)] == score(p).error)
  {
    ResolveAllExact(c, keys);
    var ids := ResolveAll(c, keys).value;
    assert Resolve(c, keys[t]) == Success(ids[t]);
    forall a, b | a in ids && b in ids && Names(c)(a) == Names(c)(b) ensures a == b {
      NamesInjective(c, keys, a, b);
    }
    CompleteIdsExact(pending, score, ids, Names(c), ids[t]);
  }

  /** Renaming by a `name` that tells the listed pairs apart keeps a listed pair's value under
      its name, and puts nothing there when the pair was not stored. */
  lemma RenamedKey<V>(d: Dict<Pair, V>, name: Pair -> string, ids: seq<Pair>, p: Pair)
    requires Valid(d) && p in ids
    requires forall q :: q in d.keys ==> q in ids
    requires forall a, b :: a in ids && b in ids && name(a) == name(b) ==> a == b
    ensures name(p) in RenameKeys(d, name).vals <==> p in d.vals
    ensures p in d.vals ==> RenameKeys(d, name).vals[name(p)] == d.vals[p]
  {
    if p in d.vals {
      RenameKeysValue(d, name, p);
    }
  }

  /** The renamed error dict holds a pair's exception under its index key exactly when the pair
      was stored. */
  lemma ErrorKey(errors: Dict<Pair, Exception>, p: Pair)
    requires Valid(errors)
    ensures IdKey(p) in RenameKeys(errors, IdKey).vals <==> p in errors.vals
    ensures p in errors.vals ==> RenameKeys(errors, IdKey).vals[IdKey(p)] == errors.vals[p]
  {
    forall a, b | a in errors.keys && b in errors.keys && IdKey(a) == IdKey(b) ensures a == b {
      IdKeyInjective(a, b);
    }
    if p in errors.vals {
      RenameKeysValue(errors, IdKey, p);
    } else if IdKey(p) in RenameKeys(errors, IdKey).vals {
      var q :| q in errors.keys && IdKey(q) == IdKey(p);
      IdKeyInjective(q, p);
    }
  }

  /** Requested pairs with the same name key are the same pair. */
  lemma NamesInjective(c: Catalog, keys: seq<string>, a: Pair, b: Pair)
    requires WellFormed(c) && ResolveAll(c, keys).Success?
    requires a in ResolveAll(c, keys).value && b in ResolveAll(c, keys).value
    requires Names(c)(a) == Names(c)(b)
    ensures a == b
  {
    RequestedName(c, keys, a);
    RequestedName(c, keys, b);
  }

  /** The position of a requested pair. */
  function RequestedIndex(ids: seq<Pair>, q: Pair): (s: nat)
    requires q in ids
    ensures s < |ids| && ids[s] == q
  {
    if ids[0] == q then 0 else 1 + RequestedIndex(ids[1..], q)
  }

  /** Every pair the loop stored is one of the requested pairs. */
  lemma StoredRequested(pending: seq<Pair>, score: Scorer, ids: seq<Pair>)
    ensures forall q :: q in ScoreAll(pending, score, ids, Outcome(Empty(), Empty())).preds.keys ==> q in ids
    ensures forall q :: q in ScoreAll(pending, score, ids, Outcome(Empty(), Empty())).errors.keys ==> q in ids
  {
    ScoreAllExact(pending, score, ids, Outcome(Empty(), Empty()));
  }

  /** A requested pair carries the name key it was resolved from. */
  lemma RequestedName(c: Catalog, keys: seq<string>, q: Pair)
    requires WellFormed(c) && ResolveAll(c, keys).Success? && q in ResolveAll(c, keys).value
    ensures Names(c)(q) in keys
    ensures exists t :: 0 <= t < |keys| && Resolve(c, keys[t]) == Success(q)
  {
    ResolveAllExact(c, keys);
    var s := RequestedIndex(ResolveAll(c, keys).value, q);
    assert Resolve(c, keys[s]) == Success(q);
  }

  /** Every entry of the two dicts comes from a requested key. */
  lemma CompleteWithOnlyRequested(c: Catalog, pending: seq<Pair>, score: Scorer, keys: seq<string>)
    requires WellFormed(c)
    requires CompleteWith(c, pending, score, keys).Success?
    ensures forall y :: y in CompleteWith(c, pending, score, keys).value.0.vals ==> y in keys
    ensures forall y :: y in CompleteWith(c, pending, score, keys).value.1.vals ==>
      exists t :: 0 <= t < |keys| && Resolve(c, keys[t]).Success? && y == IdKey(Resolve(c, keys[t]).value)
  {
    var ids := ResolveAll(c, keys).value;
    var start := Outcome(Empty(), Empty());
    assert Valid(start.preds) && Valid(start.errors);
    var out := ScoreAll(pending, score, ids, start);
    StoredRequested(pending, score, ids);
    forall y | y in RenameKeys(out.preds, Names(c)).vals ensures y in keys {
      var q :| q in out.preds.keys && Names(c)(q) == y;
      RequestedName(c, keys, q);
    }
    forall y | y in RenameKeys(out.errors, IdKey).vals
      ensures exists t :: 0 <= t < |keys| && Resolve(c, keys[t]).Success? && y == IdKey(Resolve(c, keys[t]).value)
    {
      var q :| q in out.errors.keys && IdKey(q) == y;
      RequestedName(c, keys, q);
    }
  }
}

/** The catalog: dense indices for user and item identifiers (`user2id`, `item2id`) and the
    conversions between name keys `"<user>_<item>"` and index keys `"<user_id>_<item_id>"`. */
module Catalogs {
  import opened Wrappers
  import opened Exceptions
  import opened Dicts
  import opened KeyCodec

  /** `user_list`, `item_list` and the dicts `user2id`, `item2id` built from them. */
  datatype Catalog = Catalog(
    users: seq<string>,
    items: seq<string>,
    userIndex: map<string, nat>,
    itemIndex: map<string, nat>)

  /** `{name: idx for idx, name in enumerate(names)}`: when a name occurs twice, the later index
      overwrites the earlier one, so each name maps to its last position. */
  function IndexOf(names: seq<string>): (m: map<string, nat>)
    ensures forall x :: x in m <==> x in names
    ensures forall x :: x in m ==> m[x] < |names| && names[m[x]] == x
    ensures forall x, k :: x in m && m[x] < k < |names| ==> names[k] != x
    decreases |names|
  {
    if |names| == 0 then map[]
    else
      var n := |names| - 1;
      IndexOf(names[..n])[names[n] := n]
  }

  function Build(users: seq<string>, items: seq<string>): Catalog {
    Catalog(users, items, IndexOf(users), IndexOf(items))
  }

  /** The catalog's lookup dicts are the ones its lists determine. */
  ghost predicate WellFormed(c: Catalog) {
    c == Build(c.users, c.items)
  }

  /** Every identifier is listed once and contains no separator, so composite keys are unambiguous. */
  predicate Plain(c: Catalog) {
    && Distinct(c.users) && Distinct(c.items)
    && (forall k :: 0 <= k < |c.users| ==> Separator !in c.users[k])
    && (forall k :: 0 <= k < |c.items| ==> Separator !in c.items[k])
  }

  /** With distinct names, `user2id[user_list[k]] == k`. */
  lemma IndexOfDistinct(names: seq<string>, k: nat)
    requires Distinct(names) && k < |names|
    ensures IndexOf(names)[names[k]] == k
  {
  }

  predicate InRange(c: Catalog, p: Pair) {
    p.0 < |c.users| && p.1 < |c.items|
  }

  /** The name key of an index pair: `f"{user_list[u]}_{item_list[i]}"`. */
  function NameKey(c: Catalog, p: Pair): string
    requires InRange(c, p)
  {
    JoinPair(c.users[p.0], c.items[p.1])
  }

  /** `_convert_pair2id`, stopping at the index pair (the string is `IdKey` of it). Raises
      `ValueError` when the key does not split into exactly two parts, `KeyError` when a part
      is not a known identifier. */
  function Resolve(c: Catalog, namePair: string): (r: Result<Pair, Exception>)
    requires WellFormed(c)
    ensures r.Success? ==> InRange(c, r.value) && NameKey(c, r.value) == namePair
    ensures r.Failure? <==> |Split(namePair)| != 2 || Split(namePair)[0] !in c.users || Split(namePair)[1] !in c.items
    ensures r.Failure? ==> (r.error == ValueError <==> |Split(namePair)| != 2)
    ensures r.Failure? ==> r.error in {ValueError, KeyError}
  {
    var parts := Split(namePair);
    if |parts| != 2 then Failure(ValueError)
    else if parts[0] !in c.userIndex || parts[1] !in c.itemIndex then Failure(KeyError)
    else
      assert Join(parts) == JoinPair(parts[0], parts[1]);
      Success((c.userIndex[parts[0]], c.itemIndex[parts[1]]))
  }

  /** `_convert_pair2id`. */
  function Pair2Id(c: Catalog, namePair: string): Result<string, Exception>
    requires WellFormed(c)
  {
    var p :- Resolve(c, namePair);
    Success(IdKey(p))
  }

  /** `_convert_pair2name`: split, `int()` both parts, index both lists. */
  function Pair2Name(c: Catalog, idPair: string): Result<string, Exception> {
    match ParseIdKey(idPair)
    case None => Failure(ValueError)
    case Some(p) => if InRange(c, p) then Success(NameKey(c, p)) else Failure(IndexError)
  }

  /** Converting an index key back to names succeeds exactly for in-range pairs. */
  lemma Pair2NameOfIdKey(c: Catalog, p: Pair)
    ensures Pair2Name(c, IdKey(p)) == if InRange(c, p) then Success(NameKey(c, p)) else Failure(IndexError)
  {
    IdKeyRoundTrip(p);
  }

  /** A name key built from catalog identifiers without separators resolves, and converting it
      to index form and back gives it unchanged (duplicates allowed: the last index is used). */
  lemma NameRoundTrip(c: Catalog, u: string, i: string)
    requires WellFormed(c)
    requires u in c.users && i in c.items && Separator !in u && Separator !in i
    ensures Resolve(c, JoinPair(u, i)) == Success((c.userIndex[u], c.itemIndex[i]))
    ensures Pair2Id(c, JoinPair(u, i)).Success?
    ensures Pair2Name(c, Pair2Id(c, JoinPair(u, i)).value) == Success(JoinPair(u, i))
  {
    SplitJoinPair(u, i);
    var p := (c.userIndex[u], c.itemIndex[i]);
    Pair2NameOfIdKey(c, p);
  }

  /** For a plain catalog, an in-range index pair survives the trip to names and back. */
  lemma IdRoundTrip(c: Catalog, p: Pair)
    requires WellFormed(c) && Plain(c) && InRange(c, p)
    ensures Resolve(c, NameKey(c, p)) == Success(p)
    ensures Pair2Id(c, NameKey(c, p)) == Success(IdKey(p))
  {
    SplitJoinPair(c.users[p.0], c.items[p.1]);
    IndexOfDistinct(c.users, p.0);
    IndexOfDistinct(c.items, p.1);
  }

  /** The name key of an in-range pair resolves exactly when neither identifier contains the
      separator; otherwise the split yields three or more parts and `ValueError` is raised. */
  lemma ResolveNameKey(c: Catalog, p: Pair)
    requires WellFormed(c) && InRange(c, p)
    ensures Resolve(c, NameKey(c, p)).Success? <==> Separator !in c.users[p.0] && Separator !in c.items[p.1]
    ensures Resolve(c, NameKey(c, p)).Failure? ==> Resolve(c, NameKey(c, p)).error == ValueError
  {
    JoinPairParts(c.users[p.0], c.items[p.1]);
    if Separator !in c.users[p.0] && Separator !in c.items[p.1] {
      SplitJoinPair(c.users[p.0], c.items[p.1]);
    }
  }

  /** For a plain catalog, distinct index pairs have distinct name keys. */
  lemma NameKeyInjective(c: Catalog, p: Pair, q: Pair)
    requires WellFormed(c) && Plain(c) && InRange(c, p) && InRange(c, q)
    requires NameKey(c, p) == NameKey(c, q)
    ensures p == q
  {
    IdRoundTrip(c, p);
    IdRoundTrip(c, q);
  }
}

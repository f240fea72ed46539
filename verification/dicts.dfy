/** Python's `dict`: a finite map that remembers the order in which its keys were first inserted.
    Overwriting a key changes its value but not its position. */
module Dicts {

  /** `keys` lists every key once, in first-insertion order; `vals` holds each key's current value. */
  datatype Dict<K, V> = Dict(keys: seq<K>, vals: map<K, V>)

  function Empty<K, V>(): Dict<K, V> {
    Dict([], map[])
  }

  predicate Distinct<T(==)>(s: seq<T>) {
    forall i, j :: 0 <= i < j < |s| ==> s[i] != s[j]
  }

  /** The key list and the map describe the same keys, each listed once. */
  ghost predicate Valid<K(!new), V>(d: Dict<K, V>) {
    && Distinct(d.keys)
    && (forall k :: k in d.vals <==> k in d.keys)
  }

  /** Every listed key has a value (the part of `Valid` that needs no distinctness). */
  ghost predicate KeysMapped<K(!new), V>(d: Dict<K, V>) {
    forall k :: k in d.keys ==> k in d.vals
  }

  /** `d[k] = v`. */
  function Put<K(==,!new), V>(d: Dict<K, V>, k: K, v: V): (r: Dict<K, V>)
    ensures forall x :: x in r.vals <==> x == k || x in d.vals
    ensures r.vals[k] == v
    ensures forall x :: x in d.vals && x != k ==> r.vals[x] == d.vals[x]
    ensures |d.keys| <= |r.keys| && r.keys[..|d.keys|] == d.keys
    ensures Valid(d) && k in d.vals ==> r.keys == d.keys
    ensures Valid(d) && k !in d.vals ==> r.keys == d.keys + [k]
    ensures Valid(d) ==> Valid(r)
  {
    if k in d.vals then Dict(d.keys, d.vals[k := v]) else Dict(d.keys + [k], d.vals[k := v])
  }

  /** Writing the same key twice leaves the position of the first write and the value of the second. */
  lemma PutTwice<K(!new), V>(d: Dict<K, V>, k: K, v1: V, v2: V)
    ensures Put(Put(d, k, v1), k, v2) == Put(d, k, v2)
  {
    assert d.vals[k := v1][k := v2] == d.vals[k := v2];
  }

  /** `{f(k): v for k, v in d.items()}` for an `f` that cannot fail: a fold of `Put` in key order,
      so that a later key whose image collides with an earlier one overwrites its value. */
  function RenameKeys<K(!new), K2(==,!new), V>(d: Dict<K, V>, f: K -> K2): (r: Dict<K2, V>)
    requires KeysMapped(d)
    ensures Valid(r)
    ensures forall k :: k in d.keys ==> f(k) in r.vals
    ensures forall y :: y in r.vals ==> exists k :: k in d.keys && f(k) == y
    decreases |d.keys|
  {
    if |d.keys| == 0 then Empty()
    else
      var last := d.keys[|d.keys| - 1];
      var r0 := RenameKeys(Dict(d.keys[..|d.keys| - 1], d.vals), f);
      assert forall k :: k in d.keys ==> k in d.keys[..|d.keys| - 1] || k == last by {
        forall k | k in d.keys ensures k in d.keys[..|d.keys| - 1] || k == last {
          var i :| 0 <= i < |d.keys| && d.keys[i] == k;
          if i < |d.keys| - 1 {
            assert d.keys[..|d.keys| - 1][i] == k;
          }
        }
      }
      Put(r0, f(last), d.vals[last])
  }

  /** When `f` is injective on the keys, renaming moves each value to its key's image. */
  lemma {:induction false} RenameKeysValue<K(!new), K2(!new), V>(d: Dict<K, V>, f: K -> K2, k: K)
    requires Distinct(d.keys) && KeysMapped(d)
    requires forall a, b :: a in d.keys && b in d.keys && f(a) == f(b) ==> a == b
    requires k in d.keys
    ensures f(k) in RenameKeys(d, f).vals && RenameKeys(d, f).vals[f(k)] == d.vals[k]
    decreases |d.keys|
  {
    var n := |d.keys|;
    var last := d.keys[n - 1];
    var init := Dict(d.keys[..n - 1], d.vals);
    if k != last {
      assert k in init.keys by {
        var i :| 0 <= i < n && d.keys[i] == k;
        assert i < n - 1;
      }
      RenameKeysValue(init, f, k);
      assert f(k) != f(last);
    }
  }
}

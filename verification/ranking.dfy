/** `sim_list = list(self.sim_dict[user_id].items())` followed by
    `sim_list.sort(key=lambda x: -abs(x[1]))`: the row's entries in dict order, then a stable sort
    by decreasing magnitude of the similarity. */
module Ranking {
  import opened Dicts

  /** A `(neighbour_user_id, sim_score)` item of a similarity row. */
  type Neighbour = (nat, real)

  function Magnitude(x: real): real {
    if x < 0.0 then -x else x
  }

  /** `list(d.items())`. */
  function Entries(d: Dict<nat, real>): (r: seq<Neighbour>)
    requires KeysMapped(d)
    ensures |r| == |d.keys|
    ensures forall t :: 0 <= t < |r| ==> r[t] == (d.keys[t], d.vals[d.keys[t]])
    ensures forall z :: z in r <==> z.0 in d.keys && z.1 == d.vals[z.0]
    ensures Distinct(d.keys) ==> forall s, t :: 0 <= s < t < |r| ==> r[s].0 != r[t].0
  {
    seq(|d.keys|, t requires 0 <= t < |d.keys| => (d.keys[t], d.vals[d.keys[t]]))
  }

  /** Non-increasing magnitude: the order the sort key `-abs(sim)` ascending produces. */
  predicate ByMagnitude(s: seq<Neighbour>) {
    forall i, j :: 0 <= i < j < |s| ==> Magnitude(s[i].1) >= Magnitude(s[j].1)
  }

  /** Places `x` before the first element whose magnitude is not larger than its own, so that
      `x` stays ahead of the elements it ties with. */
  function Insert(x: Neighbour, ys: seq<Neighbour>): (r: seq<Neighbour>)
    ensures |r| == |ys| + 1
    ensures forall z :: z in r <==> z == x || z in ys
  {
    if |ys| == 0 || Magnitude(ys[0].1) <= Magnitude(x.1) then [x] + ys
    else [ys[0]] + Insert(x, ys[1..])
  }

  lemma {:induction false} InsertPermutes(x: Neighbour, ys: seq<Neighbour>)
    ensures multiset(Insert(x, ys)) == multiset(ys) + multiset{x}
  {
    if |ys| > 0 && Magnitude(ys[0].1) > Magnitude(x.1) {
      InsertPermutes(x, ys[1..]);
      assert ys == [ys[0]] + ys[1..];
    }
  }

  /** A head no smaller than every element of a sorted tail gives a sorted sequence. */
  lemma ConsByMagnitude(h: Neighbour, rest: seq<Neighbour>)
    requires ByMagnitude(rest)
    requires forall z :: z in rest ==> Magnitude(z.1) <= Magnitude(h.1)
    ensures ByMagnitude([h] + rest)
  {
    forall i, j | 0 <= i < j < |[h] + rest|
      ensures Magnitude(([h] + rest)[i].1) >= Magnitude(([h] + rest)[j].1)
    {
      if i == 0 {
        assert ([h] + rest)[j] == rest[j - 1];
        assert rest[j - 1] in rest;
      }
    }
  }

  lemma {:induction false} InsertByMagnitude(x: Neighbour, ys: seq<Neighbour>)
    requires ByMagnitude(ys)
    ensures ByMagnitude(Insert(x, ys))
  {
    if |ys| == 0 || Magnitude(ys[0].1) <= Magnitude(x.1) {
      forall z | z in ys ensures Magnitude(z.1) <= Magnitude(x.1) {
        var t :| 0 <= t < |ys| && ys[t] == z;
        assert Magnitude(ys[0].1) >= Magnitude(ys[t].1);
      }
      ConsByMagnitude(x, ys);
    } else {
      var tail := ys[1..];
      assert ByMagnitude(tail) by {
        forall i, j | 0 <= i < j < |tail| ensures Magnitude(tail[i].1) >= Magnitude(tail[j].1) {
          assert tail[i] == ys[i + 1] && tail[j] == ys[j + 1];
        }
      }
      InsertByMagnitude(x, tail);
      forall z | z in Insert(x, tail) ensures Magnitude(z.1) <= Magnitude(ys[0].1) {
        if z != x {
          var t :| 0 <= t < |tail| && tail[t] == z;
          assert ys[t + 1] == z;
        }
      }
      ConsByMagnitude(ys[0], Insert(x, tail));
    }
  }

  /** `list.sort` with the key `-abs(sim)`: a stable sort by decreasing magnitude. */
  function Sort(xs: seq<Neighbour>): (r: seq<Neighbour>)
    ensures |r| == |xs|
  {
    if |xs| == 0 then [] else Insert(xs[0], Sort(xs[1..]))
  }

  /** The sort permutes its input and orders it by decreasing magnitude. */
  lemma {:induction false} SortSorts(xs: seq<Neighbour>)
    ensures multiset(Sort(xs)) == multiset(xs)
    ensures ByMagnitude(Sort(xs))
  {
    if |xs| > 0 {
      SortSorts(xs[1..]);
      InsertPermutes(xs[0], Sort(xs[1..]));
      InsertByMagnitude(xs[0], Sort(xs[1..]));
      assert xs == [xs[0]] + xs[1..];
    }
  }

  /** The entries of magnitude `m`, in order. */
  function WithMagnitude(s: seq<Neighbour>, m: real): seq<Neighbour> {
    if |s| == 0 then []
    else (if Magnitude(s[0].1) == m then [s[0]] else []) + WithMagnitude(s[1..], m)
  }

  /** Filtering a sequence with a known head. */
  lemma WithMagnitudeCons(h: Neighbour, t: seq<Neighbour>, m: real)
    ensures WithMagnitude([h] + t, m) == (if Magnitude(h.1) == m then [h] else []) + WithMagnitude(t, m)
  {
    assert ([h] + t)[0] == h && ([h] + t)[1..] == t;
  }

  /** Inserting an entry adds it to the filter of its own magnitude, ahead of the entries it
      ties with. */
  lemma {:induction false} WithMagnitudeInsert(x: Neighbour, ys: seq<Neighbour>, m: real)
    ensures WithMagnitude(Insert(x, ys), m) == (if Magnitude(x.1) == m then [x] else []) + WithMagnitude(ys, m)
    decreases |ys|
  {
    if |ys| == 0 || Magnitude(ys[0].1) <= Magnitude(x.1) {
      WithMagnitudeCons(x, ys, m);
    } else {
      var rest := ys[1..];
      WithMagnitudeInsert(x, rest, m);
      WithMagnitudeCons(ys[0], Insert(x, rest), m);
      assert [ys[0]] + rest == ys;
      WithMagnitudeCons(ys[0], rest, m);
    }
  }

  /** The sort is stable: entries of equal magnitude keep their relative order. */
  lemma {:induction false} SortStable(xs: seq<Neighbour>, m: real)
    ensures WithMagnitude(Sort(xs), m) == WithMagnitude(xs, m)
  {
    if |xs| > 0 {
      SortStable(xs[1..], m);
      WithMagnitudeInsert(xs[0], Sort(xs[1..]), m);
    }
  }

  /** The ranking `_score_pair` walks: the row's entries sorted by decreasing magnitude, ties in
      dict order. */
  function Ranked(row: Dict<nat, real>): (r: seq<Neighbour>)
    requires KeysMapped(row)
    ensures multiset(r) == multiset(Entries(row))
    ensures ByMagnitude(r)
  {
    SortSorts(Entries(row));
    Sort(Entries(row))
  }

  /** Every ranked neighbour is an entry of the row. */
  lemma RankedEntry(row: Dict<nat, real>, z: Neighbour)
    requires KeysMapped(row) && z in Ranked(row)
    ensures z.0 in row.keys && z.1 == row.vals[z.0]
  {
    assert z in multiset(Entries(row));
    var t :| 0 <= t < |Entries(row)| && Entries(row)[t] == z;
  }
}

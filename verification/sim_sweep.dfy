/** The double loop both variants of `_compute_sim` share: the dict starts with 1 on the
    diagonal, the loop visits the pairs `i < j` row by row, and a visited pair writes the same
    value under `sim_dict[i][j]` and `sim_dict[j][i]`. The loop is modelled over any pair value
    `value(i, j)` and any choice `present(i, j)` of the pairs that are written at all. */
module SimSweep {
  import opened Dicts

  /** Whether row `k` ever receives user `x`. */
  predicate Linked(present: (nat, nat) -> bool, k: nat, x: nat) {
    if x < k then present(x, k) else present(k, x)
  }

  /** The value that ends up at `sim_dict[k][x]`. */
  function Entry(value: (nat, nat) -> real, k: nat, x: nat): real {
    if x == k then 1.0 else if x < k then value(x, k) else value(k, x)
  }

  predicate Increasing(s: seq<nat>) {
    forall i, j :: 0 <= i < j < |s| ==> s[i] < s[j]
  }

  /** The users `x` in `[lo, hi)` linked to `k`, ascending. */
  function Pick(present: (nat, nat) -> bool, k: nat, lo: nat, hi: nat): (r: seq<nat>)
    ensures forall x :: x in r <==> lo <= x < hi && Linked(present, k, x)
    ensures Increasing(r)
    decreases hi
  {
    if hi <= lo then []
    else
      var r0 := Pick(present, k, lo, hi - 1);
      assert forall t :: 0 <= t < |r0| ==> r0[t] < hi - 1 by {
        forall t | 0 <= t < |r0| ensures r0[t] < hi - 1 {
          assert r0[t] in r0;
        }
      }
      r0 + (if Linked(present, k, hi - 1) then [hi - 1] else [])
  }

  /** A row dict of user `k` whose keys are `ks` in that order, each holding its final value. */
  function Row(value: (nat, nat) -> real, k: nat, ks: seq<nat>): Dict<nat, real> {
    Dict(ks, map x | x in ks :: Entry(value, k, x))
  }

  /** Where the lower users visited for row `k` end once the loop has reached `(a, b)`. */
  function Lo(k: nat, a: nat, b: nat): nat {
    if a < k then a + (if k < b then 1 else 0) else k
  }

  /** Where the higher users visited for row `k` end once the loop has reached `(a, b)`. */
  function Hi(k: nat, a: nat, b: nat, n: nat): nat {
    if k < a then n else if k == a then (if b < k + 1 then k + 1 else b) else k + 1
  }

  /** The key order of row `k` when the loop is about to visit `(a, b)`: itself, then the linked
      users `x < k` whose pair is done, then the linked users `y > k` whose pair is done. */
  function PartialKeys(present: (nat, nat) -> bool, k: nat, a: nat, b: nat, n: nat): seq<nat> {
    [k] + Pick(present, k, 0, Lo(k, a, b)) + Pick(present, k, k + 1, Hi(k, a, b, n))
  }

  /** The key order of every row after the loop: itself, then the linked users ascending. */
  function FinalKeys(present: (nat, nat) -> bool, k: nat, n: nat): seq<nat> {
    [k] + Pick(present, k, 0, k) + Pick(present, k, k + 1, n)
  }

  /** The rows when the loop is about to visit `(a, b)`. */
  function State(value: (nat, nat) -> real, present: (nat, nat) -> bool, n: nat, a: nat, b: nat): (rows: seq<Dict<nat, real>>)
    ensures |rows| == n
  {
    seq(n, k requires 0 <= k < n => Row(value, k, PartialKeys(present, k, a, b, n)))
  }

  /** The rows after the loop. */
  function Final(value: (nat, nat) -> real, present: (nat, nat) -> bool, n: nat): (rows: seq<Dict<nat, real>>)
    ensures |rows| == n
  {
    seq(n, k requires 0 <= k < n => Row(value, k, FinalKeys(present, k, n)))
  }

  /** Appending a key to a row dict that lacks it is the same as listing it last. */
  lemma RowPut(value: (nat, nat) -> real, k: nat, ks: seq<nat>, x: nat)
    requires x !in ks
    ensures Put(Row(value, k, ks), x, Entry(value, k, x)) == Row(value, k, ks + [x])
  {
    var m := map y | y in ks :: Entry(value, k, y);
    assert m[x := Entry(value, k, x)] == map y | y in ks + [x] :: Entry(value, k, y);
  }

  /** The loop body for a written pair `i < j`: `sim_dict[i][j] = sim_dict[j][i] = value`. */
  function Visit(value: (nat, nat) -> real, rows: seq<Dict<nat, real>>, a: nat, b: nat): (r: seq<Dict<nat, real>>)
    requires a < |rows| && b < |rows|
    ensures |r| == |rows|
  {
    Write(rows, a, b, value(a, b))
  }

  /** `sim_dict[a][b] = v` followed by `sim_dict[b][a] = v`. */
  function Write(rows: seq<Dict<nat, real>>, a: nat, b: nat, v: real): (r: seq<Dict<nat, real>>)
    requires a < |rows| && b < |rows|
    ensures |r| == |rows|
    ensures a != b ==> r[a] == Put(rows[a], b, v)
    ensures r[b] == Put(rows[b], a, v)
    ensures forall k :: 0 <= k < |rows| && k != a && k != b ==> r[k] == rows[k]
  {
    rows[a := Put(rows[a], b, v)][b := Put(rows[b], a, v)]
  }

  /** Writing a pair twice leaves each key where the first write put it and the second value. */
  lemma WriteTwice(rows: seq<Dict<nat, real>>, a: nat, b: nat, v1: real, v2: real)
    requires a < |rows| && b < |rows| && a != b
    ensures Write(Write(rows, a, b, v1), a, b, v2) == Write(rows, a, b, v2)
  {
    PutTwice(rows[a], b, v1, v2);
    PutTwice(rows[b], a, v1, v2);
  }

  /** Row `a` gains `b` at its end. */
  lemma VisitOwnRow(value: (nat, nat) -> real, present: (nat, nat) -> bool, n: nat, a: nat, b: nat)
    requires a < b < n && present(a, b)
    ensures Put(Row(value, a, PartialKeys(present, a, a, b, n)), b, value(a, b))
         == Row(value, a, PartialKeys(present, a, a, b + 1, n))
  {
    OwnRowKeys(present, n, a, b);
    RowPut(value, a, PartialKeys(present, a, a, b, n), b);
  }

  /** The keys of row `a` before and after visiting `(a, b)`. */
  lemma OwnRowKeys(present: (nat, nat) -> bool, n: nat, a: nat, b: nat)
    requires a < b < n && present(a, b)
    ensures PartialKeys(present, a, a, b + 1, n) == PartialKeys(present, a, a, b, n) + [b]
    ensures b !in PartialKeys(present, a, a, b, n)
  {
    assert Lo(a, a, b + 1) == a == Lo(a, a, b) && Hi(a, a, b, n) == b && Hi(a, a, b + 1, n) == b + 1;
    assert Pick(present, a, a + 1, b + 1) == Pick(present, a, a + 1, b) + [b];
  }

  /** Row `b` gains `a` at its end. */
  lemma VisitOtherRow(value: (nat, nat) -> real, present: (nat, nat) -> bool, n: nat, a: nat, b: nat)
    requires a < b < n && present(a, b)
    ensures Put(Row(value, b, PartialKeys(present, b, a, b, n)), a, value(a, b))
         == Row(value, b, PartialKeys(present, b, a, b + 1, n))
  {
    OtherRowKeys(present, n, a, b);
    RowPut(value, b, PartialKeys(present, b, a, b, n), a);
  }

  /** The keys of row `b` before and after visiting `(a, b)`. */
  lemma OtherRowKeys(present: (nat, nat) -> bool, n: nat, a: nat, b: nat)
    requires a < b < n && present(a, b)
    ensures PartialKeys(present, b, a, b + 1, n) == PartialKeys(present, b, a, b, n) + [a]
    ensures a !in PartialKeys(present, b, a, b, n)
  {
    assert Lo(b, a, b) == a && Lo(b, a, b + 1) == a + 1;
    assert Hi(b, a, b, n) == b + 1 == Hi(b, a, b + 1, n);
    assert Pick(present, b, 0, a + 1) == Pick(present, b, 0, a) + [a];
  }

  /** A written pair `a < b`, as seen by row `k`. */
  lemma {:induction false} SweepStepRow(value: (nat, nat) -> real, present: (nat, nat) -> bool, n: nat, a: nat, b: nat, k: nat)
    requires a < b < n && present(a, b) && k < n
    ensures Visit(value, State(value, present, n, a, b), a, b)[k] == State(value, present, n, a, b + 1)[k]
  {
    if k == a {
      VisitOwnRow(value, present, n, a, b);
    } else if k == b {
      VisitOtherRow(value, present, n, a, b);
    } else {
      assert Lo(k, a, b + 1) == Lo(k, a, b) && Hi(k, a, b + 1, n) == Hi(k, a, b, n);
    }
  }

  /** A written pair `a < b` moves the state on by one. */
  lemma {:induction false} SweepStep(value: (nat, nat) -> real, present: (nat, nat) -> bool, n: nat, a: nat, b: nat)
    requires a < b < n && present(a, b)
    ensures Visit(value, State(value, present, n, a, b), a, b) == State(value, present, n, a, b + 1)
  {
    forall k | 0 <= k < n
      ensures Visit(value, State(value, present, n, a, b), a, b)[k] == State(value, present, n, a, b + 1)[k]
    {
      SweepStepRow(value, present, n, a, b, k);
    }
  }

  /** A pair the loop skips (`i >= j`) or never writes changes nothing. */
  lemma {:induction false} SweepSkip(value: (nat, nat) -> real, present: (nat, nat) -> bool, n: nat, a: nat, b: nat)
    requires a < n && b < n && (b <= a || !present(a, b))
    ensures State(value, present, n, a, b) == State(value, present, n, a, b + 1)
  {
    forall k | 0 <= k < n ensures State(value, present, n, a, b)[k] == State(value, present, n, a, b + 1)[k] {
      assert PartialKeys(present, k, a, b, n) == PartialKeys(present, k, a, b + 1, n) by {
        if a < b && k == a {
          assert Pick(present, a, a + 1, b + 1) == Pick(present, a, a + 1, b);
        } else if a < b && k == b {
          assert Pick(present, b, 0, a + 1) == Pick(present, b, 0, a);
        } else {
          assert Lo(k, a, b + 1) == Lo(k, a, b) && Hi(k, a, b + 1, n) == Hi(k, a, b, n);
        }
      }
    }
  }

  /** Finishing the inner loop moves on to the next row. */
  lemma {:induction false} SweepNextRow(value: (nat, nat) -> real, present: (nat, nat) -> bool, n: nat, a: nat)
    requires a < n
    ensures State(value, present, n, a, n) == State(value, present, n, a + 1, 0)
  {
    forall k | 0 <= k < n ensures State(value, present, n, a, n)[k] == State(value, present, n, a + 1, 0)[k] {
      assert Lo(k, a + 1, 0) == Lo(k, a, n) && Hi(k, a + 1, 0, n) == Hi(k, a, n, n);
    }
  }

  /** After the outer loop every row holds its final keys. */
  lemma {:induction false} SweepDone(value: (nat, nat) -> real, present: (nat, nat) -> bool, n: nat, b: nat)
    ensures State(value, present, n, n, b) == Final(value, present, n)
  {
    forall k | 0 <= k < n ensures State(value, present, n, n, b)[k] == Final(value, present, n)[k] {
      assert Lo(k, n, b) == k && Hi(k, n, b, n) == n;
    }
  }

  /** The nested loops `for i ...: for j ...: if i >= j: continue; ...` from `(a, b)` on. */
  function Sweep(value: (nat, nat) -> real, present: (nat, nat) -> bool, n: nat, a: nat, b: nat, rows: seq<Dict<nat, real>>): (r: seq<Dict<nat, real>>)
    requires a <= n && b <= n && |rows| == n
    ensures |r| == n
    decreases n - a, n - b
  {
    if a == n then rows
    else if b == n then Sweep(value, present, n, a + 1, 0, rows)
    else if a < b && present(a, b) then Sweep(value, present, n, a, b + 1, Visit(value, rows, a, b))
    else Sweep(value, present, n, a, b + 1, rows)
  }

  /** From any loop state, the rest of the loop leaves every row with its final keys and values. */
  lemma {:induction false} SweepFinishes(value: (nat, nat) -> real, present: (nat, nat) -> bool, n: nat, a: nat, b: nat)
    requires a <= n && b <= n
    ensures Sweep(value, present, n, a, b, State(value, present, n, a, b)) == Final(value, present, n)
    decreases n - a, n - b
  {
    if a == n {
      SweepDone(value, present, n, b);
    } else if b == n {
      SweepNextRow(value, present, n, a);
      SweepFinishes(value, present, n, a + 1, 0);
    } else if a < b && present(a, b) {
      SweepStep(value, present, n, a, b);
      SweepFinishes(value, present, n, a, b + 1);
    } else {
      SweepSkip(value, present, n, a, b);
      SweepFinishes(value, present, n, a, b + 1);
    }
  }

  /** `{user_id: {user_id: 1.} for user_id, _ in enumerate(self.user_list)}`. */
  function Diagonal(n: nat): (rows: seq<Dict<nat, real>>)
    ensures |rows| == n
  {
    seq(n, k => Dict([k], map[k := 1.0]))
  }

  /** The diagonal dict is the loop state before the first visit. */
  lemma DiagonalIsStart(value: (nat, nat) -> real, present: (nat, nat) -> bool, n: nat)
    ensures Diagonal(n) == State(value, present, n, 0, 0)
  {
    forall k | 0 <= k < n ensures Diagonal(n)[k] == State(value, present, n, 0, 0)[k] {
      assert PartialKeys(present, k, 0, 0, n) == [k];
      assert map[k := 1.0] == map x | x in [k] :: Entry(value, k, x);
    }
  }

  /** The loop over all pairs, started from the diagonal: every row ends with its final keys and
      values. */
  function SweepAll(value: (nat, nat) -> real, present: (nat, nat) -> bool, n: nat): (sim: seq<Dict<nat, real>>)
    ensures sim == Final(value, present, n)
    ensures forall k :: 0 <= k < n ==> KeysMapped(sim[k])
  {
    DiagonalIsStart(value, present, n);
    SweepFinishes(value, present, n, 0, 0);
    Sweep(value, present, n, 0, 0, Diagonal(n))
  }

  /** A row lists the user itself first, then the users linked to it ascending, each once; it
      holds exactly those users; the diagonal is 1 and both directions of a written pair hold the
      value computed once for it. */
  lemma SweepAllShape(value: (nat, nat) -> real, present: (nat, nat) -> bool, n: nat, a: nat, b: nat)
    requires a < n && b < n
    ensures SweepAll(value, present, n)[a].keys == FinalKeys(present, a, n)
    ensures Valid(SweepAll(value, present, n)[a])
    ensures b in SweepAll(value, present, n)[a].vals <==> a == b || Linked(present, a, b)
    ensures b in SweepAll(value, present, n)[a].vals ==>
      a in SweepAll(value, present, n)[b].vals &&
      SweepAll(value, present, n)[a].vals[b] == SweepAll(value, present, n)[b].vals[a]
    ensures SweepAll(value, present, n)[a].vals[a] == 1.0
    ensures a < b && present(a, b) ==> SweepAll(value, present, n)[a].vals[b] == value(a, b)
  {
    var ks := FinalKeys(present, a, n);
    var lower := Pick(present, a, 0, a);
    var upper := Pick(present, a, a + 1, n);
    assert ks == [a] + lower + upper;
    forall s, t | 0 <= s < t < |ks| ensures ks[s] != ks[t] {
      if s == 0 {
        assert ks[t] in lower + upper;
      } else if t <= |lower| {
        assert ks[s] == lower[s - 1] && ks[t] == lower[t - 1];
      } else if s > |lower| {
        assert ks[s] == upper[s - 1 - |lower|] && ks[t] == upper[t - 1 - |lower|];
      } else {
        assert ks[s] in lower && ks[t] in upper;
      }
    }
    assert b in ks <==> a == b || Linked(present, a, b);
    assert a in FinalKeys(present, b, n) <==> a == b || Linked(present, b, a);
  }

  /** When every pair is written, each row is the user itself and then every other user
      ascending. */
  lemma {:induction false} PickAll(present: (nat, nat) -> bool, k: nat, lo: nat, hi: nat)
    requires forall i, j :: present(i, j)
    ensures Pick(present, k, lo, hi) == Range(lo, hi)
    decreases hi
  {
    if lo < hi {
      PickAll(present, k, lo, hi - 1);
      assert Linked(present, k, hi - 1);
    }
  }

  /** `[lo, lo + 1, ..., hi - 1]`. */
  function Range(lo: nat, hi: nat): (r: seq<nat>)
    ensures |r| == if lo <= hi then hi - lo else 0
    ensures forall t :: 0 <= t < |r| ==> r[t] == lo + t
    decreases hi
  {
    if hi <= lo then [] else Range(lo, hi - 1) + [hi - 1]
  }

  /** A row of the full sweep lists only users below `n`. */
  lemma RowKeysBelow(u: nat, n: nat, x: nat)
    requires u < n && x in [u] + Range(0, u) + Range(u + 1, n)
    ensures x < n
  {
    var left := [u] + Range(0, u);
    var t :| 0 <= t < |left + Range(u + 1, n)| && (left + Range(u + 1, n))[t] == x;
    if t >= |left| {
      assert x == Range(u + 1, n)[t - |left|];
    } else if t > 0 {
      assert x == Range(0, u)[t - 1];
    }
  }
}

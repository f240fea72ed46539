/** The composite-key spelling the engine uses everywhere: `"<user>_<item>"`, built with an
    f-string and taken apart with `str.split("_")`, with `int()` for index keys. */
module KeyCodec {
  import opened Wrappers

  /** A (user index, item index) pair. The source spells it as the string `IdKey(p)`;
      `IdKeyRoundTrip` shows that spelling is one-to-one, so the model keys its maps by pairs. */
  type Pair = (nat, nat)

  const Separator: char := '_'

  /** `"_".join(parts)`. */
  function Join(parts: seq<string>): string
    requires |parts| >= 1
  {
    if |parts| == 1 then parts[0] else parts[0] + [Separator] + Join(parts[1..])
  }

  /** `s.split("_")`: the pieces between separators, empty ones included. */
  function Split(s: string): (parts: seq<string>)
    ensures |parts| >= 1
    ensures forall k :: 0 <= k < |parts| ==> Separator !in parts[k]
    ensures Join(parts) == s
    decreases |s|
  {
    if |s| == 0 then [""]
    else
      var rest := Split(s[1..]);
      if s[0] == Separator then
        assert Join([""] + rest) == [Separator] + Join(rest) by {
          assert ([""] + rest)[1..] == rest;
        }
        [""] + rest
      else
        var parts := [[s[0]] + rest[0]] + rest[1..];
        assert Join(parts) == [s[0]] + Join(rest) by {
          if |rest| > 1 {
            assert parts[1..] == rest[1..];
          }
        }
        assert s == [s[0]] + s[1..];
        parts
  }

  /** Splitting a string that has no separator gives it back whole. */
  lemma {:induction false} SplitPlain(s: string)
    requires Separator !in s
    ensures Split(s) == [s]
    decreases |s|
  {
    if |s| > 0 {
      SplitPlain(s[1..]);
      assert [s[0]] + s[1..] == s;
    }
  }

  /** Splitting stops at the first separator. */
  lemma {:induction false} SplitAtSeparator(a: string, rest: string)
    requires Separator !in a
    ensures Split(a + [Separator] + rest) == [a] + Split(rest)
    decreases |a|
  {
    var s := a + [Separator] + rest;
    if |a| == 0 {
      assert s[1..] == rest;
    } else {
      assert s[1..] == a[1..] + [Separator] + rest;
      SplitAtSeparator(a[1..], rest);
      assert [a[0]] + a[1..] == a;
    }
  }

  /** `Split` inverts `Join` on separator-free parts. */
  lemma {:induction false} SplitJoin(parts: seq<string>)
    requires |parts| >= 1
    requires forall k :: 0 <= k < |parts| ==> Separator !in parts[k]
    ensures Split(Join(parts)) == parts
    decreases |parts|
  {
    if |parts| == 1 {
      SplitPlain(parts[0]);
    } else {
      SplitJoin(parts[1..]);
      SplitAtSeparator(parts[0], Join(parts[1..]));
      assert [parts[0]] + parts[1..] == parts;
    }
  }

  /** The number of separators in `s`. */
  function Seps(s: string): nat
    decreases |s|
  {
    if |s| == 0 then 0 else (if s[0] == Separator then 1 else 0) + Seps(s[1..])
  }

  /** `s.split("_")` has one part more than `s` has separators. */
  lemma {:induction false} SplitCount(s: string)
    ensures |Split(s)| == Seps(s) + 1
    decreases |s|
  {
    if |s| > 0 {
      SplitCount(s[1..]);
    }
  }

  /** Separators of a concatenation add up. */
  lemma {:induction false} SepsAppend(a: string, b: string)
    ensures Seps(a + b) == Seps(a) + Seps(b)
    decreases |a|
  {
    if |a| == 0 {
      assert a + b == b;
    } else {
      assert (a + b)[1..] == a[1..] + b;
      SepsAppend(a[1..], b);
    }
  }

  /** A string holds a separator exactly when it has a positive count of them. */
  lemma {:induction false} SepsPositive(a: string)
    ensures Separator in a <==> Seps(a) > 0
    decreases |a|
  {
    if |a| > 0 {
      SepsPositive(a[1..]);
      assert forall x :: x in a <==> x == a[0] || x in a[1..];
    }
  }

  /** `f"{a}_{b}"`. */
  function JoinPair(a: string, b: string): string {
    a + [Separator] + b
  }

  lemma SplitJoinPair(a: string, b: string)
    requires Separator !in a && Separator !in b
    ensures Split(JoinPair(a, b)) == [a, b]
  {
    SplitJoin([a, b]);
  }

  /** A composite key splits into exactly two parts precisely when neither part holds a separator;
      otherwise it splits into three or more. */
  lemma JoinPairParts(a: string, b: string)
    ensures |Split(JoinPair(a, b))| == Seps(a) + Seps(b) + 2
    ensures |Split(JoinPair(a, b))| == 2 <==> Separator !in a && Separator !in b
  {
    assert Seps(JoinPair(a, b)) == Seps(a) + Seps(b) + 1 by {
      var tail := [Separator] + b;
      assert JoinPair(a, b) == a + tail;
      SepsAppend(a, tail);
      assert tail[1..] == b;
    }
    SplitCount(JoinPair(a, b));
    SepsPositive(a);
    SepsPositive(b);
  }

  predicate IsDigit(c: char) {
    '0' <= c <= '9'
  }

  predicate AllDigits(s: string) {
    forall k :: 0 <= k < |s| ==> IsDigit(s[k])
  }

  function DigitChar(d: nat): (c: char)
    requires d < 10
  {
    (d + '0' as int) as char
  }

  function DigitValue(c: char): nat
    requires IsDigit(c)
  {
    c as int - '0' as int
  }

  /** `str(n)` for a non-negative integer: decimal digits without leading zeros. */
  function Decimal(n: nat): (s: string)
    ensures |s| >= 1 && AllDigits(s)
    ensures |s| > 1 ==> s[0] != '0'
    ensures Separator !in s
  {
    if n < 10 then [DigitChar(n)] else Decimal(n / 10) + [DigitChar(n % 10)]
  }

  /** The value of a string of decimal digits, most significant first. */
  function DigitsValue(s: string): nat
    requires AllDigits(s)
  {
    if |s| == 0 then 0 else DigitsValue(s[..|s| - 1]) * 10 + DigitValue(s[|s| - 1])
  }

  /** Reading back the digits `str(n)` writes gives `n`. */
  lemma {:induction false} DecimalRoundTrip(n: nat)
    ensures DigitsValue(Decimal(n)) == n
  {
    var s := Decimal(n);
    if n < 10 {
      assert s[..|s| - 1] == [];
      assert DigitsValue(s) == DigitValue(DigitChar(n)) == n;
    } else {
      DecimalRoundTrip(n / 10);
      assert s[..|s| - 1] == Decimal(n / 10);
      assert DigitsValue(s) == (n / 10) * 10 + DigitValue(DigitChar(n % 10));
    }
  }

  /** `int(s)` on the strings `str` produces for non-negative indices, which are the only
      strings the engine parses: a non-empty run of ASCII digits has a value (leading zeros
      allowed, as in Python), and `int(str(n))` is `n`. Anything else is treated as raising
      `ValueError`, modelled as `None`. */
  function ParseInt(s: string): (r: Option<nat>)
    ensures r.Some? <==> |s| >= 1 && AllDigits(s)
    ensures forall n: nat :: s == Decimal(n) ==> r == Some(n)
  {
    if |s| >= 1 && AllDigits(s) then
      assert forall n: nat :: s == Decimal(n) ==> DigitsValue(s) == n by {
        forall n: nat | s == Decimal(n) ensures DigitsValue(s) == n {
          DecimalRoundTrip(n);
        }
      }
      Some(DigitsValue(s))
    else None
  }

  /** `f"{user_id}_{item_id}"`. */
  function IdKey(p: Pair): string {
    JoinPair(Decimal(p.0), Decimal(p.1))
  }

  /** `user_id, item_id = key.split("_")` followed by `int(user_id), int(item_id)`;
      `None` where Python raises `ValueError`. */
  function ParseIdKey(key: string): Option<Pair>
  {
    var parts := Split(key);
    if |parts| != 2 then None
    else
      match (ParseInt(parts[0]), ParseInt(parts[1]))
      case (Some(u), Some(i)) => Some((u, i))
      case _ => None
  }

  lemma IdKeyRoundTrip(p: Pair)
    ensures ParseIdKey(IdKey(p)) == Some(p)
  {
    SplitJoinPair(Decimal(p.0), Decimal(p.1));
    assert ParseInt(Decimal(p.0)) == Some(p.0);
    assert ParseInt(Decimal(p.1)) == Some(p.1);
  }

  lemma IdKeyInjective(p: Pair, q: Pair)
    requires IdKey(p) == IdKey(q)
    ensures p == q
  {
    IdKeyRoundTrip(p);
    IdKeyRoundTrip(q);
  }
}

/** Ranking of accepted records by revenue: totals, a stable descending
    sort, top-N selection and percentage shares. The record type is a
    parameter; `key` reads a record's revenue. */
module Ranking {

  /** Sum of `key` over `s`. */
  function Sum<T>(s: seq<T>, key: T -> real): real
  {
    if |s| == 0 then 0.0 else key(s[0]) + Sum(s[1..], key)
  }

  /** Revenues never increase from one entry to the next. */
  ghost predicate Descending<T>(s: seq<T>, key: T -> real)
  {
    forall i :: 0 < i < |s| ==> key(s[i - 1]) >= key(s[i])
  }

  /** Every earlier entry has at least the revenue of every later one. */
  ghost predicate PairwiseDescending<T>(s: seq<T>, key: T -> real)
  {
    forall i, j :: 0 <= i < j < |s| ==> key(s[i]) >= key(s[j])
  }

  ghost predicate AllPositive<T>(s: seq<T>, key: T -> real)
  {
    forall i :: 0 <= i < |s| ==> key(s[i]) > 0.0
  }

  /** The entries of `s` whose revenue is exactly `v`, in their order in `s`. */
  function WithKey<T>(s: seq<T>, key: T -> real, v: real): seq<T>
  {
    if |s| == 0 then []
    else (if key(s[0]) == v then [s[0]] else []) + WithKey(s[1..], key, v)
  }

  /** Inserts `x` in front of the first entry of `t` whose revenue does not
      exceed its own, so `x` stays ahead of the entries it ties with. */
  function Insert<T>(x: T, t: seq<T>, key: T -> real): (r: seq<T>)
    ensures |r| == |t| + 1
    ensures multiset(r) == multiset(t) + multiset{x}
    ensures r[0] == x || (|t| > 0 && r[0] == t[0])
    ensures Descending(t, key) ==> Descending(r, key)
    decreases |t|
  {
    if |t| == 0 || key(x) >= key(t[0]) then
      [x] + t
    else
      assert t == [t[0]] + t[1..];
      [t[0]] + Insert(x, t[1..], key)
  }

  lemma {:induction false} InsertWithKey<T>(x: T, t: seq<T>, key: T -> real, v: real)
    ensures WithKey(Insert(x, t, key), key, v) == (if key(x) == v then [x] else []) + WithKey(t, key, v)
    decreases |t|
  {
    var r := Insert(x, t, key);
    if |t| == 0 || key(x) >= key(t[0]) {
      assert r[1..] == t;
    } else {
      var rest := Insert(x, t[1..], key);
      assert r == [t[0]] + rest && r[1..] == rest;
      InsertWithKey(x, t[1..], key, v);
      var head := if key(t[0]) == v then [t[0]] else [];
      assert WithKey(r, key, v) == head + WithKey(rest, key, v);
      assert WithKey(t, key, v) == head + WithKey(t[1..], key, v);
      if key(x) == v {
        assert head == [];
      }
    }
  }

  lemma {:induction false} InsertSum<T>(x: T, t: seq<T>, key: T -> real)
    ensures Sum(Insert(x, t, key), key) == key(x) + Sum(t, key)
    decreases |t|
  {
    var r := Insert(x, t, key);
    if |t| == 0 || key(x) >= key(t[0]) {
      assert r[1..] == t;
    } else {
      assert r[1..] == Insert(x, t[1..], key);
      InsertSum(x, t[1..], key);
    }
  }

  /** Python's `sorted(..., key=revenue, reverse=True)`: a permutation of
      `s`, descending by revenue. */
  function SortDesc<T>(s: seq<T>, key: T -> real): (r: seq<T>)
    ensures |r| == |s|
    ensures multiset(r) == multiset(s)
    ensures Descending(r, key)
  {
    if |s| == 0 then []
    else
      assert s == [s[0]] + s[1..];
      Insert(s[0], SortDesc(s[1..], key), key)
  }

  /** The sort is stable: for every revenue value, the entries with that
      revenue appear in the sorted list in the same order as in `s`. */
  lemma {:induction false} SortDescStable<T>(s: seq<T>, key: T -> real, v: real)
    ensures WithKey(SortDesc(s, key), key, v) == WithKey(s, key, v)
  {
    if |s| > 0 {
      SortDescStable(s[1..], key, v);
      InsertWithKey(s[0], SortDesc(s[1..], key), key, v);
    }
  }

  /** Sorting keeps the total revenue. */
  lemma {:induction false} SortDescSum<T>(s: seq<T>, key: T -> real)
    ensures Sum(SortDesc(s, key), key) == Sum(s, key)
  {
    if |s| > 0 {
      SortDescSum(s[1..], key);
      InsertSum(s[0], SortDesc(s[1..], key), key);
    }
  }

  lemma {:induction false} DescendingPairwise<T>(s: seq<T>, key: T -> real)
    requires Descending(s, key)
    ensures PairwiseDescending(s, key)
    decreases |s|
  {
    if |s| > 1 {
      DescendingPairwise(s[1..], key);
      forall i, j | 0 <= i < j < |s| ensures key(s[i]) >= key(s[j]) {
        if i > 0 {
          assert s[i] == s[1..][i - 1] && s[j] == s[1..][j - 1];
        } else if j > 1 {
          assert s[1] == s[1..][0] && s[j] == s[1..][j - 1];
        }
      }
    }
  }

  function Min(a: nat, b: nat): nat { if a <= b then a else b }

  /** The first `n` entries of the descending ranking (`sorted(...)[:n]`). */
  function TopN<T>(s: seq<T>, key: T -> real, n: nat): (r: seq<T>)
    ensures |r| == Min(n, |s|)
  {
    SortDesc(s, key)[..Min(n, |s|)]
  }

  lemma {:induction false} WithKeyAppend<T>(a: seq<T>, b: seq<T>, key: T -> real, v: real)
    ensures WithKey(a + b, key, v) == WithKey(a, key, v) + WithKey(b, key, v)
    decreases |a|
  {
    if |a| == 0 {
      assert a + b == b;
    } else {
      assert (a + b)[1..] == a[1..] + b;
      WithKeyAppend(a[1..], b, key, v);
    }
  }

  lemma {:induction false} SumAppend<T>(a: seq<T>, b: seq<T>, key: T -> real)
    ensures Sum(a + b, key) == Sum(a, key) + Sum(b, key)
    decreases |a|
  {
    if |a| == 0 {
      assert a + b == b;
    } else {
      assert (a + b)[1..] == a[1..] + b;
      SumAppend(a[1..], b, key);
    }
  }

  lemma {:induction false} SumPositive<T>(s: seq<T>, key: T -> real)
    requires AllPositive(s, key)
    ensures Sum(s, key) >= 0.0
    ensures |s| > 0 ==> Sum(s, key) > 0.0
    ensures forall i :: 0 <= i < |s| ==> key(s[i]) <= Sum(s, key)
    decreases |s|
  {
    if |s| > 0 {
      SumPositive(s[1..], key);
      forall i | 0 < i < |s| ensures key(s[i]) <= Sum(s, key) {
        assert s[i] == s[1..][i - 1];
      }
    }
  }

  lemma PermutationKeepsPositive<T>(s: seq<T>, r: seq<T>, key: T -> real)
    requires multiset(r) <= multiset(s)
    requires AllPositive(s, key)
    ensures AllPositive(r, key)
  {
    forall i | 0 <= i < |r| ensures key(r[i]) > 0.0 {
      assert r[i] in multiset(r);
      assert r[i] in s;
    }
  }

  /** The top list is drawn from `s`, is ranked descending, and no entry
      left out has more revenue than any entry kept. */
  lemma TopNSelects<T>(s: seq<T>, key: T -> real, n: nat)
    ensures multiset(TopN(s, key, n)) <= multiset(s)
    ensures PairwiseDescending(TopN(s, key, n), key)
    ensures forall i, y :: 0 <= i < |TopN(s, key, n)| && y in multiset(s) - multiset(TopN(s, key, n))
              ==> key(y) <= key(TopN(s, key, n)[i])
  {
    var sorted := SortDesc(s, key);
    var top := TopN(s, key, n);
    var rest := sorted[|top|..];
    assert sorted == top + rest;
    DescendingPairwise(sorted, key);
    assert multiset(s) == multiset(top) + multiset(rest);
    forall i, y | 0 <= i < |top| && y in multiset(s) - multiset(top)
      ensures key(y) <= key(top[i])
    {
      assert y in multiset(rest);
      var j :| 0 <= j < |rest| && rest[j] == y;
      assert sorted[|top| + j] == y && sorted[i] == top[i];
    }
  }

  /** Ties keep file order in the top list: for every revenue value, the
      top list's entries with that revenue are the first ones of `s` with
      that revenue. */
  lemma TopNTiesInFileOrder<T>(s: seq<T>, key: T -> real, n: nat, v: real)
    ensures var w := WithKey(TopN(s, key, n), key, v);
            |w| <= |WithKey(s, key, v)| && w == WithKey(s, key, v)[..|w|]
  {
    var sorted := SortDesc(s, key);
    var top := TopN(s, key, n);
    assert sorted == top + sorted[|top|..];
    WithKeyAppend(top, sorted[|top|..], key, v);
    SortDescStable(s, key, v);
  }

  /** One line of the report: a record's name, its revenue and its
      percentage share of the total revenue. */
  datatype Ranked = Ranked(name: string, revenue: real, share: real)

  /** `revenue / total * 100`. */
  function Share(revenue: real, total: real): real
    requires total != 0.0
  {
    revenue / total * 100.0
  }

  /** The report lines for `top`, each share taken against `total`. Python
      divides once per printed line, so an empty list never divides. */
  function Rank<T>(top: seq<T>, name: T -> string, key: T -> real, total: real): (r: seq<Ranked>)
    requires total != 0.0 || |top| == 0
    ensures |r| == |top|
    ensures forall k :: 0 <= k < |r| ==> r[k].name == name(top[k]) && r[k].revenue == key(top[k])
    ensures forall k :: 0 <= k < |r| ==> total != 0.0 && r[k].share == Share(r[k].revenue, total)
    ensures forall k :: 0 <= k < |r| ==> r[k].share * total == 100.0 * r[k].revenue
  {
    if |top| == 0 then []
    else
      var first := Ranked(name(top[0]), key(top[0]), Share(key(top[0]), total));
      ShareTimesTotal(key(top[0]), total);
      [first] + Rank(top[1..], name, key, total)
  }

  lemma ShareTimesTotal(revenue: real, total: real)
    requires total != 0.0
    ensures Share(revenue, total) * total == 100.0 * revenue
  {
  }

  function SumShares(rs: seq<Ranked>): real
  {
    if |rs| == 0 then 0.0 else rs[0].share + SumShares(rs[1..])
  }

  lemma ShareAdditive(a: real, b: real, total: real)
    requires total != 0.0
    ensures Share(a, total) + Share(b, total) == Share(a + b, total)
  {
  }

  /** The shares of a list add up to the share of its summed revenue. */
  lemma {:induction false} SumSharesIsShareOfSum<T>(top: seq<T>, name: T -> string, key: T -> real, total: real)
    requires total != 0.0
    ensures SumShares(Rank(top, name, key, total)) == Share(Sum(top, key), total)
    decreases |top|
  {
    if |top| > 0 {
      var rs := Rank(top, name, key, total);
      assert rs[1..] == Rank(top[1..], name, key, total);
      SumSharesIsShareOfSum(top[1..], name, key, total);
      ShareAdditive(key(top[0]), Sum(top[1..], key), total);
    } else {
      assert Share(0.0, total) == 0.0;
    }
  }

  lemma ShareBounds(revenue: real, total: real)
    requires 0.0 < revenue <= total
    ensures 0.0 < Share(revenue, total) <= 100.0
  {
    var q := revenue / total;
    assert q * total == revenue;
    assert q <= 1.0;
  }

  /** When every revenue is positive, each share of the top list lies in
      (0, 100] and the shares of the top list add up to at most 100. */
  lemma TopSharesBounded<T>(s: seq<T>, key: T -> real, name: T -> string, n: nat)
    requires AllPositive(s, key)
    requires |s| > 0
    ensures Sum(s, key) > 0.0
    ensures forall k :: 0 <= k < |Rank(TopN(s, key, n), name, key, Sum(s, key))| ==>
              0.0 < Rank(TopN(s, key, n), name, key, Sum(s, key))[k].share <= 100.0
    ensures SumShares(Rank(TopN(s, key, n), name, key, Sum(s, key))) <= 100.0
  {
    SumPositive(s, key);
    var total := Sum(s, key);
    var sorted := SortDesc(s, key);
    var top := TopN(s, key, n);
    var rest := sorted[|top|..];
    assert sorted == top + rest;
    PermutationKeepsPositive(s, sorted, key);
    PermutationKeepsPositive(sorted, top, key);
    PermutationKeepsPositive(sorted, rest, key);
    SortDescSum(s, key);
    SumAppend(top, rest, key);
    SumPositive(top, key);
    SumPositive(rest, key);
    var rs := Rank(top, name, key, total);
    forall k | 0 <= k < |rs| ensures 0.0 < rs[k].share <= 100.0 {
      ShareBounds(key(top[k]), total);
    }
    SumSharesIsShareOfSum(top, name, key, total);
    if |top| > 0 {
      ShareBounds(Sum(top, key), total);
    } else {
      assert Share(0.0, total) == 0.0;
    }
  }
}

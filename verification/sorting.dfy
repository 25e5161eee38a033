/** A stable sort, the behaviour the scripts rely on when they call
    `sort_values(by=[...], ascending=[...])` with several columns and then
    take "the first rows" of each group.

    `SortBy(s, key)` is insertion sort: each row goes in front of the first
    row whose key is not smaller, so rows with equal keys keep their input
    order. The lemmas say the result is a permutation of the input, is
    ordered by `Le`, and leaves the rows of every key class in input order.
 */
module Sorting {
  import opened Ordering
  import opened Frames

  function Insert<T>(x: T, s: seq<T>, key: T -> SortKey): (r: seq<T>)
    ensures |r| == |s| + 1
    ensures multiset(r) == multiset(s) + multiset{x}
    decreases |s|
  {
    if s == [] || Le(key(x), key(s[0])) then [x] + s
    else
      assert s == [s[0]] + s[1..];
      [s[0]] + Insert(x, s[1..], key)
  }

  function SortBy<T>(s: seq<T>, key: T -> SortKey): (r: seq<T>)
    ensures |r| == |s|
    ensures multiset(r) == multiset(s)
    decreases |s|
  {
    if s == [] then []
    else
      assert s == [s[0]] + s[1..];
      Insert(s[0], SortBy(s[1..], key), key)
  }

  /** Sorting keeps exactly the rows it is given. */
  lemma SortByMember<T>(s: seq<T>, key: T -> SortKey, x: T)
    ensures x in SortBy(s, key) <==> x in s
  {
    assert x in SortBy(s, key) <==> x in multiset(SortBy(s, key));
    assert x in s <==> x in multiset(s);
  }

  /** Every row's key is at most every later row's key. */
  predicate SortedBy<T>(s: seq<T>, key: T -> SortKey) {
    forall i, j :: 0 <= i < j < |s| ==> Le(key(s[i]), key(s[j]))
  }

  lemma SortedTail<T>(s: seq<T>, key: T -> SortKey)
    requires SortedBy(s, key) && s != []
    ensures SortedBy(s[1..], key)
  {
    forall i, j | 0 <= i < j < |s[1..]|
      ensures Le(key(s[1..][i]), key(s[1..][j]))
    {
      assert s[1..][i] == s[i + 1] && s[1..][j] == s[j + 1];
    }
  }

  lemma SortedCons<T>(x: T, s: seq<T>, key: T -> SortKey)
    requires SortedBy(s, key)
    requires forall y :: y in s ==> Le(key(x), key(y))
    ensures SortedBy([x] + s, key)
  {
    var r := [x] + s;
    forall i, j | 0 <= i < j < |r|
      ensures Le(key(r[i]), key(r[j]))
    {
      assert r[j] == s[j - 1] && s[j - 1] in s;
      if i > 0 {
        assert r[i] == s[i - 1];
      }
    }
  }

  lemma {:induction false} InsertSorted<T>(x: T, s: seq<T>, key: T -> SortKey)
    requires SortedBy(s, key)
    ensures SortedBy(Insert(x, s, key), key)
    decreases |s|
  {
    if s == [] || Le(key(x), key(s[0])) {
      forall y | y in s
        ensures Le(key(x), key(y))
      {
        var j :| 0 <= j < |s| && s[j] == y;
        if j > 0 {
          LeTrans(key(x), key(s[0]), key(y));
        }
      }
      SortedCons(x, s, key);
    } else {
      LeTotal(key(x), key(s[0]));
      SortedTail(s, key);
      InsertSorted(x, s[1..], key);
      var rest := Insert(x, s[1..], key);
      forall y | y in rest
        ensures Le(key(s[0]), key(y))
      {
        assert y in multiset(rest);
        if y != x {
          assert y in multiset(s[1..]);
          var j :| 0 <= j < |s[1..]| && s[1..][j] == y;
          assert s[j + 1] == y;
        }
      }
      SortedCons(s[0], rest, key);
    }
  }

  /** The sort orders the rows by key. */
  lemma {:induction false} SortBySorted<T>(s: seq<T>, key: T -> SortKey)
    ensures SortedBy(SortBy(s, key), key)
    decreases |s|
  {
    if s != [] {
      SortBySorted(s[1..], key);
      InsertSorted(s[0], SortBy(s[1..], key), key);
    }
  }

  /** Rows with a key equal to `k`, in order. */
  function WithKey<T>(s: seq<T>, key: T -> SortKey, k: SortKey): seq<T> {
    Select(s, key, k)
  }

  lemma SelectCons<T, K>(x: T, s: seq<T>, f: T -> K, v: K)
    ensures Select([x] + s, f, v) == (if f(x) == v then [x] else []) + Select(s, f, v)
  {
    SelectConcat([x], s, f, v);
    SelectSingleton(x, f, v);
  }

  /** Two rows with different keys commute under `WithKey`. */
  lemma SwapHeads<T>(x: T, y: T, rest: seq<T>, key: T -> SortKey, k: SortKey)
    requires key(x) != key(y)
    ensures (if key(y) == k then [y] else []) + ((if key(x) == k then [x] else []) + rest)
         == (if key(x) == k then [x] else []) + ((if key(y) == k then [y] else []) + rest)
  {
  }

  lemma {:induction false} InsertStable<T>(x: T, s: seq<T>, key: T -> SortKey, k: SortKey)
    ensures WithKey(Insert(x, s, key), key, k)
         == (if key(x) == k then [x] else []) + WithKey(s, key, k)
    decreases |s|
  {
    if s == [] || Le(key(x), key(s[0])) {
      SelectCons(x, s, key, k);
    } else {
      InsertStableStep(x, s, key, k);
    }
  }

  lemma {:induction false} InsertStableStep<T>(x: T, s: seq<T>, key: T -> SortKey, k: SortKey)
    requires s != [] && !Le(key(x), key(s[0]))
    ensures WithKey(Insert(x, s, key), key, k)
         == (if key(x) == k then [x] else []) + WithKey(s, key, k)
    decreases |s|, 0
  {
    var t := s[1..];
    assert s == [s[0]] + t;
    var rest := Insert(x, t, key);
    var a := if key(x) == k then [x] else [];
    var b := if key(s[0]) == k then [s[0]] else [];
    assert Insert(x, s, key) == [s[0]] + rest;
    LeRefl(key(x));
    assert key(x) != key(s[0]);
    SelectCons(s[0], rest, key, k);
    assert WithKey(Insert(x, s, key), key, k) == b + WithKey(rest, key, k);
    InsertStable(x, t, key, k);
    assert WithKey(rest, key, k) == a + WithKey(t, key, k);
    SelectCons(s[0], t, key, k);
    assert WithKey(s, key, k) == b + WithKey(t, key, k);
    SwapHeads(x, s[0], WithKey(t, key, k), key, k);
  }

  /** Stability: rows with equal keys leave the sort in their input order. */
  lemma {:induction false} SortByStable<T>(s: seq<T>, key: T -> SortKey, k: SortKey)
    ensures WithKey(SortBy(s, key), key, k) == WithKey(s, key, k)
    decreases |s|
  {
    if s != [] {
      SortByStable(s[1..], key, k);
      InsertStable(s[0], SortBy(s[1..], key), key, k);
      SelectCons(s[0], s[1..], key, k);
      assert s == [s[0]] + s[1..];
    }
  }

  /** Sorting an ordered sequence changes nothing. */
  lemma {:induction false} SortBySortedInput<T>(s: seq<T>, key: T -> SortKey)
    requires SortedBy(s, key)
    ensures SortBy(s, key) == s
    decreases |s|
  {
    if s != [] {
      SortedTail(s, key);
      SortBySortedInput(s[1..], key);
      if |s| > 1 {
        assert Le(key(s[0]), key(s[1..][0]));
      }
      assert s == [s[0]] + s[1..];
    }
  }

  // ---- sorting and selecting ----

  lemma {:induction false} SortedSubseq<T>(a: seq<T>, b: seq<T>, key: T -> SortKey)
    requires IsSubseq(a, b) && SortedBy(b, key)
    ensures SortedBy(a, key)
    decreases |b|
  {
    if a != [] {
      SortedTail(b, key);
      if a[0] == b[0] {
        SortedSubseq(a[1..], b[1..], key);
        SubseqMembers(a[1..], b[1..]);
        forall y | y in a[1..]
          ensures Le(key(a[0]), key(y))
        {
          var j :| 0 <= j < |b[1..]| && b[1..][j] == y;
          assert b[j + 1] == y;
        }
        SortedCons(a[0], a[1..], key);
        assert a == [a[0]] + a[1..];
      } else {
        SortedSubseq(a, b[1..], key);
      }
    }
  }

  /** Sorting moves rows but leaves the size of every group. */
  lemma {:induction false} InsertSelectLength<T, K>(x: T, s: seq<T>, key: T -> SortKey, f: T -> K, v: K)
    ensures |Select(Insert(x, s, key), f, v)| == |Select(s, f, v)| + (if f(x) == v then 1 else 0)
    decreases |s|
  {
    if s == [] || Le(key(x), key(s[0])) {
      SelectCons(x, s, f, v);
    } else {
      var t := s[1..];
      assert s == [s[0]] + t;
      var rest := Insert(x, t, key);
      assert Insert(x, s, key) == [s[0]] + rest;
      InsertSelectLength(x, t, key, f, v);
      SelectCons(s[0], rest, f, v);
      SelectCons(s[0], t, f, v);
    }
  }

  lemma {:induction false} SortBySelectLength<T, K>(s: seq<T>, key: T -> SortKey, f: T -> K, v: K)
    ensures |Select(SortBy(s, key), f, v)| == |Select(s, f, v)|
    decreases |s|
  {
    if s != [] {
      SortBySelectLength(s[1..], key, f, v);
      InsertSelectLength(s[0], SortBy(s[1..], key), key, f, v);
      assert s == [s[0]] + s[1..];
      SelectCons(s[0], s[1..], f, v);
    }
  }

  /** In a sorted table, a row `groupby(f).head(n)` keeps sorts no later
      than any row of its group that it drops. */
  lemma GroupHeadBeatsDropped<T, K>(s: seq<T>, f: T -> K, n: nat, key: T -> SortKey, x: T, y: T)
    requires SortedBy(s, key)
    requires x in GroupHead(s, f, n) && y in s && y !in GroupHead(s, f, n)
    requires f(x) == f(y)
    ensures Le(key(x), key(y))
  {
    var g := Select(s, f, f(x));
    GroupHeadPerGroup(s, f, n, f(x));
    var kept := Select(GroupHead(s, f, n), f, f(x));
    assert x in kept;
    assert y !in kept;
    var i :| 0 <= i < |kept| && kept[i] == x;
    assert y in g;
    var j :| 0 <= j < |g| && g[j] == y;
    assert g[i] == x;
    assert i < j;
    SelectIsSubseq(s, f, f(x));
    SortedSubseq(g, s, key);
  }
}

/** Generic row-sequence operations that the scripts borrow from pandas.

    A table is a `seq` of rows. Every operation here keeps the input order
    of the rows it keeps, as the corresponding pandas call does:
    boolean-mask filtering, `df[df[col] == v]`, `groupby(col).head(n)`,
    `drop_duplicates(subset=..., keep='first')` and `Series.unique()`.
 */
module Frames {

  /** `s` with some rows deleted and the rest in their original order. */
  predicate IsSubseq<T(==)>(a: seq<T>, b: seq<T>)
    decreases |b|
  {
    if a == [] then true
    else if b == [] then false
    else if a[0] == b[0] then IsSubseq(a[1..], b[1..])
    else IsSubseq(a, b[1..])
  }

  lemma {:induction false} SubseqSingleton<T>(x: T, b: seq<T>)
    ensures IsSubseq([x], b + [x])
    decreases |b|
  {
    if b != [] && b[0] != x {
      assert (b + [x])[1..] == b[1..] + [x];
      SubseqSingleton(x, b[1..]);
    }
  }

  /** Extending the longer sequence keeps the relation. */
  lemma {:induction false} SubseqExtendRight<T>(a: seq<T>, b: seq<T>, x: T)
    requires IsSubseq(a, b)
    ensures IsSubseq(a, b + [x])
    decreases |b|
  {
    if a != [] {
      assert (b + [x])[1..] == b[1..] + [x];
      if a[0] == b[0] {
        SubseqExtendRight(a[1..], b[1..], x);
      } else {
        SubseqExtendRight(a, b[1..], x);
      }
    }
  }

  /** Extending both sequences by the same row keeps the relation. */
  lemma {:induction false} SubseqExtendBoth<T>(a: seq<T>, b: seq<T>, x: T)
    requires IsSubseq(a, b)
    ensures IsSubseq(a + [x], b + [x])
    decreases |b|
  {
    if a == [] {
      SubseqSingleton(x, b);
      assert a + [x] == [x];
    } else {
      assert (b + [x])[1..] == b[1..] + [x];
      assert (a + [x])[1..] == a[1..] + [x];
      if a[0] == b[0] {
        SubseqExtendBoth(a[1..], b[1..], x);
      } else {
        SubseqExtendBoth(a, b[1..], x);
      }
    }
  }

  lemma {:induction false} SubseqMembers<T>(a: seq<T>, b: seq<T>)
    requires IsSubseq(a, b)
    ensures forall x :: x in a ==> x in b
    decreases |b|
  {
    if a != [] {
      if a[0] == b[0] {
        SubseqMembers(a[1..], b[1..]);
        assert forall x :: x in a ==> x == a[0] || x in a[1..];
      } else {
        SubseqMembers(a, b[1..]);
      }
    }
  }

  /** `df[mask]`: the rows satisfying `p`, in order. */
  function Where<T>(s: seq<T>, p: T -> bool): (r: seq<T>)
    ensures |r| <= |s|
    ensures forall x :: x in r ==> x in s && p(x)
    ensures forall x :: x in s && p(x) ==> x in r
    decreases |s|
  {
    if s == [] then []
    else
      var t := s[..|s| - 1];
      assert s == t + [s[|s| - 1]];
      Where(t, p) + (if p(s[|s| - 1]) then [s[|s| - 1]] else [])
  }

  lemma {:induction false} WhereIsSubseq<T>(s: seq<T>, p: T -> bool)
    ensures IsSubseq(Where(s, p), s)
    decreases |s|
  {
    if s != [] {
      var t := s[..|s| - 1];
      var x := s[|s| - 1];
      assert s == t + [x];
      WhereIsSubseq(t, p);
      if p(x) {
        assert Where(s, p) == Where(t, p) + [x];
        SubseqExtendBoth(Where(t, p), t, x);
      } else {
        assert Where(s, p) == Where(t, p);
        SubseqExtendRight(Where(t, p), t, x);
      }
    }
  }

  lemma {:induction false} WhereConcat<T>(a: seq<T>, b: seq<T>, p: T -> bool)
    ensures Where(a + b, p) == Where(a, p) + Where(b, p)
    decreases |b|
  {
    if b == [] {
      assert a + b == a;
    } else {
      var t := b[..|b| - 1];
      assert (a + b)[..|a + b| - 1] == a + t;
      assert (a + b)[|a + b| - 1] == b[|b| - 1];
      WhereConcat(a, t, p);
    }
  }

  /** A filter that no row passes removes everything. */
  lemma {:induction false} WhereNone<T>(s: seq<T>, p: T -> bool)
    requires forall x :: x in s ==> !p(x)
    ensures Where(s, p) == []
    decreases |s|
  {
    if s != [] {
      var t := s[..|s| - 1];
      assert s == t + [s[|s| - 1]];
      WhereNone(t, p);
    }
  }

  /** Each passing value keeps all its occurrences; each failing value loses
      all of them. */
  lemma {:induction false} WhereMultiset<T>(s: seq<T>, p: T -> bool, x: T)
    ensures multiset(Where(s, p))[x] == if p(x) then multiset(s)[x] else 0
    decreases |s|
  {
    if s != [] {
      var t := s[..|s| - 1];
      var y := s[|s| - 1];
      assert s == t + [y];
      WhereMultiset(t, p, x);
      assert Where(s, p) == Where(t, p) + (if p(y) then [y] else []);
    }
  }

  /** A filter that every row passes changes nothing. */
  lemma {:induction false} WhereAll<T>(s: seq<T>, p: T -> bool)
    requires forall x :: x in s ==> p(x)
    ensures Where(s, p) == s
    decreases |s|
  {
    if s != [] {
      var t := s[..|s| - 1];
      assert s == t + [s[|s| - 1]];
      WhereAll(t, p);
    }
  }

  /** Pandas `s.map(f)` / a row-wise column computation. */
  function Map<A, B>(s: seq<A>, f: A -> B): (r: seq<B>)
    ensures |r| == |s|
    ensures forall i :: 0 <= i < |s| ==> r[i] == f(s[i])
  {
    seq(|s|, i requires 0 <= i < |s| => f(s[i]))
  }

  lemma MapSnoc<A, B>(s: seq<A>, x: A, f: A -> B)
    ensures Map(s + [x], f) == Map(s, f) + [f(x)]
  {
    assert forall i :: 0 <= i < |s| ==> (s + [x])[i] == s[i];
  }

  /** Filtering on a column and then taking the column is taking the
      column and then filtering it. */
  lemma {:induction false} MapWhere<A, B>(s: seq<A>, f: A -> B, q: A -> bool, p: B -> bool)
    requires forall x :: q(x) == p(f(x))
    ensures Map(Where(s, q), f) == Where(Map(s, f), p)
    decreases |s|
  {
    if s != [] {
      var t := s[..|s| - 1];
      var x := s[|s| - 1];
      assert s == t + [x];
      MapSnoc(t, x, f);
      var wt := Where(t, q);
      MapWhere(t, f, q, p);
      if q(x) {
        assert Where(s, q) == wt + [x];
        MapSnoc(wt, x, f);
      } else {
        assert Where(s, q) == wt;
      }
      assert Where(Map(s, f), p) == Where(Map(t, f), p) + (if p(f(x)) then [f(x)] else []);
    }
  }

  lemma MapMember<A, B>(s: seq<A>, f: A -> B, y: B)
    ensures y in Map(s, f) <==> exists x :: x in s && f(x) == y
  {
    if y in Map(s, f) {
      var i :| 0 <= i < |s| && Map(s, f)[i] == y;
      assert s[i] in s;
    }
    if x :| x in s && f(x) == y {
      var i :| 0 <= i < |s| && s[i] == x;
      assert Map(s, f)[i] == y;
    }
  }

  lemma MapConcat<A, B>(a: seq<A>, b: seq<A>, f: A -> B)
    ensures Map(a + b, f) == Map(a, f) + Map(b, f)
  {
    assert forall i :: 0 <= i < |a| ==> (a + b)[i] == a[i];
    assert forall i :: |a| <= i < |a + b| ==> (a + b)[i] == b[i - |a|];
  }

  /** `df[df[col] == v]` where `f` reads the column. */
  function Select<T, K(==)>(s: seq<T>, f: T -> K, v: K): (r: seq<T>)
    ensures forall x :: x in r ==> x in s && f(x) == v
    ensures forall x :: x in s && f(x) == v ==> x in r
    decreases |s|
  {
    if s == [] then []
    else
      var t := s[..|s| - 1];
      assert s == t + [s[|s| - 1]];
      Select(t, f, v) + (if f(s[|s| - 1]) == v then [s[|s| - 1]] else [])
  }

  lemma {:induction false} SelectConcat<T, K>(a: seq<T>, b: seq<T>, f: T -> K, v: K)
    ensures Select(a + b, f, v) == Select(a, f, v) + Select(b, f, v)
    decreases |b|
  {
    if b == [] {
      assert a + b == a;
    } else {
      var t := b[..|b| - 1];
      var x := b[|b| - 1];
      assert (a + b)[..|a + b| - 1] == a + t;
      assert (a + b)[|a + b| - 1] == x;
      SelectConcat(a, t, f, v);
    }
  }

  lemma {:induction false} SelectIsSubseq<T, K>(s: seq<T>, f: T -> K, v: K)
    ensures IsSubseq(Select(s, f, v), s)
    decreases |s|
  {
    if s != [] {
      var t := s[..|s| - 1];
      var x := s[|s| - 1];
      assert s == t + [x];
      SelectIsSubseq(t, f, v);
      if f(x) == v {
        assert Select(s, f, v) == Select(t, f, v) + [x];
        SubseqExtendBoth(Select(t, f, v), t, x);
      } else {
        assert Select(s, f, v) == Select(t, f, v);
        SubseqExtendRight(Select(t, f, v), t, x);
      }
    }
  }

  /** Deleting rows never adds to a group. */
  lemma {:induction false} SubseqSelectLength<T, K>(a: seq<T>, b: seq<T>, f: T -> K, v: K)
    requires IsSubseq(a, b)
    ensures |Select(a, f, v)| <= |Select(b, f, v)|
    decreases |b|
  {
    if b != [] {
      assert b == [b[0]] + b[1..];
      SelectConcat([b[0]], b[1..], f, v);
      if a != [] && a[0] == b[0] {
        assert a == [a[0]] + a[1..];
        SelectConcat([a[0]], a[1..], f, v);
        SubseqSelectLength(a[1..], b[1..], f, v);
      } else if a != [] {
        SubseqSelectLength(a, b[1..], f, v);
      }
    }
  }

  /** A group no row belongs to is empty. */
  lemma {:induction false} SelectNone<T, K>(s: seq<T>, f: T -> K, v: K)
    requires forall x :: x in s ==> f(x) != v
    ensures Select(s, f, v) == []
    decreases |s|
  {
    if s != [] {
      SelectNone(s[..|s| - 1], f, v);
    }
  }

  /** A filter every row of group `v` passes leaves the group as it was. */
  lemma {:induction false} SelectWhere<T, K>(s: seq<T>, p: T -> bool, f: T -> K, v: K)
    requires forall x :: x in s && f(x) == v ==> p(x)
    ensures Select(Where(s, p), f, v) == Select(s, f, v)
    decreases |s|
  {
    if s != [] {
      var t := s[..|s| - 1];
      var y := s[|s| - 1];
      assert s == t + [y];
      assert y in s;
      forall x | x in t && f(x) == v
        ensures p(x)
      {
        assert x in s;
      }
      SelectWhere(t, p, f, v);
      var sel := if f(y) == v then [y] else [];
      assert Select(s, f, v) == Select(t, f, v) + sel;
      if p(y) {
        assert Where(s, p) == Where(t, p) + [y];
        SelectConcat(Where(t, p), [y], f, v);
        assert Select([y], f, v) == sel;
      } else {
        assert Where(s, p) == Where(t, p);
        assert sel == [];
      }
    }
  }

  /** Each row with key `v` keeps all its occurrences; every other row
      loses all of them. */
  lemma {:induction false} SelectMultiset<T, K>(s: seq<T>, f: T -> K, v: K, x: T)
    ensures multiset(Select(s, f, v))[x] == if f(x) == v then multiset(s)[x] else 0
    decreases |s|
  {
    if s != [] {
      var t := s[..|s| - 1];
      var y := s[|s| - 1];
      assert s == t + [y];
      SelectMultiset(t, f, v, x);
      assert Select(s, f, v) == Select(t, f, v) + (if f(y) == v then [y] else []);
    }
  }

  /** Number of rows whose column `f` equals `v`. */
  function Count<T, K(==)>(s: seq<T>, f: T -> K, v: K): nat {
    |Select(s, f, v)|
  }

  /** The first `n` rows of a sequence (all of them when it is shorter). */
  function Take<T>(s: seq<T>, n: nat): (r: seq<T>)
    ensures |r| == if |s| < n then |s| else n
  {
    if |s| <= n then s else s[..n]
  }

  /** `groupby(f).head(n)`: a row is kept when fewer than `n` earlier rows
      share its group. */
  function GroupHead<T, K(==)>(s: seq<T>, f: T -> K, n: nat): (r: seq<T>)
    ensures |r| <= |s|
    decreases |s|
  {
    if s == [] then []
    else
      var t := s[..|s| - 1];
      var x := s[|s| - 1];
      GroupHead(t, f, n) + (if Count(t, f, f(x)) < n then [x] else [])
  }

  lemma SelectSingleton<T, K>(x: T, f: T -> K, g: K)
    ensures Select([x], f, g) == if f(x) == g then [x] else []
  {
    assert [x][..0] == [];
  }

  lemma TakeSnoc<T>(q: seq<T>, x: T, n: nat)
    ensures Take(q + [x], n) == if |q| < n then q + [x] else Take(q, n)
  {
    if |q| >= n {
      assert (q + [x])[..n] == q[..n];
    }
  }

  lemma GroupHeadSnoc<T, K>(s: seq<T>, f: T -> K, n: nat)
    requires s != []
    ensures GroupHead(s, f, n)
         == GroupHead(s[..|s| - 1], f, n)
          + (if Count(s[..|s| - 1], f, f(s[|s| - 1])) < n then [s[|s| - 1]] else [])
  {
  }

  lemma SelectSnoc<T, K>(s: seq<T>, f: T -> K, g: K)
    requires s != []
    ensures Select(s, f, g) == Select(s[..|s| - 1], f, g) + (if f(s[|s| - 1]) == g then [s[|s| - 1]] else [])
  {
  }

  /** Within every group, `groupby(f).head(n)` keeps exactly the group's first
      `n` rows. */
  lemma {:induction false} GroupHeadPerGroup<T, K>(s: seq<T>, f: T -> K, n: nat, g: K)
    ensures Select(GroupHead(s, f, n), f, g) == Take(Select(s, f, g), n)
    decreases |s|
  {
    if s != [] {
      var t := s[..|s| - 1];
      var x := s[|s| - 1];
      var keep := Count(t, f, f(x)) < n;
      var tail := if keep then [x] else [];
      var q := Select(t, f, g);
      GroupHeadSnoc(s, f, n);
      SelectSnoc(s, f, g);
      GroupHeadPerGroup(t, f, n, g);
      SelectConcat(GroupHead(t, f, n), tail, f, g);
      SelectSingleton(x, f, g);
      var head := Select(GroupHead(t, f, n), f, g);
      assert Select(GroupHead(s, f, n), f, g) == head + Select(tail, f, g);
      if f(x) == g {
        assert Count(t, f, f(x)) == |q|;
        assert Select(s, f, g) == q + [x];
        TakeSnoc(q, x, n);
        if keep {
          assert Take(q, n) == q;
          assert Select(tail, f, g) == [x];
        } else {
          assert Select(tail, f, g) == [];
        }
      } else {
        assert Select(tail, f, g) == [];
        assert Select(s, f, g) == q;
      }
    }
  }

  lemma {:induction false} GroupHeadIsSubseq<T, K>(s: seq<T>, f: T -> K, n: nat)
    ensures IsSubseq(GroupHead(s, f, n), s)
    decreases |s|
  {
    if s != [] {
      var t := s[..|s| - 1];
      var x := s[|s| - 1];
      assert s == t + [x];
      GroupHeadIsSubseq(t, f, n);
      if Count(t, f, f(x)) < n {
        assert GroupHead(s, f, n) == GroupHead(t, f, n) + [x];
        SubseqExtendBoth(GroupHead(t, f, n), t, x);
      } else {
        assert GroupHead(s, f, n) == GroupHead(t, f, n);
        SubseqExtendRight(GroupHead(t, f, n), t, x);
      }
    }
  }

  /** Every group keeps at most `n` rows, and exactly `n` when it has that
      many. */
  lemma GroupHeadCount<T, K>(s: seq<T>, f: T -> K, n: nat, g: K)
    ensures Count(GroupHead(s, f, n), f, g) == if Count(s, f, g) < n then Count(s, f, g) else n
  {
    GroupHeadPerGroup(s, f, n, g);
  }

  /** The set of values column `f` takes. */
  function KeysOf<T, K(==)>(s: seq<T>, f: T -> K): (ks: set<K>)
    ensures forall x :: x in s ==> f(x) in ks
    decreases |s|
  {
    if s == [] then {}
    else
      var t := s[..|s| - 1];
      assert s == t + [s[|s| - 1]];
      KeysOf(t, f) + {f(s[|s| - 1])}
  }

  lemma {:induction false} KeysOfMember<T, K>(s: seq<T>, f: T -> K, k: K)
    ensures k in KeysOf(s, f) <==> exists x :: x in s && f(x) == k
    decreases |s|
  {
    if s != [] {
      var t := s[..|s| - 1];
      KeysOfMember(t, f, k);
      assert s == t + [s[|s| - 1]];
      if k in KeysOf(t, f) {
        var x :| x in t && f(x) == k;
        assert x in s;
      }
    }
  }

  /** `drop_duplicates(subset=f, keep='first')`: a row is kept when no earlier
      row has its key. */
  function DedupeBy<T, K(==)>(s: seq<T>, f: T -> K): (r: seq<T>)
    ensures |r| <= |s|
    ensures forall x :: x in r ==> x in s
    decreases |s|
  {
    if s == [] then []
    else
      var t := s[..|s| - 1];
      assert s == t + [s[|s| - 1]];
      DedupeBy(t, f) + (if f(s[|s| - 1]) in KeysOf(t, f) then [] else [s[|s| - 1]])
  }

  lemma DedupeBySnoc<T, K>(s: seq<T>, f: T -> K)
    requires s != []
    ensures DedupeBy(s, f)
         == DedupeBy(s[..|s| - 1], f)
          + (if f(s[|s| - 1]) in KeysOf(s[..|s| - 1], f) then [] else [s[|s| - 1]])
  {
  }

  lemma {:induction false} CountZeroIffNoKey<T, K>(s: seq<T>, f: T -> K, k: K)
    ensures Count(s, f, k) == 0 <==> k !in KeysOf(s, f)
    decreases |s|
  {
    if s != [] {
      CountZeroIffNoKey(s[..|s| - 1], f, k);
    }
  }

  lemma {:induction false} KeyAbsent<T, K>(s: seq<T>, f: T -> K, k: K)
    requires forall x :: x in s ==> f(x) != k
    ensures k !in KeysOf(s, f)
    decreases |s|
  {
    if s != [] {
      KeyAbsent(s[..|s| - 1], f, k);
    }
  }

  /** Keeping the first row per key is `groupby(f).head(1)`: the seen-key
      definition agrees with the per-group one. */
  lemma {:induction false} DedupeByIsGroupHeadOne<T, K>(s: seq<T>, f: T -> K)
    ensures DedupeBy(s, f) == GroupHead(s, f, 1)
    decreases |s|
  {
    if s != [] {
      var t := s[..|s| - 1];
      var x := s[|s| - 1];
      DedupeByIsGroupHeadOne(t, f);
      DedupeBySnoc(s, f);
      GroupHeadSnoc(s, f, 1);
      CountZeroIffNoKey(t, f, f(x));
    }
  }

  /** No two kept rows share a key. */
  lemma {:induction false} DedupeByKeysDistinct<T, K>(s: seq<T>, f: T -> K)
    ensures forall i, j :: 0 <= i < j < |DedupeBy(s, f)| ==>
              f(DedupeBy(s, f)[i]) != f(DedupeBy(s, f)[j])
    decreases |s|
  {
    if s != [] {
      var t := s[..|s| - 1];
      var x := s[|s| - 1];
      DedupeByKeysDistinct(t, f);
      DedupeBySnoc(s, f);
      var r := DedupeBy(s, f);
      var q := DedupeBy(t, f);
      if f(x) !in KeysOf(t, f) {
        forall i, j | 0 <= i < j < |r|
          ensures f(r[i]) != f(r[j])
        {
          if j == |q| {
            assert r[i] == q[i] && q[i] in q;
          } else {
            assert r[i] == q[i] && r[j] == q[j];
          }
        }
      }
    }
  }

  /** Per key, `drop_duplicates` keeps exactly the first row with that key. */
  lemma DedupeByFirstPerKey<T, K>(s: seq<T>, f: T -> K, k: K)
    ensures Select(DedupeBy(s, f), f, k) == Take(Select(s, f, k), 1)
  {
    DedupeByIsGroupHeadOne(s, f);
    GroupHeadPerGroup(s, f, 1, k);
  }

  lemma DedupeByIsSubseq<T, K>(s: seq<T>, f: T -> K)
    ensures IsSubseq(DedupeBy(s, f), s)
  {
    DedupeByIsGroupHeadOne(s, f);
    GroupHeadIsSubseq(s, f, 1);
  }

  /** No two rows of `s` are equal. */
  predicate Distinct<T(==)>(s: seq<T>) {
    forall i, j :: 0 <= i < j < |s| ==> s[i] != s[j]
  }

  function Id<T>(x: T): T { x }

  /** `Series.unique()` / whole-row `drop_duplicates()`: first appearances, in
      order. */
  function Unique<T(==)>(s: seq<T>): (r: seq<T>)
    ensures Distinct(r)
    ensures forall x :: x in r ==> x in s
  {
    DedupeByKeysDistinct(s, Id);
    DedupeBy(s, Id)
  }

  lemma {:induction false} UniqueComplete<T>(s: seq<T>)
    ensures forall x :: x in s ==> x in Unique(s)
  {
    forall x | x in s
      ensures x in Unique(s)
    {
      DedupeByFirstPerKey(s, Id, x);
      assert Id(x) == x;
      assert x in Select(s, Id, x);
      var q := Select(DedupeBy(s, Id), Id, x);
      assert |q| == 1;
      assert q[0] in q;
      assert q[0] in DedupeBy(s, Id) && Id(q[0]) == x;
    }
  }

  lemma {:induction false} DedupeByKeepsDistinct<T, K>(s: seq<T>, f: T -> K)
    requires forall i, j :: 0 <= i < j < |s| ==> f(s[i]) != f(s[j])
    ensures DedupeBy(s, f) == s
    decreases |s|
  {
    if s != [] {
      var t := s[..|s| - 1];
      var x := s[|s| - 1];
      assert s == t + [x];
      forall i, j | 0 <= i < j < |t|
        ensures f(t[i]) != f(t[j])
      {
        assert t[i] == s[i] && t[j] == s[j];
      }
      DedupeByKeepsDistinct(t, f);
      forall y | y in t
        ensures f(y) != f(x)
      {
        var i :| 0 <= i < |t| && t[i] == y;
        assert s[i] == y;
      }
      KeyAbsent(t, f, f(x));
      DedupeBySnoc(s, f);
      assert DedupeBy(s, f) == DedupeBy(t, f) + [x];
    }
  }

  lemma {:induction false} DedupeByFull<T, K>(s: seq<T>, f: T -> K)
    requires |DedupeBy(s, f)| == |s|
    ensures DedupeBy(s, f) == s
    decreases |s|
  {
    if s != [] {
      var t := s[..|s| - 1];
      DedupeBySnoc(s, f);
      if f(s[|s| - 1]) in KeysOf(t, f) {
        assert false;
      } else {
        DedupeByFull(t, f);
      }
    }
  }

  /** The duplicate-row guard: `len(df) == len(df.drop_duplicates())` holds
      exactly when no two rows are equal. */
  lemma UniqueSameLengthIffDistinct<T>(s: seq<T>)
    ensures |Unique(s)| == |s| <==> Distinct(s)
  {
    if Distinct(s) {
      DedupeByKeepsDistinct(s, Id);
    }
    if |Unique(s)| == |s| {
      DedupeByFull(s, Id);
    }
  }

  /** Appending a value extends the unique list exactly when the value is
      new. */
  lemma UniqueSnoc<T>(s: seq<T>, x: T)
    ensures Unique(s + [x]) == Unique(s) + (if x in s then [] else [x])
  {
    var s' := s + [x];
    assert s'[..|s'| - 1] == s && s'[|s'| - 1] == x;
    DedupeBySnoc(s', Id);
    KeysOfMember(s, Id, x);
    if x in s {
      assert Id(x) == x;
    }
  }

  /** `Series.nunique()`. */
  function NUnique<T(==)>(s: seq<T>): nat {
    |Unique(s)|
  }
}

/** `DataFrame.merge` on one key column per side.

    A left join walks the left table in order; each left row is followed by
    its partners (right rows with an equal key) in right-table order, or by
    one row with an all-NaN right side when it has none. An inner join is
    the same walk without the unmatched rows. A right join is the left join
    with the two tables exchanged, so its order follows the right table.
    Keys are compared with `==`; a null key is one more value, which is
    what pandas does when both sides hold NaN.
 */
module Joins {
  import opened Wrappers
  import opened Frames

  /** The `how=` argument. */
  datatype How = Inner | Left | Right

  /** One output row: the input rows it was built from. `None` is the
      all-NaN side of an unmatched row. */
  datatype Joined<L, R> = Joined(left: Option<L>, right: Option<R>)

  function Swap<L, R>(j: Joined<R, L>): Joined<L, R> {
    Joined(j.right, j.left)
  }

  /** Right rows with the same key as `l`, in right order. */
  function Partners<L, R, K(==)>(l: L, rs: seq<R>, lk: L -> K, rk: R -> K): seq<R> {
    Select(rs, rk, lk(l))
  }

  function Pairs<L, R>(l: L, ps: seq<R>): (r: seq<Joined<L, R>>)
    ensures |r| == |ps|
    ensures forall i :: 0 <= i < |ps| ==> r[i] == Joined(Some(l), Some(ps[i]))
  {
    Map(ps, (x: R) => Joined(Some(l), Some(x)))
  }

  /** The output rows of one left row in a left join. */
  function LeftRows<L, R, K(==)>(l: L, rs: seq<R>, lk: L -> K, rk: R -> K): seq<Joined<L, R>> {
    var ps := Partners(l, rs, lk, rk);
    if ps == [] then [Joined(Some(l), None)] else Pairs(l, ps)
  }

  function LeftJoin<L, R, K(==)>(ls: seq<L>, rs: seq<R>, lk: L -> K, rk: R -> K): (r: seq<Joined<L, R>>)
    ensures |r| >= |ls|
    decreases |ls|
  {
    if ls == [] then []
    else LeftJoin(ls[..|ls| - 1], rs, lk, rk) + LeftRows(ls[|ls| - 1], rs, lk, rk)
  }

  function InnerJoin<L, R, K(==)>(ls: seq<L>, rs: seq<R>, lk: L -> K, rk: R -> K): seq<Joined<L, R>>
    decreases |ls|
  {
    if ls == [] then []
    else InnerJoin(ls[..|ls| - 1], rs, lk, rk) + Pairs(ls[|ls| - 1], Partners(ls[|ls| - 1], rs, lk, rk))
  }

  function RightJoin<L, R, K(==)>(ls: seq<L>, rs: seq<R>, lk: L -> K, rk: R -> K): seq<Joined<L, R>> {
    Map(LeftJoin(rs, ls, rk, lk), (j: Joined<R, L>) => Swap(j))
  }

  function Merge<L, R, K(==)>(how: How, ls: seq<L>, rs: seq<R>, lk: L -> K, rk: R -> K): seq<Joined<L, R>> {
    match how
    case Inner => InnerJoin(ls, rs, lk, rk)
    case Left => LeftJoin(ls, rs, lk, rk)
    case Right => RightJoin(ls, rs, lk, rk)
  }

  // ---- what each join contains ----

  /** No right row has `l`'s key. */
  predicate Unmatched<L, R(==), K(==)>(l: L, rs: seq<R>, lk: L -> K, rk: R -> K) {
    forall r :: r in rs ==> rk(r) != lk(l)
  }

  /** The right side `o` may accompany `l`: a partner, or NaN when there is none. */
  predicate RightFits<L, R(==), K(==)>(o: Option<R>, l: L, rs: seq<R>, lk: L -> K, rk: R -> K) {
    match o
    case Some(r) => r in rs && rk(r) == lk(l)
    case None => Unmatched(l, rs, lk, rk)
  }

  predicate InLeftJoin<L(==), R(==), K(==)>(j: Joined<L, R>, ls: seq<L>, rs: seq<R>, lk: L -> K, rk: R -> K) {
    j.left.Some? && j.left.value in ls && RightFits(j.right, j.left.value, rs, lk, rk)
  }

  predicate InInnerJoin<L(==), R(==), K(==)>(j: Joined<L, R>, ls: seq<L>, rs: seq<R>, lk: L -> K, rk: R -> K) {
    j.left.Some? && j.right.Some? && j.left.value in ls && j.right.value in rs
    && lk(j.left.value) == rk(j.right.value)
  }

  predicate InRightJoin<L(==), R(==), K(==)>(j: Joined<L, R>, ls: seq<L>, rs: seq<R>, lk: L -> K, rk: R -> K) {
    j.right.Some? && j.right.value in rs && RightFits(j.left, j.right.value, ls, rk, lk)
  }

  predicate InMerge<L(==), R(==), K(==)>(how: How, j: Joined<L, R>, ls: seq<L>, rs: seq<R>, lk: L -> K, rk: R -> K) {
    match how
    case Inner => InInnerJoin(j, ls, rs, lk, rk)
    case Left => InLeftJoin(j, ls, rs, lk, rk)
    case Right => InRightJoin(j, ls, rs, lk, rk)
  }

  /** Whether a right side fits depends only on the left row's key. */
  lemma FitsSameKey<L, R, K>(o: Option<R>, l1: L, l2: L, rs: seq<R>, lk: L -> K, rk: R -> K)
    requires lk(l1) == lk(l2) && RightFits(o, l1, rs, lk, rk)
    ensures RightFits(o, l2, rs, lk, rk)
  {
  }

  /** Whatever `l` is, some right side fits it. */
  lemma SomeFit<L, R, K>(l: L, rs: seq<R>, lk: L -> K, rk: R -> K)
    ensures exists o :: RightFits(o, l, rs, lk, rk)
  {
    if r :| r in rs && rk(r) == lk(l) {
      assert RightFits(Some(r), l, rs, lk, rk);
    } else {
      assert RightFits(None, l, rs, lk, rk);
    }
  }

  lemma PairsMember<L, R>(l: L, ps: seq<R>, j: Joined<L, R>)
    ensures j in Pairs(l, ps) <==> j.left == Some(l) && j.right.Some? && j.right.value in ps
  {
    if j.left == Some(l) && j.right.Some? && j.right.value in ps {
      var i :| 0 <= i < |ps| && ps[i] == j.right.value;
      assert Pairs(l, ps)[i] == j;
    }
  }

  lemma LeftRowsMember<L, R, K>(l: L, rs: seq<R>, lk: L -> K, rk: R -> K, j: Joined<L, R>)
    ensures j in LeftRows(l, rs, lk, rk) <==> j.left == Some(l) && RightFits(j.right, l, rs, lk, rk)
  {
    var ps := Partners(l, rs, lk, rk);
    PairsMember(l, ps, j);
    if ps != [] {
      assert ps[0] in ps;
    }
  }

  /** A left join holds exactly the left rows paired with each partner, and
      the partnerless left rows paired with NaN. */
  lemma {:induction false} LeftJoinMember<L, R, K>(ls: seq<L>, rs: seq<R>, lk: L -> K, rk: R -> K, j: Joined<L, R>)
    ensures j in LeftJoin(ls, rs, lk, rk) <==> InLeftJoin(j, ls, rs, lk, rk)
    decreases |ls|
  {
    if ls != [] {
      var t := ls[..|ls| - 1];
      var x := ls[|ls| - 1];
      assert ls == t + [x];
      LeftJoinMember(t, rs, lk, rk, j);
      LeftRowsMember(x, rs, lk, rk, j);
      assert j.left.Some? ==> (j.left.value in ls <==> j.left.value in t || j.left.value == x);
    }
  }

  /** An inner join holds exactly the pairs of rows with equal keys. */
  lemma {:induction false} InnerJoinMember<L, R, K>(ls: seq<L>, rs: seq<R>, lk: L -> K, rk: R -> K, j: Joined<L, R>)
    ensures j in InnerJoin(ls, rs, lk, rk) <==> InInnerJoin(j, ls, rs, lk, rk)
    decreases |ls|
  {
    if ls != [] {
      var t := ls[..|ls| - 1];
      var x := ls[|ls| - 1];
      assert ls == t + [x];
      InnerJoinMember(t, rs, lk, rk, j);
      PairsMember(x, Partners(x, rs, lk, rk), j);
      assert j.left.Some? ==> (j.left.value in ls <==> j.left.value in t || j.left.value == x);
    }
  }

  lemma MapSwapMember<L, R>(s: seq<Joined<R, L>>, j: Joined<L, R>)
    ensures j in Map(s, (x: Joined<R, L>) => Swap(x)) <==> Joined(j.right, j.left) in s
  {
    var m := Map(s, (x: Joined<R, L>) => Swap(x));
    if j in m {
      var i :| 0 <= i < |m| && m[i] == j;
      assert s[i] == Joined(j.right, j.left);
    }
    if Joined(j.right, j.left) in s {
      var i :| 0 <= i < |s| && s[i] == Joined(j.right, j.left);
      assert m[i] == j;
    }
  }

  /** A right join holds exactly the right rows paired with each partner, and
      the partnerless right rows paired with NaN. */
  lemma RightJoinMember<L, R, K>(ls: seq<L>, rs: seq<R>, lk: L -> K, rk: R -> K, j: Joined<L, R>)
    ensures j in RightJoin(ls, rs, lk, rk) <==> InRightJoin(j, ls, rs, lk, rk)
  {
    MapSwapMember(LeftJoin(rs, ls, rk, lk), j);
    LeftJoinMember(rs, ls, rk, lk, Joined(j.right, j.left));
  }

  lemma MergeMember<L, R, K>(how: How, ls: seq<L>, rs: seq<R>, lk: L -> K, rk: R -> K, j: Joined<L, R>)
    ensures j in Merge(how, ls, rs, lk, rk) <==> InMerge(how, j, ls, rs, lk, rk)
  {
    match how
    case Inner => InnerJoinMember(ls, rs, lk, rk, j);
    case Left => LeftJoinMember(ls, rs, lk, rk, j);
    case Right => RightJoinMember(ls, rs, lk, rk, j);
  }

  /** Every left row survives a left join. */
  lemma LeftJoinKeepsLeft<L, R, K>(ls: seq<L>, rs: seq<R>, lk: L -> K, rk: R -> K, l: L)
    requires l in ls
    ensures exists j :: j in LeftJoin(ls, rs, lk, rk) && j.left == Some(l)
  {
    var ps := Partners(l, rs, lk, rk);
    if ps == [] {
      LeftJoinMember(ls, rs, lk, rk, Joined(Some(l), None));
    } else {
      assert ps[0] in ps;
      LeftJoinMember(ls, rs, lk, rk, Joined(Some(l), Some(ps[0])));
    }
  }

  /** Every right row survives a right join. */
  lemma RightJoinKeepsRight<L, R, K>(ls: seq<L>, rs: seq<R>, lk: L -> K, rk: R -> K, r: R)
    requires r in rs
    ensures exists j :: j in RightJoin(ls, rs, lk, rk) && j.right == Some(r)
  {
    LeftJoinKeepsLeft(rs, ls, rk, lk, r);
    var j :| j in LeftJoin(rs, ls, rk, lk) && j.left == Some(r);
    MapSwapMember(LeftJoin(rs, ls, rk, lk), Swap(j));
  }

  // ---- order and size ----

  lemma {:induction false} WherePairsMatched<L, R>(l: L, ps: seq<R>)
    ensures Where(Pairs(l, ps), (j: Joined<L, R>) => j.right.Some?) == Pairs(l, ps)
  {
    WhereAll(Pairs(l, ps), (j: Joined<L, R>) => j.right.Some?);
  }

  /** An inner join is a left join with its NaN-padded rows removed. */
  lemma {:induction false} InnerIsMatchedLeft<L, R, K>(ls: seq<L>, rs: seq<R>, lk: L -> K, rk: R -> K)
    ensures InnerJoin(ls, rs, lk, rk) == Where(LeftJoin(ls, rs, lk, rk), (j: Joined<L, R>) => j.right.Some?)
    decreases |ls|
  {
    if ls != [] {
      var t := ls[..|ls| - 1];
      var x := ls[|ls| - 1];
      var p := (j: Joined<L, R>) => j.right.Some?;
      InnerIsMatchedLeft(t, rs, lk, rk);
      WhereConcat(LeftJoin(t, rs, lk, rk), LeftRows(x, rs, lk, rk), p);
      var ps := Partners(x, rs, lk, rk);
      if ps == [] {
        assert Where([Joined(Some(x), None)], p) == [];
        assert Pairs(x, ps) == [];
      } else {
        WherePairsMatched(x, ps);
      }
    }
  }

  /** No two rows of `rs` share a key. */
  predicate KeysDistinct<R, K(==)>(rs: seq<R>, rk: R -> K) {
    forall i, j :: 0 <= i < j < |rs| ==> rk(rs[i]) != rk(rs[j])
  }

  /** With distinct keys, a key names at most one row. */
  lemma KeysDistinctSame<R, K>(rs: seq<R>, rk: R -> K, a: R, b: R)
    requires KeysDistinct(rs, rk) && a in rs && b in rs && rk(a) == rk(b)
    ensures a == b
  {
    var i :| 0 <= i < |rs| && rs[i] == a;
    var j :| 0 <= j < |rs| && rs[j] == b;
    assert i == j;
  }

  lemma {:induction false} SelectDistinctKeys<R, K>(rs: seq<R>, rk: R -> K, v: K)
    requires KeysDistinct(rs, rk)
    ensures |Select(rs, rk, v)| <= 1
    decreases |rs|
  {
    if rs != [] {
      var t := rs[..|rs| - 1];
      var x := rs[|rs| - 1];
      assert KeysDistinct(t, rk) by {
        forall i, j | 0 <= i < j < |t|
          ensures rk(t[i]) != rk(t[j])
        {
          assert t[i] == rs[i] && t[j] == rs[j];
        }
      }
      SelectDistinctKeys(t, rk, v);
      SelectSnoc(rs, rk, v);
      if rk(x) == v {
        forall y | y in t
          ensures rk(y) != v
        {
          var i :| 0 <= i < |t| && t[i] == y;
          assert rs[i] == y;
        }
        KeyAbsent(t, rk, v);
        CountZeroIffNoKey(t, rk, v);
      }
    }
  }

  /** With at most one partner per left row, a left join keeps the left
      table's rows one for one and in order. */
  lemma {:induction false} LeftJoinDistinctKeys<L, R, K>(ls: seq<L>, rs: seq<R>, lk: L -> K, rk: R -> K)
    requires KeysDistinct(rs, rk)
    ensures |LeftJoin(ls, rs, lk, rk)| == |ls|
    ensures forall i :: 0 <= i < |ls| ==> LeftJoin(ls, rs, lk, rk)[i].left == Some(ls[i])
    decreases |ls|
  {
    if ls != [] {
      var t := ls[..|ls| - 1];
      var x := ls[|ls| - 1];
      LeftJoinDistinctKeys(t, rs, lk, rk);
      SelectDistinctKeys(rs, rk, lk(x));
      var a := LeftJoin(t, rs, lk, rk);
      var b := LeftRows(x, rs, lk, rk);
      var ps := Partners(x, rs, lk, rk);
      if ps == [] {
        assert b == [Joined(Some(x), None)];
      } else {
        assert |ps| == 1 && b == Pairs(x, ps);
      }
      assert |b| == 1 && b[0].left == Some(x);
      var j := LeftJoin(ls, rs, lk, rk);
      assert j == a + b;
      forall i | 0 <= i < |ls|
        ensures j[i].left == Some(ls[i])
      {
        if i < |t| {
          assert j[i] == a[i];
          assert ls[i] == t[i];
        } else {
          assert j[i] == b[0];
        }
      }
    }
  }

  /** The right-join counterpart: one output row per right row, in order. */
  lemma RightJoinDistinctKeys<L, R, K>(ls: seq<L>, rs: seq<R>, lk: L -> K, rk: R -> K)
    requires KeysDistinct(ls, lk)
    ensures |RightJoin(ls, rs, lk, rk)| == |rs|
    ensures forall i :: 0 <= i < |rs| ==> RightJoin(ls, rs, lk, rk)[i].right == Some(rs[i])
  {
    LeftJoinDistinctKeys(rs, ls, rk, lk);
  }

  // ---- order and multiplicity, for any keys ----

  /** A left join walks the left table in order: joining two blocks of
      left rows one after the other is joining their concatenation. */
  lemma {:induction false} LeftJoinConcat<L, R, K>(a: seq<L>, b: seq<L>, rs: seq<R>, lk: L -> K, rk: R -> K)
    ensures LeftJoin(a + b, rs, lk, rk) == LeftJoin(a, rs, lk, rk) + LeftJoin(b, rs, lk, rk)
    decreases |b|
  {
    if b == [] {
      assert a + b == a;
    } else {
      var t := b[..|b| - 1];
      var x := b[|b| - 1];
      var c := a + t;
      assert b == t + [x];
      assert a + b == c + [x];
      LeftJoinSnoc(c, x, rs, lk, rk);
      LeftJoinSnoc(t, x, rs, lk, rk);
      LeftJoinConcat(a, t, rs, lk, rk);
      AppendAssoc(LeftJoin(a, rs, lk, rk), LeftJoin(t, rs, lk, rk), LeftRows(x, rs, lk, rk));
    }
  }

  lemma LeftJoinSnoc<L, R, K>(s: seq<L>, x: L, rs: seq<R>, lk: L -> K, rk: R -> K)
    ensures LeftJoin(s + [x], rs, lk, rk) == LeftJoin(s, rs, lk, rk) + LeftRows(x, rs, lk, rk)
  {
    var sx := s + [x];
    assert sx[..|sx| - 1] == s;
    assert sx[|sx| - 1] == x;
  }

  /** One left row gives one row per right row with its key, in right
      order, or a single NaN-padded row when no right row has its key. */
  lemma LeftJoinRow<L, R, K>(l: L, rs: seq<R>, lk: L -> K, rk: R -> K)
    ensures Unmatched(l, rs, lk, rk) <==> Count(rs, rk, lk(l)) == 0
    ensures |LeftJoin([l], rs, lk, rk)| == if Count(rs, rk, lk(l)) == 0 then 1 else Count(rs, rk, lk(l))
    ensures Count(rs, rk, lk(l)) == 0 ==> LeftJoin([l], rs, lk, rk) == [Joined(Some(l), None)]
    ensures forall i :: 0 <= i < Count(rs, rk, lk(l)) ==>
              LeftJoin([l], rs, lk, rk)[i] == Joined(Some(l), Some(Select(rs, rk, lk(l))[i]))
  {
    var ps := Select(rs, rk, lk(l));
    assert [l][..0] == [];
    assert LeftJoin([l], rs, lk, rk) == LeftRows(l, rs, lk, rk);
    if ps != [] {
      assert ps[0] in ps;
    }
  }

  /** The rows of one left row `x`, counted per output row. */
  lemma LeftRowsMultiset<L, R, K>(x: L, rs: seq<R>, lk: L -> K, rk: R -> K, l: L, r: R)
    ensures multiset(LeftRows(x, rs, lk, rk))[Joined(Some(l), Some(r))] ==
              if x == l && rk(r) == lk(l) then multiset(rs)[r] else 0
    ensures multiset(LeftRows(x, rs, lk, rk))[Joined(Some(l), None)] ==
              if x == l && Unmatched(l, rs, lk, rk) then 1 else 0
  {
    var ps := Partners(x, rs, lk, rk);
    SelectMultiset(rs, rk, lk(x), r);
    PairsMultiset(x, ps, Joined(Some(l), Some(r)));
    PairsMultiset(x, ps, Joined(Some(l), None));
    LeftJoinRow(x, rs, lk, rk);
  }

  lemma {:induction false} PairsMultiset<L, R>(l: L, ps: seq<R>, j: Joined<L, R>)
    ensures multiset(Pairs(l, ps))[j] == if j.left == Some(l) && j.right.Some? then multiset(ps)[j.right.value] else 0
    decreases |ps|
  {
    if ps != [] {
      var t := ps[..|ps| - 1];
      var y := ps[|ps| - 1];
      assert ps == t + [y];
      PairsMultiset(l, t, j);
      assert Pairs(l, ps) == Pairs(l, t) + [Joined(Some(l), Some(y))];
    }
  }

  /** A left join holds each (left row, partner) pair as many times as the
      two rows occur in their tables, and each partnerless left row once
      per occurrence with a NaN right side. Nothing else. */
  lemma LeftJoinMultiplicity<L, R, K>(ls: seq<L>, rs: seq<R>, lk: L -> K, rk: R -> K, l: L, r: R)
    ensures multiset(LeftJoin(ls, rs, lk, rk))[Joined(Some(l), Some(r))] ==
              multiset(ls)[l] * (if rk(r) == lk(l) then multiset(rs)[r] else 0)
    ensures multiset(LeftJoin(ls, rs, lk, rk))[Joined(Some(l), None)] ==
              if Unmatched(l, rs, lk, rk) then multiset(ls)[l] else 0
  {
    LeftJoinPairCount(ls, rs, lk, rk, l, r);
    LeftJoinPadCount(ls, rs, lk, rk, l, r);
  }

  lemma {:induction false} LeftJoinPairCount<L, R, K>(ls: seq<L>, rs: seq<R>, lk: L -> K, rk: R -> K, l: L, r: R)
    ensures multiset(LeftJoin(ls, rs, lk, rk))[Joined(Some(l), Some(r))] ==
              multiset(ls)[l] * (if rk(r) == lk(l) then multiset(rs)[r] else 0)
    decreases |ls|
  {
    if ls != [] {
      var t := ls[..|ls| - 1];
      var x := ls[|ls| - 1];
      assert ls == t + [x];
      var p := Joined(Some(l), Some(r));
      LeftJoinSnoc(t, x, rs, lk, rk);
      LeftJoinPairCount(t, rs, lk, rk, l, r);
      LeftRowsMultiset(x, rs, lk, rk, l, r);
      assert multiset(LeftJoin(ls, rs, lk, rk))[p] ==
             multiset(LeftJoin(t, rs, lk, rk))[p] + multiset(LeftRows(x, rs, lk, rk))[p];
      assert multiset(ls)[l] == multiset(t)[l] + (if x == l then 1 else 0);
      CountStep(multiset(LeftJoin(ls, rs, lk, rk))[p], multiset(LeftJoin(t, rs, lk, rk))[p],
                multiset(LeftRows(x, rs, lk, rk))[p], multiset(t)[l], multiset(ls)[l],
                if rk(r) == lk(l) then multiset(rs)[r] else 0, x == l);
    }
  }

  lemma {:induction false} LeftJoinPadCount<L, R, K>(ls: seq<L>, rs: seq<R>, lk: L -> K, rk: R -> K, l: L, r: R)
    ensures multiset(LeftJoin(ls, rs, lk, rk))[Joined(Some(l), None)] ==
              if Unmatched(l, rs, lk, rk) then multiset(ls)[l] else 0
    decreases |ls|
  {
    if ls != [] {
      var t := ls[..|ls| - 1];
      var x := ls[|ls| - 1];
      assert ls == t + [x];
      var p := Joined(Some(l), None);
      LeftJoinSnoc(t, x, rs, lk, rk);
      LeftJoinPadCount(t, rs, lk, rk, l, r);
      LeftRowsMultiset(x, rs, lk, rk, l, r);
      assert multiset(LeftJoin(ls, rs, lk, rk))[p] ==
             multiset(LeftJoin(t, rs, lk, rk))[p] + multiset(LeftRows(x, rs, lk, rk))[p];
    }
  }

  lemma {:induction false} SwapMultiset<L, R>(s: seq<Joined<R, L>>, j: Joined<L, R>)
    ensures multiset(Map(s, (x: Joined<R, L>) => Swap(x)))[j] == multiset(s)[Joined(j.right, j.left)]
    decreases |s|
  {
    if s != [] {
      var t := s[..|s| - 1];
      var y := s[|s| - 1];
      assert s == t + [y];
      SwapMultiset(t, j);
      MapSnoc(t, y, (x: Joined<R, L>) => Swap(x));
    }
  }

  /** A right join walks the right table in order. */
  lemma RightJoinConcat<L, R, K>(ls: seq<L>, a: seq<R>, b: seq<R>, lk: L -> K, rk: R -> K)
    ensures RightJoin(ls, a + b, lk, rk) == RightJoin(ls, a, lk, rk) + RightJoin(ls, b, lk, rk)
  {
    LeftJoinConcat(a, b, ls, rk, lk);
    MapConcat(LeftJoin(a, ls, rk, lk), LeftJoin(b, ls, rk, lk), (j: Joined<R, L>) => Swap(j));
  }

  /** One right row gives one row per left row with its key, in left
      order, or a single row with a NaN left side when no left row has
      its key. */
  lemma RightJoinRow<L, R, K>(ls: seq<L>, r: R, lk: L -> K, rk: R -> K)
    ensures Unmatched(r, ls, rk, lk) <==> Count(ls, lk, rk(r)) == 0
    ensures |RightJoin(ls, [r], lk, rk)| == if Count(ls, lk, rk(r)) == 0 then 1 else Count(ls, lk, rk(r))
    ensures Count(ls, lk, rk(r)) == 0 ==> RightJoin(ls, [r], lk, rk) == [Joined(None, Some(r))]
    ensures forall i :: 0 <= i < Count(ls, lk, rk(r)) ==>
              RightJoin(ls, [r], lk, rk)[i] == Joined(Some(Select(ls, lk, rk(r))[i]), Some(r))
  {
    LeftJoinRow(r, ls, rk, lk);
  }

  /** The right-join counterpart of `LeftJoinMultiplicity`. */
  lemma RightJoinMultiplicity<L, R, K>(ls: seq<L>, rs: seq<R>, lk: L -> K, rk: R -> K, l: L, r: R)
    ensures multiset(RightJoin(ls, rs, lk, rk))[Joined(Some(l), Some(r))] ==
              multiset(rs)[r] * (if lk(l) == rk(r) then multiset(ls)[l] else 0)
    ensures multiset(RightJoin(ls, rs, lk, rk))[Joined(None, Some(r))] ==
              if Unmatched(r, ls, rk, lk) then multiset(rs)[r] else 0
  {
    var s := LeftJoin(rs, ls, rk, lk);
    SwapMultiset(s, Joined(Some(l), Some(r)));
    SwapMultiset(s, Joined(None, Some(r)));
    LeftJoinMultiplicity(rs, ls, rk, lk, r, l);
  }

  /** One more row with `c` partners adds `c` pairs. */
  lemma CountStep(total: nat, before: nat, added: nat, n: nat, m: nat, c: nat, hit: bool)
    requires total == before + added && before == n * c
    requires added == (if hit then c else 0) && m == n + (if hit then 1 else 0)
    ensures total == m * c
  {
    if hit {
      assert m * c == n * c + c;
    }
  }

  lemma AppendAssoc<T>(x: seq<T>, y: seq<T>, z: seq<T>)
    ensures (x + y) + z == x + (y + z)
  {
  }
}

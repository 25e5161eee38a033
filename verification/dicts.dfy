/** Python's `dict`, built from a sequence of items.

    A dictionary is kept as its items in the order their keys were first
    inserted, the order `keys()` and `values()` follow. Assigning to a
    present key changes its value but not its place, so `dict(zip(ks, vs))`
    has one item per distinct key, in order of first appearance, holding the
    value of that key's last occurrence.
 */
module Dicts {
  import opened Wrappers
  import opened Frames

  type Dict<K, V> = seq<(K, V)>

  function Keys<K, V>(d: Dict<K, V>): (r: seq<K>)
    ensures |r| == |d|
  {
    Map(d, (p: (K, V)) => p.0)
  }

  function Values<K, V>(d: Dict<K, V>): (r: seq<V>)
    ensures |r| == |d|
  {
    Map(d, (p: (K, V)) => p.1)
  }

  /** `d[k] = v`. */
  function Put<K(==), V>(d: Dict<K, V>, k: K, v: V): Dict<K, V>
    decreases |d|
  {
    if d == [] then [(k, v)]
    else if d[0].0 == k then [(k, v)] + d[1..]
    else [d[0]] + Put(d[1..], k, v)
  }

  /** `d.get(k)`. */
  function Get<K(==), V>(d: Dict<K, V>, k: K): Option<V>
    decreases |d|
  {
    if d == [] then None else if d[0].0 == k then Some(d[0].1) else Get(d[1..], k)
  }

  /** Python's `zip`: pairs up to the shorter sequence. */
  function Zip<A, B>(a: seq<A>, b: seq<B>): (r: seq<(A, B)>)
    ensures |r| == if |a| < |b| then |a| else |b|
    ensures forall i :: 0 <= i < |r| ==> r[i] == (a[i], b[i])
  {
    seq(if |a| < |b| then |a| else |b|, i requires 0 <= i < |a| && i < |b| => (a[i], b[i]))
  }

  /** `dict(items)`: the items are assigned in turn. */
  function FromItems<K(==), V>(ps: seq<(K, V)>): Dict<K, V>
    decreases |ps|
  {
    if ps == [] then [] else Put(FromItems(ps[..|ps| - 1]), ps[|ps| - 1].0, ps[|ps| - 1].1)
  }

  /** The value of the last item with key `k`, or `None`. */
  function LastValue<K(==), V>(ps: seq<(K, V)>, k: K): Option<V>
    decreases |ps|
  {
    if ps == [] then None
    else if ps[|ps| - 1].0 == k then Some(ps[|ps| - 1].1)
    else LastValue(ps[..|ps| - 1], k)
  }

  // ---- one assignment ----

  lemma {:induction false} PutKeys<K, V>(d: Dict<K, V>, k: K, v: V)
    ensures Keys(Put(d, k, v)) == if k in Keys(d) then Keys(d) else Keys(d) + [k]
    decreases |d|
  {
    if d != [] {
      var t := d[1..];
      var p := Put(d, k, v);
      KeysCons(d);
      KeysCons(p);
      if d[0].0 != k {
        assert p[0] == d[0] && p[1..] == Put(t, k, v);
        PutKeys(t, k, v);
        assert k in Keys(d) <==> k in Keys(t);
      } else {
        assert p[0].0 == k && p[1..] == t;
      }
    }
  }

  /** The keys of a non-empty dictionary: its first key, then the rest. */
  lemma KeysCons<K, V>(d: Dict<K, V>)
    requires d != []
    ensures Keys(d) == [d[0].0] + Keys(d[1..])
  {
    assert forall i :: 1 <= i < |d| ==> Keys(d)[i] == Keys(d[1..])[i - 1];
  }

  lemma {:induction false} PutGet<K, V>(d: Dict<K, V>, k: K, v: V, k': K)
    ensures Get(Put(d, k, v), k') == if k' == k then Some(v) else Get(d, k')
    decreases |d|
  {
    if d != [] && d[0].0 != k {
      PutGet(d[1..], k, v, k');
      assert Put(d, k, v)[1..] == Put(d[1..], k, v);
    }
  }

  // ---- building from items ----

  /** The keys come out once each, in order of first appearance. */
  lemma {:induction false} FromItemsKeys<K, V>(ps: seq<(K, V)>)
    ensures Keys(FromItems(ps)) == Unique(Map(ps, (p: (K, V)) => p.0))
    decreases |ps|
  {
    var fst := (p: (K, V)) => p.0;
    if ps != [] {
      var t := ps[..|ps| - 1];
      var x := ps[|ps| - 1];
      FromItemsKeys(t);
      PutKeys(FromItems(t), x.0, x.1);
      assert Map(ps, fst) == Map(t, fst) + [x.0];
      UniqueSnoc(Map(t, fst), x.0);
      UniqueComplete(Map(t, fst));
    }
  }

  /** A lookup finds the value of the key's last item. */
  lemma {:induction false} FromItemsGet<K, V>(ps: seq<(K, V)>, k: K)
    ensures Get(FromItems(ps), k) == LastValue(ps, k)
    decreases |ps|
  {
    if ps != [] {
      var t := ps[..|ps| - 1];
      var x := ps[|ps| - 1];
      FromItemsGet(t, k);
      PutGet(FromItems(t), x.0, x.1, k);
    }
  }

  /** `LastValue` is the value of an item with key `k` that no later item
      overrides, and `None` only when no item has key `k`. */
  lemma {:induction false} LastValueSpec<K, V>(ps: seq<(K, V)>, k: K)
    ensures LastValue(ps, k).None? <==> forall i :: 0 <= i < |ps| ==> ps[i].0 != k
    ensures LastValue(ps, k).Some? ==>
              exists i :: 0 <= i < |ps| && ps[i] == (k, LastValue(ps, k).value)
                && forall j :: i < j < |ps| ==> ps[j].0 != k
    decreases |ps|
  {
    if ps != [] {
      var t := ps[..|ps| - 1];
      LastValueSpec(t, k);
      assert forall i :: 0 <= i < |t| ==> t[i] == ps[i];
      if ps[|ps| - 1].0 != k && LastValue(t, k).Some? {
        var i :| 0 <= i < |t| && t[i] == (k, LastValue(t, k).value) && forall j :: i < j < |t| ==> t[j].0 != k;
        assert ps[i] == (k, LastValue(ps, k).value);
      }
    }
  }

  /** The item at position `i` of a dictionary with distinct keys is what a
      lookup of its key finds. */
  lemma {:induction false} GetAt<K, V>(d: Dict<K, V>, i: nat)
    requires Distinct(Keys(d)) && i < |d|
    ensures Get(d, d[i].0) == Some(d[i].1)
    decreases i
  {
    if i > 0 {
      assert Keys(d)[0] != Keys(d)[i];
      assert Distinct(Keys(d[1..])) by {
        forall a, b | 0 <= a < b < |d[1..]|
          ensures Keys(d[1..])[a] != Keys(d[1..])[b]
        {
          assert Keys(d)[a + 1] != Keys(d)[b + 1];
        }
      }
      GetAt(d[1..], i - 1);
    }
  }

  /** `dict(zip(ks, vs))`: one item per distinct key, in order of first
      appearance, each holding the value of the key's last occurrence. */
  lemma DictOfZip<K, V>(ks: seq<K>, vs: seq<V>)
    requires |ks| == |vs|
    ensures Keys(FromItems(Zip(ks, vs))) == Unique(ks)
    ensures |FromItems(Zip(ks, vs))| == NUnique(ks)
    ensures forall i :: 0 <= i < |FromItems(Zip(ks, vs))| ==>
              Some(FromItems(Zip(ks, vs))[i].1) == LastValue(Zip(ks, vs), FromItems(Zip(ks, vs))[i].0)
  {
    var ps := Zip(ks, vs);
    var d := FromItems(ps);
    FromItemsKeys(ps);
    assert Map(ps, (p: (K, V)) => p.0) == ks;
    forall i | 0 <= i < |d|
      ensures Some(d[i].1) == LastValue(ps, d[i].0)
    {
      GetAt(d, i);
      FromItemsGet(ps, d[i].0);
    }
  }
}

/** The order `DataFrame.sort_values` puts rows in.

    A sort key is a sequence of parts, one per `by` column, each marked
    ascending or descending. Values are integers, text (compared as Python
    compares `str`: code point by code point, a proper prefix first) or NaN.
    NaN sorts last whatever the direction (`na_position='last'`). Keys are
    compared part by part.

    `CmpKey` is a total order: antisymmetric, transitive, and `Eq` only for
    equal keys.
 */
module Ordering {

  datatype Cmp = Lt | Eq | Gt

  function Flip(c: Cmp): Cmp {
    match c
    case Lt => Gt
    case Eq => Eq
    case Gt => Lt
  }

  function CmpInt(a: int, b: int): Cmp {
    if a < b then Lt else if a == b then Eq else Gt
  }

  /** Python `str` comparison. */
  function CmpText(a: string, b: string): Cmp
    decreases |a|
  {
    if a == [] then (if b == [] then Eq else Lt)
    else if b == [] then Gt
    else if a[0] < b[0] then Lt
    else if a[0] > b[0] then Gt
    else CmpText(a[1..], b[1..])
  }

  datatype Atom = Num(n: int) | Text(s: string) | Null

  /** Values of one column: NaN after everything else. */
  function CmpAtom(a: Atom, b: Atom): Cmp {
    match (a, b)
    case (Null, Null) => Eq
    case (Null, _) => Gt
    case (_, Null) => Lt
    case (Num(x), Num(y)) => CmpInt(x, y)
    case (Num(_), Text(_)) => Lt
    case (Text(_), Num(_)) => Gt
    case (Text(x), Text(y)) => CmpText(x, y)
  }

  datatype KeyPart = Asc(atom: Atom) | Desc(atom: Atom)

  type SortKey = seq<KeyPart>

  /** One `by` column; a descending column reverses the order of its non-NaN
      values only. */
  function CmpPart(p: KeyPart, q: KeyPart): Cmp {
    match (p, q)
    case (Asc(a), Asc(b)) => CmpAtom(a, b)
    case (Desc(a), Desc(b)) => if a.Null? || b.Null? then CmpAtom(a, b) else Flip(CmpAtom(a, b))
    case (Asc(_), Desc(_)) => Lt
    case (Desc(_), Asc(_)) => Gt
  }

  /** Column by column, the first difference decides. */
  function CmpKey(a: SortKey, b: SortKey): Cmp
    decreases |a|
  {
    if a == [] then (if b == [] then Eq else Lt)
    else if b == [] then Gt
    else
      var c := CmpPart(a[0], b[0]);
      if c != Eq then c else CmpKey(a[1..], b[1..])
  }

  predicate Le(a: SortKey, b: SortKey) {
    CmpKey(a, b) != Gt
  }

  // ---- text ----

  lemma {:induction false} CmpTextFlip(a: string, b: string)
    ensures CmpText(b, a) == Flip(CmpText(a, b))
    decreases |a|
  {
    if a != [] && b != [] && a[0] == b[0] {
      CmpTextFlip(a[1..], b[1..]);
    }
  }

  lemma {:induction false} CmpTextEq(a: string, b: string)
    ensures CmpText(a, b) == Eq <==> a == b
    decreases |a|
  {
    if a != [] && b != [] && a[0] == b[0] {
      CmpTextEq(a[1..], b[1..]);
      if a[1..] == b[1..] {
        assert a == [a[0]] + a[1..] && b == [b[0]] + b[1..];
      }
    }
  }

  lemma {:induction false} CmpTextTrans(a: string, b: string, c: string)
    requires CmpText(a, b) != Gt && CmpText(b, c) != Gt
    ensures CmpText(a, c) != Gt
    decreases |a|
  {
    if a != [] && b != [] && c != [] && a[0] == b[0] && b[0] == c[0] {
      CmpTextTrans(a[1..], b[1..], c[1..]);
    }
  }

  // ---- values ----

  lemma CmpAtomFlip(a: Atom, b: Atom)
    ensures CmpAtom(b, a) == Flip(CmpAtom(a, b))
  {
    if a.Text? && b.Text? {
      CmpTextFlip(a.s, b.s);
    }
  }

  lemma CmpAtomEq(a: Atom, b: Atom)
    ensures CmpAtom(a, b) == Eq <==> a == b
  {
    if a.Text? && b.Text? {
      CmpTextEq(a.s, b.s);
    }
  }

  lemma CmpAtomTrans(a: Atom, b: Atom, c: Atom)
    requires CmpAtom(a, b) != Gt && CmpAtom(b, c) != Gt
    ensures CmpAtom(a, c) != Gt
  {
    if a.Text? && b.Text? && c.Text? {
      CmpTextTrans(a.s, b.s, c.s);
    }
  }

  // ---- one column ----

  lemma CmpPartFlip(p: KeyPart, q: KeyPart)
    ensures CmpPart(q, p) == Flip(CmpPart(p, q))
  {
    CmpAtomFlip(p.atom, q.atom);
  }

  lemma CmpPartEq(p: KeyPart, q: KeyPart)
    ensures CmpPart(p, q) == Eq <==> p == q
  {
    CmpAtomEq(p.atom, q.atom);
  }

  lemma CmpPartTrans(p: KeyPart, q: KeyPart, r: KeyPart)
    requires CmpPart(p, q) != Gt && CmpPart(q, r) != Gt
    ensures CmpPart(p, r) != Gt
  {
    match (p, q, r)
    case (Asc(a), Asc(b), Asc(c)) =>
      CmpAtomTrans(a, b, c);
    case (Desc(a), Desc(b), Desc(c)) =>
      CmpAtomFlip(a, b);
      CmpAtomFlip(b, c);
      CmpAtomFlip(a, c);
      if !a.Null? && !b.Null? && !c.Null? {
        CmpAtomTrans(c, b, a);
      }
    case _ =>
  }

  // ---- whole keys ----

  lemma {:induction false} CmpKeyFlip(a: SortKey, b: SortKey)
    ensures CmpKey(b, a) == Flip(CmpKey(a, b))
    decreases |a|
  {
    if a != [] && b != [] {
      CmpPartFlip(a[0], b[0]);
      CmpKeyFlip(a[1..], b[1..]);
    }
  }

  lemma {:induction false} CmpKeyEq(a: SortKey, b: SortKey)
    ensures CmpKey(a, b) == Eq <==> a == b
    decreases |a|
  {
    if a != [] && b != [] {
      CmpPartEq(a[0], b[0]);
      CmpKeyEq(a[1..], b[1..]);
      if a[0] == b[0] && a[1..] == b[1..] {
        assert a == [a[0]] + a[1..] && b == [b[0]] + b[1..];
      }
    }
  }

  lemma {:induction false} CmpKeyTrans(a: SortKey, b: SortKey, c: SortKey)
    requires CmpKey(a, b) != Gt && CmpKey(b, c) != Gt
    ensures CmpKey(a, c) != Gt
    decreases |a|
  {
    if a != [] && b != [] && c != [] {
      CmpPartTrans(a[0], b[0], c[0]);
      CmpPartEq(a[0], b[0]);
      CmpPartEq(b[0], c[0]);
      CmpPartEq(a[0], c[0]);
      if a[0] == b[0] && b[0] == c[0] {
        CmpKeyTrans(a[1..], b[1..], c[1..]);
      } else if a[0] == c[0] {
        CmpPartFlip(a[0], b[0]);
      }
    }
  }

  /** `Le` is a total order on keys. */
  lemma LeTotal(a: SortKey, b: SortKey)
    ensures Le(a, b) || Le(b, a)
  {
    CmpKeyFlip(a, b);
  }

  lemma LeTrans(a: SortKey, b: SortKey, c: SortKey)
    requires Le(a, b) && Le(b, c)
    ensures Le(a, c)
  {
    CmpKeyTrans(a, b, c);
  }

  lemma LeAntisym(a: SortKey, b: SortKey)
    requires Le(a, b) && Le(b, a)
    ensures a == b
  {
    CmpKeyFlip(a, b);
    CmpKeyEq(a, b);
  }

  lemma LeRefl(a: SortKey)
    ensures Le(a, a)
  {
    CmpKeyEq(a, a);
  }

  /** Two keys that agree on their first part compare by the rest. */
  lemma LeSameHead(p: KeyPart, a: SortKey, b: SortKey)
    ensures Le([p] + a, [p] + b) <==> Le(a, b)
  {
    CmpPartEq(p, p);
    assert ([p] + a)[1..] == a && ([p] + b)[1..] == b;
  }

  /** With equal first parts, a descending integer second part means the
      earlier key has the larger value. */
  lemma LeDescInt(p: KeyPart, x: int, y: int, a: SortKey, b: SortKey)
    requires Le([p, Desc(Num(x))] + a, [p, Desc(Num(y))] + b)
    ensures x >= y
  {
    CmpPartEq(p, p);
    var ka := [p, Desc(Num(x))] + a;
    var kb := [p, Desc(Num(y))] + b;
    assert ka[0] == p && kb[0] == p && ka[1..][0] == Desc(Num(x)) && kb[1..][0] == Desc(Num(y));
    assert CmpKey(ka, kb) == CmpKey(ka[1..], kb[1..]);
    assert CmpPart(Desc(Num(x)), Desc(Num(y))) == Flip(CmpInt(x, y));
  }
}

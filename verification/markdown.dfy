/** `convert_to_markdown`: turning short upper-case lines into headings.

    The text is split on the three characters backslash, backslash, `n`
    (the Python literal `"\\\\n"`, which is not a newline), every segment
    whose stripped form is upper case and shorter than 50 characters is
    replaced by `"## "` and that stripped form, and the segments are joined
    back with the same three characters.
 */
module Markdown {
  import opened Frames

  /** The separator: backslash, backslash, `n`. */
  const Sep: string := ['\\', '\\', 'n']

  /** Headings are made only of stripped segments shorter than this. */
  const HeadingLimit: nat := 50

  const HeadingMark: string := "## "

  // ---- split and join ----

  /** The separator occurs in `s` at position `i`. */
  predicate SepAt(s: string, i: nat) {
    i + 3 <= |s| && s[i] == Sep[0] && s[i + 1] == Sep[1] && s[i + 2] == Sep[2]
  }

  /** `s` holds no occurrence of the separator. */
  predicate NoSep(s: string) {
    forall i :: 0 <= i < |s| ==> !SepAt(s, i)
  }

  /** `s.split(Sep)`: the pieces between leftmost non-overlapping
      occurrences of the separator. */
  function Split(s: string): (r: seq<string>)
    ensures |r| >= 1
    ensures r[0] <= s
    decreases |s|
  {
    if |s| < |Sep| then [s]
    else if SepAt(s, 0) then [""] + Split(s[|Sep|..])
    else
      var r := Split(s[1..]);
      [[s[0]] + r[0]] + r[1..]
  }

  /** `Sep.join(parts)`. */
  function Join(parts: seq<string>): string
    requires |parts| >= 1
    decreases |parts|
  {
    if |parts| == 1 then parts[0] else parts[0] + Sep + Join(parts[1..])
  }

  lemma {:induction false} JoinGrowHead(c: char, parts: seq<string>)
    requires |parts| >= 1
    ensures Join([[c] + parts[0]] + parts[1..]) == [c] + Join(parts)
  {
    var q := [[c] + parts[0]] + parts[1..];
    assert |q| == |parts| && q[0] == [c] + parts[0];
    if |parts| > 1 {
      assert q[1..] == parts[1..];
      var rest := Join(parts[1..]);
      assert Join(q) == ([c] + parts[0]) + Sep + rest;
      assert Join(parts) == parts[0] + Sep + rest;
      assert ([c] + parts[0]) + Sep + rest == [c] + (parts[0] + Sep + rest);
    }
  }

  /** Joining the pieces of a split gives the text back. */
  lemma {:induction false} SplitJoin(s: string)
    ensures Join(Split(s)) == s
    decreases |s|
  {
    if |s| < |Sep| {
    } else if SepAt(s, 0) {
      SplitJoin(s[|Sep|..]);
      var r := Split(s[|Sep|..]);
      assert Split(s) == [""] + r;
      assert ([""] + r)[1..] == r;
      assert s[..|Sep|] == Sep;
      assert s == s[..|Sep|] + s[|Sep|..];
    } else {
      SplitJoin(s[1..]);
      var r := Split(s[1..]);
      JoinGrowHead(s[0], r);
      assert s == [s[0]] + s[1..];
    }
  }

  lemma NoSepSlice(s: string, i: nat, j: nat)
    requires NoSep(s) && i <= j <= |s|
    ensures NoSep(s[i..j])
  {
    forall k | 0 <= k < j - i
      ensures !SepAt(s[i..j], k)
    {
      assert !SepAt(s, i + k);
      if k + 3 <= j - i {
        assert s[i..j][k] == s[i + k] && s[i..j][k + 1] == s[i + k + 1] && s[i..j][k + 2] == s[i + k + 2];
      }
    }
  }

  /** No piece of a split holds the separator. */
  lemma {:induction false} SplitNoSep(s: string)
    ensures forall p :: p in Split(s) ==> NoSep(p)
    decreases |s|
  {
    if |s| < |Sep| {
    } else if SepAt(s, 0) {
      SplitNoSep(s[|Sep|..]);
    } else {
      SplitNoSep(s[1..]);
      var r := Split(s[1..]);
      var h := [s[0]] + r[0];
      assert h <= s;
      assert NoSep(h) by {
        assert r[0] in r;
        forall k | 0 <= k < |h|
          ensures !SepAt(h, k)
        {
          if k == 0 {
            if |h| >= 3 {
              assert h[0] == s[0] && h[1] == s[1] && h[2] == s[2];
            }
          } else {
            assert !SepAt(r[0], k - 1);
            if k + 3 <= |h| {
              assert h[k] == r[0][k - 1] && h[k + 1] == r[0][k] && h[k + 2] == r[0][k + 1];
            }
          }
        }
      }
      assert forall p :: p in Split(s) ==> p == h || p in r[1..];
    }
  }

  /** A piece without the separator splits to itself. */
  lemma {:induction false} SplitSingle(p: string)
    requires NoSep(p)
    ensures Split(p) == [p]
    decreases |p|
  {
    if |p| >= |Sep| {
      assert !SepAt(p, 0);
      NoSepSlice(p, 1, |p|);
      assert p[1..|p|] == p[1..];
      SplitSingle(p[1..]);
      assert [p[0]] + p[1..] == p;
    }
  }

  /** A piece without the separator, then the separator, splits off as
      the first piece. */
  lemma {:induction false} SplitFirst(a: string, rest: string)
    requires NoSep(a)
    ensures Split(a + Sep + rest) == [a] + Split(rest)
    decreases |a|
  {
    var s := a + Sep + rest;
    if a == [] {
      assert s == Sep + rest;
      assert SepAt(s, 0) && s[3..] == rest;
    } else {
      assert !SepAt(s, 0) by {
        if |a| >= 3 {
          assert !SepAt(a, 0);
        } else {
          assert s[2] == '\\';
        }
      }
      NoSepSlice(a, 1, |a|);
      assert a[1..|a|] == a[1..];
      assert s[1..] == a[1..] + Sep + rest;
      SplitFirst(a[1..], rest);
      assert [a[0]] + a[1..] == a;
    }
  }

  /** Splitting a join of separator-free pieces gives the pieces back. */
  lemma {:induction false} JoinSplit(parts: seq<string>)
    requires |parts| >= 1
    requires forall p :: p in parts ==> NoSep(p)
    ensures Split(Join(parts)) == parts
    decreases |parts|
  {
    if |parts| == 1 {
      SplitSingle(parts[0]);
    } else {
      JoinSplit(parts[1..]);
      SplitFirst(parts[0], Join(parts[1..]));
      assert [parts[0]] + parts[1..] == parts;
    }
  }

  // ---- strip and isupper ----

  /** Python's `str.isspace` for one character. */
  predicate IsSpace(c: char) {
    var n := c as int;
    (9 <= n <= 13) || (28 <= n <= 32) || n == 0x85 || n == 0xA0 || n == 0x1680
    || (0x2000 <= n <= 0x200A) || n == 0x2028 || n == 0x2029 || n == 0x202F || n == 0x205F || n == 0x3000
  }

  /** The number of leading whitespace characters. */
  function Lead(s: string): (n: nat)
    ensures n <= |s|
    ensures forall i :: 0 <= i < n ==> IsSpace(s[i])
    ensures n < |s| ==> !IsSpace(s[n])
  {
    if s == [] || !IsSpace(s[0]) then 0 else 1 + Lead(s[1..])
  }

  /** The number of trailing whitespace characters. */
  function Trail(s: string): (n: nat)
    ensures n <= |s|
    ensures forall i :: |s| - n <= i < |s| ==> IsSpace(s[i])
    ensures n < |s| ==> !IsSpace(s[|s| - n - 1])
  {
    if s == [] || !IsSpace(s[|s| - 1]) then 0 else 1 + Trail(s[..|s| - 1])
  }

  /** The text left after cutting the leading and then the trailing
      whitespace. */
  function Trimmed(s: string): string {
    var t := s[Lead(s)..];
    t[..|t| - Trail(t)]
  }

  lemma TrimmedSlice(s: string)
    ensures Lead(s) + |Trimmed(s)| <= |s|
    ensures Trimmed(s) == s[Lead(s)..Lead(s) + |Trimmed(s)|]
  {
  }

  lemma TrimmedTrail(s: string)
    ensures Lead(s) + |Trimmed(s)| <= |s|
    ensures forall i :: Lead(s) + |Trimmed(s)| <= i < |s| ==> IsSpace(s[i])
  {
    var a := Lead(s);
    var t := s[a..];
    var b := Trail(t);
    assert |Trimmed(s)| == |t| - b;
    forall i | a + |Trimmed(s)| <= i < |s|
      ensures IsSpace(s[i])
    {
      assert |t| - b <= i - a < |t|;
      assert IsSpace(t[i - a]);
      assert s[i] == t[i - a];
    }
  }

  lemma TrimmedEnds(s: string)
    ensures Trimmed(s) == [] || (!IsSpace(Trimmed(s)[0]) && !IsSpace(Trimmed(s)[|Trimmed(s)| - 1]))
  {
    var a := Lead(s);
    var t := s[a..];
    var r := Trimmed(s);
    if r != [] {
      assert r[0] == s[a];
      assert r[|r| - 1] == t[|t| - Trail(t) - 1];
    }
  }

  /** `str.strip()`: the text between the leading and the trailing
      whitespace. */
  function Strip(s: string): (r: string)
    ensures Lead(s) + |r| <= |s|
    ensures r == s[Lead(s)..Lead(s) + |r|]
    ensures forall i :: 0 <= i < Lead(s) ==> IsSpace(s[i])
    ensures forall i :: Lead(s) + |r| <= i < |s| ==> IsSpace(s[i])
    ensures r == [] || (!IsSpace(r[0]) && !IsSpace(r[|r| - 1]))
  {
    TrimmedSlice(s);
    TrimmedTrail(s);
    TrimmedEnds(s);
    Trimmed(s)
  }

  /** Stripping twice strips no more. */
  lemma StripIdempotent(s: string)
    ensures Strip(Strip(s)) == Strip(s)
  {
    var r := Strip(s);
    if r != [] {
      assert Lead(r) == 0;
      assert Trail(r) == 0;
    }
  }

  predicate IsLower(c: char) { 'a' <= c <= 'z' }
  predicate IsUpperChar(c: char) { 'A' <= c <= 'Z' }

  /** `str.isupper()` over ASCII letters: some letter, none lower case. */
  predicate IsUpper(s: string) {
    (exists i :: 0 <= i < |s| && IsUpperChar(s[i])) && forall i :: 0 <= i < |s| ==> !IsLower(s[i])
  }

  // ---- the conversion ----

  /** The heading test of a segment. */
  predicate Qualifies(seg: string) {
    IsUpper(Strip(seg)) && |Strip(seg)| < HeadingLimit
  }

  function Heading(seg: string): string {
    if Qualifies(seg) then HeadingMark + Strip(seg) else seg
  }

  /** `convert_to_markdown`. */
  function Convert(text: string): string {
    Join(Map(Split(text), Heading))
  }

  lemma HeadingNoSep(seg: string)
    requires NoSep(seg)
    ensures NoSep(Heading(seg))
  {
    if Qualifies(seg) {
      var st := Strip(seg);
      NoSepSlice(seg, Lead(seg), Lead(seg) + |st|);
      var h := HeadingMark + st;
      forall k | 0 <= k < |h|
        ensures !SepAt(h, k)
      {
        if k >= 3 {
          assert !SepAt(st, k - 3);
          if k + 3 <= |h| {
            assert h[k] == st[k - 3] && h[k + 1] == st[k - 2] && h[k + 2] == st[k - 1];
          }
        }
      }
    }
  }

  /** The output has as many segments as the input, and segment `i` of the
      output is the heading made of input segment `i` when that segment
      qualifies, and that segment unchanged, whitespace included, when not. */
  lemma ConvertSegments(text: string)
    ensures |Split(Convert(text))| == |Split(text)|
    ensures forall i :: 0 <= i < |Split(text)| ==>
              Split(Convert(text))[i] == if Qualifies(Split(text)[i]) then HeadingMark + Strip(Split(text)[i]) else Split(text)[i]
  {
    var segs := Split(text);
    var out := Map(segs, Heading);
    SplitNoSep(text);
    forall p | p in out
      ensures NoSep(p)
    {
      var i :| 0 <= i < |segs| && out[i] == p;
      assert segs[i] in segs;
      HeadingNoSep(segs[i]);
    }
    JoinSplit(out);
  }

  /** A text with no qualifying segment comes back unchanged. */
  lemma ConvertIdentity(text: string)
    requires forall seg :: seg in Split(text) ==> !Qualifies(seg)
    ensures Convert(text) == text
  {
    var segs := Split(text);
    assert Map(segs, Heading) == segs by {
      forall i | 0 <= i < |segs|
        ensures Map(segs, Heading)[i] == segs[i]
      {
        assert segs[i] in segs;
      }
    }
    SplitJoin(text);
  }

  /** A text that neither starts nor ends with whitespace strips to itself. */
  lemma StripPlain(s: string)
    requires s != [] && !IsSpace(s[0]) && !IsSpace(s[|s| - 1])
    ensures Strip(s) == s
  {
    assert Lead(s) == 0;
    assert Trail(s[0..]) == 0 by { assert s[0..] == s; }
  }

  /** A segment with no separator that strips to itself, holds the
      upper-case letter at `k` and no lower-case letter. */
  predicate PlainUpper(seg: string, k: nat) {
    NoSep(seg) && seg != [] && !IsSpace(seg[0]) && !IsSpace(seg[|seg| - 1])
    && k < |seg| && IsUpperChar(seg[k]) && forall i :: 0 <= i < |seg| ==> !IsLower(seg[i])
  }

  /** A short such segment is converted to a heading. */
  lemma ConvertPlainUpper(seg: string, k: nat)
    requires PlainUpper(seg, k) && |seg| < HeadingLimit
    ensures Convert(seg) == HeadingMark + seg
  {
    SplitSingle(seg);
    StripPlain(seg);
    assert IsUpper(Strip(seg));
    assert Heading(seg) == HeadingMark + seg;
    assert Map(Split(seg), Heading) == [HeadingMark + seg];
  }

  /** Marking such a segment as a heading leaves it such a segment. */
  lemma MarkedPlainUpper(seg: string, k: nat)
    requires PlainUpper(seg, k)
    ensures PlainUpper(HeadingMark + seg, k + 3)
  {
    var h := HeadingMark + seg;
    forall i | 0 <= i < |h|
      ensures !SepAt(h, i)
    {
      if i >= 3 {
        assert !SepAt(seg, i - 3);
        if i + 3 <= |h| {
          assert h[i] == seg[i - 3] && h[i + 1] == seg[i - 2] && h[i + 2] == seg[i - 1];
        }
      } else {
        assert h[i] != Sep[0];
      }
    }
    assert |h| == |seg| + 3 && h[0] == '#' && h[|h| - 1] == seg[|seg| - 1];
    assert h[k + 3] == seg[k];
    forall i | 0 <= i < |h|
      ensures !IsLower(h[i])
    {
      if i >= 3 {
        assert h[i] == seg[i - 3];
      }
    }
  }

  /** A short heading-like segment is marked again when converted a second
      time: converting is not idempotent. */
  lemma ConvertTwice(seg: string, k: nat)
    requires PlainUpper(seg, k) && |seg| + |HeadingMark| < HeadingLimit
    ensures Convert(seg) == HeadingMark + seg
    ensures Convert(Convert(seg)) == HeadingMark + (HeadingMark + seg)
    ensures Convert(Convert(seg)) != Convert(seg)
  {
    ConvertPlainUpper(seg, k);
    MarkedPlainUpper(seg, k);
    ConvertPlainUpper(HeadingMark + seg, k + 3);
  }

  /** `"A"` becomes `"## A"` and then `"## ## A"`. */
  lemma ConvertNotIdempotent()
    ensures Convert(Convert("A")) != Convert("A")
  {
    var a := "A";
    assert NoSep(a);
    assert PlainUpper(a, 0);
    ConvertTwice(a, 0);
  }
}

/** Cell cleaning applied right after a sheet is read.

    Every script first replaces an empty cell by the text `"missing"` and
    renders the value as text (`fillna('missing').astype(str)`). Some then
    delete characters with a regular-expression replace:

      - `[^\x00-\x7F#&;]+` deletes every character outside ASCII (`#`, `&`
        and `;` are ASCII already, so they change nothing);
      - `[^a-zA-Z0-9 ]` deletes everything but ASCII letters, digits and
        the space, after which deleting `\n` has nothing left to delete.

    A regular-expression delete of a one-character class is a character
    filter, so both are `Where` on the string.
 */
module Cleaning {
  import opened Wrappers
  import opened Frames

  /** The text written in place of an empty cell. */
  const Missing: string := "missing"

  /** `fillna('missing')`; the cell value is given as its text rendering. */
  function FillMissing(c: Option<string>): string {
    c.GetOr(Missing)
  }

  predicate IsAscii(c: char) {
    c as int < 128
  }

  predicate IsAlnumSpace(c: char) {
    ('a' <= c <= 'z') || ('A' <= c <= 'Z') || ('0' <= c <= '9') || c == ' '
  }

  /** `str.replace(r'[^\x00-\x7F#&;]+', '')`. */
  function StripNonAscii(s: string): (r: string)
    ensures forall c :: c in r ==> IsAscii(c)
  {
    Where(s, IsAscii)
  }

  /** `str.replace(r'[^a-zA-Z0-9 ]', '')`. */
  function KeepAlnumSpace(s: string): (r: string)
    ensures forall c :: c in r ==> IsAlnumSpace(c)
  {
    Where(s, IsAlnumSpace)
  }

  /** `str.replace(r'\n', '')`. */
  function DropNewlines(s: string): (r: string)
    ensures '\n' !in r
  {
    Where(s, (c: char) => c != '\n')
  }

  /** The cleaners a script may apply to every cell after filling. */
  datatype Cleaner = AsText | AsciiOnly | AlnumSpaceOnly

  function Clean(k: Cleaner, s: string): string {
    match k
    case AsText => s
    case AsciiOnly => StripNonAscii(s)
    case AlnumSpaceOnly => DropNewlines(KeepAlnumSpace(s))
  }

  function CleanCell(k: Cleaner, c: Option<string>): string {
    Clean(k, FillMissing(c))
  }

  // ---- properties of the filters ----

  /** Stripping keeps every ASCII character, in order and with its
      multiplicity, and nothing else. */
  lemma StripNonAsciiSpec(s: string)
    ensures IsSubseq(StripNonAscii(s), s)
    ensures forall c :: multiset(StripNonAscii(s))[c] == if IsAscii(c) then multiset(s)[c] else 0
  {
    WhereIsSubseq(s, IsAscii);
    forall c
      ensures multiset(StripNonAscii(s))[c] == if IsAscii(c) then multiset(s)[c] else 0
    {
      WhereMultiset(s, IsAscii, c);
    }
  }

  lemma StripNonAsciiIdempotent(s: string)
    ensures StripNonAscii(StripNonAscii(s)) == StripNonAscii(s)
  {
    WhereAll(StripNonAscii(s), IsAscii);
  }

  /** Text that is ASCII already comes through unchanged. */
  lemma StripNonAsciiKeepsAscii(s: string)
    requires forall c :: c in s ==> IsAscii(c)
    ensures StripNonAscii(s) == s
  {
    WhereAll(s, IsAscii);
  }

  /** The replace works character by character, so it commutes with
      concatenation. */
  lemma StripNonAsciiConcat(a: string, b: string)
    ensures StripNonAscii(a + b) == StripNonAscii(a) + StripNonAscii(b)
  {
    WhereConcat(a, b, IsAscii);
  }

  lemma KeepAlnumSpaceSpec(s: string)
    ensures IsSubseq(KeepAlnumSpace(s), s)
    ensures forall c :: multiset(KeepAlnumSpace(s))[c] == if IsAlnumSpace(c) then multiset(s)[c] else 0
  {
    WhereIsSubseq(s, IsAlnumSpace);
    forall c
      ensures multiset(KeepAlnumSpace(s))[c] == if IsAlnumSpace(c) then multiset(s)[c] else 0
    {
      WhereMultiset(s, IsAlnumSpace, c);
    }
  }

  lemma KeepAlnumSpaceIdempotent(s: string)
    ensures KeepAlnumSpace(KeepAlnumSpace(s)) == KeepAlnumSpace(s)
  {
    WhereAll(KeepAlnumSpace(s), IsAlnumSpace);
  }

  /** After the letter/digit/space filter there is no newline left, so the
      newline delete that follows it changes nothing. */
  lemma DropNewlinesAfterAlnum(s: string)
    ensures DropNewlines(KeepAlnumSpace(s)) == KeepAlnumSpace(s)
  {
    WhereAll(KeepAlnumSpace(s), (c: char) => c != '\n');
  }

  /** Every character the letter/digit/space cleaner keeps is ASCII, so the
      ASCII cleaner has nothing left to remove. */
  lemma AlnumSpaceIsAscii(s: string)
    ensures StripNonAscii(Clean(AlnumSpaceOnly, s)) == Clean(AlnumSpaceOnly, s)
  {
    DropNewlinesAfterAlnum(s);
    StripNonAsciiKeepsAscii(KeepAlnumSpace(s));
  }

  /** An empty cell is read as `"missing"` under every cleaner, since that
      word survives each filter. */
  lemma MissingSurvives(k: Cleaner)
    ensures CleanCell(k, None) == Missing
  {
    StripNonAsciiKeepsAscii(Missing);
    WhereAll(Missing, IsAlnumSpace);
    WhereAll(Missing, (c: char) => c != '\n');
  }
}

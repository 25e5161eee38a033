/** `write_to_excel`: one sheet per topic, each comment-level row folded
    into a wide row.

    For a topic, the seven message-level columns of its rows are flattened
    row by row into one list of cells, and the header list
    `HEC1_conv_message_id … HEC4_total_likes` (four slots of seven columns)
    is repeated once per distinct non-empty title. The script asserts that
    the two lists have the same length and then deals the cells out to the
    headers in turn with a `defaultdict(list)`: wide row `j` gets the cells
    of rows `4j … 4j+3`. The article-level columns (all the others) are
    deduplicated and placed beside the wide rows. The sheet is named after
    the topic, cut to 31 characters.
 */
module Reshape {
  import opened Wrappers
  import opened Frames
  import opened Ordering
  import opened Compile
  import opened TopN

  // ---- text of numbers ----

  predicate IsDigit(c: char) {
    '0' <= c <= '9'
  }

  function DigitChar(d: nat): (c: char)
    requires d < 10
    ensures IsDigit(c)
  {
    ('0' as int + d) as char
  }

  /** `str(n)` for a natural number: decimal, no leading zeros. */
  function NatText(n: nat): (s: string)
    ensures |s| >= 1
    ensures forall i :: 0 <= i < |s| ==> IsDigit(s[i])
    ensures |s| == 1 <==> n < 10
    decreases n
  {
    if n < 10 then [DigitChar(n)] else NatText(n / 10) + [DigitChar(n % 10)]
  }

  /** `str(i)` for an integer. */
  function IntText(i: int): (s: string)
    ensures |s| >= 1
  {
    if i < 0 then "-" + NatText(-i) else NatText(i)
  }

  /** Different numbers are written differently. */
  lemma {:induction false} NatTextInjective(a: nat, b: nat)
    requires NatText(a) == NatText(b)
    ensures a == b
    decreases a
  {
    if a >= 10 && b >= 10 {
      var sa := NatText(a);
      assert sa[..|sa| - 1] == NatText(a / 10);
      assert NatText(b)[..|sa| - 1] == NatText(b / 10);
      NatTextInjective(a / 10, b / 10);
      assert sa[|sa| - 1] == DigitChar(a % 10);
      assert NatText(b)[|sa| - 1] == DigitChar(b % 10);
    } else if a < 10 && b < 10 {
      assert NatText(a)[0] == DigitChar(a);
      assert NatText(b)[0] == DigitChar(b);
    }
  }

  lemma IntTextInjective(a: int, b: int)
    requires IntText(a) == IntText(b)
    ensures a == b
  {
    var s := IntText(a);
    if a < 0 {
      assert s[0] == '-';
      assert b < 0 by {
        assert IntText(b)[0] == '-';
        assert !IsDigit('-');
      }
      assert s[1..] == NatText(-a);
      assert IntText(b)[1..] == NatText(-b);
      NatTextInjective(-a, -b);
    } else {
      assert IsDigit(s[0]);
      assert b >= 0 by {
        assert IsDigit(IntText(b)[0]);
      }
      NatTextInjective(a, b);
    }
  }

  // ---- the wide header ----

  /** `message_level_cols`. */
  const MessageCols: seq<string> :=
    ["conv_message_id", "author_id", "text_content", "final_state", "message_id", "total_views", "total_likes"]

  /** The seven message-level cells of a row, in `MessageCols` order. */
  function MessageCells(r: CompiledRow): (cells: seq<Atom>)
    ensures |cells| == |MessageCols|
  {
    [TextAtom(r.convMessageId), TextAtom(r.authorId), TextAtom(r.textContent), TextAtom(r.finalState),
     TextAtom(r.messageId), Num(r.totalViews), Num(r.totalLikes)]
  }

  /** `f'HEC{n}_{col}'`. */
  function HeaderName(n: nat, col: string): string {
    "HEC" + NatText(n) + "_" + col
  }

  /** `new_col_names` for slots `1 … slots`, slot by slot. */
  function Headers(slots: nat): (r: seq<string>)
    ensures |r| == 7 * slots
  {
    if slots == 0 then [] else Headers(slots - 1) + Map(MessageCols, (col: string) => HeaderName(slots, col))
  }

  /** Header `7n + k` belongs to slot `n + 1` and column `k`. */
  lemma {:induction false} HeadersAt(slots: nat, n: nat, k: nat)
    requires n < slots && k < 7
    ensures Headers(slots)[7 * n + k] == HeaderName(n + 1, MessageCols[k])
    decreases slots
  {
    var prev := Headers(slots - 1);
    var last := Map(MessageCols, (col: string) => HeaderName(slots, col));
    assert Headers(slots) == prev + last;
    assert |prev| == 7 * (slots - 1);
    if n < slots - 1 {
      HeadersAt(slots - 1, n, k);
      assert 7 * n + k < |prev|;
      assert Headers(slots)[7 * n + k] == prev[7 * n + k];
    } else {
      assert 7 * n + k == |prev| + k;
      assert Headers(slots)[7 * n + k] == last[k];
    }
  }

  /** Equal header names have equal slots and equal columns: the digits of
      the slot end at the first underscore. */
  lemma HeaderNameInjective(n: nat, c: string, m: nat, d: string)
    requires HeaderName(n, c) == HeaderName(m, d)
    ensures n == m && c == d
  {
    var a := NatText(n);
    var b := NatText(m);
    var s := HeaderName(n, c);
    assert s == "HEC" + a + "_" + c;
    assert s == "HEC" + b + "_" + d;
    assert s[3 + |a|] == '_';
    assert s[3 + |b|] == '_';
    assert forall i :: 3 <= i < 3 + |a| ==> s[i] == a[i - 3];
    assert forall i :: 3 <= i < 3 + |b| ==> s[i] == b[i - 3];
    assert |a| == |b|;
    assert a == s[3..3 + |a|] == b;
    NatTextInjective(n, m);
    assert c == s[4 + |a|..] == d;
  }

  lemma HeaderNameDistinct(n: nat, c: string, m: nat, d: string)
    requires n != m || c != d
    ensures HeaderName(n, c) != HeaderName(m, d)
  {
    if HeaderName(n, c) == HeaderName(m, d) {
      HeaderNameInjective(n, c, m, d);
    }
  }

  lemma MessageColsDistinct()
    ensures Distinct(MessageCols)
  {
    assert "final_state"[0] != "total_views"[0];
    assert "total_views"[6] != "total_likes"[6];
  }

  lemma HeadersPairDistinct(slots: nat, ni: nat, ki: nat, nj: nat, kj: nat)
    requires ni < slots && nj < slots && ki < 7 && kj < 7
    requires ni != nj || ki != kj
    ensures Headers(slots)[7 * ni + ki] != Headers(slots)[7 * nj + kj]
  {
    MessageColsDistinct();
    HeadersAt(slots, ni, ki);
    HeadersAt(slots, nj, kj);
    assert ni != nj || MessageCols[ki] != MessageCols[kj];
    HeaderNameDistinct(ni + 1, MessageCols[ki], nj + 1, MessageCols[kj]);
  }

  /** The header names are all different, so no two columns share a list. */
  lemma HeadersDistinct(slots: nat)
    ensures Distinct(Headers(slots))
  {
    var h := Headers(slots);
    forall i, j | 0 <= i < j < |h|
      ensures h[i] != h[j]
    {
      var ni, ki := i / 7, i % 7;
      var nj, kj := j / 7, j % 7;
      assert i == 7 * ni + ki && j == 7 * nj + kj;
      assert ni < slots && nj < slots;
      HeadersPairDistinct(slots, ni, ki, nj, kj);
    }
  }

  // ---- the flattened cells ----

  /** `topic_df[message_level_cols].values.flatten()`: row by row. */
  function Content(rows: seq<CompiledRow>): (r: seq<Atom>)
    ensures |r| == 7 * |rows|
  {
    if rows == [] then [] else Content(rows[..|rows| - 1]) + MessageCells(rows[|rows| - 1])
  }

  lemma {:induction false} ContentAt(rows: seq<CompiledRow>, i: nat, k: nat)
    requires i < |rows| && k < 7
    ensures Content(rows)[7 * i + k] == MessageCells(rows[i])[k]
    decreases |rows|
  {
    var t := rows[..|rows| - 1];
    if i < |rows| - 1 {
      ContentAt(t, i, k);
      assert t[i] == rows[i];
    }
  }

  // ---- the defaultdict ----

  /** One column of the dictionary: a key and the values appended to it. */
  datatype Entry = Entry(key: string, values: seq<Atom>)

  function Keys(d: seq<Entry>): seq<string> {
    Map(d, (e: Entry) => e.key)
  }

  /** `d[k].append(v)`: the key's list grows, or a new key goes last. */
  function Append(d: seq<Entry>, k: string, v: Atom): (r: seq<Entry>)
    ensures |r| >= |d|
  {
    if d == [] then [Entry(k, [v])]
    else if d[0].key == k then [Entry(k, d[0].values + [v])] + d[1..]
    else [d[0]] + Append(d[1..], k, v)
  }

  /** `for key, value in zip(ks, vs): d[key].append(value)`; `zip` stops at
      the shorter list. */
  function Collect(d: seq<Entry>, ks: seq<string>, vs: seq<Atom>): seq<Entry>
    decreases |ks|
  {
    if ks == [] || vs == [] then d else Collect(Append(d, ks[0], vs[0]), ks[1..], vs[1..])
  }

  /** `names * m` in Python. */
  function Repeat(names: seq<string>, m: nat): (r: seq<string>)
    ensures |r| == |names| * m
  {
    if m == 0 then [] else Repeat(names, m - 1) + names
  }

  lemma {:induction false} AppendExisting(d: seq<Entry>, c: nat, v: Atom)
    requires c < |d| && forall i :: 0 <= i < c ==> d[i].key != d[c].key
    ensures Append(d, d[c].key, v) == d[c := Entry(d[c].key, d[c].values + [v])]
    decreases c
  {
    if c > 0 {
      AppendExisting(d[1..], c - 1, v);
    }
  }

  lemma {:induction false} AppendNew(d: seq<Entry>, k: string, v: Atom)
    requires forall i :: 0 <= i < |d| ==> d[i].key != k
    ensures Append(d, k, v) == d + [Entry(k, [v])]
    decreases |d|
  {
    if d != [] {
      AppendNew(d[1..], k, v);
    }
  }

  lemma {:induction false} CollectConcat(d: seq<Entry>, ks1: seq<string>, vs1: seq<Atom>, ks2: seq<string>, vs2: seq<Atom>)
    requires |ks1| == |vs1|
    ensures Collect(d, ks1 + ks2, vs1 + vs2) == Collect(Collect(d, ks1, vs1), ks2, vs2)
    decreases |ks1|
  {
    if ks1 == [] {
      assert ks1 + ks2 == ks2 && vs1 + vs2 == vs2;
    } else {
      var d' := Append(d, ks1[0], vs1[0]);
      assert (ks1 + ks2)[0] == ks1[0] && (vs1 + vs2)[0] == vs1[0];
      assert (ks1 + ks2)[1..] == ks1[1..] + ks2;
      assert (vs1 + vs2)[1..] == vs1[1..] + vs2;
      assert Collect(d, ks1 + ks2, vs1 + vs2) == Collect(d', ks1[1..] + ks2, vs1[1..] + vs2);
      assert Collect(d, ks1, vs1) == Collect(d', ks1[1..], vs1[1..]);
      CollectConcat(d', ks1[1..], vs1[1..], ks2, vs2);
    }
  }

  /** The dictionary part-way through the first pass: one entry for each
      of the first `k` names. */
  function Fresh(names: seq<string>, block: seq<Atom>, k: nat): (d: seq<Entry>)
    requires |block| == |names| && k <= |names|
    ensures |d| == k
  {
    seq(k, c requires 0 <= c < k => Entry(names[c], [block[c]]))
  }

  /** The first pass over the header creates one entry per name. */
  lemma {:induction false} FirstPass(names: seq<string>, block: seq<Atom>, k: nat)
    requires Distinct(names) && |block| == |names| && k <= |names|
    ensures Collect(Fresh(names, block, k), names[k..], block[k..]) == Fresh(names, block, |names|)
    decreases |names| - k
  {
    var d := Fresh(names, block, k);
    if k < |names| {
      AppendNew(d, names[k], block[k]);
      assert d + [Entry(names[k], [block[k]])] == Fresh(names, block, k + 1);
      assert names[k..][1..] == names[k + 1..] && block[k..][1..] == block[k + 1..];
      FirstPass(names, block, k + 1);
    }
  }

  /** The dictionary part-way through a later pass: the first `k` lists
      have their new value. */
  function Partial(names: seq<string>, lists: seq<seq<Atom>>, block: seq<Atom>, k: nat): (d: seq<Entry>)
    requires |block| == |names| == |lists|
    ensures |d| == |names|
  {
    seq(|names|, c requires 0 <= c < |names| => Entry(names[c], lists[c] + (if c < k then [block[c]] else [])))
  }

  /** A later pass appends the `c`-th value of the block to the `c`-th list. */
  lemma {:induction false} LaterPass(names: seq<string>, lists: seq<seq<Atom>>, block: seq<Atom>, k: nat)
    requires Distinct(names) && |block| == |names| == |lists| && k <= |names|
    ensures Collect(Partial(names, lists, block, k), names[k..], block[k..]) == Partial(names, lists, block, |names|)
    decreases |names| - k
  {
    var d := Partial(names, lists, block, k);
    if k < |names| {
      AppendExisting(d, k, block[k]);
      var d' := Partial(names, lists, block, k + 1);
      forall c | 0 <= c < |names|
        ensures d[k := Entry(d[k].key, d[k].values + [block[k]])][c] == d'[c]
      {
      }
      assert d[k := Entry(d[k].key, d[k].values + [block[k]])] == d';
      assert names[k..][1..] == names[k + 1..] && block[k..][1..] == block[k + 1..];
      LaterPass(names, lists, block, k + 1);
    }
  }

  /** The cells dealt to header `c`: those at `c`, `c + W`, `c + 2W`, … */
  function Dealt(vals: seq<Atom>, w: nat, m: nat, c: nat): (r: seq<Atom>)
    requires c < w && w * m <= |vals|
    ensures |r| == m
  {
    seq(m, j requires 0 <= j < m => DealtAt(vals, w, m, c, j))
  }

  function DealtAt(vals: seq<Atom>, w: nat, m: nat, c: nat, j: nat): Atom
    requires c < w && w * m <= |vals| && j < m
  {
    MulBound(w, m, c, j);
    vals[w * j + c]
  }

  lemma MulBound(w: nat, m: nat, c: nat, j: nat)
    requires c < w && j < m
    ensures w * j + c < w * m
  {
    assert w * j + w == w * (j + 1);
    assert w * (j + 1) <= w * m;
  }

  /** With distinct names, dealing `m` rounds of values gives each name the
      values at its own position of every round. */
  lemma {:induction false} CollectRounds(names: seq<string>, vals: seq<Atom>, m: nat)
    requires Distinct(names) && |names| > 0 && |vals| == |names| * m
    ensures Collect([], Repeat(names, m), vals)
         == if m == 0 then [] else seq(|names|, c requires 0 <= c < |names| => Entry(names[c], Dealt(vals, |names|, m, c)))
    decreases m
  {
    var w := |names|;
    if m > 0 {
      var cut := w * (m - 1);
      assert cut + w == w * m;
      var before, block := vals[..cut], vals[cut..];
      assert vals == before + block;
      CollectConcat([], Repeat(names, m - 1), before, names, block);
      CollectRounds(names, before, m - 1);
      if m == 1 {
        assert before == [] && block == vals;
        FirstRound(names, vals);
      } else {
        NextRound(names, vals, m, before, block);
      }
    }
  }

  /** The first round creates one entry per name holding its value. */
  lemma FirstRound(names: seq<string>, vals: seq<Atom>)
    requires Distinct(names) && |names| > 0 && |vals| == |names| * 1
    ensures Collect([], names, vals)
         == seq(|names|, c requires 0 <= c < |names| => Entry(names[c], Dealt(vals, |names|, 1, c)))
  {
    var w := |names|;
    assert names[0..] == names && vals[0..] == vals;
    assert Fresh(names, vals, 0) == [];
    FirstPass(names, vals, 0);
    forall c | 0 <= c < w
      ensures Fresh(names, vals, w)[c] == Entry(names[c], Dealt(vals, w, 1, c))
    {
      assert DealtAt(vals, w, 1, c, 0) == vals[c];
    }
  }

  /** A later round appends each name's value to its list. */
  lemma NextRound(names: seq<string>, vals: seq<Atom>, m: nat, before: seq<Atom>, block: seq<Atom>)
    requires Distinct(names) && |names| > 0 && m > 1 && |vals| == |names| * m
    requires |names| * (m - 1) + |names| == |names| * m
    requires before == vals[..|names| * (m - 1)] && block == vals[|names| * (m - 1)..]
    ensures Collect(seq(|names|, c requires 0 <= c < |names| => Entry(names[c], Dealt(before, |names|, m - 1, c))), names, block)
         == seq(|names|, c requires 0 <= c < |names| => Entry(names[c], Dealt(vals, |names|, m, c)))
  {
    var w := |names|;
    var lists := seq(w, c requires 0 <= c < w => Dealt(before, w, m - 1, c));
    var p0 := Partial(names, lists, block, 0);
    forall c | 0 <= c < w
      ensures p0[c] == Entry(names[c], Dealt(before, w, m - 1, c))
    {
    }
    assert p0 == seq(w, c requires 0 <= c < w => Entry(names[c], Dealt(before, w, m - 1, c)));
    assert names[0..] == names && block[0..] == block;
    LaterPass(names, lists, block, 0);
    forall c | 0 <= c < w
      ensures Partial(names, lists, block, w)[c] == Entry(names[c], Dealt(vals, w, m, c))
    {
      DealtRound(vals, w, m, c, before, block, lists[c]);
    }
  }

  lemma DealtRound(vals: seq<Atom>, w: nat, m: nat, c: nat, before: seq<Atom>, block: seq<Atom>, list: seq<Atom>)
    requires c < w && m > 1 && |vals| == w * m && |block| == w
    requires w * (m - 1) + w == w * m
    requires before == vals[..w * (m - 1)] && block == vals[w * (m - 1)..]
    requires list == Dealt(before, w, m - 1, c)
    ensures list + [block[c]] == Dealt(vals, w, m, c)
  {
    forall j | 0 <= j < m
      ensures (list + [block[c]])[j] == Dealt(vals, w, m, c)[j]
    {
      MulBound(w, m, c, j);
      if j < m - 1 {
        MulBound(w, m - 1, c, j);
        assert list[j] == before[w * j + c];
      }
    }
  }

  // ---- one sheet ----

  /** The columns left after dropping the message-level ones. */
  datatype ArticleLevel = ArticleLevel(
    title: Option<string>,
    description: Option<string>,
    publishedDate: Option<string>,
    canonicalUrl: Option<string>,
    thumbnailUrl: Option<string>,
    topic: int,
    writtenDate: Option<string>,
    conversationId: Option<string>)

  function ArticleOf(r: CompiledRow): ArticleLevel {
    ArticleLevel(r.title, r.description, r.publishedDate, r.canonicalUrl, r.thumbnailUrl, r.topic, r.writtenDate,
                 r.conversationId)
  }

  /** A sheet: its name, the deduplicated article-level rows and the wide
      columns, placed side by side (`pd.concat(axis=1)`). */
  datatype Sheet = Sheet(name: string, articles: seq<ArticleLevel>, wide: seq<Entry>, wideRows: nat)

  /** The number of rows of the side-by-side table. */
  function SheetRows(s: Sheet): nat {
    if |s.articles| < s.wideRows then s.wideRows else |s.articles|
  }

  datatype ExcelError = ColumnMismatch(topic: int) | NoSheets

  /** Excel's limit on the length of a sheet name. */
  const SheetNameLimit: nat := 31

  /** `str(topic).strip()[:31]`; an integer's text has no spaces to strip. */
  function SheetName(t: int): (r: string)
    ensures 1 <= |r| <= SheetNameLimit
  {
    Take(IntText(t), SheetNameLimit)
  }

  /** `topic_df['title'].nunique()`: distinct titles, NaN not counted. */
  function TitleCount(rows: seq<CompiledRow>): nat {
    NUnique(Where(Map(rows, (r: CompiledRow) => r.title), (o: Option<string>) => o.Some?))
  }

  /** The assertion of the loop body: as many cells as header names. */
  predicate Aligned(topicRows: seq<CompiledRow>) {
    |Headers(NComments)| * TitleCount(topicRows) == |Content(topicRows)|
  }

  /** The sheet of a topic whose rows pass the assertion. */
  function BuildSheet(t: int, topicRows: seq<CompiledRow>): Sheet {
    var m := TitleCount(topicRows);
    Sheet(SheetName(t), Unique(Map(topicRows, ArticleOf)), Collect([], Repeat(Headers(NComments), m), Content(topicRows)), m)
  }

  /** The body of the loop for one topic. */
  function TopicSheet(rows: seq<CompiledRow>, t: int): (r: Result<Sheet, ExcelError>)
    ensures r.Err? <==> !Aligned(Select(rows, TopicCol, t))
    ensures r.Err? ==> r.error == ColumnMismatch(t)
  {
    var topicRows := Select(rows, TopicCol, t);
    if Aligned(topicRows) then Ok(BuildSheet(t, topicRows)) else Err(ColumnMismatch(t))
  }

  /** The loop over the topics, given the outcome of each body: a sheet is
      written unless its table is empty; a failed assertion ends the run. */
  function Sheets(results: seq<Result<Sheet, ExcelError>>): Result<seq<Sheet>, ExcelError>
    decreases |results|
  {
    if results == [] then Ok([])
    else
      var s :- results[0];
      var rest :- Sheets(results[1..]);
      if SheetRows(s) > 0 then Ok([s] + rest) else Ok(rest)
  }

  /** `top_comments_df_sorted['Topic'].unique()`. */
  function Topics(rows: seq<CompiledRow>): seq<int> {
    Unique(Map(rows, TopicCol))
  }

  /** The outcome of the loop body for each topic, in order. */
  function TopicResults(rows: seq<CompiledRow>): seq<Result<Sheet, ExcelError>> {
    Map(Topics(rows), (t: int) => TopicSheet(rows, t))
  }

  /** `write_to_excel`, without the file. */
  function WriteExcel(rows: seq<CompiledRow>): Result<seq<Sheet>, ExcelError> {
    var sheets :- Sheets(TopicResults(rows));
    if sheets == [] then Err(NoSheets) else Ok(sheets)
  }

  // ---- properties ----

  /** The length check fails exactly when a topic's row count is not four
      times its number of distinct titles. */
  lemma AlignedIff(topicRows: seq<CompiledRow>)
    ensures Aligned(topicRows) <==> |topicRows| == NComments * TitleCount(topicRows)
  {
    assert |Headers(NComments)| == 28;
  }

  /** The wide columns of an aligned topic: header `c` gets the cells at
      `c`, `c + 28`, `c + 56`, … of the flattened rows. */
  lemma WideColumns(t: int, topicRows: seq<CompiledRow>)
    requires Aligned(topicRows) && TitleCount(topicRows) > 0
    ensures |BuildSheet(t, topicRows).wide| == |Headers(NComments)|
    ensures forall c :: 0 <= c < |Headers(NComments)| ==>
              BuildSheet(t, topicRows).wide[c]
              == Entry(Headers(NComments)[c], Dealt(Content(topicRows), |Headers(NComments)|, TitleCount(topicRows), c))
  {
    HeadersDistinct(NComments);
    CollectRounds(Headers(NComments), Content(topicRows), TitleCount(topicRows));
  }

  /** Wide row `j`, slot `n + 1`, column `k` holds column `k` of the
      topic's row `4j + n`: the rows are dealt four to a wide row in their
      sorted order, whatever article they belong to. */
  lemma TopicSheetCells(rows: seq<CompiledRow>, t: int, n: nat, k: nat, j: nat)
    requires TopicSheet(rows, t).Ok?
    requires n < NComments && k < 7 && j < TopicSheet(rows, t).value.wideRows
    ensures |TopicSheet(rows, t).value.wide| == 7 * NComments
    ensures TopicSheet(rows, t).value.wide[7 * n + k].key == HeaderName(n + 1, MessageCols[k])
    ensures |TopicSheet(rows, t).value.wide[7 * n + k].values| == TopicSheet(rows, t).value.wideRows
    ensures NComments * j + n < |Select(rows, TopicCol, t)|
    ensures TopicSheet(rows, t).value.wide[7 * n + k].values[j]
         == MessageCells(Select(rows, TopicCol, t)[NComments * j + n])[k]
  {
    var topicRows := Select(rows, TopicCol, t);
    assert TopicSheet(rows, t).value == BuildSheet(t, topicRows);
    assert NComments == 4;
    SheetCell(t, topicRows, n, k, j);
  }

  lemma SheetCell(t: int, topicRows: seq<CompiledRow>, n: nat, k: nat, j: nat)
    requires Aligned(topicRows)
    requires n < 4 && k < 7 && j < TitleCount(topicRows)
    ensures |BuildSheet(t, topicRows).wide| == 28
    ensures BuildSheet(t, topicRows).wide[7 * n + k].key == HeaderName(n + 1, MessageCols[k])
    ensures |BuildSheet(t, topicRows).wide[7 * n + k].values| == TitleCount(topicRows)
    ensures 4 * j + n < |topicRows|
    ensures BuildSheet(t, topicRows).wide[7 * n + k].values[j] == MessageCells(topicRows[4 * j + n])[k]
  {
    var w := BuildSheet(t, topicRows).wide;
    var hs := Headers(NComments);
    var m := TitleCount(topicRows);
    SheetWide(t, topicRows);
    HeadersAt(NComments, n, k);
    RoundsCell(hs, Content(topicRows), m, 7 * n + k, j);
    CellIndex(|hs|, j, n, k, m, |topicRows|);
    WideCell(BuildSheet(t, topicRows).wide, Headers(NComments), topicRows, TitleCount(topicRows), n, k, j);
  }

  /** The wide columns of a sheet are the rounds of its headers over its
      flattened rows. */
  lemma SheetWide(t: int, topicRows: seq<CompiledRow>)
    requires Aligned(topicRows)
    ensures BuildSheet(t, topicRows).wide == Collect([], Repeat(Headers(NComments), TitleCount(topicRows)), Content(topicRows))
    ensures Distinct(Headers(NComments)) && |Headers(NComments)| == 28
    ensures |Content(topicRows)| == 28 * TitleCount(topicRows)
  {
    HeadersDistinct(NComments);
  }

  /** Column `7n + k` of `m` rounds of 28 headers over the flattened rows:
      its cell `j` is column `k` of row `4j + n`. */
  lemma WideCell(w: seq<Entry>, hs: seq<string>, rows: seq<CompiledRow>, m: nat, n: nat, k: nat, j: nat)
    requires Distinct(hs) && |hs| == 28 && |Content(rows)| == 28 * m
    requires w == Collect([], Repeat(hs, m), Content(rows))
    requires n < 4 && k < 7 && j < m
    requires |w| == 28 && |w[7 * n + k].values| == m && 4 * j + n < |rows|
    ensures w[7 * n + k].values[j] == MessageCells(rows[4 * j + n])[k]
  {
    var c := 7 * n + k;
    var i := 4 * j + n;
    var vals := Content(rows);
    RoundsCell(hs, vals, m, c, j);
    CellIndex(|hs|, j, n, k, m, |rows|);
    ContentAt(rows, i, k);
    var p := |hs| * j + c;
    assert w[c].values[j] == vals[p];
    assert p == 7 * i + k;
  }

  /** Entry `c` of the dictionary built from `m` rounds is header `c`, and
      its cell `j` is value `c` of round `j`. */
  lemma RoundsCell(hs: seq<string>, vals: seq<Atom>, m: nat, c: nat, j: nat)
    requires Distinct(hs) && |hs| > 0 && |vals| == |hs| * m && c < |hs| && j < m
    ensures |Collect([], Repeat(hs, m), vals)| == |hs|
    ensures Collect([], Repeat(hs, m), vals)[c].key == hs[c]
    ensures |Collect([], Repeat(hs, m), vals)[c].values| == m
    ensures |hs| * j + c < |vals|
    ensures Collect([], Repeat(hs, m), vals)[c].values[j] == vals[|hs| * j + c]
  {
    CollectRounds(hs, vals, m);
    MulBound(|hs|, m, c, j);
    assert Collect([], Repeat(hs, m), vals)[c] == Entry(hs[c], Dealt(vals, |hs|, m, c));
    assert Dealt(vals, |hs|, m, c)[j] == DealtAt(vals, |hs|, m, c, j);
  }

  /** Cell `c = 7n + k` of wide row `j` is cell `7i + k` of the flattened
      rows, for the row `i = 4j + n`. */
  lemma CellIndex(width: nat, j: nat, n: nat, k: nat, m: nat, len: nat)
    requires width == 28 && n < 4 && k < 7 && j < m && 7 * len == width * m
    ensures width * j + (7 * n + k) == 7 * (4 * j + n) + k
    ensures 4 * j + n < len
  {
    assert len == 4 * m;
  }


  /** The article-level rows are the topic's rows without the message
      columns, each once. */
  lemma TopicSheetArticles(rows: seq<CompiledRow>, t: int, a: ArticleLevel)
    requires TopicSheet(rows, t).Ok?
    ensures Distinct(TopicSheet(rows, t).value.articles)
    ensures a in TopicSheet(rows, t).value.articles <==> exists r :: r in rows && r.topic == t && ArticleOf(r) == a
  {
    var topicRows := Select(rows, TopicCol, t);
    UniqueComplete(Map(topicRows, ArticleOf));
    MapMember(topicRows, ArticleOf, a);
  }

  /** A topic present in the table always yields a non-empty sheet. */
  lemma TopicSheetNonEmpty(rows: seq<CompiledRow>, t: int)
    requires t in Map(rows, TopicCol) && TopicSheet(rows, t).Ok?
    ensures SheetRows(TopicSheet(rows, t).value) > 0
  {
    var i :| 0 <= i < |rows| && Map(rows, TopicCol)[i] == t;
    var topicRows := Select(rows, TopicCol, t);
    var r := rows[i];
    assert r in topicRows;
    MapMember(topicRows, ArticleOf, ArticleOf(r));
    UniqueComplete(Map(topicRows, ArticleOf));
    assert ArticleOf(r) in BuildSheet(t, topicRows).articles;
  }

  /** When no body yields an empty table, the loop writes one sheet per
      topic in order, and fails with the first failure there is. */
  lemma {:induction false} SheetsSpec(results: seq<Result<Sheet, ExcelError>>)
    requires forall i :: 0 <= i < |results| && results[i].Ok? ==> SheetRows(results[i].value) > 0
    ensures Sheets(results).Ok? <==> forall i :: 0 <= i < |results| ==> results[i].Ok?
    ensures Sheets(results).Err? ==> exists i :: 0 <= i < |results| && results[i] == Err(Sheets(results).error)
    ensures Sheets(results).Ok? ==> |Sheets(results).value| == |results|
    ensures Sheets(results).Ok? ==> forall i :: 0 <= i < |results| ==> Sheets(results).value[i] == results[i].value
    decreases |results|
  {
    if results != [] {
      var rest := Sheets(results[1..]);
      SheetsSpec(results[1..]);
      if results[0].Err? {
        assert Sheets(results) == Err(results[0].error);
      } else if rest.Err? {
        var i :| 0 <= i < |results[1..]| && results[1..][i] == Err(rest.error);
        assert results[i + 1] == Err(rest.error);
        assert Sheets(results) == Err(rest.error);
      } else {
        assert forall i :: 0 <= i < |results| ==> results[i] == if i == 0 then results[0] else results[1..][i - 1];
        assert Sheets(results) == Ok([results[0].value] + rest.value);
      }
    }
  }

  lemma TopicResultsSpec(rows: seq<CompiledRow>)
    ensures forall t :: t in Topics(rows) <==> t in Map(rows, TopicCol)
    ensures forall i :: 0 <= i < |TopicResults(rows)| && TopicResults(rows)[i].Ok? ==>
              SheetRows(TopicResults(rows)[i].value) > 0
    ensures Sheets(TopicResults(rows)).Ok? <==> forall i :: 0 <= i < |TopicResults(rows)| ==> TopicResults(rows)[i].Ok?
    ensures Sheets(TopicResults(rows)).Err? ==>
              exists i :: 0 <= i < |TopicResults(rows)| && TopicResults(rows)[i] == Err(Sheets(TopicResults(rows)).error)
    ensures Sheets(TopicResults(rows)).Ok? ==> |Sheets(TopicResults(rows)).value| == |Topics(rows)|
    ensures Sheets(TopicResults(rows)).Ok? ==>
              forall i :: 0 <= i < |Topics(rows)| ==> Sheets(TopicResults(rows)).value[i] == TopicResults(rows)[i].value
  {
    var topics := Topics(rows);
    var results := TopicResults(rows);
    UniqueComplete(Map(rows, TopicCol));
    forall i | 0 <= i < |results| && results[i].Ok?
      ensures SheetRows(results[i].value) > 0
    {
      assert topics[i] in topics;
      TopicSheetNonEmpty(rows, topics[i]);
    }
    SheetsSpec(results);
  }

  /** The run fails with "No sheets added" exactly when the table is empty. */
  lemma WriteExcelNoSheets(rows: seq<CompiledRow>)
    ensures WriteExcel(rows) == Err(NoSheets) <==> rows == []
  {
    TopicResultsSpec(rows);
    var results := TopicResults(rows);
    if rows != [] {
      assert rows[0].topic == Map(rows, TopicCol)[0];
      assert Topics(rows) != [];
    }
    if Sheets(results).Err? {
      var i :| 0 <= i < |results| && results[i] == Err(Sheets(results).error);
      assert results[i] == TopicSheet(rows, Topics(rows)[i]);
    }
  }

  /** The run fails with the column assertion exactly when some topic of
      the table fails it. */
  lemma WriteExcelMismatch(rows: seq<CompiledRow>)
    ensures WriteExcel(rows).Err? && WriteExcel(rows).error.ColumnMismatch?
        <==> exists t :: t in Map(rows, TopicCol) && !Aligned(Select(rows, TopicCol, t))
  {
    if Sheets(TopicResults(rows)).Err? {
      MismatchFound(rows);
    } else {
      AllAligned(rows);
    }
  }

  /** A failed topic names its topic in the error that ends the run. */
  lemma MismatchFound(rows: seq<CompiledRow>)
    requires Sheets(TopicResults(rows)).Err?
    ensures exists t :: t in Map(rows, TopicCol) && !Aligned(Select(rows, TopicCol, t)) && WriteExcel(rows) == Err(ColumnMismatch(t))
  {
    TopicResultsSpec(rows);
    var topics := Topics(rows);
    var results := TopicResults(rows);
    var i :| 0 <= i < |results| && results[i] == Err(Sheets(results).error);
    assert results[i] == TopicSheet(rows, topics[i]);
    assert topics[i] in topics;
    assert WriteExcel(rows) == Err(ColumnMismatch(topics[i]));
  }

  /** When every topic's sheet is built, every topic passed the check. */
  lemma AllAligned(rows: seq<CompiledRow>)
    requires Sheets(TopicResults(rows)).Ok?
    ensures forall t :: t in Map(rows, TopicCol) ==> Aligned(Select(rows, TopicCol, t))
  {
    TopicResultsSpec(rows);
    var topics := Topics(rows);
    var results := TopicResults(rows);
    forall t | t in Map(rows, TopicCol)
      ensures Aligned(Select(rows, TopicCol, t))
    {
      assert t in topics;
      var i :| 0 <= i < |topics| && topics[i] == t;
      assert results[i] == TopicSheet(rows, t);
    }
  }

  /** One sheet per distinct topic, in order of first appearance, each
      named after its topic and built from that topic's rows. */
  lemma WriteExcelSheets(rows: seq<CompiledRow>)
    requires WriteExcel(rows).Ok?
    ensures |WriteExcel(rows).value| == |Topics(rows)|
    ensures forall i :: 0 <= i < |Topics(rows)| ==>
              WriteExcel(rows).value[i] == BuildSheet(Topics(rows)[i], Select(rows, TopicCol, Topics(rows)[i]))
    ensures forall i :: 0 <= i < |Topics(rows)| ==> WriteExcel(rows).value[i].name == SheetName(Topics(rows)[i])
  {
    TopicResultsSpec(rows);
    var topics := Topics(rows);
    var results := TopicResults(rows);
    forall i | 0 <= i < |topics|
      ensures WriteExcel(rows).value[i] == BuildSheet(topics[i], Select(rows, TopicCol, topics[i]))
    {
      assert results[i] == TopicSheet(rows, topics[i]);
    }
  }

  /** Sheet names are at most 31 characters, and topics whose text fits
      get different sheets. */
  lemma SheetNamesDistinct(a: int, b: int)
    requires |IntText(a)| <= SheetNameLimit && |IntText(b)| <= SheetNameLimit
    ensures SheetName(a) == SheetName(b) <==> a == b
  {
    if SheetName(a) == SheetName(b) {
      IntTextInjective(a, b);
    }
  }
}

/** `get_top_articles_df`: the most liked rows of each topic, and the most
    liked comments of the conversations those rows belong to.

    The compiled table is sorted by topic (ascending) and likes
    (descending) and the first `NArticles` rows of each topic are kept.
    The comments (rows with a conversation id) whose conversation is among
    those rows are then sorted by conversation and likes, the first
    `NComments` of each conversation are kept, and the result is sorted by
    topic, conversation, message id and likes. The script under `src`
    finally drops rows repeating a (conversation, message) pair; the one
    under `utils` instead aborts on fully duplicated rows.
 */
module TopN {
  import opened Wrappers
  import opened Frames
  import opened Ordering
  import opened Sorting
  import opened Compile

  /** `N_ARTICLES` and `N_COMMENTS` of the scripts' main block. */
  const NArticles: nat := 10
  const NComments: nat := 4

  /** A text column as a sort value: NaN sorts last. */
  function TextAtom(o: Option<string>): Atom {
    if o.Some? then Text(o.value) else Null
  }

  function TopicCol(r: CompiledRow): int { r.topic }
  function ConvCol(r: CompiledRow): Option<string> { r.conversationId }

  /** `by=['Topic', 'total_likes'], ascending=[True, False]`. */
  function ArticleOrder(r: CompiledRow): SortKey {
    [Asc(Num(r.topic)), Desc(Num(r.totalLikes))]
  }

  /** `by=['conversation_id', 'total_likes'], ascending=[True, False]`. */
  function CommentOrder(r: CompiledRow): SortKey {
    [Asc(TextAtom(r.conversationId)), Desc(Num(r.totalLikes))]
  }

  /** `by=['Topic', 'conversation_id', 'conv_message_id', 'total_likes']`,
      the last one descending. */
  function FinalOrder(r: CompiledRow): SortKey {
    [Asc(Num(r.topic)), Asc(TextAtom(r.conversationId)), Asc(TextAtom(r.convMessageId)), Desc(Num(r.totalLikes))]
  }

  /** The (conversation, message) pair `drop_duplicates` looks at. */
  function PairKey(r: CompiledRow): (Option<string>, Option<string>) {
    (r.conversationId, r.convMessageId)
  }

  /** `top_articles_df`: the first `NArticles` rows of each topic by likes. */
  function TopicLeaders(rows: seq<CompiledRow>): seq<CompiledRow> {
    GroupHead(SortBy(rows, ArticleOrder), TopicCol, NArticles)
  }

  /** The comments whose conversation is among the topic leaders'. */
  function Candidates(rows: seq<CompiledRow>): seq<CompiledRow> {
    var convs := Map(TopicLeaders(rows), ConvCol);
    Where(rows, (r: CompiledRow) => r.conversationId.Some? && r.conversationId in convs)
  }

  /** The first `NComments` candidates of each conversation by likes. */
  function TopComments(rows: seq<CompiledRow>): seq<CompiledRow> {
    GroupHead(SortBy(Candidates(rows), CommentOrder), ConvCol, NComments)
  }

  function Ordered(rows: seq<CompiledRow>): seq<CompiledRow> {
    SortBy(TopComments(rows), FinalOrder)
  }

  /** `get_top_articles_df`. */
  function TopArticles(v: Version, rows: seq<CompiledRow>): Result<seq<CompiledRow>, CompileError> {
    var s := Ordered(rows);
    match v
    case SrcVersion => Ok(DedupeBy(s, PairKey))
    case UtilsVersion => if |Unique(s)| != |s| then Err(DuplicateRows) else Ok(s)
  }

  // ---- properties ----

  /** Each topic keeps its `NArticles` most liked rows (fewer when the topic
      has fewer), ties in input order. */
  lemma LeadersPerTopic(rows: seq<CompiledRow>, t: int)
    ensures Select(TopicLeaders(rows), TopicCol, t) == Take(Select(SortBy(rows, ArticleOrder), TopicCol, t), NArticles)
    ensures |Select(TopicLeaders(rows), TopicCol, t)| <= NArticles
    ensures |Select(TopicLeaders(rows), TopicCol, t)| <= |Select(rows, TopicCol, t)|
  {
    GroupHeadPerGroup(SortBy(rows, ArticleOrder), TopicCol, NArticles, t);
    SortBySelectLength(rows, ArticleOrder, TopicCol, t);
  }

  /** A leader has at least the likes of every row of its topic that was
      not kept. */
  lemma LeadersMostLiked(rows: seq<CompiledRow>, x: CompiledRow, y: CompiledRow)
    requires x in TopicLeaders(rows) && y in rows && y !in TopicLeaders(rows)
    requires x.topic == y.topic
    ensures x.totalLikes >= y.totalLikes
  {
    var s := SortBy(rows, ArticleOrder);
    assert y in multiset(s);
    SortBySorted(rows, ArticleOrder);
    GroupHeadBeatsDropped(s, TopicCol, NArticles, ArticleOrder, x, y);
    ArticleOrderLikes(x, y);
  }

  /** Within a topic, the article order puts more likes first. */
  lemma ArticleOrderLikes(x: CompiledRow, y: CompiledRow)
    requires x.topic == y.topic && Le(ArticleOrder(x), ArticleOrder(y))
    ensures x.totalLikes >= y.totalLikes
  {
    assert ArticleOrder(x) == [Asc(Num(x.topic)), Desc(Num(x.totalLikes))] + [];
    assert ArticleOrder(y) == [Asc(Num(x.topic)), Desc(Num(y.totalLikes))] + [];
    LeDescInt(Asc(Num(x.topic)), x.totalLikes, y.totalLikes, [], []);
  }

  /** Every row of the result is a comment of a conversation some topic
      leader belongs to. */
  lemma TopArticlesFromLeaders(v: Version, rows: seq<CompiledRow>, r: CompiledRow)
    requires TopArticles(v, rows).Ok? && r in TopArticles(v, rows).value
    ensures r in rows
    ensures r.conversationId.Some?
    ensures exists a :: a in TopicLeaders(rows) && a.conversationId == r.conversationId
  {
    var s := Ordered(rows);
    if v == SrcVersion {
      assert r in DedupeBy(s, PairKey);
    }
    assert r in multiset(s);
    assert r in TopComments(rows);
    var sc := SortBy(Candidates(rows), CommentOrder);
    GroupHeadIsSubseq(sc, ConvCol, NComments);
    SubseqMembers(TopComments(rows), sc);
    assert r in sc;
    assert r in multiset(sc);
    var convs := Map(TopicLeaders(rows), ConvCol);
    assert r in Candidates(rows);
    MapMember(TopicLeaders(rows), ConvCol, r.conversationId);
  }

  /** Each conversation keeps its `NComments` most liked candidate comments,
      ties in input order. */
  lemma CommentsPerConversation(rows: seq<CompiledRow>, c: Option<string>)
    ensures Select(TopComments(rows), ConvCol, c) == Take(Select(SortBy(Candidates(rows), CommentOrder), ConvCol, c), NComments)
    ensures |Select(TopComments(rows), ConvCol, c)| <= NComments
  {
    GroupHeadPerGroup(SortBy(Candidates(rows), CommentOrder), ConvCol, NComments, c);
  }

  /** A kept comment has at least the likes of every candidate of its
      conversation that was dropped. */
  lemma CommentsMostLiked(rows: seq<CompiledRow>, x: CompiledRow, y: CompiledRow)
    requires x in TopComments(rows) && y in Candidates(rows) && y !in TopComments(rows)
    requires x.conversationId == y.conversationId
    ensures x.totalLikes >= y.totalLikes
  {
    var s := SortBy(Candidates(rows), CommentOrder);
    assert y in multiset(s);
    SortBySorted(Candidates(rows), CommentOrder);
    GroupHeadBeatsDropped(s, ConvCol, NComments, CommentOrder, x, y);
    CommentOrderLikes(x, y);
  }

  /** Within a conversation, the comment order puts more likes first. */
  lemma CommentOrderLikes(x: CompiledRow, y: CompiledRow)
    requires x.conversationId == y.conversationId && Le(CommentOrder(x), CommentOrder(y))
    ensures x.totalLikes >= y.totalLikes
  {
    var c := x.conversationId;
    assert CommentOrder(x) == [Asc(TextAtom(c)), Desc(Num(x.totalLikes))] + [];
    assert CommentOrder(y) == [Asc(TextAtom(c)), Desc(Num(y.totalLikes))] + [];
    LeDescInt(Asc(TextAtom(c)), x.totalLikes, y.totalLikes, [], []);
  }

  /** The result is ordered by topic, conversation, message and likes, and
      no conversation has more than `NComments` rows in it. */
  lemma TopArticlesShape(v: Version, rows: seq<CompiledRow>, c: Option<string>)
    requires TopArticles(v, rows).Ok?
    ensures SortedBy(TopArticles(v, rows).value, FinalOrder)
    ensures |Select(TopArticles(v, rows).value, ConvCol, c)| <= NComments
  {
    var s := Ordered(rows);
    SortBySorted(TopComments(rows), FinalOrder);
    SortBySelectLength(TopComments(rows), FinalOrder, ConvCol, c);
    CommentsPerConversation(rows, c);
    if v == SrcVersion {
      DedupeByIsSubseq(s, PairKey);
      SortedSubseq(DedupeBy(s, PairKey), s, FinalOrder);
      SubseqSelectLength(DedupeBy(s, PairKey), s, ConvCol, c);
    }
  }

  /** `src`: each (conversation, message) pair appears once, as its first
      row in the final order. */
  lemma SrcPairsUnique(rows: seq<CompiledRow>, k: (Option<string>, Option<string>))
    ensures TopArticles(SrcVersion, rows).Ok?
    ensures forall i, j :: 0 <= i < j < |TopArticles(SrcVersion, rows).value| ==>
              PairKey(TopArticles(SrcVersion, rows).value[i]) != PairKey(TopArticles(SrcVersion, rows).value[j])
    ensures Select(TopArticles(SrcVersion, rows).value, PairKey, k) == Take(Select(Ordered(rows), PairKey, k), 1)
  {
    DedupeByKeysDistinct(Ordered(rows), PairKey);
    DedupeByFirstPerKey(Ordered(rows), PairKey, k);
  }

  /** `utils`: the run aborts with "Duplicate rows found" exactly when two
      rows of the ordered table are equal, and otherwise returns it whole. */
  lemma UtilsDuplicates(rows: seq<CompiledRow>)
    ensures TopArticles(UtilsVersion, rows).Err? <==> !Distinct(Ordered(rows))
    ensures TopArticles(UtilsVersion, rows).Err? ==> TopArticles(UtilsVersion, rows).error == DuplicateRows
    ensures TopArticles(UtilsVersion, rows).Ok? ==> TopArticles(UtilsVersion, rows).value == Ordered(rows)
  {
    UniqueSameLengthIffDistinct(Ordered(rows));
  }
}

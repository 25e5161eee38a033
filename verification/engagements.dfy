/** The engagement tables: `compile_data` of `gather_engagements` and of
    `parse_excel`.

    `Gather` merges like the spreadsheet script but filters no comment by
    its state and keeps every column; it only drops the rows without a
    topic. `ParseExcel` starts from articles right-joined to a smaller
    comment table, projects onto nine columns, and left-joins the topic
    table, writing `"missing"` where no topic matched and dropping nothing.
 */
module Engagements {
  import opened Wrappers
  import opened Frames
  import opened Joins
  import opened Merging

  // ---- gather_engagements ----

  function HasTopic(m: Merged): bool {
    m.doc.Some?
  }

  /** `res_df[res_df['Topic'] != 'missing']` after the merge chain. */
  function Gather(cs: seq<Comment>, rs: seq<Reaction>, arts: seq<Article>, docs: seq<DocTopic>): seq<Merged> {
    Where(Chain(Right, cs, rs, arts, docs), HasTopic)
  }

  /** The output is the merged table with the topic-less rows removed:
      every remaining row has a topic, fits the merge, and keeps its place. */
  lemma GatherSpec(cs: seq<Comment>, rs: seq<Reaction>, arts: seq<Article>, docs: seq<DocTopic>, m: Merged)
    ensures m in Gather(cs, rs, arts, docs) <==> m.doc.Some? && InChain(Right, m, cs, rs, arts, docs)
    ensures IsSubseq(Gather(cs, rs, arts, docs), Chain(Right, cs, rs, arts, docs))
  {
    ChainMember(Right, cs, rs, arts, docs, m);
    WhereIsSubseq(Chain(Right, cs, rs, arts, docs), HasTopic);
  }

  /** No comment is filtered by its state: a comment of any `final_state`
      with a reaction, an article and a topic reaches the output. */
  lemma GatherKeepsAnyState(cs: seq<Comment>, rs: seq<Reaction>, arts: seq<Article>, docs: seq<DocTopic>,
                            c: Comment, r: Reaction, a: Article, d: DocTopic)
    requires c in cs && r in rs && a in arts && d in docs
    requires r.messageId == c.convMessageId && a.conversationId == c.conversationId
    requires d.description == a.description
    ensures Merged(Some(c), Some(r), Some(a), Some(d)) in Gather(cs, rs, arts, docs)
  {
    var m := Merged(Some(c), Some(r), Some(a), Some(d));
    assert InRightJoin(Joined(m.comment, m.reaction), cs, rs, CommentKey, ReactionKey);
    assert FirstFits(Right, m, cs, rs);
    assert ConvKey(m) == Some(c.conversationId) && ArticleKey(a) == ConvKey(m);
    assert ArticleFits(m, arts);
    assert DescKey(m) == Some(a.description) && DocKey(d) == DescKey(m);
    assert DocFits(m, docs);
    GatherSpec(cs, rs, arts, docs, m);
  }

  // ---- parse_excel ----

  /** The comment columns `parse_excel` reads. */
  datatype BareComment = BareComment(conversationId: string, authorId: string, writtenDate: string, textContent: string)

  /** The five article columns kept by the projection. */
  datatype ArticleView = ArticleView(
    title: string,
    publishedDate: string,
    description: string,
    canonicalUrl: string,
    thumbnailUrl: string)

  /** The nine projected columns: the article's five (NaN without an
      article), then `conversation_id`, `author_id`, `written_date` and
      `text_content` of the comment. */
  datatype Engagement = Engagement(article: Option<ArticleView>, comment: BareComment)

  datatype TopicLabel = MissingTopic | TopicId(id: int)

  /** A row of the final table: the nine columns, the topic-table row it
      matched, and the `Topic` column after `fillna('missing')`. */
  datatype Labelled = Labelled(row: Engagement, doc: Option<DocTopic>, topic: TopicLabel)

  function View(a: Article): ArticleView {
    ArticleView(a.title, a.publishedDate, a.description, a.canonicalUrl, a.thumbnailUrl)
  }

  function ArticleConv(a: Article): string { a.conversationId }
  function CommentConv(c: BareComment): string { c.conversationId }

  const NoComment: BareComment := BareComment("", "", "", "")

  function Project9(j: Joined<Article, BareComment>): Engagement {
    Engagement(if j.left.Some? then Some(View(j.left.value)) else None, j.right.GetOr(NoComment))
  }

  /** `pd.merge(article_data, comment_data, on='conversation_id', how='right')`
      and the nine-column projection. */
  function ArticleComments(arts: seq<Article>, cs: seq<BareComment>): seq<Engagement> {
    Map(RightJoin(arts, cs, ArticleConv, CommentConv), Project9)
  }

  function EngagementDesc(e: Engagement): Option<string> {
    if e.article.Some? then Some(e.article.value.description) else None
  }

  function LabelOf(d: Option<DocTopic>): TopicLabel {
    if d.Some? then TopicId(d.value.topic) else MissingTopic
  }

  const NoEngagement: Engagement := Engagement(None, NoComment)

  function Label(j: Joined<Engagement, DocTopic>): Labelled {
    Labelled(j.left.GetOr(NoEngagement), j.right, LabelOf(j.right))
  }

  /** `compile_data` of `parse_excel`. */
  function ParseExcel(arts: seq<Article>, cs: seq<BareComment>, docs: seq<DocTopic>): seq<Labelled> {
    Map(LeftJoin(ArticleComments(arts, cs), docs, EngagementDesc, DocKey), Label)
  }

  /** The article columns of a row: an article with the comment's
      conversation id, or NaN exactly when there is none. */
  predicate ViewFits(o: Option<ArticleView>, c: BareComment, arts: seq<Article>) {
    match o
    case None => forall a :: a in arts ==> a.conversationId != c.conversationId
    case Some(v) => exists a :: a in arts && a.conversationId == c.conversationId && View(a) == v
  }

  lemma ArticleCommentsMember(arts: seq<Article>, cs: seq<BareComment>, e: Engagement)
    ensures e in ArticleComments(arts, cs) <==> e.comment in cs && ViewFits(e.article, e.comment, arts)
  {
    var js := RightJoin(arts, cs, ArticleConv, CommentConv);
    MapMember(js, Project9, e);
    if e in ArticleComments(arts, cs) {
      var j :| j in js && Project9(j) == e;
      RightJoinMember(arts, cs, ArticleConv, CommentConv, j);
      if j.left.Some? {
        assert j.left.value in arts && ArticleConv(j.left.value) == CommentConv(j.right.value);
      }
    }
    if e.comment in cs && ViewFits(e.article, e.comment, arts) {
      var c := e.comment;
      if e.article.None? {
        var j := Joined(None, Some(c));
        RightJoinMember(arts, cs, ArticleConv, CommentConv, j);
        assert Project9(j) == e;
      } else {
        var a :| a in arts && a.conversationId == c.conversationId && View(a) == e.article.value;
        var j := Joined(Some(a), Some(c));
        RightJoinMember(arts, cs, ArticleConv, CommentConv, j);
        assert Project9(j) == e;
      }
    }
  }

  /** The final table holds exactly the projected rows with a fitting
      topic row (or NaN), labelled `"missing"` exactly when none matched. */
  lemma ParseExcelMember(arts: seq<Article>, cs: seq<BareComment>, docs: seq<DocTopic>, x: Labelled)
    ensures x in ParseExcel(arts, cs, docs)
        <==> x.row.comment in cs && ViewFits(x.row.article, x.row.comment, arts)
             && RightFits(x.doc, x.row, docs, EngagementDesc, DocKey)
             && (x.topic == MissingTopic <==> x.doc.None?)
             && (x.doc.Some? ==> x.topic == TopicId(x.doc.value.topic))
  {
    var es := ArticleComments(arts, cs);
    var js := LeftJoin(es, docs, EngagementDesc, DocKey);
    MapMember(js, Label, x);
    ArticleCommentsMember(arts, cs, x.row);
    if x in ParseExcel(arts, cs, docs) {
      var j :| j in js && Label(j) == x;
      LeftJoinMember(es, docs, EngagementDesc, DocKey, j);
    }
    if x.row in es && RightFits(x.doc, x.row, docs, EngagementDesc, DocKey)
       && (x.topic == MissingTopic <==> x.doc.None?)
       && (x.doc.Some? ==> x.topic == TopicId(x.doc.value.topic)) {
      var j := Joined(Some(x.row), x.doc);
      LeftJoinMember(es, docs, EngagementDesc, DocKey, j);
      assert Label(j) == x;
    }
  }

  /** No comment row is lost: the table has at least one row per comment,
      and each comment appears in it. */
  lemma ParseExcelKeepsComments(arts: seq<Article>, cs: seq<BareComment>, docs: seq<DocTopic>, c: BareComment)
    requires c in cs
    ensures |ParseExcel(arts, cs, docs)| >= |cs|
    ensures exists x :: x in ParseExcel(arts, cs, docs) && x.row.comment == c
  {
    var es := ArticleComments(arts, cs);
    assert |es| >= |cs|;
    var o: Option<ArticleView>;
    if a :| a in arts && a.conversationId == c.conversationId {
      o := Some(View(a));
    } else {
      o := None;
    }
    var e := Engagement(o, c);
    ArticleCommentsMember(arts, cs, e);
    SomeFit(e, docs, EngagementDesc, DocKey);
    var d :| RightFits(d, e, docs, EngagementDesc, DocKey);
    var x := Labelled(e, d, LabelOf(d));
    ParseExcelMember(arts, cs, docs, x);
  }
}

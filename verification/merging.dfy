/** The three-way merge every `compile_data` performs.

    Comments are joined to reactions on `conv_message_id = message_id`,
    the result to articles on `conversation_id` (left join) and that to the
    document-topic table on `description = Document_description` (left
    join). A row of the result keeps the four input rows it was built from;
    a `None` part is a block of NaN columns.

    `ChainMember` states the contents of the result without reference to
    the order of the joins: a row is in it exactly when its comment and
    reaction fit the first join and its article and topic row are the
    partners (or the NaN stand-in) its keys call for.
 */
module Merging {
  import opened Wrappers
  import opened Frames
  import opened Joins

  /** A comments-sheet row after `read_cols`. */
  datatype Comment = Comment(
    conversationId: string,
    convMessageId: string,
    authorId: string,
    writtenDate: string,
    textContent: string,
    finalState: string)

  /** A reactions-sheet row after `read_cols`. */
  datatype Reaction = Reaction(messageId: string, totalViews: string, totalLikes: string)

  /** An articles-sheet row after `read_cols`. */
  datatype Article = Article(
    title: string,
    publishedDate: string,
    description: string,
    canonicalUrl: string,
    conversationId: string,
    thumbnailUrl: string)

  /** A row of the document-topic CSV written by the topic model. Some
      versions of that table also carry the document's name. */
  datatype DocTopic = DocTopic(topic: int, description: string, name: Option<string>)

  /** One row of the merged table. */
  datatype Merged = Merged(
    comment: Option<Comment>,
    reaction: Option<Reaction>,
    article: Option<Article>,
    doc: Option<DocTopic>)

  const NoRow: Merged := Merged(None, None, None, None)

  function CommentKey(c: Comment): string { c.convMessageId }
  function ReactionKey(r: Reaction): string { r.messageId }

  /** The merged `conversation_id` column: NaN for a reaction without a
      comment. */
  function ConvKey(m: Merged): Option<string> {
    if m.comment.Some? then Some(m.comment.value.conversationId) else None
  }

  function ArticleKey(a: Article): Option<string> { Some(a.conversationId) }

  /** The merged `description` column: NaN for a row without an article. */
  function DescKey(m: Merged): Option<string> {
    if m.article.Some? then Some(m.article.value.description) else None
  }

  function DocKey(d: DocTopic): Option<string> { Some(d.description) }

  // ---- the three joins ----

  function Stage1(how: How, cs: seq<Comment>, rs: seq<Reaction>): seq<Merged> {
    Map(Merge(how, cs, rs, CommentKey, ReactionKey),
        (j: Joined<Comment, Reaction>) => Merged(j.left, j.right, None, None))
  }

  function AddArticle(j: Joined<Merged, Article>): Merged {
    j.left.GetOr(NoRow).(article := j.right)
  }

  function Stage2(ms: seq<Merged>, arts: seq<Article>): seq<Merged> {
    Map(LeftJoin(ms, arts, ConvKey, ArticleKey), AddArticle)
  }

  function AddDoc(j: Joined<Merged, DocTopic>): Merged {
    j.left.GetOr(NoRow).(doc := j.right)
  }

  function Stage3(ms: seq<Merged>, docs: seq<DocTopic>): seq<Merged> {
    Map(LeftJoin(ms, docs, DescKey, DocKey), AddDoc)
  }

  /** `comments.merge(reactions, how=how).merge(articles, how='left')`. */
  function Chain2(how: How, cs: seq<Comment>, rs: seq<Reaction>, arts: seq<Article>): seq<Merged> {
    Stage2(Stage1(how, cs, rs), arts)
  }

  /** The full chain, ending with the left join on the topic table. */
  function Chain(how: How, cs: seq<Comment>, rs: seq<Reaction>, arts: seq<Article>, docs: seq<DocTopic>): seq<Merged> {
    Stage3(Chain2(how, cs, rs, arts), docs)
  }

  // ---- contents ----

  predicate FirstFits(how: How, m: Merged, cs: seq<Comment>, rs: seq<Reaction>) {
    InMerge(how, Joined(m.comment, m.reaction), cs, rs, CommentKey, ReactionKey)
  }

  predicate ArticleFits(m: Merged, arts: seq<Article>) {
    RightFits(m.article, m, arts, ConvKey, ArticleKey)
  }

  predicate DocFits(m: Merged, docs: seq<DocTopic>) {
    RightFits(m.doc, m, docs, DescKey, DocKey)
  }

  /** A row of the two-join chain, described by its parts. */
  predicate InChain2(how: How, m: Merged, cs: seq<Comment>, rs: seq<Reaction>, arts: seq<Article>) {
    m.doc.None? && FirstFits(how, m, cs, rs) && ArticleFits(m, arts)
  }

  /** A row of the full chain, described by its parts. */
  predicate InChain(how: How, m: Merged, cs: seq<Comment>, rs: seq<Reaction>, arts: seq<Article>, docs: seq<DocTopic>) {
    FirstFits(how, m, cs, rs) && ArticleFits(m, arts) && DocFits(m, docs)
  }

  lemma Stage1Member(how: How, cs: seq<Comment>, rs: seq<Reaction>, m: Merged)
    ensures m in Stage1(how, cs, rs) <==> m.article.None? && m.doc.None? && FirstFits(how, m, cs, rs)
  {
    var f := (j: Joined<Comment, Reaction>) => Merged(j.left, j.right, None, None);
    var js := Merge(how, cs, rs, CommentKey, ReactionKey);
    MapMember(js, f, m);
    MergeMember(how, cs, rs, CommentKey, ReactionKey, Joined(m.comment, m.reaction));
    if m in Stage1(how, cs, rs) {
      var j :| j in js && f(j) == m;
      assert j == Joined(m.comment, m.reaction);
    }
    if m.article.None? && m.doc.None? && FirstFits(how, m, cs, rs) {
      assert f(Joined(m.comment, m.reaction)) == m;
    }
  }

  /** The article join adds a fitting article (or NaN) to each row of `ms`. */
  lemma Stage2Member(ms: seq<Merged>, arts: seq<Article>, m: Merged)
    requires forall x :: x in ms ==> x.article.None?
    ensures m in Stage2(ms, arts) <==> m.(article := None) in ms && ArticleFits(m, arts)
  {
    var js := LeftJoin(ms, arts, ConvKey, ArticleKey);
    MapMember(js, AddArticle, m);
    var base := m.(article := None);
    assert ConvKey(base) == ConvKey(m);
    if m in Stage2(ms, arts) {
      var j :| j in js && AddArticle(j) == m;
      LeftJoinMember(ms, arts, ConvKey, ArticleKey, j);
      assert j.left.value.(article := None) == j.left.value;
      assert j.left.value == base;
      assert j.right == m.article;
    }
    if base in ms && ArticleFits(m, arts) {
      var j := Joined(Some(base), m.article);
      LeftJoinMember(ms, arts, ConvKey, ArticleKey, j);
      assert AddArticle(j) == m;
    }
  }

  /** The topic join adds a fitting topic row (or NaN) to each row of `ms`. */
  lemma Stage3Member(ms: seq<Merged>, docs: seq<DocTopic>, m: Merged)
    requires forall x :: x in ms ==> x.doc.None?
    ensures m in Stage3(ms, docs) <==> m.(doc := None) in ms && DocFits(m, docs)
  {
    var js := LeftJoin(ms, docs, DescKey, DocKey);
    MapMember(js, AddDoc, m);
    var base := m.(doc := None);
    assert DescKey(base) == DescKey(m);
    if m in Stage3(ms, docs) {
      var j :| j in js && AddDoc(j) == m;
      LeftJoinMember(ms, docs, DescKey, DocKey, j);
      assert j.left.value.(doc := None) == j.left.value;
      assert j.left.value == base;
      assert j.right == m.doc;
    }
    if base in ms && DocFits(m, docs) {
      var j := Joined(Some(base), m.doc);
      LeftJoinMember(ms, docs, DescKey, DocKey, j);
      assert AddDoc(j) == m;
    }
  }

  lemma Chain2Member(how: How, cs: seq<Comment>, rs: seq<Reaction>, arts: seq<Article>, m: Merged)
    ensures m in Chain2(how, cs, rs, arts) <==> InChain2(how, m, cs, rs, arts)
  {
    var s1 := Stage1(how, cs, rs);
    forall x | x in s1
      ensures x.article.None?
    {
      Stage1Member(how, cs, rs, x);
    }
    Stage2Member(s1, arts, m);
    Stage1Member(how, cs, rs, m.(article := None));
  }

  /** The merged table holds exactly the rows whose parts fit together. */
  lemma ChainMember(how: How, cs: seq<Comment>, rs: seq<Reaction>, arts: seq<Article>, docs: seq<DocTopic>, m: Merged)
    ensures m in Chain(how, cs, rs, arts, docs) <==> InChain(how, m, cs, rs, arts, docs)
  {
    var s2 := Chain2(how, cs, rs, arts);
    forall x | x in s2
      ensures x.doc.None?
    {
      Chain2Member(how, cs, rs, arts, x);
    }
    Stage3Member(s2, docs, m);
    Chain2Member(how, cs, rs, arts, m.(doc := None));
    assert ConvKey(m.(doc := None)) == ConvKey(m);
  }

  /** After a right join on reactions, each reaction reaches the merged
      table. */
  lemma ChainKeepsReactions(cs: seq<Comment>, rs: seq<Reaction>, arts: seq<Article>, docs: seq<DocTopic>, r: Reaction)
    requires r in rs
    ensures exists m :: m in Chain(Right, cs, rs, arts, docs) && m.reaction == Some(r)
  {
    SomeFit(r, cs, ReactionKey, CommentKey);
    var c :| RightFits(c, r, cs, ReactionKey, CommentKey);
    var m1 := Merged(c, Some(r), None, None);
    SomeFit(m1, arts, ConvKey, ArticleKey);
    var a :| RightFits(a, m1, arts, ConvKey, ArticleKey);
    var m2 := Merged(c, Some(r), a, None);
    SomeFit(m2, docs, DescKey, DocKey);
    var d :| RightFits(d, m2, docs, DescKey, DocKey);
    var m := Merged(c, Some(r), a, d);
    assert InRightJoin(Joined(c, Some(r)), cs, rs, CommentKey, ReactionKey);
    assert FirstFits(Right, m, cs, rs);
    FitsSameKey(a, m1, m, arts, ConvKey, ArticleKey);
    FitsSameKey(d, m2, m, docs, DescKey, DocKey);
    assert InChain(Right, m, cs, rs, arts, docs);
    ChainMember(Right, cs, rs, arts, docs, m);
  }

  /** With at most one comment per message id, a right join on reactions
      yields exactly one row per reaction, in reaction order. */
  lemma Stage1OnePerReaction(cs: seq<Comment>, rs: seq<Reaction>)
    requires KeysDistinct(cs, CommentKey)
    ensures |Stage1(Right, cs, rs)| == |rs|
    ensures forall i :: 0 <= i < |rs| ==> Stage1(Right, cs, rs)[i].reaction == Some(rs[i])
  {
    RightJoinDistinctKeys(cs, rs, CommentKey, ReactionKey);
  }
}

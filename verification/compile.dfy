/** `compile_data` of the spreadsheet scripts, and the description list of
    the topic-model script.

    Two versions build the comment table that the top-N selection reads:

      - `SrcVersion` drops blocked comments, merges, aborts on duplicate
        rows, fills a missing topic with -1 and keeps topics `>= 0`;
      - `UtilsVersion` also drops duplicate articles (on canonical URL and
        title) and duplicate comments (on message id) before merging, and
        drops the rows whose topic is missing, keeping -1.

    Both then turn likes and views into integers, a `"missing"` or empty
    cell counting 0, and project onto fifteen columns. The float parse and
    rounding of `.astype(float).round().astype(int)` is the parameter
    `toInt`; `None` from it is pandas' `ValueError`.
 */
module Compile {
  import opened Wrappers
  import opened Frames
  import opened Joins
  import opened Cleaning
  import opened Merging

  datatype CompileError = DuplicateRows | NotANumber(text: string)

  datatype Version = SrcVersion | UtilsVersion

  const Blocked: string := "blocked"

  /** `comment_data[comment_data['final_state'] != 'blocked']`. */
  function NotBlocked(cs: seq<Comment>): (r: seq<Comment>)
    ensures forall c :: c in r <==> c in cs && c.finalState != Blocked
  {
    Where(cs, (c: Comment) => c.finalState != Blocked)
  }

  function ArticleIdentity(a: Article): (string, string) {
    (a.canonicalUrl, a.title)
  }

  /** The comment and article tables as they enter the merge. */
  function PreparedComments(v: Version, cs: seq<Comment>): seq<Comment> {
    match v
    case SrcVersion => NotBlocked(cs)
    case UtilsVersion => DedupeBy(NotBlocked(cs), CommentKey)
  }

  function PreparedArticles(v: Version, arts: seq<Article>): seq<Article> {
    match v
    case SrcVersion => arts
    case UtilsVersion => DedupeBy(arts, ArticleIdentity)
  }

  function MergedTable(v: Version, cs: seq<Comment>, rs: seq<Reaction>, arts: seq<Article>, docs: seq<DocTopic>): seq<Merged> {
    Chain(Right, PreparedComments(v, cs), rs, PreparedArticles(v, arts), docs)
  }

  /** The `Topic` column after `fillna(-1)`. */
  function TopicOf(m: Merged): int {
    if m.doc.Some? then m.doc.value.topic else -1
  }

  /** Whether a row survives the missing-topic filter. */
  predicate KeepsTopic(v: Version, m: Merged) {
    match v
    case SrcVersion => TopicOf(m) >= 0
    case UtilsVersion => m.doc.Some?
  }

  function LikesText(m: Merged): Option<string> {
    if m.reaction.Some? then Some(m.reaction.value.totalLikes) else None
  }

  function ViewsText(m: Merged): Option<string> {
    if m.reaction.Some? then Some(m.reaction.value.totalViews) else None
  }

  /** One cell of `replace('missing', nan).fillna(0).astype(float).round().astype(int)`. */
  function ParseCount(v: Option<string>, toInt: string -> Option<int>): (r: Result<int, CompileError>)
    ensures v == None || v == Some(Missing) ==> r == Ok(0)
    ensures r.Err? <==> v.Some? && v.value != Missing && toInt(v.value).None?
  {
    match v
    case None => Ok(0)
    case Some(s) =>
      if s == Missing then Ok(0)
      else if toInt(s).Some? then Ok(toInt(s).value)
      else Err(NotANumber(s))
  }

  /** A whole column; the first cell that does not parse aborts. */
  function ParseColumn(vs: seq<Option<string>>, toInt: string -> Option<int>): (r: Result<seq<int>, CompileError>)
    ensures r.Ok? <==> forall i :: 0 <= i < |vs| ==> ParseCount(vs[i], toInt).Ok?
    ensures r.Ok? ==> |r.value| == |vs|
    ensures r.Ok? ==> forall i :: 0 <= i < |vs| ==> ParseCount(vs[i], toInt) == Ok(r.value[i])
    ensures r.Err? ==> r.error.NotANumber?
    decreases |vs|
  {
    if vs == [] then Ok([])
    else
      match ParseCount(vs[0], toInt)
      case Err(e) => Err(e)
      case Ok(n) =>
        match ParseColumn(vs[1..], toInt)
        case Err(e) =>
          assert exists i :: 1 <= i < |vs| && ParseCount(vs[i], toInt).Err? by {
            var k :| 0 <= k < |vs[1..]| && ParseCount(vs[1..][k], toInt).Err?;
            assert vs[1..][k] == vs[k + 1];
          }
          Err(e)
        case Ok(ns) =>
          assert forall i :: 1 <= i < |vs| ==> vs[i] == vs[1..][i - 1];
          Ok([n] + ns)
  }

  /** The fifteen output columns, in the order of the final projection. */
  datatype CompiledRow = CompiledRow(
    title: Option<string>,
    description: Option<string>,
    publishedDate: Option<string>,
    canonicalUrl: Option<string>,
    thumbnailUrl: Option<string>,
    topic: int,
    writtenDate: Option<string>,
    conversationId: Option<string>,
    convMessageId: Option<string>,
    authorId: Option<string>,
    textContent: Option<string>,
    finalState: Option<string>,
    messageId: Option<string>,
    totalViews: int,
    totalLikes: int)

  function Project(m: Merged, topic: int, views: int, likes: int): CompiledRow {
    var a := m.article;
    var c := m.comment;
    CompiledRow(
      if a.Some? then Some(a.value.title) else None,
      if a.Some? then Some(a.value.description) else None,
      if a.Some? then Some(a.value.publishedDate) else None,
      if a.Some? then Some(a.value.canonicalUrl) else None,
      if a.Some? then Some(a.value.thumbnailUrl) else None,
      topic,
      if c.Some? then Some(c.value.writtenDate) else None,
      ConvKey(m),
      if c.Some? then Some(c.value.convMessageId) else None,
      if c.Some? then Some(c.value.authorId) else None,
      if c.Some? then Some(c.value.textContent) else None,
      if c.Some? then Some(c.value.finalState) else None,
      if m.reaction.Some? then Some(m.reaction.value.messageId) else None,
      views,
      likes)
  }

  /** The merged rows that pass the topic filter, in order. */
  function TopicRows(v: Version, merged: seq<Merged>): seq<Merged> {
    Where(merged, (m: Merged) => KeepsTopic(v, m))
  }

  /** The count conversions and the projection. */
  function Convert(kept: seq<Merged>, toInt: string -> Option<int>): (r: Result<seq<CompiledRow>, CompileError>)
    ensures r.Err? ==> r.error.NotANumber?
  {
    var likes :- ParseColumn(Map(kept, LikesText), toInt);
    var views :- ParseColumn(Map(kept, ViewsText), toInt);
    Ok(seq(|kept|, i requires 0 <= i < |kept| => Project(kept[i], TopicOf(kept[i]), views[i], likes[i])))
  }

  /** `compile_data`. */
  function CompileData(v: Version, cs: seq<Comment>, rs: seq<Reaction>, arts: seq<Article>,
                       docs: seq<DocTopic>, toInt: string -> Option<int>): Result<seq<CompiledRow>, CompileError>
  {
    var merged := MergedTable(v, cs, rs, arts, docs);
    if |Unique(merged)| != |merged| then Err(DuplicateRows)
    else Convert(TopicRows(v, merged), toInt)
  }

  // ---- properties ----

  /** The run aborts with "Duplicate rows found" exactly when the merged
      table has two equal rows. */
  lemma CompileDuplicates(v: Version, cs: seq<Comment>, rs: seq<Reaction>, arts: seq<Article>,
                          docs: seq<DocTopic>, toInt: string -> Option<int>)
    ensures CompileData(v, cs, rs, arts, docs, toInt) == Err(DuplicateRows)
        <==> !Distinct(MergedTable(v, cs, rs, arts, docs))
  {
    UniqueSameLengthIffDistinct(MergedTable(v, cs, rs, arts, docs));
  }

  lemma ConvertSucceeds(kept: seq<Merged>, toInt: string -> Option<int>)
    ensures Convert(kept, toInt).Ok?
        <==> forall m :: m in kept ==> ParseCount(LikesText(m), toInt).Ok? && ParseCount(ViewsText(m), toInt).Ok?
  {
    var lt := Map(kept, LikesText);
    var vt := Map(kept, ViewsText);
    if forall m :: m in kept ==> ParseCount(LikesText(m), toInt).Ok? && ParseCount(ViewsText(m), toInt).Ok? {
      forall i | 0 <= i < |kept|
        ensures ParseCount(lt[i], toInt).Ok? && ParseCount(vt[i], toInt).Ok?
      {
        assert kept[i] in kept;
      }
    } else {
      var m :| m in kept && !(ParseCount(LikesText(m), toInt).Ok? && ParseCount(ViewsText(m), toInt).Ok?);
      var i :| 0 <= i < |kept| && kept[i] == m;
      assert lt[i] == LikesText(m) && vt[i] == ViewsText(m);
    }
  }

  /** Without duplicates, the run succeeds exactly when every kept row's
      likes and views parse. */
  lemma CompileSucceeds(v: Version, cs: seq<Comment>, rs: seq<Reaction>, arts: seq<Article>,
                        docs: seq<DocTopic>, toInt: string -> Option<int>)
    ensures CompileData(v, cs, rs, arts, docs, toInt).Ok?
        <==> Distinct(MergedTable(v, cs, rs, arts, docs))
             && forall m :: m in TopicRows(v, MergedTable(v, cs, rs, arts, docs)) ==>
                  ParseCount(LikesText(m), toInt).Ok? && ParseCount(ViewsText(m), toInt).Ok?
  {
    var merged := MergedTable(v, cs, rs, arts, docs);
    UniqueSameLengthIffDistinct(merged);
    ConvertSucceeds(TopicRows(v, merged), toInt);
  }

  /** Output row i is merged row i of those that kept their topic: its
      columns come from that row's parts and its counts are the parsed
      likes and views ("missing" or empty counting 0). */
  lemma CompileRows(v: Version, cs: seq<Comment>, rs: seq<Reaction>, arts: seq<Article>,
                    docs: seq<DocTopic>, toInt: string -> Option<int>)
    requires CompileData(v, cs, rs, arts, docs, toInt).Ok?
    ensures var kept := TopicRows(v, MergedTable(v, cs, rs, arts, docs));
            var out := CompileData(v, cs, rs, arts, docs, toInt).value;
            |out| == |kept|
            && forall i :: 0 <= i < |kept| ==>
                 ParseCount(LikesText(kept[i]), toInt) == Ok(out[i].totalLikes)
                 && ParseCount(ViewsText(kept[i]), toInt) == Ok(out[i].totalViews)
                 && out[i] == Project(kept[i], TopicOf(kept[i]), out[i].totalViews, out[i].totalLikes)
  {
    var merged := MergedTable(v, cs, rs, arts, docs);
    assert CompileData(v, cs, rs, arts, docs, toInt) == Convert(TopicRows(v, merged), toInt);
    ConvertRows(TopicRows(v, merged), toInt);
  }

  lemma ConvertRows(kept: seq<Merged>, toInt: string -> Option<int>)
    requires Convert(kept, toInt).Ok?
    ensures var out := Convert(kept, toInt).value;
            |out| == |kept|
            && forall i :: 0 <= i < |kept| ==>
                 ParseCount(LikesText(kept[i]), toInt) == Ok(out[i].totalLikes)
                 && ParseCount(ViewsText(kept[i]), toInt) == Ok(out[i].totalViews)
                 && out[i] == Project(kept[i], TopicOf(kept[i]), out[i].totalViews, out[i].totalLikes)
  {
    var lt := Map(kept, LikesText);
    var vt := Map(kept, ViewsText);
    assert forall i :: 0 <= i < |kept| ==> lt[i] == LikesText(kept[i]) && vt[i] == ViewsText(kept[i]);
  }

  /** The kept merged row an output row was projected from. */
  lemma OutputSource(v: Version, cs: seq<Comment>, rs: seq<Reaction>, arts: seq<Article>,
                     docs: seq<DocTopic>, toInt: string -> Option<int>, r: CompiledRow) returns (m: Merged)
    requires CompileData(v, cs, rs, arts, docs, toInt).Ok?
    requires r in CompileData(v, cs, rs, arts, docs, toInt).value
    ensures m in TopicRows(v, MergedTable(v, cs, rs, arts, docs))
    ensures r == Project(m, TopicOf(m), r.totalViews, r.totalLikes)
  {
    var kept := TopicRows(v, MergedTable(v, cs, rs, arts, docs));
    var out := CompileData(v, cs, rs, arts, docs, toInt).value;
    CompileRows(v, cs, rs, arts, docs, toInt);
    var i :| 0 <= i < |out| && out[i] == r;
    m := kept[i];
  }

  /** A kept merged row is a row of the merged table, whose parts fit. */
  lemma KeptInChain(v: Version, cs: seq<Comment>, rs: seq<Reaction>, arts: seq<Article>, docs: seq<DocTopic>, m: Merged)
    requires m in TopicRows(v, MergedTable(v, cs, rs, arts, docs))
    ensures InChain(Right, m, PreparedComments(v, cs), rs, PreparedArticles(v, arts), docs)
  {
    var merged := MergedTable(v, cs, rs, arts, docs);
    WhereMultiset(merged, (x: Merged) => KeepsTopic(v, x), m);
    assert m in multiset(TopicRows(v, merged));
    assert m in merged;
    ChainMember(Right, PreparedComments(v, cs), rs, PreparedArticles(v, arts), docs, m);
  }

  /** Every comment that reaches the output was not blocked. */
  lemma CompileNoBlocked(v: Version, cs: seq<Comment>, rs: seq<Reaction>, arts: seq<Article>,
                         docs: seq<DocTopic>, toInt: string -> Option<int>, r: CompiledRow)
    requires CompileData(v, cs, rs, arts, docs, toInt).Ok?
    requires r in CompileData(v, cs, rs, arts, docs, toInt).value
    ensures r.finalState != Some(Blocked)
  {
    var m := OutputSource(v, cs, rs, arts, docs, toInt, r);
    KeptInChain(v, cs, rs, arts, docs, m);
    if m.comment.Some? {
      var c := m.comment.value;
      assert InRightJoin(Joined(m.comment, m.reaction), PreparedComments(v, cs), rs, CommentKey, ReactionKey);
      PreparedNotBlocked(v, cs, c);
    }
  }

  /** Neither version lets a blocked comment into the merge. */
  lemma PreparedNotBlocked(v: Version, cs: seq<Comment>, c: Comment)
    requires c in PreparedComments(v, cs)
    ensures c in cs && c.finalState != Blocked
  {
    if v == UtilsVersion {
      DedupeByIsSubseq(NotBlocked(cs), CommentKey);
      SubseqMembers(PreparedComments(v, cs), NotBlocked(cs));
    }
  }

  /** Every output row's topic is the topic the topic table gives its
      article's description. */
  lemma CompileTopicFromTable(v: Version, cs: seq<Comment>, rs: seq<Reaction>, arts: seq<Article>,
                              docs: seq<DocTopic>, toInt: string -> Option<int>, r: CompiledRow)
    requires CompileData(v, cs, rs, arts, docs, toInt).Ok?
    requires r in CompileData(v, cs, rs, arts, docs, toInt).value
    ensures r.description.Some?
    ensures exists d :: d in docs && d.description == r.description.value && d.topic == r.topic
    ensures v == SrcVersion ==> r.topic >= 0
  {
    var m := OutputSource(v, cs, rs, arts, docs, toInt, r);
    KeptInChain(v, cs, rs, arts, docs, m);
    assert m.doc.Some?;
    assert m.doc.value in docs && DocKey(m.doc.value) == DescKey(m);
  }

  /** Each reaction row reaches the merged table (the comment join is a
      right join). */
  lemma MergedKeepsReactions(v: Version, cs: seq<Comment>, rs: seq<Reaction>, arts: seq<Article>,
                             docs: seq<DocTopic>, r: Reaction)
    requires r in rs
    ensures exists m :: m in MergedTable(v, cs, rs, arts, docs) && m.reaction == Some(r)
  {
    ChainKeepsReactions(PreparedComments(v, cs), rs, PreparedArticles(v, arts), docs, r);
  }

  /** After dropping duplicate message ids, the comment join gives exactly
      one row per reaction, in reaction order. */
  lemma UtilsOneRowPerReaction(cs: seq<Comment>, rs: seq<Reaction>)
    ensures |Stage1(Right, PreparedComments(UtilsVersion, cs), rs)| == |rs|
    ensures forall i :: 0 <= i < |rs| ==>
              Stage1(Right, PreparedComments(UtilsVersion, cs), rs)[i].reaction == Some(rs[i])
  {
    DedupeByKeysDistinct(NotBlocked(cs), CommentKey);
    Stage1OnePerReaction(PreparedComments(UtilsVersion, cs), rs);
  }

  /** The pre-merge dedupe keeps the first comment of each message id and
      the first article of each (canonical URL, title) pair. */
  lemma UtilsPreparedFirst(cs: seq<Comment>, arts: seq<Article>, id: string, key: (string, string))
    ensures Select(PreparedComments(UtilsVersion, cs), CommentKey, id)
         == Take(Select(NotBlocked(cs), CommentKey, id), 1)
    ensures Select(PreparedArticles(UtilsVersion, arts), ArticleIdentity, key)
         == Take(Select(arts, ArticleIdentity, key), 1)
  {
    DedupeByFirstPerKey(NotBlocked(cs), CommentKey, id);
    DedupeByFirstPerKey(arts, ArticleIdentity, key);
  }

  // ---- the topic-model script's description list ----

  /** `dropna()` after the two left joins: every part present. */
  predicate Complete(m: Merged) {
    m.reaction.Some? && m.article.Some?
  }

  /** `compile_data` of the topic-model script: the distinct descriptions
      of the articles that have a non-blocked comment with a reaction, in
      order of first appearance. */
  function Descriptions(cs: seq<Comment>, rs: seq<Reaction>, arts: seq<Article>): (r: seq<string>)
    ensures Distinct(r)
  {
    Unique(Map(CompleteRows(cs, rs, arts), DescriptionOf))
  }

  /** The reference condition: a non-blocked comment with a reaction and
      an article with description `d`. */
  predicate Described(cs: seq<Comment>, rs: seq<Reaction>, arts: seq<Article>, d: string) {
    exists c, r, a ::
      c in cs && c.finalState != Blocked && r in rs && a in arts
      && r.messageId == c.convMessageId && a.conversationId == c.conversationId
      && a.description == d
  }

  function DescriptionOf(m: Merged): string {
    if m.article.Some? then m.article.value.description else ""
  }

  function CompleteRows(cs: seq<Comment>, rs: seq<Reaction>, arts: seq<Article>): seq<Merged> {
    Where(Chain2(Left, NotBlocked(cs), rs, arts), Complete)
  }

  lemma DescriptionsSound(cs: seq<Comment>, rs: seq<Reaction>, arts: seq<Article>, d: string)
    requires d in Map(CompleteRows(cs, rs, arts), DescriptionOf)
    ensures Described(cs, rs, arts, d)
  {
    var rows := CompleteRows(cs, rs, arts);
    MapMember(rows, DescriptionOf, d);
    var m :| m in rows && DescriptionOf(m) == d;
    Chain2Member(Left, NotBlocked(cs), rs, arts, m);
    var c := m.comment.value;
    assert c in NotBlocked(cs);
    assert m.reaction.value in rs;
    assert m.article.value in arts;
  }

  lemma DescriptionsComplete(cs: seq<Comment>, rs: seq<Reaction>, arts: seq<Article>, d: string)
    requires Described(cs, rs, arts, d)
    ensures d in Map(CompleteRows(cs, rs, arts), DescriptionOf)
  {
    var c, r, a :|
      c in cs && c.finalState != Blocked && r in rs && a in arts
      && r.messageId == c.convMessageId && a.conversationId == c.conversationId
      && a.description == d;
    var m := Merged(Some(c), Some(r), Some(a), None);
    var ncs := NotBlocked(cs);
    assert c in ncs;
    assert InLeftJoin(Joined(Some(c), Some(r)), ncs, rs, CommentKey, ReactionKey);
    assert FirstFits(Left, m, ncs, rs);
    assert ConvKey(m) == Some(c.conversationId) && ArticleKey(a) == ConvKey(m);
    assert ArticleFits(m, arts);
    Chain2Member(Left, ncs, rs, arts, m);
    assert m in Chain2(Left, ncs, rs, arts) && Complete(m);
    assert m in CompleteRows(cs, rs, arts);
    MapMember(CompleteRows(cs, rs, arts), DescriptionOf, d);
  }

  /** A description is listed exactly when some non-blocked comment has a
      reaction and an article with that description. */
  lemma DescriptionsMember(cs: seq<Comment>, rs: seq<Reaction>, arts: seq<Article>, d: string)
    ensures d in Descriptions(cs, rs, arts) <==> Described(cs, rs, arts, d)
  {
    var descs := Map(CompleteRows(cs, rs, arts), DescriptionOf);
    assert Descriptions(cs, rs, arts) == Unique(descs);
    UniqueComplete(descs);
    if d in Descriptions(cs, rs, arts) {
      DescriptionsSound(cs, rs, arts, d);
    }
    if Described(cs, rs, arts, d) {
      DescriptionsComplete(cs, rs, arts, d);
    }
  }
}

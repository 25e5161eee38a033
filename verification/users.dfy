/** `get_most_engaged`: each user's most commented conversation that has a
    topic.

    Comment rows are counted per (user, conversation) pair, sorted by user
    and descending count, and ranked densely within each user. A
    conversation's topic comes from a `dict(zip(...))` over the rows of the
    topic workbook, where a repeated conversation takes its last topic.
    Pairs whose conversation has no topic are dropped, the first remaining
    pair of each user is selected, and the distinct users are left-merged
    with the selection so that every user appears, with no topic when none
    of their conversations has one.
 */
module Users {
  import opened Wrappers
  import opened Frames
  import opened Ordering
  import opened Sorting
  import opened Joins
  import opened Dicts

  /** A row of the `comments_history` sheet after `read_cols`. */
  datatype CommentRef = CommentRef(userId: string, conversationId: string, messageId: string)

  /** A row of `conversation_counts`. */
  datatype PairCount = PairCount(userId: string, conversationId: string, count: nat)

  /** A row of `conversation_counts` once ranked and given its topic. */
  datatype Ranked = Ranked(userId: string, conversationId: string, count: nat, rank: nat, topic: Option<int>)

  /** A row of the output: a user and the selected conversation, if any. */
  datatype UserTopic = UserTopic(userId: string, best: Option<Ranked>)

  /** A row of the topic workbook: its `conversation_id` and `Topic` cells. */
  datatype TopicRow = TopicRow(conversationId: string, topic: Option<int>)

  function PairOf(c: CommentRef): (string, string) {
    (c.userId, c.conversationId)
  }

  function PairOrder(p: (string, string)): SortKey {
    [Asc(Text(p.0)), Asc(Text(p.1))]
  }

  /** `by=['user_id', 'count'], ascending=[True, False]`. */
  function CountOrder(p: PairCount): SortKey {
    [Asc(Text(p.userId)), Desc(Num(p.count))]
  }

  function UserOf(p: PairCount): string { p.userId }
  function RankedUser(r: Ranked): string { r.userId }

  /** `groupby(['user_id', 'conversation_id']).size()`: one row per pair
      present, in key order, with its number of comment rows. */
  function PairCounts(cs: seq<CommentRef>): seq<PairCount> {
    Map(SortBy(Unique(Map(cs, PairOf)), PairOrder),
        (p: (string, string)) => PairCount(p.0, p.1, Count(cs, PairOf, p)))
  }

  /** `sort_values(by=['user_id', 'count'], ascending=[True, False])`. */
  function SortedCounts(cs: seq<CommentRef>): seq<PairCount> {
    SortBy(PairCounts(cs), CountOrder)
  }

  /** The distinct counts of user `u` above `c`. */
  function Above(rows: seq<PairCount>, u: string, c: nat): set<nat> {
    set r | r in rows && r.userId == u && r.count > c :: r.count
  }

  /** `groupby('user_id')['count'].rank(method='dense', ascending=False)`:
      one more than the number of distinct larger counts of the same user. */
  function DenseRank(rows: seq<PairCount>, p: PairCount): nat {
    |Above(rows, p.userId, p.count)| + 1
  }

  /** `dict(zip(topic_data['conversation_id'], topic_data['Topic']))`. */
  function TopicDict(topics: seq<TopicRow>): Dict<string, Option<int>> {
    FromItems(TopicItems(topics))
  }

  /** The zipped (conversation, topic) pairs, one per workbook row. */
  function TopicItems(topics: seq<TopicRow>): (ps: seq<(string, Option<int>)>)
    ensures |ps| == |topics|
    ensures forall i :: 0 <= i < |ps| ==> ps[i] == (topics[i].conversationId, topics[i].topic)
  {
    Zip(Map(topics, (t: TopicRow) => t.conversationId), Map(topics, (t: TopicRow) => t.topic))
  }

  /** `conversation_id.map(convo_topic_dict)`: NaN for an absent key or a
      NaN value. */
  function TopicOf(d: Dict<string, Option<int>>, conv: string): Option<int> {
    var cell := Get(d, conv);
    if cell.Some? && cell.value.Some? then Some(cell.value.value) else None
  }

  /** The ranked table with its topic column. */
  function RankedCounts(cs: seq<CommentRef>, topics: seq<TopicRow>): seq<Ranked> {
    var rows := SortedCounts(cs);
    var d := TopicDict(topics);
    Map(rows, (p: PairCount) => Ranked(p.userId, p.conversationId, p.count, DenseRank(rows, p), TopicOf(d, p.conversationId)))
  }

  function HasTopic(r: Ranked): bool { r.topic.Some? }

  /** The order of the ranked table, by user and descending count. */
  function RankedOrder(r: Ranked): SortKey {
    [Asc(Text(r.userId)), Desc(Num(r.count))]
  }

  /** `dropna(subset=['topic'])`. */
  function WithTopic(cs: seq<CommentRef>, topics: seq<TopicRow>): seq<Ranked> {
    Where(RankedCounts(cs, topics), HasTopic)
  }

  /** `groupby('user_id').first()`. */
  function BestPerUser(cs: seq<CommentRef>, topics: seq<TopicRow>): seq<Ranked> {
    DedupeBy(WithTopic(cs, topics), RankedUser)
  }

  /** `conversation_counts['user_id'].drop_duplicates()`. */
  function AllUsers(cs: seq<CommentRef>): seq<string> {
    Unique(Map(SortedCounts(cs), UserOf))
  }

  function UserRow(j: Joined<string, Ranked>): UserTopic {
    UserTopic(j.left.GetOr(""), j.right)
  }

  /** `get_most_engaged`: the left merge of the users with their selection. */
  function MostEngaged(cs: seq<CommentRef>, topics: seq<TopicRow>): seq<UserTopic> {
    Map(LeftJoin(AllUsers(cs), BestPerUser(cs, topics), Id, RankedUser), UserRow)
  }

  // ---- counts ----

  /** The count table has one row per (user, conversation) pair of the
      comments, holding the number of comment rows with that pair. */
  lemma PairCountsSpec(cs: seq<CommentRef>, u: string, c: string, n: nat)
    ensures PairCount(u, c, n) in SortedCounts(cs)
        <==> (exists x :: x in cs && PairOf(x) == (u, c)) && n == Count(cs, PairOf, (u, c))
  {
    var ps := Map(cs, PairOf);
    var sorted := SortBy(Unique(ps), PairOrder);
    var f := (p: (string, string)) => PairCount(p.0, p.1, Count(cs, PairOf, p));
    SortByMember(PairCounts(cs), CountOrder, PairCount(u, c, n));
    assert PairCounts(cs) == Map(sorted, f);
    assert PairCount(u, c, n) in Map(sorted, f) <==> (u, c) in sorted && n == Count(cs, PairOf, (u, c)) by {
      MapMember(sorted, f, PairCount(u, c, n));
    }
    SortByMember(Unique(ps), PairOrder, (u, c));
    UniqueComplete(ps);
    MapMember(cs, PairOf, (u, c));
  }

  // ---- dense rank ----

  /** Rank 1 goes exactly to the user's largest count. */
  lemma RankOne(rows: seq<PairCount>, p: PairCount)
    ensures DenseRank(rows, p) == 1 <==> forall r :: r in rows && r.userId == p.userId ==> r.count <= p.count
  {
    var a := Above(rows, p.userId, p.count);
    if exists r :: r in rows && r.userId == p.userId && r.count > p.count {
      var r :| r in rows && r.userId == p.userId && r.count > p.count;
      assert r.count in a;
    }
  }

  lemma AboveShrinks(rows: seq<PairCount>, u: string, lo: nat, hi: nat)
    requires lo < hi && exists r :: r in rows && r.userId == u && r.count == hi
    ensures Above(rows, u, hi) < Above(rows, u, lo)
    ensures |Above(rows, u, hi)| < |Above(rows, u, lo)|
  {
    var big, small := Above(rows, u, lo), Above(rows, u, hi);
    var r :| r in rows && r.userId == u && r.count == hi;
    assert hi in big && hi !in small;
    assert small <= big;
    var rest := big - small;
    assert hi in rest;
    assert big == small + rest && small * rest == {};
  }

  /** Within a user, a larger count has a smaller rank and equal counts
      have equal ranks. */
  lemma RankOrder(rows: seq<PairCount>, p: PairCount, q: PairCount)
    requires p in rows && q in rows && p.userId == q.userId
    ensures p.count > q.count <==> DenseRank(rows, p) < DenseRank(rows, q)
    ensures p.count == q.count <==> DenseRank(rows, p) == DenseRank(rows, q)
  {
    if p.count > q.count {
      AboveShrinks(rows, p.userId, q.count, p.count);
    } else if p.count < q.count {
      AboveShrinks(rows, p.userId, p.count, q.count);
    }
  }

  /** The smallest count of user `u` above `c`, among the rows from the
      first `k`. */
  function NextAbove(rows: seq<PairCount>, u: string, c: nat, k: nat): (m: Option<nat>)
    requires k <= |rows|
    ensures m.None? <==> forall i :: k <= i < |rows| ==> !(rows[i].userId == u && rows[i].count > c)
    ensures m.Some? ==> exists i :: k <= i < |rows| && rows[i].userId == u && rows[i].count == m.value
    ensures m.Some? ==> m.value > c
    ensures m.Some? ==> forall i :: k <= i < |rows| && rows[i].userId == u && rows[i].count > c ==> m.value <= rows[i].count
    decreases |rows| - k
  {
    if k == |rows| then None
    else
      var rest := NextAbove(rows, u, c, k + 1);
      var r := rows[k];
      if r.userId == u && r.count > c && (rest.None? || r.count < rest.value) then Some(r.count) else rest
  }

  /** Ranks are consecutive: below any rank but the first there is a row of
      the same user with the rank just above it. */
  lemma RankConsecutive(rows: seq<PairCount>, p: PairCount)
    requires DenseRank(rows, p) > 1
    ensures exists q :: q in rows && q.userId == p.userId && DenseRank(rows, q) == DenseRank(rows, p) - 1
  {
    var u, c := p.userId, p.count;
    var a := Above(rows, u, c);
    var x :| x in a;
    var r0 :| r0 in rows && r0.userId == u && r0.count == x && x > c;
    var next := NextAbove(rows, u, c, 0);
    assert next.Some?;
    var i :| 0 <= i < |rows| && rows[i].userId == u && rows[i].count == next.value;
    var q := rows[i];
    var a' := Above(rows, u, q.count);
    assert a' == a - {q.count} by {
      forall y | y in a
        ensures y in a' <==> y != q.count
      {
        var r :| r in rows && r.userId == u && r.count > c && r.count == y;
        var j :| 0 <= j < |rows| && rows[j] == r;
        assert next.value <= y;
        if y != q.count {
          assert r.count > q.count;
        }
      }
    }
    assert q.count in a;
    assert a * {q.count} == {q.count};
  }

  // ---- topics ----

  /** A conversation's topic is the one on its last row in the topic
      workbook. */
  lemma TopicLastWins(topics: seq<TopicRow>, conv: string)
    ensures TopicOf(TopicDict(topics), conv).Some? ==>
              exists i :: 0 <= i < |topics| && topics[i] == TopicRow(conv, TopicOf(TopicDict(topics), conv))
                && forall j :: i < j < |topics| ==> topics[j].conversationId != conv
  {
    FromItemsGet(TopicItems(topics), conv);
    var lv := LastValue(TopicItems(topics), conv);
    if lv.Some? && lv.value.Some? {
      var i := TopicLastRow(topics, conv);
    }
  }

  /** The row the dictionary takes a present conversation's value from. */
  lemma TopicLastRow(topics: seq<TopicRow>, conv: string) returns (i: nat)
    requires LastValue(TopicItems(topics), conv).Some?
    ensures i < |topics| && topics[i] == TopicRow(conv, LastValue(TopicItems(topics), conv).value)
    ensures forall j :: i < j < |topics| ==> topics[j].conversationId != conv
  {
    var ps := TopicItems(topics);
    LastValueSpec(ps, conv);
    i :| 0 <= i < |ps| && ps[i] == (conv, LastValue(ps, conv).value) && forall j :: i < j < |ps| ==> ps[j].0 != conv;
    assert forall j :: i < j < |topics| ==> ps[j].0 == topics[j].conversationId;
  }

  /** A conversation absent from the dictionary has no workbook row. */
  lemma TopicNoRow(topics: seq<TopicRow>, conv: string)
    requires LastValue(TopicItems(topics), conv).None?
    ensures forall i :: 0 <= i < |topics| ==> topics[i].conversationId != conv
  {
    var ps := TopicItems(topics);
    LastValueSpec(ps, conv);
    forall i | 0 <= i < |topics|
      ensures topics[i].conversationId != conv
    {
      assert ps[i].0 == topics[i].conversationId;
    }
  }

  /** Every row of `conv` is followed, itself included, by a row of
      `conv` without a topic: the last row of `conv` has none. */
  predicate LastRowUntopiced(topics: seq<TopicRow>, conv: string) {
    forall i :: 0 <= i < |topics| && topics[i].conversationId == conv ==>
      exists j :: i <= j < |topics| && topics[j] == TopicRow(conv, None)
  }

  /** A conversation gets no topic exactly when it has no row in the
      workbook or its last row has no topic. */
  lemma TopicMissing(topics: seq<TopicRow>, conv: string)
    ensures TopicOf(TopicDict(topics), conv).None? <==> LastRowUntopiced(topics, conv)
  {
    FromItemsGet(TopicItems(topics), conv);
    var lv := LastValue(TopicItems(topics), conv);
    if lv.Some? {
      var i := TopicLastRow(topics, conv);
      LastRowAt(topics, conv, i);
    } else {
      TopicNoRow(topics, conv);
    }
  }

  lemma LastRowAt(topics: seq<TopicRow>, conv: string, i: nat)
    requires i < |topics| && topics[i].conversationId == conv
    requires forall j :: i < j < |topics| ==> topics[j].conversationId != conv
    ensures LastRowUntopiced(topics, conv) <==> topics[i].topic.None?
  {
    if topics[i].topic.None? {
      forall k | 0 <= k < |topics| && topics[k].conversationId == conv
        ensures exists j :: k <= j < |topics| && topics[j] == TopicRow(conv, None)
      {
        assert topics[i] == TopicRow(conv, None);
      }
    }
  }

  // ---- selection ----

  lemma RankedMember(cs: seq<CommentRef>, topics: seq<TopicRow>, r: Ranked)
    requires r in RankedCounts(cs, topics)
    ensures PairCount(r.userId, r.conversationId, r.count) in SortedCounts(cs)
    ensures r.topic == TopicOf(TopicDict(topics), r.conversationId)
    ensures r.rank == DenseRank(SortedCounts(cs), PairCount(r.userId, r.conversationId, r.count))
  {
    var rows := SortedCounts(cs);
    var i :| 0 <= i < |rows| && RankedCounts(cs, topics)[i] == r;
    assert rows[i] == PairCount(r.userId, r.conversationId, r.count);
  }

  lemma WithTopicSorted(cs: seq<CommentRef>, topics: seq<TopicRow>)
    ensures SortedBy(WithTopic(cs, topics), RankedOrder)
  {
    var ranked := RankedCounts(cs, topics);
    var rows := SortedCounts(cs);
    SortBySorted(PairCounts(cs), CountOrder);
    assert SortedBy(ranked, RankedOrder) by {
      forall i, j | 0 <= i < j < |ranked|
        ensures Le(RankedOrder(ranked[i]), RankedOrder(ranked[j]))
      {
        assert RankedOrder(ranked[i]) == CountOrder(rows[i]) && RankedOrder(ranked[j]) == CountOrder(rows[j]);
      }
    }
    WhereIsSubseq(ranked, HasTopic);
    SortedSubseq(WithTopic(cs, topics), ranked, RankedOrder);
  }

  lemma WithTopicMember(cs: seq<CommentRef>, topics: seq<TopicRow>, r: Ranked)
    ensures r in WithTopic(cs, topics) <==> r in RankedCounts(cs, topics) && r.topic.Some?
    ensures r in BestPerUser(cs, topics) ==> r in WithTopic(cs, topics)
  {
    WhereMultiset(RankedCounts(cs, topics), HasTopic, r);
    assert r in WithTopic(cs, topics) <==> r in multiset(WithTopic(cs, topics));
    DedupeByIsSubseq(WithTopic(cs, topics), RankedUser);
    SubseqMembers(BestPerUser(cs, topics), WithTopic(cs, topics));
  }

  lemma BestBeatsDropped(cs: seq<CommentRef>, topics: seq<TopicRow>, b: Ranked, y: Ranked)
    requires b in BestPerUser(cs, topics) && y in WithTopic(cs, topics) && y !in BestPerUser(cs, topics)
    requires y.userId == b.userId
    ensures b.count >= y.count
  {
    WithTopicSorted(cs, topics);
    FirstBeatsDropped(WithTopic(cs, topics), b, y);
  }

  lemma FirstBeatsDropped(filtered: seq<Ranked>, b: Ranked, y: Ranked)
    requires SortedBy(filtered, RankedOrder)
    requires b in DedupeBy(filtered, RankedUser) && y in filtered && y !in DedupeBy(filtered, RankedUser)
    requires y.userId == b.userId
    ensures b.count >= y.count
  {
    DedupeByIsGroupHeadOne(filtered, RankedUser);
    GroupHeadBeatsDropped(filtered, RankedUser, 1, RankedOrder, b, y);
    assert RankedOrder(b) == [Asc(Text(b.userId)), Desc(Num(b.count))] + [];
    assert RankedOrder(y) == [Asc(Text(b.userId)), Desc(Num(y.count))] + [];
    LeDescInt(Asc(Text(b.userId)), b.count, y.count, [], []);
  }

  lemma BestOnePerUser(cs: seq<CommentRef>, topics: seq<TopicRow>, b: Ranked, y: Ranked)
    requires b in BestPerUser(cs, topics) && y in BestPerUser(cs, topics) && y.userId == b.userId
    ensures b == y
  {
    var best := BestPerUser(cs, topics);
    DedupeByKeysDistinct(WithTopic(cs, topics), RankedUser);
    assert KeysDistinct(best, RankedUser);
    KeysDistinctSame(best, RankedUser, b, y);
  }

  /** The selected row of a user has a topic, and a count no smaller than
      that of any other of the user's conversations with a topic. */
  lemma BestIsMostEngaged(cs: seq<CommentRef>, topics: seq<TopicRow>, b: Ranked, y: Ranked)
    requires b in BestPerUser(cs, topics)
    requires y in RankedCounts(cs, topics) && y.userId == b.userId && y.topic.Some?
    ensures b.topic.Some?
    ensures b.count >= y.count
  {
    WithTopicMember(cs, topics, b);
    WithTopicMember(cs, topics, y);
    if y !in BestPerUser(cs, topics) {
      BestBeatsDropped(cs, topics, b, y);
    } else {
      BestOnePerUser(cs, topics, b, y);
    }
  }

  /** The output has one row per distinct user, in order of first
      appearance in the count table. */
  lemma MostEngagedRows(cs: seq<CommentRef>, topics: seq<TopicRow>)
    ensures |MostEngaged(cs, topics)| == |AllUsers(cs)|
    ensures forall i :: 0 <= i < |AllUsers(cs)| ==> MostEngaged(cs, topics)[i].userId == AllUsers(cs)[i]
    ensures Distinct(AllUsers(cs))
  {
    var best := BestPerUser(cs, topics);
    DedupeByKeysDistinct(WithTopic(cs, topics), RankedUser);
    assert KeysDistinct(best, RankedUser);
    LeftJoinDistinctKeys(AllUsers(cs), best, Id, RankedUser);
  }

  /** A user of the output has a comment. */
  lemma AllUsersCommented(cs: seq<CommentRef>, u: string)
    requires u in AllUsers(cs)
    ensures exists x :: x in cs && x.userId == u
  {
    MapMember(SortedCounts(cs), UserOf, u);
    var p :| p in SortedCounts(cs) && p.userId == u;
    PairCountsSpec(cs, p.userId, p.conversationId, p.count);
  }

  /** A user with a conversation that has a topic has a selected row. */
  lemma TopicedUserSelected(cs: seq<CommentRef>, topics: seq<TopicRow>, r: Ranked)
    requires r in RankedCounts(cs, topics) && r.topic.Some?
    ensures exists b :: b in BestPerUser(cs, topics) && b.userId == r.userId
  {
    var filtered := WithTopic(cs, topics);
    WithTopicMember(cs, topics, r);
    var u := r.userId;
    DedupeByFirstPerKey(filtered, RankedUser, u);
    assert r in Select(filtered, RankedUser, u);
    var q := Select(BestPerUser(cs, topics), RankedUser, u);
    assert |q| == 1;
    assert q[0] in q;
  }

  /** Every user with a comment appears; its selection is a conversation of
      that user with a topic, and it has none exactly when no conversation
      of that user has a topic. */
  lemma MostEngagedUser(cs: seq<CommentRef>, topics: seq<TopicRow>, row: UserTopic)
    requires row in MostEngaged(cs, topics)
    ensures exists x :: x in cs && x.userId == row.userId
    ensures row.best.None? <==>
              forall r :: r in RankedCounts(cs, topics) && r.userId == row.userId ==> r.topic.None?
    ensures row.best.Some? ==>
              row.best.value in RankedCounts(cs, topics) && row.best.value.userId == row.userId && row.best.value.topic.Some?
  {
    var u := row.userId;
    SelectionFits(cs, topics, row);
    AllUsersCommented(cs, u);
    if row.best.None? {
      forall r | r in RankedCounts(cs, topics) && r.userId == u
        ensures r.topic.None?
      {
        if r.topic.Some? {
          TopicedUserSelected(cs, topics, r);
        }
      }
    } else {
      WithTopicMember(cs, topics, row.best.value);
    }
  }

  /** An output row is a user with a comment paired with that user's
      selected row, or with nothing when the user has none. */
  lemma SelectionFits(cs: seq<CommentRef>, topics: seq<TopicRow>, row: UserTopic)
    requires row in MostEngaged(cs, topics)
    ensures row.userId in AllUsers(cs)
    ensures RightFits(row.best, row.userId, BestPerUser(cs, topics), Id, RankedUser)
  {
    var users := AllUsers(cs);
    var best := BestPerUser(cs, topics);
    var js := LeftJoin(users, best, Id, RankedUser);
    MapMember(js, UserRow, row);
    var j :| j in js && UserRow(j) == row;
    LeftJoinMember(users, best, Id, RankedUser, j);
    assert InLeftJoin(j, users, best, Id, RankedUser);
    assert row.userId == j.left.value;
  }
}

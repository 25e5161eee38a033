/** What the topic-model scripts do with the model's answer.

    The model itself is not part of this model: its topic id per document
    and its topic summary table (`get_topic_info`) are inputs. From them a
    script builds the document-topic table, pairing the i-th topic id with
    the i-th document, optionally attaches document names, counts the
    documents per topic, drops the outlier topic -1, and filters the
    summary table.

    The variants differ:
    - `run_topic_model` under `src` drops the outlier documents and keeps
      the summary rows with documents and a topic other than -1; its OpenAI
      counterpart `run_topic_model_openai` drops no document and keeps every
      summary row with documents;
    - `run_topic_model` of `utils/topic_model_openai.py` and `topic_model`
      of `utils/topic_model.py` take their documents from
      `dict(zip(names, summaries))`, attach the names, and filter like the
      `src` BERTopic variant;
    - `perform_topic_modeling` of `utils/topic_model_direct.py` only drops
      the first summary row.
 */
module TopicPost {
  import opened Wrappers
  import opened Frames
  import opened Merging
  import opened Dicts

  /** The topic id the model gives documents that belong to no topic. */
  const Outlier: int := -1

  /** A row of `get_topic_info()`: its `Topic` and `Count` cells and the
      rest of the row. */
  datatype SummaryRow = SummaryRow(topic: int, count: int, rest: string)

  /** `pd.DataFrame({...})` refuses columns of different lengths, and the
      `utils` scripts assert that there is one name per document. */
  datatype ModelError = LengthMismatch | NamesMismatch

  /** The document-topic table written to csv, the filtered summary, and
      the per-topic document counts (`value_counts().to_dict()`). */
  datatype TopicOutput = TopicOutput(docTopics: seq<DocTopic>, summary: seq<SummaryRow>, counts: map<int, nat>)

  function TopicCol(d: DocTopic): int { d.topic }

  function Unnamed(p: (int, string)): DocTopic {
    DocTopic(p.0, p.1, None)
  }

  function Named(p: (DocTopic, string)): DocTopic {
    p.0.(name := Some(p.1))
  }

  /** `pd.DataFrame({'Topic': topics, 'Document_description': docs})`. */
  function Paired(topics: seq<int>, docs: seq<string>): (r: Result<seq<DocTopic>, ModelError>)
    ensures r.Ok? <==> |topics| == |docs|
    ensures r.Err? ==> r.error == LengthMismatch
    ensures r.Ok? ==> |r.value| == |docs| && forall i :: 0 <= i < |docs| ==> r.value[i] == DocTopic(topics[i], docs[i], None)
  {
    if |topics| != |docs| then Err(LengthMismatch) else Ok(Map(Zip(topics, docs), Unnamed))
  }

  /** The length assertion, then `doc_topic_df['Document_name'] = doc_names`. */
  function AttachNames(rows: seq<DocTopic>, names: seq<string>): (r: Result<seq<DocTopic>, ModelError>)
    ensures r.Ok? <==> |names| == |rows|
    ensures r.Err? ==> r.error == NamesMismatch
    ensures r.Ok? ==> |r.value| == |rows| && forall i :: 0 <= i < |rows| ==> r.value[i] == DocTopic(rows[i].topic, rows[i].description, Some(names[i]))
  {
    if |names| != |rows| then Err(NamesMismatch) else Ok(Map(Zip(rows, names), Named))
  }

  function NotOutlier(d: DocTopic): bool { d.topic != Outlier }

  /** `doc_topic_df['Topic'].value_counts().to_dict()`. */
  function ValueCounts(rows: seq<DocTopic>): map<int, nat> {
    map t | t in Map(rows, TopicCol) :: Count(rows, TopicCol, t)
  }

  /** The summary filter: rows with documents, and without the outlier
      topic when `dropOutlier`. */
  function SummaryKept(dropOutlier: bool, r: SummaryRow): bool {
    r.count > 0 && (!dropOutlier || r.topic != Outlier)
  }

  function FilterSummary(dropOutlier: bool, info: seq<SummaryRow>): seq<SummaryRow> {
    Where(info, (r: SummaryRow) => SummaryKept(dropOutlier, r))
  }

  /** `run_topic_model` (`openai` false) and `run_topic_model_openai`
      (`openai` true) of `src/topic_model.py`. */
  function RunSrc(openai: bool, docs: seq<string>, topics: seq<int>, info: seq<SummaryRow>): Result<TopicOutput, ModelError> {
    var frame := Paired(topics, docs);
    if frame.Err? then Err(frame.error)
    else
      var rows := frame.value;
      Ok(TopicOutput(if openai then rows else Where(rows, NotOutlier), FilterSummary(!openai, info), ValueCounts(rows)))
  }

  /** The documents of `dict(zip(names, summaries))` with their topics and
      names, before the outliers are dropped. */
  function NamedFrame(names: seq<string>, summaries: seq<string>, topics: seq<int>): Result<seq<DocTopic>, ModelError> {
    var d := FromItems(Zip(names, summaries));
    var frame := Paired(topics, Values(d));
    if frame.Err? then Err(frame.error) else AttachNames(frame.value, Keys(d))
  }

  /** `run_topic_model` of `utils/topic_model_openai.py` and `topic_model`
      of `utils/topic_model.py`. */
  function RunUtils(names: seq<string>, summaries: seq<string>, topics: seq<int>, info: seq<SummaryRow>): Result<TopicOutput, ModelError> {
    var frame := NamedFrame(names, summaries, topics);
    if frame.Err? then Err(frame.error)
    else Ok(TopicOutput(Where(frame.value, NotOutlier), FilterSummary(true, info), ValueCounts(frame.value)))
  }

  /** `topic_summary_df.iloc[1:, :]`. */
  function DirectSummary(info: seq<SummaryRow>): (r: seq<SummaryRow>)
    ensures info == [] ==> r == []
    ensures info != [] ==> [info[0]] + r == info
  {
    if info == [] then [] else info[1..]
  }

  // ---- the document-topic table ----

  /** `src` BERTopic: the table holds the paired rows without the outlier
      topic, in order. */
  lemma SrcDropsOutliers(docs: seq<string>, topics: seq<int>, info: seq<SummaryRow>, x: DocTopic)
    requires RunSrc(false, docs, topics, info).Ok?
    ensures x in RunSrc(false, docs, topics, info).value.docTopics <==>
              x.topic != Outlier && exists i :: 0 <= i < |docs| && x == DocTopic(topics[i], docs[i], None)
    ensures IsSubseq(RunSrc(false, docs, topics, info).value.docTopics, Paired(topics, docs).value)
  {
    var rows := Paired(topics, docs).value;
    WhereIsSubseq(rows, NotOutlier);
    if x.topic != Outlier && exists i :: 0 <= i < |docs| && x == DocTopic(topics[i], docs[i], None) {
      var i :| 0 <= i < |docs| && x == DocTopic(topics[i], docs[i], None);
      assert rows[i] == x;
    }
  }

  /** `src` OpenAI: the table is the paired rows, outliers included. */
  lemma SrcOpenAIKeepsAll(docs: seq<string>, topics: seq<int>, info: seq<SummaryRow>)
    ensures RunSrc(true, docs, topics, info).Ok? <==> |topics| == |docs|
    ensures RunSrc(true, docs, topics, info).Ok? ==>
              |RunSrc(true, docs, topics, info).value.docTopics| == |docs|
              && forall i :: 0 <= i < |docs| ==> RunSrc(true, docs, topics, info).value.docTopics[i] == DocTopic(topics[i], docs[i], None)
  {
  }

  // ---- counts ----

  /** The counts cover exactly the topics of the table, outlier included,
      each with its number of rows. */
  lemma ValueCountsSpec(rows: seq<DocTopic>, t: int)
    ensures t in ValueCounts(rows) <==> exists x :: x in rows && x.topic == t
    ensures t in ValueCounts(rows) ==> ValueCounts(rows)[t] == |Select(rows, TopicCol, t)| >= 1
  {
    MapMember(rows, TopicCol, t);
    if exists x :: x in rows && x.topic == t {
      var x :| x in rows && x.topic == t;
      assert x in Select(rows, TopicCol, t);
    }
  }

  /** After the outliers are dropped, each other topic still has as many
      rows as the counts say, and the outlier topic has none. */
  lemma CountsMatchKept(rows: seq<DocTopic>, t: int)
    requires t != Outlier
    ensures |Select(Where(rows, NotOutlier), TopicCol, t)| == Count(rows, TopicCol, t)
    ensures Select(Where(rows, NotOutlier), TopicCol, Outlier) == []
  {
    SelectWhere(rows, NotOutlier, TopicCol, t);
    SelectNone(Where(rows, NotOutlier), TopicCol, Outlier);
  }

  /** `src` BERTopic: the outlier topic is counted when some document got
      it, although the table no longer holds such a document. */
  lemma SrcCountsOutlier(docs: seq<string>, topics: seq<int>, info: seq<SummaryRow>)
    requires RunSrc(false, docs, topics, info).Ok?
    ensures Outlier in RunSrc(false, docs, topics, info).value.counts <==> Outlier in topics
    ensures forall x :: x in RunSrc(false, docs, topics, info).value.docTopics ==> x.topic != Outlier
  {
    var rows := Paired(topics, docs).value;
    ValueCountsSpec(rows, Outlier);
    if Outlier in topics {
      var i :| 0 <= i < |topics| && topics[i] == Outlier;
      assert rows[i] in rows;
    }
  }

  // ---- names ----

  /** `dict(zip(names, summaries))` with both columns read from the same
      sheet: one document per distinct name, in order of first appearance,
      holding the summary of the name's last row. The length assertion
      cannot fail; the frame fails only when the model returns a different
      number of topic ids. */
  lemma NamedFrameSpec(names: seq<string>, summaries: seq<string>, topics: seq<int>)
    requires |names| == |summaries|
    ensures NamedFrame(names, summaries, topics).Ok? <==> |topics| == NUnique(names)
    ensures NamedFrame(names, summaries, topics).Err? ==> NamedFrame(names, summaries, topics).error == LengthMismatch
    ensures NamedFrame(names, summaries, topics).Ok? ==>
              var rows := NamedFrame(names, summaries, topics).value;
              |rows| == NUnique(names)
              && forall i :: 0 <= i < |rows| ==>
                   rows[i].topic == topics[i]
                   && rows[i].name == Some(Unique(names)[i])
                   && Some(rows[i].description) == LastValue(Zip(names, summaries), Unique(names)[i])
  {
    var d := FromItems(Zip(names, summaries));
    DictOfZip(names, summaries);
    if |topics| == |d| {
      var rows := Paired(topics, Values(d)).value;
      var named := AttachNames(rows, Keys(d)).value;
      forall i | 0 <= i < |named|
        ensures named[i].topic == topics[i]
        ensures named[i].name == Some(Unique(names)[i])
        ensures Some(named[i].description) == LastValue(Zip(names, summaries), Unique(names)[i])
      {
        assert Keys(d)[i] == d[i].0 && Values(d)[i] == d[i].1;
      }
    }
  }

  /** The named documents carry distinct names. */
  lemma NamedFrameNamesDistinct(names: seq<string>, summaries: seq<string>, topics: seq<int>)
    requires |names| == |summaries| && NamedFrame(names, summaries, topics).Ok?
    ensures forall i, j :: 0 <= i < j < |NamedFrame(names, summaries, topics).value| ==>
              NamedFrame(names, summaries, topics).value[i].name != NamedFrame(names, summaries, topics).value[j].name
  {
    NamedFrameSpec(names, summaries, topics);
  }

  /** `utils`: the table holds the named documents without the outlier
      topic, the counts were taken before they were dropped, and the
      summary keeps the rows with documents and a real topic. */
  lemma UtilsOutput(names: seq<string>, summaries: seq<string>, topics: seq<int>, info: seq<SummaryRow>, t: int)
    requires RunUtils(names, summaries, topics, info).Ok?
    requires t != Outlier
    ensures var out := RunUtils(names, summaries, topics, info).value;
            IsSubseq(out.docTopics, NamedFrame(names, summaries, topics).value)
            && (forall x :: x in out.docTopics ==> x.topic != Outlier)
            && (t in out.counts ==> out.counts[t] == |Select(out.docTopics, TopicCol, t)|)
            && (t !in out.counts ==> Select(out.docTopics, TopicCol, t) == [])
  {
    var rows := NamedFrame(names, summaries, topics).value;
    var out := RunUtils(names, summaries, topics, info).value;
    assert out.docTopics == Where(rows, NotOutlier) && out.counts == ValueCounts(rows);
    WhereIsSubseq(rows, NotOutlier);
    CountsMatchKept(rows, t);
    ValueCountsSpec(rows, t);
    if t !in ValueCounts(rows) {
      SelectNone(out.docTopics, TopicCol, t);
    }
  }

  // ---- summary ----

  /** The summary filter keeps, in order, exactly the rows with documents
      (and a topic other than -1 when outliers are dropped); filtering
      again changes nothing. */
  lemma FilterSummarySpec(dropOutlier: bool, info: seq<SummaryRow>, r: SummaryRow)
    ensures r in FilterSummary(dropOutlier, info) <==>
              r in info && r.count > 0 && (dropOutlier ==> r.topic != Outlier)
    ensures IsSubseq(FilterSummary(dropOutlier, info), info)
    ensures FilterSummary(dropOutlier, FilterSummary(dropOutlier, info)) == FilterSummary(dropOutlier, info)
  {
    var keep := (x: SummaryRow) => SummaryKept(dropOutlier, x);
    WhereIsSubseq(info, keep);
    WhereAll(Where(info, keep), keep);
  }

  /** The `src` OpenAI variant keeps the outlier topic's summary row when
      it has documents; the BERTopic variant does not. */
  lemma SummaryOutlierRow(info: seq<SummaryRow>, r: SummaryRow)
    requires r in info && r.topic == Outlier && r.count > 0
    ensures r in FilterSummary(false, info)
    ensures r !in FilterSummary(true, info)
  {
    FilterSummarySpec(false, info, r);
    FilterSummarySpec(true, info, r);
  }
}

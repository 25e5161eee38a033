# topic_modeling — table transformations in Dafny

The repository turns three sheets of a news-site export into a topic model and
per-topic spreadsheets. The sheets are articles, the comments under them, and
the reactions to those comments. Apart from its spreadsheet I/O and the
clustering model, every script runs a fixed recipe over rows. This project
models those recipes:

- **cell cleaning**: an empty cell becomes `"missing"`, and some scripts
  delete characters outside ASCII or outside `[a-zA-Z0-9 ]`;
- **merge chains**: the `compile_data` variants join comments, reactions,
  articles and the document-topic table with pandas' left, right and inner
  joins;
- **top-N selection** (`get_top_articles_df`): the most liked rows of each
  topic, then the most liked comments of their conversations;
- **wide reshape** (`write_to_excel`): one sheet per topic, with the comment
  columns folded into `HEC{n}_{col}` columns;
- **engagement ranking** (`get_most_engaged`): the most commented
  conversation that has a topic, for each user;
- **topic-model post-processing**: pairing topic ids with documents,
  `dict(zip(...))` of names and summaries, dropping the outlier topic -1,
  filtering the summary;
- **the Markdown heading rule** (`convert_to_markdown`).

A table is a `seq` of immutable rows, and a NaN cell is `None`. A pandas
assertion or exception is the `Err` side of a `Result`. The pandas
primitives live in `Frames`, `Sorting` and `Joins`:

- `Where`: boolean-mask filter;
- `Select`: rows with a given key;
- `GroupHead`: `groupby().head(n)`;
- `DedupeBy`: `drop_duplicates(subset=...)`;
- `Unique`: `unique()` and `drop_duplicates()`;
- `SortBy`: stable multi-key `sort_values`, with NaN last;
- `LeftJoin`, `RightJoin`, `InnerJoin`.

`Dicts` holds an insertion-ordered Python `dict`.

Modules, one file each:

| module | file | models |
|---|---|---|
| Wrappers | wrappers.dfy | `Option`, `Result` |
| Frames | frames.dfy | filter, select, group head, drop duplicates, unique |
| Ordering | ordering.dfy | the total order `sort_values` uses on multi-column keys |
| Sorting | sorting.dfy | stable sort |
| Joins | joins.dfy | `merge(how=...)` |
| Dicts | dicts.dfy | `dict(zip(...))`, `d[k] = v`, `d.get(k)` |
| Cleaning | cleaning.dfy | `fillna('missing')` and the regex deletes |
| Reader | reader.dfy | `read_cols`, `read_single_column`, `read_comment_text_to_df` |
| Merging | merging.dfy | the comment→reaction→article→topic merge chain |
| Compile | compile.dfy | `compile_data` of the spreadsheet scripts and of `src/topic_model.py` |
| Engagements | engagements.dfy | `compile_data` of `gather_engagements` and `parse_excel` |
| TopN | top_n.dfy | `get_top_articles_df` |
| Reshape | reshape.dfy | `write_to_excel` without the writer |
| Users | users.dfy | `get_most_engaged` |
| TopicPost | topic_post.dfy | the topic-model post-processing |
| Markdown | markdown.dfy | `convert_to_markdown` |

## Model

| member | source | states |
|---|---|---|
| Cleaning.StripNonAscii | utils/parse_excel.py:19 | every character left is below 128 |
| Cleaning.StripNonAsciiSpec | utils/topic_model.py:23 | the non-ASCII delete keeps exactly the ASCII characters, in order and with their multiplicity |
| Cleaning.StripNonAsciiIdempotent | utils/topic_model_direct.py:15 | deleting non-ASCII characters a second time changes nothing |
| Cleaning.StripNonAsciiKeepsAscii | utils/topic_model_direct_v1.py:13 | ASCII text comes through unchanged |
| Cleaning.StripNonAsciiConcat | utils/parse_excel.py:19 | the delete works character by character, so it commutes with concatenation |
| Cleaning.KeepAlnumSpace | utils/topic_model_openai.py:46 | only ASCII letters, digits and spaces are left |
| Cleaning.KeepAlnumSpaceSpec | utils/topic_model_openai.py:46 | the filter keeps exactly the letters, digits and spaces, in order and with their multiplicity |
| Cleaning.KeepAlnumSpaceIdempotent | utils/topic_model_openai.py:46 | applying the filter twice is the same as once |
| Cleaning.DropNewlinesAfterAlnum | utils/topic_model_openai.py:46-47 | the newline delete after the letter/digit/space filter has nothing left to remove |
| Cleaning.AlnumSpaceIsAscii | utils/topic_model_openai.py:46-47 | the letter/digit/space cleaner leaves only ASCII |
| Cleaning.MissingSurvives | utils/reader.py:28-29 | an empty cell reads as `"missing"` under every cleaner |
| Reader.ReadColsFails | utils/reader.py:22-25 | reading fails exactly when a requested column is not in the sheet |
| Reader.ReadColsCells | utils/topics_spreadsheet.py:11-18 | each column read is a sheet column of the same name, with every cell cleaned and the row count and order kept |
| Reader.ReadColsNames | utils/reader.py:22-29 | exactly the requested columns are read |
| Reader.ReadColsOrder | utils/gather_engagements.py:11-18 | the columns come out in sheet order, whatever the order of the request |
| Reader.ReadSingleColumnSpec | utils/topic_model_openai.py:37-54 | the list has one cleaned string per row of the column, in row order, and exists exactly when the column does |
| Joins.LeftJoinConcat | src/topics_spreadsheet.py:51-52 | a left join walks the left table in order: the join of two blocks of left rows is the join of the first followed by the join of the second |
| Joins.LeftJoinRow | src/topic_model.py:49-50 | one left row gives one row per right row with its key, in right-table order, or a single NaN-padded row when no right row has its key |
| Joins.LeftJoinMultiplicity | src/topics_spreadsheet.py:51-52 | for any keys, a (left row, partner) pair occurs as many times as the product of the two rows' occurrences, and a partnerless left row occurs NaN-padded once per occurrence |
| Joins.RightJoinConcat | src/topics_spreadsheet.py:50 | a right join walks the right table in order, block by block |
| Joins.RightJoinRow | src/topics_spreadsheet.py:50 | one right row gives one row per left row with its key, in left-table order, or a single row with a NaN left side |
| Joins.RightJoinMultiplicity | utils/topics_spreadsheet.py:53 | for any keys, a (partner, right row) pair occurs as many times as the product of the two rows' occurrences, and a partnerless right row occurs once per occurrence with a NaN left side |
| Joins.LeftJoinMember | src/topics_spreadsheet.py:50-52 | a left join holds each left row with each partner, or with NaN when it has none |
| Joins.RightJoinMember | src/topics_spreadsheet.py:49 | a right join holds each right row with each partner, or with NaN when it has none |
| Joins.InnerJoinMember | src/topic_model.py:48-50 | an inner join holds exactly the pairs of rows with equal keys |
| Joins.InnerIsMatchedLeft | src/topic_model.py:48-50 | a left join followed by dropping its NaN-padded rows is the inner join |
| Joins.LeftJoinKeepsLeft | utils/parse_excel.py:52 | no left row is lost by a left join |
| Joins.RightJoinKeepsRight | utils/parse_excel.py:37 | no right row is lost by a right join |
| Joins.LeftJoinDistinctKeys | src/users.py:89-90 | when the right keys are distinct, a left join has one row per left row, in left order |
| Merging.ChainMember | utils/gather_engagements.py:44-47 | the merged table holds exactly the rows whose comment, reaction, article and topic fit the three joins |
| Merging.ChainKeepsReactions | utils/topics_spreadsheet.py:52-53 | after the right join on message ids, every reaction reaches the merged table |
| Merging.Stage1OnePerReaction | utils/topics_spreadsheet.py:49-53 | with one comment per message id, the right join gives one row per reaction, in reaction order |
| Compile.NotBlocked | src/topics_spreadsheet.py:29-30 | a comment passes the filter exactly when its state is not `blocked` |
| Compile.ParseCount | src/topics_spreadsheet.py:92-95 | `"missing"` or an empty cell counts 0, and the conversion fails exactly on other text that does not parse |
| Compile.ParseColumn | utils/topics_spreadsheet.py:69-72 | a column converts exactly when every cell does, cell by cell |
| Compile.CompileDuplicates | src/topics_spreadsheet.py:79 | the run aborts with "Duplicate rows found" exactly when the merged table has two equal rows |
| Compile.CompileSucceeds | utils/topics_spreadsheet.py:58-73 | the run succeeds exactly when the merged rows are distinct and every kept row's likes and views parse |
| Compile.CompileRows | src/topics_spreadsheet.py:92-115 | output row i is the i-th merged row that keeps its topic, projected onto the fifteen columns, with parsed counts |
| Compile.CompileNoBlocked | src/topics_spreadsheet.py:29-30 | no output row has final state `blocked` |
| Compile.CompileTopicFromTable | src/topics_spreadsheet.py:82-89 | each output row's topic is the one the topic table gives its description, and is at least 0 in the `src` version |
| Compile.MergedKeepsReactions | src/topics_spreadsheet.py:49-52 | every reaction row reaches the merged table |
| Compile.UtilsOneRowPerReaction | utils/topics_spreadsheet.py:49-53 | after the comment dedupe, the first join gives one row per reaction |
| Compile.UtilsPreparedFirst | utils/topics_spreadsheet.py:48-49 | the pre-merge dedupes keep the first comment of each message id and the first article of each (URL, title) pair |
| Compile.Descriptions | src/topic_model.py:54 | the description list has no repeats |
| Compile.DescriptionsMember | src/topic_model.py:35-54 | a description is listed exactly when some non-blocked comment has a reaction and an article with that description |
| Engagements.GatherSpec | utils/gather_engagements.py:44-64 | the output is the merged table without its topic-less rows, each kept row unchanged and in place |
| Engagements.GatherKeepsAnyState | utils/gather_engagements.py:26-47 | a comment of any state with a reaction, an article and a topic reaches the output |
| Engagements.ArticleCommentsMember | utils/parse_excel.py:37-48 | each comment appears with a fitting article's five columns, or with NaN when no article has its conversation |
| Engagements.ParseExcelMember | utils/parse_excel.py:37-53 | a row is in the table exactly when it has a comment, a fitting article view and a fitting topic row, and it is labelled `"missing"` exactly when no topic matched |
| Engagements.ParseExcelKeepsComments | utils/parse_excel.py:37-53 | no comment is lost, and the table has at least one row per comment |
| TopN.LeadersPerTopic | src/topics_spreadsheet.py:135-136 | each topic keeps the first 10 of its rows by descending likes, and never more than 10 |
| TopN.LeadersMostLiked | utils/topics_spreadsheet.py:104-105 | a kept row has at least the likes of every dropped row of its topic |
| TopN.ArticleOrderLikes | src/topics_spreadsheet.py:135 | within one topic, a row the article order puts first has at least the other's likes |
| TopN.TopArticlesFromLeaders | src/topics_spreadsheet.py:139-141 | every result row is a comment of a conversation that some topic leader belongs to |
| TopN.CommentsPerConversation | src/topics_spreadsheet.py:144-145 | each conversation keeps its first 4 candidates by descending likes |
| TopN.CommentsMostLiked | utils/topics_spreadsheet.py:113-114 | a kept comment has at least the likes of every dropped candidate of its conversation |
| TopN.CommentOrderLikes | src/topics_spreadsheet.py:144 | within one conversation, a row the comment order puts first has at least the other's likes |
| TopN.TopArticlesShape | src/topics_spreadsheet.py:148-152 | the result is sorted by topic, conversation, message and descending likes, with at most 4 rows per conversation |
| TopN.SrcPairsUnique | src/topics_spreadsheet.py:152 | each (conversation, message) pair appears once, as its first row in the sorted table |
| TopN.UtilsDuplicates | utils/topics_spreadsheet.py:117-119 | the run aborts exactly when the sorted table has two equal rows, and otherwise returns it whole |
| Reshape.IntTextInjective | src/topics_spreadsheet.py:233 | different topics are written differently |
| Reshape.HeadersAt | src/topics_spreadsheet.py:200-203 | header 7n+k is `HEC{n+1}_{col k}`, slot by slot |
| Reshape.HeadersDistinct | utils/topics_spreadsheet.py:157-160 | all header names differ, so no two columns share a list |
| Reshape.ContentAt | src/topics_spreadsheet.py:205 | cell 7i+k of the flattened content is column k of row i |
| Reshape.CollectRounds | utils/topics_spreadsheet.py:169-175 | dealing m rounds of values to distinct names gives each name its own position of every round |
| Reshape.AlignedIff | utils/topics_spreadsheet.py:164-166 | the length assertion holds exactly when a topic has four rows per distinct title |
| Reshape.WideColumns | src/topics_spreadsheet.py:209-216 | header c of an aligned topic receives the cells at c, c+28, c+56, … |
| Reshape.TopicSheetCells | utils/topics_spreadsheet.py:162-176 | wide row j, slot n+1, column k holds column k of row 4j+n, whatever article that row belongs to |
| Reshape.TopicSheetArticles | utils/topics_spreadsheet.py:182-183 | the article-level rows are the topic's rows without the message columns, each once |
| Reshape.TopicSheetNonEmpty | utils/topics_spreadsheet.py:189-192 | a topic present in the table yields a non-empty sheet |
| Reshape.SheetsSpec | utils/topics_spreadsheet.py:140-196 | the loop writes one sheet per topic in order and stops at the first failed assertion |
| Reshape.WriteExcelNoSheets | src/topics_spreadsheet.py:238-239 | "No sheets added" is raised exactly when the table is empty |
| Reshape.WriteExcelMismatch | src/topics_spreadsheet.py:209 | the run fails the column assertion exactly when some topic of the table fails it |
| Reshape.WriteExcelSheets | src/topics_spreadsheet.py:180-233 | one sheet per distinct topic, in order of first appearance, each built from that topic's rows |
| Reshape.SheetNamesDistinct | utils/topics_spreadsheet.py:146-190 | sheet names have at most 31 characters, and topics whose text fits get different names |
| Dicts.FromItemsKeys | utils/topic_model.py:106 | `dict(items)` has each key once, in order of first appearance |
| Dicts.FromItemsGet | src/users.py:74-77 | a lookup finds the value of the key's last item |
| Dicts.LastValueSpec | src/users.py:77 | the last value of a key is that of an item with the key that no later item repeats, and is absent exactly when no item has the key |
| Dicts.DictOfZip | utils/topic_model_openai.py:156 | `dict(zip(ks, vs))` has one item per distinct key, in first-appearance order, holding that key's last value |
| Users.PairCountsSpec | src/users.py:47-53 | the count table has one row per (user, conversation) pair, holding the number of comment rows with that pair |
| Users.RankOne | src/users.py:56 | rank 1 goes exactly to a user's largest count |
| Users.RankOrder | src/users.py:53-56 | within a user, a larger count has a smaller rank, and equal counts have equal ranks |
| Users.RankConsecutive | src/users.py:56 | the ranks of a user run consecutively from 1 |
| Users.TopicLastWins | src/users.py:74-80 | a conversation's topic is the one on its last row in the topic workbook |
| Users.TopicMissing | src/users.py:77-80 | a conversation has no topic exactly when it has no row or its last row has none |
| Users.TopicLastRow | src/users.py:77-80 | a conversation present in the dictionary takes its value from a row of its own that no later row of that conversation follows |
| Users.TopicNoRow | src/users.py:77-80 | a conversation absent from the dictionary has no row in the topic workbook |
| Users.BestIsMostEngaged | src/users.py:53-86 | a user's selected conversation has a topic, and a count no smaller than any other of that user's conversations with a topic |
| Users.BestOnePerUser | src/users.py:86 | at most one conversation is selected per user |
| Users.MostEngagedRows | src/users.py:89-90 | the output has one row per distinct user, in order of first appearance |
| Users.MostEngagedUser | src/users.py:80-90 | every output user has commented; a user has no selection exactly when none of their conversations has a topic, and otherwise the selection is a topic-mapped conversation of theirs |
| TopicPost.Paired | src/topic_model.py:86 | row i pairs topic id i with document i, and the table exists exactly when the lengths agree |
| TopicPost.AttachNames | utils/topic_model_openai.py:108-111 | the assertion holds exactly when there is one name per row, and name i goes to row i with nothing else changed |
| TopicPost.SrcDropsOutliers | src/topic_model.py:86-91 | the BERTopic table holds exactly the paired rows whose topic is not -1, in order |
| TopicPost.SrcOpenAIKeepsAll | src/topic_model.py:202 | the OpenAI table is the paired rows, outlier topic included |
| TopicPost.ValueCountsSpec | src/topic_model.py:209 | the counts cover exactly the topics of the table, each with its number of rows |
| TopicPost.CountsMatchKept | utils/topic_model_openai.py:117-119 | after the outliers are dropped, every other topic still has as many rows as the counts say, and -1 has none |
| TopicPost.SrcCountsOutlier | src/topic_model.py:90-91 | -1 is counted exactly when some document got it, though no kept row has it |
| TopicPost.NamedFrameSpec | utils/topic_model.py:47-68 | the table exists exactly when there is one topic id per distinct name; row i has the i-th distinct name, the last summary given for it, and topic id i |
| TopicPost.NamedFrameNamesDistinct | utils/topic_model_openai.py:108-111 | the named documents carry distinct names |
| TopicPost.UtilsOutput | utils/topic_model_openai.py:115-140 | the table holds the named documents without -1, the returned counts include -1, and the summary keeps the rows with documents and a real topic |
| TopicPost.FilterSummarySpec | src/topic_model.py:100-101 | the summary filter keeps, in order, exactly the rows with documents and, when asked, a topic other than -1; filtering again changes nothing |
| TopicPost.SummaryOutlierRow | src/topic_model.py:218-219 | the OpenAI variant keeps the outlier's summary row when it has documents, and the BERTopic variant drops it |
| TopicPost.DirectSummary | utils/topic_model_direct.py:55 | the summary loses exactly its first row and keeps the rest unchanged |
| Markdown.SplitJoin | utils/convert_to_md.py:11-16 | joining the split segments with the separator gives back the text |
| Markdown.JoinSplit | utils/convert_to_md.py:11-16 | splitting a join of separator-free segments gives back the segments |
| Markdown.Strip | utils/convert_to_md.py:13 | the stripped text is a slice of the line with only whitespace around it, and neither starts nor ends with whitespace |
| Markdown.StripIdempotent | utils/convert_to_md.py:13 | stripping twice is stripping once |
| Markdown.ConvertSegments | utils/convert_to_md.py:11-16 | the output has as many segments as the input, and each is either the heading of its stripped form or unchanged |
| Markdown.ConvertIdentity | utils/convert_to_md.py:11-16 | when no segment qualifies, the text comes back unchanged |
| Markdown.StripPlain | utils/convert_to_md.py:13 | a non-empty line with no whitespace at either end is its own strip |
| Markdown.ConvertPlainUpper | utils/convert_to_md.py:11-16 | a short separator-free line with no surrounding whitespace, an upper-case letter and no lower-case letter becomes its own heading |
| Markdown.ConvertTwice | utils/convert_to_md.py:14-15 | such a line gains a second `"## "` when converted again, so the second conversion differs from the first |
| Markdown.ConvertNotIdempotent | utils/convert_to_md.py:14-15 | converting twice is not converting once: `"A"` becomes `"## A"` and then `"## ## A"` |

## Left out

- Spreadsheet and CSV I/O: `read_excel`, `read_csv`, `ExcelWriter`, `to_excel`, `to_csv`. Input sheets are parameters: a sheet is a sequence of columns, or of rows after `read_cols`. Written sheets are returned as values.
- BERTopic, HDBSCAN, the OpenAI embedder and `get_topic_info`. Their topic ids and summary rows are inputs.
- Printing, including the verbose branches, the overlap diagnostics and the print-only `top_convos` at src/users.py:43.
- The float parse and rounding of `.astype(float).round().astype(int)`. It is the parameter `toInt`, and `None` from it stands for pandas' `ValueError`.
- `str()` of a cell. A cell arrives as its text rendering, or `None` when empty.
- The `pd.isna(topic)` and empty-name skips of `write_to_excel` (src/topics_spreadsheet.py:185-192). The topic column is an integer by then, so neither can fire. `SheetName` writes `str(topic)`, which has nothing to strip.
- The `'Topic' not in columns` `ValueError` (utils/topics_spreadsheet.py:125-126). The column is always present after the projection.
- Reshape.TopicSheet: a failed assertion ends the model's run with `Err`. The Python file has by then already written the earlier sheets.
- Reshape.TopicSheetArticles: `written_date` is not a message column, so it stays among the article-level columns. The article-level table can therefore have more rows than the wide table; the model keeps that, as it keeps the misalignment that follows when an article has fewer than four comments.
- Users.MostEngaged: `groupby('user_id').first()` is modelled as the first row of each user. It also takes per-column first non-null values, but after the `dropna` every column of a kept row is non-null, so the two agree. Both sides hold `conversation_id` as text. The topic workbook's values went through `read_cols` (utils/reader.py:29) before `write_to_excel` wrote them, so the model compares conversation ids as text.
- `get_most_engaged` returns nothing and only prints its table. The model returns the table it prints.
- TopicPost.ValueCountsSpec: `value_counts` is modelled as a map, so its order (descending count) is not modelled.
- TopicPost.RunUtils: `topic_model` of utils/topic_model.py only prints its counts. The model returns them for both `utils` scripts.
- TopicPost.RunSrc: neither `src` function returns its counts. `run_topic_model` only prints `value_counts()` (src/topic_model.py:90), and `run_topic_model_openai` computes `topic_number_dict` (src/topic_model.py:209) but returns nothing. The model returns the counts, so the TopicPost.ValueCountsSpec and TopicPost.SrcCountsOutlier rows describe a value the source computes but does not hand back.
- TopicPost.NamedFrameSpec: requires the names and the summaries to have the same length. Both are columns of the same sheet read in full.
- Markdown.IsUpper: `str.isupper` is modelled on ASCII letters only; other cased characters count as uncased.
- `get_representative_docs` and the OpenAI embedding wrapper classes.
- The retrieval and LLM pipeline: utils/get_data.py, utils/create_database.py, utils/query_database.py, utils/topic_model_direct_v0.py and utils/topic_model_DEPR.py. These are vector stores and placeholders.
- config.py, main.py and troubleshooting_topics_open_ai.py: constants, glue, and a comparison script.
- Merging.DocKey: NaN keys in the doc-topic table. That table is read with plain `read_csv` (src/topics_spreadsheet.py:42, utils/topics_spreadsheet.py:45, utils/gather_engagements.py:42, utils/parse_excel.py:50), so a `Document_description` that is empty or NA-like (`NA`, `N/A`, `None`, `null`, `nan`) reads as NaN. Pandas then matches it with the NaN `description` of every article-less row of the article join, and those rows gain its topic and reach the output. The model's doc key is always present, so it matches nothing and drops those rows. The other right-hand tables come from `read_cols`, which fills every empty cell with `"missing"`, so their keys are never NaN.
- Compile.CompileData: the `utils` version drops the `Document_name` column (utils/topics_spreadsheet.py:75) and raises `KeyError` when the doc-topic table has none, as the one src/topic_model.py writes does. The model holds a document's name as a per-row `Option` and cannot tell an absent column from empty cells. It therefore returns `Ok` there, and Compile.CompileSucceeds holds only for a doc-topic table that has the column.

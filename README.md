# A verified model of the CS121 search engine core

The repository is a small search engine for a crawled web corpus. It has
two parts. An index build reads the pages of a manifest, weighs their
tokens by HTML structure, removes pages with identical content and writes
tf-idf postings. A query path turns a query into a tf-idf vector, scores
every page listed by the query's tokens, adds a bonus for adjacent
positions, normalises by length and returns the best 50 pages. Next to it
sit two word-frequency utilities (`PartA.py`, `PartB.py`), the crawler's
link filter and the result pager of the desktop view.

This project models that core in Dafny and proves properties of it:

- `DatabaseProcessor` (`database_processor.dfy`): the rebuild decision of
  `open_db`, the query vector, the scoring pass, the top-50 selection and
  the result assembly of `search_tokens`. `TopK` (`top_k.dfy`) models
  `heapq.nlargest`.
- `RawWebpage`, `Tokens`, `TokensWeight`: the three SQLite tables, each as
  a class whose field is the table (a map keyed by the primary key, or a
  sequence of rows for the key-less `tokens_weight`), with one method per
  statement sequence of the source.
- `Method`: the static helpers (log checks, doc-id split, tf-idf,
  structural token weights, the 20-word description).
- `FileProcessor`: the build log (`Log`) as a class over the file's text,
  read the way text-mode `readlines()` reads it.
- `TableRanges`: the doc-id-to-table lookup.
- `PartA`, `PartB`: tokenizer, word frequencies and their sort, word sets
  and their intersection.
- `Crawler`: the URL trap filter `is_valid`.
- `Views`: `chunk_list` and the page index of `MainView`.
- `Common`, `Strings`: Option/Result, the Python exceptions that occur,
  and the string functions the source calls (`split`, `join`, `strip`,
  `lower`, `int`, `str`). Whitespace is the full set `str.isspace()`
  accepts; `int()` skips the whitespace it skips, takes a sign, decimal
  digits of every script and single underscores between digits; `lower()`
  is exact for every character whose lower case is ASCII.

Python exceptions are `Err(...)` results. A database statement that fails
and is rolled back is a `fault: bool` parameter. The clock, `strptime`,
`math.log`, `round`, `** 0.5`, nltk preprocessing and the inverted index
are function or value parameters.

## Model

| member | source | states |
|---|---|---|
| DatabaseProcessor.LogFields | search_engine/engine/database_processor.py:49-52 | the latest log line splits into exactly two space-free fields whose join is the stripped line; any other field count is a ValueError |
| DatabaseProcessor.ShouldRebuild | search_engine/engine/database_processor.py:48-57 | no log line means rebuild; a ValueError is raised exactly when the stripped line does not split into two fields, when both fields are present but the date does not parse, or when the date is recent and the count is not an integer literal; the answer is "no rebuild" exactly when both fields are present, the date parses, lies within `_UPDATE_TIME` days of today, and the logged count equals the manifest size |
| DatabaseProcessor.OneFieldRaises | search_engine/engine/database_processor.py:49-50 | a log line of one field, such as a bare date, raises ValueError rather than asking for a rebuild |
| DatabaseProcessor.RebuildPlan | search_engine/engine/database_processor.py:55-61 | the phases run are update, dedup, tf-idf in that order when the condition holds, and none otherwise; errors pass through |
| DatabaseProcessor.LogFieldsOf | search_engine/engine/database_processor.py:49-50 | a line of a date and a count joined by one space, neither containing a space, splits back into the two |
| DatabaseProcessor.FreshLogSkipsRebuild | search_engine/engine/database_processor.py:155-156 | a log line `"<date> <count>"` as the build writes it, read back on the same day with the same page count, skips the rebuild |
| DatabaseProcessor.QueryVectorMeaning | search_engine/engine/database_processor.py:240-246 | the query vector succeeds iff every token's weight does; its keys are exactly the query's tokens; each value is the weight with the token's count as `f_td` and the query length as `d`; on failure the error is that of the first failing token |
| DatabaseProcessor.QueryVectorErrorSticks | search_engine/engine/database_processor.py:241-245 | once a token fails, the whole vector fails with that error |
| DatabaseProcessor.CountTokens | search_engine/engine/database_processor.py:233-238 | `token_counts` has exactly the query's tokens as keys, each mapped to its number of occurrences |
| DatabaseProcessor.GetQueryVector | search_engine/engine/database_processor.py:224-246 | the loop returns the query vector of the whole token list, including its TypeError for a token with no `tokens` row |
| DatabaseProcessor.ListsFor | search_engine/engine/database_processor.py:271-274 | a document gets position lists from a postings list exactly when the list holds a posting for it |
| DatabaseProcessor.NewDocs | search_engine/engine/database_processor.py:278-280 | scoring a postings list adds exactly its documents to the keys of `scores`, without repeats |
| DatabaseProcessor.PositionLists | search_engine/engine/database_processor.py:263-276 | a document has position lists exactly when some query token in the index lists it |
| DatabaseProcessor.FirstSeen | search_engine/engine/database_processor.py:263-283 | the keys of `scores`, in insertion order, are exactly the documents listed by some query token in the index, without repeats |
| DatabaseProcessor.PairCount | search_engine/engine/database_processor.py:285-291 | a document earns at most one bonus per consecutive pair of its position lists, so none with a single list |
| DatabaseProcessor.NoAdjacencyNoBonus | search_engine/engine/database_processor.py:286-290 | with no position followed by its successor in the next list, there is no bonus |
| DatabaseProcessor.AllAdjacentFullBonus | search_engine/engine/database_processor.py:286-291 | with every consecutive pair adjacent, the bonus count is the number of lists minus one |
| DatabaseProcessor.AppendToken | search_engine/engine/database_processor.py:263-283 | a token outside the index changes nothing; a first occurrence adds its products, squares, position lists and new documents; a repeated token adds only its position lists again |
| DatabaseProcessor.RankedShape | search_engine/engine/database_processor.py:299 | the ranking has min(50, #documents) distinct ids, each listed by a query token, in non-increasing final score; no document left out scores more than any returned one; with at most 50 documents all are returned |
| DatabaseProcessor.VectorCoversQuery | search_engine/engine/database_processor.py:263-266 | the vector built from the query weighs every query token, so `query_dict[token]` never raises KeyError |
| DatabaseProcessor.AddPosting | search_engine/engine/database_processor.py:269-282 | one posting appends its positions to its document; on the token's first occurrence it also adds `wt_d * wt_q` and `wt_d ** 2` and registers a new document, otherwise scores are unchanged |
| DatabaseProcessor.AddPostings | search_engine/engine/database_processor.py:268-282 | the inner loop applies the whole postings list that way and keeps the tally well formed |
| DatabaseProcessor.Accumulate | search_engine/engine/database_processor.py:263-283 | the first loop ends with KeyError iff a token in the index has no query weight; otherwise `scores`, `doc_lengths` and `doc_positions` equal the first-occurrence sums and the every-occurrence position lists, `scores` keys in first-seen order, and the same documents in `doc_positions` and `scores` |
| DatabaseProcessor.PhraseBonus | search_engine/engine/database_processor.py:286-291 | the nested loops with `break` add 2.0 once for each adjacent consecutive pair |
| DatabaseProcessor.AddPhraseBonus | search_engine/engine/database_processor.py:285-291 | every scored document gains exactly the bonus of its position lists, and no document is added |
| DatabaseProcessor.Normalize | search_engine/engine/database_processor.py:293-297 | a score is divided by sqrt(length) exactly when its length is positive, and left alone otherwise |
| DatabaseProcessor.TallyScores | search_engine/engine/database_processor.py:285-297 | after the bonus and normalisation passes, the score map is the final score of exactly the documents seen |
| DatabaseProcessor.ProcessTokens | search_engine/engine/database_processor.py:248-301 | `_process_tokens` returns the ranking of the final scores (see RankedShape), or KeyError for a token without a query weight |
| DatabaseProcessor.AllListings | search_engine/engine/database_processor.py:107-113 | the concatenated lookups hold at most one row per ranked id |
| DatabaseProcessor.AllListingsFromTable | search_engine/engine/database_processor.py:107-113 | every collected row is for a ranked id present in the table |
| DatabaseProcessor.SearchResults | search_engine/engine/database_processor.py:107-114 | the result is the first min(50, total) rows of the concatenated lookups |
| DatabaseProcessor.CollectResults | search_engine/engine/database_processor.py:107-114 | the loop that extends and stops once past 50 rows yields exactly that prefix |
| DatabaseProcessor.RankQuery | search_engine/engine/database_processor.py:98-101 | the multi-token branch ranks by the query vector and the scoring pass, failing with the error of whichever fails first |
| DatabaseProcessor.SearchTokens | search_engine/engine/database_processor.py:89-114 | no token gives []; one token looks up the first character of the raw query (IndexError when it is empty); more tokens rank by query vector and scoring; then the first 50 rows are assembled |
| TopK.Insert | search_engine/engine/database_processor.py:299 | inserting a position into the ranked list adds exactly that position |
| TopK.InsertOrdered | search_engine/engine/database_processor.py:299 | insertion keeps the list ordered by score, with ties in input order |
| TopK.Sort | search_engine/engine/database_processor.py:299 | the sort is a permutation of its input |
| TopK.SortOrdered | search_engine/engine/database_processor.py:299 | the sort of distinct positions is ordered by score, ties in input order |
| TopK.LargestPositions | search_engine/engine/database_processor.py:299 | `nlargest` picks min(n, len) positions in rank order, each ranked before every position left out; with at most n items it picks all |
| TopK.NLargest | search_engine/engine/database_processor.py:299 | the result has min(n, len) elements, all from the input |
| TopK.NLargestRanks | search_engine/engine/database_processor.py:299 | picks come in non-increasing score, equal scores in input order, and no unpicked item scores more than a pick |
| TopK.NLargestKeepsAll | search_engine/engine/database_processor.py:299 | with at most n items, every item is picked |
| TopK.NLargestOfUnique | search_engine/engine/database_processor.py:299 | over distinct ids, the picks are distinct and no id left out scores more than a pick |
| Method.CheckTimeDifference | search_engine/engine/method.py:21-25 | ValueError exactly when the date does not parse; otherwise true iff the date lies within `update_time` days of today, before or after |
| Method.TimeDifferenceSymmetric | search_engine/engine/method.py:24-25 | dates k days before and k days after today get the same answer |
| Method.CheckNumDifference | search_engine/engine/method.py:28-29 | ValueError exactly when the text is not an integer literal; otherwise true iff its value equals the count |
| Method.CheckNumDifferenceOfWritten | search_engine/engine/method.py:28-29 | a count compared with its own decimal text is equal |
| Method.CheckNumDifferenceLeadingZeros | search_engine/engine/method.py:28-29 | any run of leading zeros does not matter, so "007" equals 7 |
| Method.CheckNumDifferenceSurrounded | search_engine/engine/method.py:28-29 | whitespace `int()` skips around the count, such as a trailing line break, does not matter |
| Method.GetFolderNumAndFileNum | search_engine/engine/method.py:103-105 | success exactly when the doc_id holds one "/", and then `folder + "/" + file` is the doc_id with neither part holding a "/"; otherwise ValueError |
| Method.CalculateTfIdf | search_engine/engine/method.py:107-113 | ZeroDivisionError exactly when `total_words_in_d` is 0 or `n_t` is -1; otherwise ValueError exactly when the logarithm's argument is not positive, and success exactly when it is |
| Method.FirstNonEmptySnoc | search_engine/engine/method.py:63-72 | the first-sentence slot goes to the first sentence with tokens, so a sentence with none does not use it |
| Method.ParagraphScoresFirstSentence | search_engine/engine/method.py:63-72 | a paragraph scores only the tokens of its first non-empty sentence |
| Method.HeadingScoresAllSentences | search_engine/engine/method.py:63-72 | a heading scores the tokens of every sentence |
| Method.AddWeightTallies | search_engine/engine/method.py:48-52 | `add_weight` keeps every token's weight equal to the sum of its contributions so far |
| Method.WeightOfUnmentioned | search_engine/engine/method.py:48-52 | a token with no contribution has weight 0 (it is not a key) |
| Method.AddAll | search_engine/engine/method.py:57-58 | adding a token list with one weight keeps the tally invariant |
| Method.WeighBlock | search_engine/engine/method.py:60-72 | one h1-h6 or p element contributes 5 for every token of the sentences it scores |
| Method.CalculateTokenWeight | search_engine/engine/method.py:42-80 | the weights are the tally of the title (10), heading and first paragraph sentences (5) and emphasis (1) contributions; a page that fails to parse gives {} |
| Method.WeightOfTag | search_engine/engine/method.py:70-71 | a token list at one weight contributes weight × occurrences to each token |
| Method.BlockTokensCount | search_engine/engine/method.py:60-72 | a token's sentence occurrences split into heading occurrences and first-paragraph-sentence occurrences |
| Method.WeightBreakdown | search_engine/engine/method.py:54-76 | a token's weight is 10 × title count + 5 × heading count + 5 × first-paragraph-sentence count + 1 × emphasis count |
| Method.DescriptionIsFirstWords | search_engine/engine/method.py:90-93 | the description's words are the first at most 20 words of the body text |
| Method.GetHtmlGeneralInfo | search_engine/engine/method.py:85-100 | a parsed page gives its title, its token count and as description the first at most 20 words of its body text joined by spaces; a page that fails to parse gives (None, None, None) |
| RawWebpage.Duplicates | search_engine/engine/raw_webpage.py:83-91 | the duplicates are rows of the table |
| RawWebpage.DedupLeavesDistinctCorpora | search_engine/engine/raw_webpage.py:83-105 | after deduplication no two rows share a corpus |
| RawWebpage.DedupKeepsSmallest | search_engine/engine/raw_webpage.py:83-91 | every corpus keeps a row, the one whose doc_id is smallest in text order |
| RawWebpage.DedupIdempotent | search_engine/engine/raw_webpage.py:83-98 | a second deduplication finds nothing, so it returns [] |
| RawWebpage.RawWebpageProcessor.constructor | search_engine/engine/raw_webpage.py:8-28 | a new table is empty |
| RawWebpage.RawWebpageProcessor.UpdateWebpageRecord | search_engine/engine/raw_webpage.py:182-201 | the row of the doc_id becomes the URL with all five derived fields NULL, inserted or overwritten; always returns True |
| RawWebpage.RawWebpageProcessor.UpdateRawWebpage | search_engine/engine/raw_webpage.py:30-50 | a non-dict raises ValueError; a failing write rolls back and returns 0; otherwise every entry is upserted, other rows are kept, and the count of entries is returned |
| RawWebpage.RawWebpageProcessor.UpdateWebpageInfo | search_engine/engine/raw_webpage.py:52-75 | sets title, description, total_words and corpus of that row only; a missing doc_id or a failure changes nothing; the result says whether it succeeded |
| RawWebpage.RawWebpageProcessor.RemoveDuplicate | search_engine/engine/raw_webpage.py:77-111 | deletes exactly the duplicates and returns them once each; other rows unchanged; a failure rolls back and returns [] |
| RawWebpage.RawWebpageProcessor.UpdateTfIdf | search_engine/engine/raw_webpage.py:113-125 | only the vector of that row changes |
| RawWebpage.RawWebpageProcessor.GetAllDocId | search_engine/engine/raw_webpage.py:127-136 | every doc_id exactly once |
| RawWebpage.RawWebpageProcessor.GetTotalLength | search_engine/engine/raw_webpage.py:138-146 | the number of rows |
| RawWebpage.RawWebpageProcessor.GetTotalWords | search_engine/engine/raw_webpage.py:148-158 | the stored total_words; a missing row raises TypeError |
| RawWebpage.RawWebpageProcessor.SearchByUrl | search_engine/engine/raw_webpage.py:160-164 | exactly the rows with that URL, once each |
| RawWebpage.RawWebpageProcessor.SearchByDocId | search_engine/engine/raw_webpage.py:166-171 | at most one row; none exactly when the doc_id is absent; otherwise the doc_id with its row's url, title and description |
| Tokens.Incremented | search_engine/engine/tokens.py:35-40 | registering a page gives rows for exactly the old tokens and the page's tokens |
| Tokens.Decremented | search_engine/engine/tokens.py:54-66 | withdrawing a page never inserts a token |
| Tokens.IncrementedRows | search_engine/engine/tokens.py:113-123 | a new token starts at (1, weight); a known one gains 1 document and the weight; other tokens are unchanged |
| Tokens.DecrementedFloor | search_engine/engine/tokens.py:59-65 | counts never drop below 0, and tokens not in the page are unchanged |
| Tokens.UpdateThenRemove | search_engine/engine/tokens.py:54-65 | registering and then withdrawing a page restores every known token; tokens the page introduced remain with doc_num 0 |
| Tokens.TokenProcessor.constructor | search_engine/engine/tokens.py:9-26 | a new table is empty, so no count or weight is negative |
| Tokens.TokenProcessor.UpdateTokenRecord | search_engine/engine/tokens.py:105-125 | inserts (1, weight) or adds (1, weight) to the token's row; always True; a non-negative weight keeps every count and weight non-negative |
| Tokens.TokenProcessor.UpdateToken | search_engine/engine/tokens.py:28-42 | the table becomes the registration of the page's tokens; non-negative weights keep the table non-negative |
| Tokens.TokenProcessor.RemoveDuplicate | search_engine/engine/tokens.py:44-71 | the table becomes the floored withdrawal of the page's tokens; a failure rolls back; the table stays non-negative |
| Tokens.TokenProcessor.GetAllTokens | search_engine/engine/tokens.py:73-82 | every token once, in ascending order |
| Tokens.TokenProcessor.GetDocNum | search_engine/engine/tokens.py:84-94 | the token's doc_num; a missing token raises TypeError |
| TokensWeight.Without | search_engine/engine/tokens_weight.py:62-68 | deleting by doc_id keeps no row of a listed doc_id |
| TokensWeight.WithoutKeeps | search_engine/engine/tokens_weight.py:62-68 | every row of an unlisted doc_id survives deletion with its multiplicity |
| TokensWeight.RowsOf | search_engine/engine/tokens_weight.py:83 | selecting by doc_id yields only rows of that doc_id |
| TokensWeight.RowsOfKeeps | search_engine/engine/tokens_weight.py:83 | selecting by doc_id keeps every row of that doc_id with its multiplicity |
| TokensWeight.WithoutTwice | search_engine/engine/tokens_weight.py:66-67 | deleting id by id is deleting all of them at once |
| TokensWeight.WithoutNothing | search_engine/engine/tokens_weight.py:66-68 | deleting for [] leaves the table unchanged |
| TokensWeight.RowsOfWithout | search_engine/engine/tokens_weight.py:62-85 | after deletion a deleted doc_id has no rows and any other keeps its rows |
| TokensWeight.RowsOfAppend | search_engine/engine/tokens_weight.py:43-51 | rows appended later are selected after earlier ones |
| TokensWeight.TokensWeightProcessor.constructor | search_engine/engine/tokens_weight.py:12-32 | a new table is empty |
| TokensWeight.TokensWeightProcessor.UpdateTokensWeight | search_engine/engine/tokens_weight.py:34-53 | appends exactly one row per page token, tagged with the doc_id, its weight and positions; earlier rows, duplicates included, are kept |
| TokensWeight.TokensWeightProcessor.RemoveDuplicate | search_engine/engine/tokens_weight.py:55-73 | deletes every row of the listed doc_ids and keeps the rest; a failure rolls back |
| TokensWeight.TokensWeightProcessor.GetTokenByDocId | search_engine/engine/tokens_weight.py:75-85 | the tokens of the doc_id's rows, in order |
| TokensWeight.TokensWeightProcessor.GetWordNum | search_engine/engine/tokens_weight.py:87-97 | (token, word_num) of the doc_id's rows, in order |
| TokensWeight.TokensWeightProcessor.GetWordPosition | search_engine/engine/tokens_weight.py:99-109 | (token, positions) of the doc_id's rows, in order |
| TokensWeight.TokensWeightProcessor.GettersAgree | search_engine/engine/tokens_weight.py:75-109 | the three getters return the same number of rows, row for row about the same token |
| FileProcessor.Rotate | search_engine/engine/file_processor.py:75-82 | more than 10 lines lose the first and keep their length, otherwise the length grows by one; the last line is the entry plus "\n"; the other lines keep their order |
| FileProcessor.RotateAllLength | search_engine/engine/file_processor.py:77-79 | repeated updates settle at 11 lines, not 10 |
| FileProcessor.RotateAllLast | search_engine/engine/file_processor.py:79 | after updates the last line is the last entry |
| FileProcessor.StrippedLines | search_engine/engine/file_processor.py:92 | one stripped line per line |
| FileProcessor.LastNonEmptyNone | search_engine/engine/file_processor.py:92-96 | the scan finds "" exactly when every line is empty |
| FileProcessor.LastNonEmptyIsLast | search_engine/engine/file_processor.py:92-94 | a line found is the last non-empty one |
| FileProcessor.LatestLogIsLastNonBlank | search_engine/engine/file_processor.py:90-96 | the latest log is "" exactly when every line is blank, and otherwise the stripped last non-blank line |
| FileProcessor.LatestOfRotated | search_engine/engine/file_processor.py:77-94 | after the entry is appended to the lines, the latest log is the stripped entry, unless it is blank |
| FileProcessor.Universal | search_engine/engine/file_processor.py:75-76 | text-mode reading leaves no carriage return |
| FileProcessor.UniversalKeeps | search_engine/engine/file_processor.py:75-76 | text without a carriage return is read unchanged |
| FileProcessor.LineLength | search_engine/engine/file_processor.py:76 | the first line runs up to and including the first "\n", or to the end of the text |
| FileProcessor.Lines | search_engine/engine/file_processor.py:76 | `readlines()` never yields an empty line |
| FileProcessor.LinesFlatten | search_engine/engine/file_processor.py:76 | the lines read concatenate back to the text |
| FileProcessor.LinesOfFlatten | search_engine/engine/file_processor.py:76-82 | complete lines written back to back are read back as they were |
| FileProcessor.LinesComplete | search_engine/engine/file_processor.py:76 | a text that is empty or ends with "\n" reads as complete lines only |
| FileProcessor.Updated | search_engine/engine/file_processor.py:75-82 | the text written after an update is non-empty and ends with "\n" |
| FileProcessor.RereadAfterUpdate | search_engine/engine/file_processor.py:75-82 | on a file that ends with a line break, reading after an update gives the lines read before, the oldest dropped past 10, then the entry |
| FileProcessor.RereadAfterUpdates | search_engine/engine/file_processor.py:75-82 | repeated updates keep the file ending with a line break and read back as the lines rotated once per entry |
| FileProcessor.LatestAfterUpdate | search_engine/engine/file_processor.py:75-94 | on a file that ends with a line break, reading right after an update gives back the stripped entry, unless it is blank |
| FileProcessor.UnterminatedLineMerges | search_engine/engine/file_processor.py:75-94 | when the file is one line with no "\n", `writelines` puts the entry right after it: the next read sees one merged line and the latest log is the old line and the entry run together |
| FileProcessor.Log.constructor | search_engine/engine/file_processor.py:65-66 | the log starts from the file's text, or none when the file is missing |
| FileProcessor.Log.UpdateLog | search_engine/engine/file_processor.py:68-82 | a missing file raises FileNotFoundError and is left missing; otherwise the file becomes the lines read, rotated and written back to back, and ends with a line break |
| FileProcessor.Log.GetLatestLog | search_engine/engine/file_processor.py:84-100 | returns the latest log of the lines read from the text, leaving the file as it is; a missing file is created empty and "" is returned |
| TableRanges.ParseDocId | search_engine/engine/table_range.py:23 | a parsed doc_id has one number per "/"-separated part |
| TableRanges.ParseParts | search_engine/engine/table_range.py:23 | a failure is a ValueError; a success has one value per part |
| TableRanges.ParsePartsValues | search_engine/engine/table_range.py:23 | `map(int, ...)` succeeds exactly when `int()` accepts every part, and then yields each part's value in order |
| TableRanges.ParsePartsPair | search_engine/engine/table_range.py:23 | two parts that parse give the pair of their values |
| TableRanges.TableForNone | search_engine/engine/table_range.py:24-29 | when no range contains the doc_id, the lookup returns "" |
| TableRanges.TableForFirst | search_engine/engine/table_range.py:24-28 | the lookup returns the first table, in insertion order, whose inclusive range contains the doc_id |
| TableRanges.ParseTwoParts | search_engine/engine/table_range.py:23 | "a/b" parses to the pair of the two numbers |
| TableRanges.ParseSmall | search_engine/engine/table_range.py:23 | one or two ASCII digits parse to their value |
| TableRanges.ParseSmallDocId | search_engine/engine/table_range.py:23 | a doc_id of two such numbers parses to their pair |
| TableRanges.NumericNotTextual | search_engine/engine/table_range.py:23-27 | "9/5" parses to (9, 5) and "10/1" to (10, 1); the comparison is numeric, so (9, 5) comes first, though as text "10/1" comes before "9/5" |
| TableRanges.AssignedKeeps | search_engine/engine/table_range.py:12-16 | a name not in the update keeps its entry |
| TableRanges.AssignedLastWins | search_engine/engine/table_range.py:12-16 | for a repeated name the last triple wins |
| TableRanges.NewNamesCover | search_engine/engine/table_range.py:12-16 | every updated name ends up among the names |
| TableRanges.UpdateThenGet | search_engine/engine/table_range.py:11-20 | after an update, `get_table_ranges` lists each assigned triple |
| TableRanges.TableRange.constructor | search_engine/engine/table_range.py:7-9 | a missing ranges file gives no ranges |
| TableRanges.TableRange.UpdateTableRanges | search_engine/engine/table_range.py:11-17 | assigns every triple in order; a known name keeps its place, a new one goes last, others are kept |
| TableRanges.TableRange.GetTableRanges | search_engine/engine/table_range.py:19-20 | (name, start, end) for every entry in insertion order |
| TableRanges.TableRange.GetTableNameForDocId | search_engine/engine/table_range.py:22-29 | a doc_id with a non-integer part raises ValueError; otherwise the lookup over the ranges in insertion order |
| PartA.IsEnglishAlphanumeric | PartA.py:80-92 | true only for a one-character string, and then exactly for a-z, A-Z, 0-9 |
| PartA.LowerAll | PartA.py:118 | each word lower-cased |
| PartA.WordsAreLowerAlnum | PartA.py:112-121 | every token is non-empty and only a-z or 0-9; a text with no alphanumerics gives [] |
| PartA.ScanAlnum | PartA.py:115-116 | an alphanumeric character extends the current word |
| PartA.ScanSeparator | PartA.py:117-119 | any other character ends a non-empty current word |
| PartA.ScanEnd | PartA.py:120-121 | the final word is flushed, so the loop yields the maximal lower-cased runs |
| PartA.Tokenize | PartA.py:95-128 | the maximal alphanumeric runs, lower-cased, in order; a non-string gives [] |
| PartA.IndexOf | PartA.py:149 | finds the entry of a word, or says there is none |
| PartA.WordsOf | PartA.py:149 | the words of the frequency entries |
| PartA.Frequency | PartA.py:149 | one entry per distinct word, with its count among the tokens |
| PartA.TotalBump | PartA.py:149 | adding one to a count adds one to the total |
| PartA.FrequencyTotal | PartA.py:148-149 | the counts sum to the number of tokens |
| PartA.GetWordsFrequency | PartA.py:131-156 | each word of the text with its positive count; a non-string gives {} |
| PartA.Insert | PartA.py:176 | insertion adds exactly one entry |
| PartA.InsertOrdered | PartA.py:176 | insertion keeps the order: count descending, then word ascending |
| PartA.SortItems | PartA.py:176 | the sort is a permutation of the items |
| PartA.SortItemsOrdered | PartA.py:176 | items with distinct words come out in that order |
| PartA.SortFrequency | PartA.py:159-183 | a permutation of the items; a non-dict gives [] |
| PartA.SortedFrequencyOrdered | PartA.py:148-176 | the sorted frequencies of a text are ordered |
| PartB.Tokenize | PartB.py:93-126 | the same tokens as the word-frequency utility; a non-string gives [] |
| PartB.CountWords | PartB.py:129-154 | exactly the set of the tokens; a non-string gives the empty set |
| PartB.GetIntersectionNum | PartB.py:157-184 | the size of the intersection; 0 unless both are sets |
| PartB.SubsetSize | PartB.py:175-177 | a subset is no larger |
| PartB.IntersectionBounds | PartB.py:170-184 | the count is symmetric and at most the size of either set |
| Crawler.BlockedBeforeLineBreak | crawler.py:80-84 | a path ending with a blocked extension is rejected, and so is that path followed by "\n", since `$` also matches before a final line break |
| Crawler.IsValid | crawler.py:67-100 | an accepted URL is http(s), on a host containing ".ics.uci.edu", has no blocked extension, at most 200 characters and at most 10 query parts |
| Crawler.CountTwice | crawler.py:94 | a segment at two places counts more than once |
| Crawler.CountedTwice | crawler.py:94 | a segment counted more than once occurs at another place |
| Crawler.RepeatedIffNotDistinct | crawler.py:93-95 | the `count > 1` test rejects exactly the paths with two equal segments |
| Crawler.IsValidExactly | crawler.py:73-100 | accepted exactly when all those conditions hold and the path segments are distinct |
| Crawler.RepeatRejected | crawler.py:93-95 | two equal segments reject the URL |
| Crawler.RootAndTrailingSlashRejected | crawler.py:93-95 | "/" and "/a/" are rejected, since both split into two empty segments |
| Crawler.BareDomainRejected | crawler.py:77-78 | the bare host "ics.uci.edu" is rejected |
| Crawler.LongQueryRejected | crawler.py:97-98 | ten or more "&" reject the URL |
| Views.Chunks | search_engine/views/main.py:130-132 | every chunk but the last has the chunk size, the last is non-empty and no larger |
| Views.ChunksFlatten | search_engine/views/main.py:130-132 | the chunks concatenate back to the list |
| Views.ChunkAt | search_engine/views/main.py:130-132 | chunk k is the slice from k × size |
| Views.ChunkList | search_engine/views/main.py:129-132 | size 0 raises; an empty list or negative size returns None; otherwise the chunks of that size, which concatenate back to the list |
| Views.MainView.constructor | search_engine/views/main.py:8-15 | no results and page 0 |
| Views.MainView.OnChangePage | search_engine/views/main.py:89-95 | "next" advances only before the last page, and raises TypeError before any results; "prev" goes back only after the first page; anything else does nothing; the page stays valid |
| Views.MainView.ShowResults | search_engine/views/main.py:97-108 | results are paged by 10 and the first page is shown; empty results raise TypeError and change nothing |
| Views.MainView.CurrentResults | search_engine/views/main.py:114-116 | the shown page is never empty |
| Views.FirstPageAfterSearch | search_engine/views/main.py:101-103 | the first page after a search is the first 10 results |
| Strings.ParseIntAccepts | search_engine/engine/method.py:29 | `int()` succeeds exactly on skipped whitespace around an optional sign and digit groups, and only a "-" gives a negative value |
| Strings.ParseIntSurrounded | search_engine/engine/method.py:29 | whitespace around the text does not change what `int()` returns |
| Strings.ParseDigits | search_engine/engine/table_range.py:23 | ASCII digits, with or without a minus sign, read as their value |
| Strings.ParseGroups | search_engine/engine/table_range.py:23 | digit groups without sign or surrounding whitespace read as their value |
| Strings.ParseIntUnderscore | search_engine/engine/method.py:29 | an underscore between digits is ignored |
| Strings.BadUnderscoreRejected | search_engine/engine/method.py:29 | an underscore first, last or twice in a row is a ValueError |
| Strings.ParseIntBadUnderscore | search_engine/engine/method.py:29 | "1__0", "_1" and "1_" are ValueErrors |
| Strings.ParseTwoDigits | search_engine/engine/method.py:29 | two decimal digits of any script read as a two-digit number |
| Strings.ParseIntOtherScript | search_engine/engine/method.py:29 | Arabic-Indic "١٢" reads as 12 |
| Strings.ParseNatToString | search_engine/engine/database_processor.py:155-156 | `int(str(n)) == n` for the count the build writes |
| Strings.LeadingZerosIgnored | search_engine/engine/method.py:29 | leading zeros do not change a value |
| Strings.SplitTwo | search_engine/engine/database_processor.py:50 | splitting two separator-free texts joined by the separator gives back the two |
| Strings.TrimSpaceAfter | search_engine/engine/file_processor.py:92 | a whitespace character appended to a line does not change its strip |

## Left out

- The SQLite connection, cursors, `init_*`, `close`, `get_db` and `close_db` are not modelled. The tables are fields. Where the source catches a failing statement and rolls back (`update_raw_webpage`, `update_webpage_info`, the three `remove_duplicate`s), the failure is a `fault` (or `failing`) parameter and the table is left as it was.
- `TokensWeight.TokensWeightProcessor.UpdateTokensWeight`: the source neither catches nor rolls back a failing INSERT; it raises part-way and leaves the earlier rows uncommitted on the connection. The model has no failure path for it.
- `RawWebpage.RawWebpageProcessor.UpdateTfIdf`: a failing UPDATE raises in the source and changes nothing; the model has no failure path for it.
- `open_db` is modelled as its decision and the order of its phases. The phases themselves (`_update_database`, `_remove_duplicate`, `_update_tf_idf`) are not modelled as loops. As written they cannot run: `calculate_token_weight` returns token → int, but `update_token` and `update_tokens_weight` read `info['weight']` and `info['positions']`. The table operations are modelled over the records those consumers expect.
- `_calculate_and_update_tf_idf` runs in a thread pool over pooled connections; the concurrency and the inverted-index writes are left out. Its formula is `Method.CalculateTfIdf`.
- `InvertedIndexDB` is not part of this model. The index is a map parameter, and `get_sorted_doc_ids_by_token` is the function parameter `sortedIds`.
- `search_url` only delegates to `RawWebpage.RawWebpageProcessor.SearchByUrl`.
- `preprocess_text` (nltk tokenising, stop words, lemmatising), `sent_tokenize` and lxml parsing are left out. The weighting and description work on their output, and the query path takes `preprocess` as a parameter.
- Floating point is not modelled. Weights are reals, and `log`, `round(·, 8)`, `** 0.5` and `strptime` are uninterpreted parameters. `DatabaseProcessor.PositiveRoot` only asks that the root of a positive number is positive.
- `serialize_list_to_json` / `deserialize_json_to_list` are left out; positions are integer sequences.
- `Tokens.TokenProcessor.UpdateToken`: a failure part-way is printed and not rolled back in the source; the model has no failure path for it.
- `TokensWeight.TokensWeightProcessor.UpdateTokensWeight`: the new rows follow dict insertion order in the source; the model fixes no order among them.
- `RawWebpages` (manifest and page file reading) and `TableRange`'s JSON load and save are file I/O. The constructor stands for a missing or empty file.
- `Crawler.IsValid` takes the URL's components and length; `urlparse` and the regular-expression engine are left out. The extension test is modelled as what the pattern matches: a blocked extension at the end of the lower-cased path, or right before a final "\n". `Strings.Lower` maps only A-Z and the Kelvin sign; every other character whose Python lower case differs (such as "İ", which lowers to "i" and a combining dot) lowers to text with no ASCII letter at its end, so the outcome of the extension test is the same.
- `FileProcessor.Log.UpdateLog`: writing is modelled as writing "\n" as it is, as text mode does on POSIX systems; on Windows text mode writes "\r\n", which reads back as "\n".
- `FileProcessor.RereadAfterUpdate` and `FileProcessor.LatestAfterUpdate` require a file that is empty or ends with a line break, and an entry with no line break; `FileProcessor.UnterminatedLineMerges` states what happens to a file whose last line has none.
- The tkinter widgets, `_display_current_page` text, `on_search` and the event bus are left out; the pager state is modelled.
- `PartA.py`'s and `PartB.py`'s command-line reading, file reading and printing are I/O.

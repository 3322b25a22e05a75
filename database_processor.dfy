/**
 * The query side of `DatabaseProcessor`: the decision in `open_db` whether
 * the index must be rebuilt, the query vector of `_get_query_vector`, the
 * scoring pass of `_process_tokens` and the result assembly of
 * `search_tokens`.
 *
 * The inverted index (`InvertedIndexDB`) is not part of this model: it is a
 * token-to-postings map given as a parameter, and its
 * `get_sorted_doc_ids_by_token` is the function parameter `sortedIds`. The
 * nltk query preprocessing is the function parameter `preprocess`. Weights
 * are reals; `log`, `round(·, 8)` and `** 0.5` are the uninterpreted
 * parameters `log`, `round8` and `sqrt`.
 */
module DatabaseProcessor {
  import opened Common
  import opened Strings
  import Method
  import opened RawWebpage
  import opened Tokens
  import TopK

  // ---------------------------------------------------------------------------
  // open_db: the rebuild decision
  // ---------------------------------------------------------------------------

  /** The phases of a rebuild. */
  datatype Step = UpdateDatabase | RemoveDuplicate | UpdateTfIdf

  /** `time, num = latest_log.strip().split(" ")`: anything but two fields raises ValueError. */
  function LogFields(latestLog: string): (r: Result<(string, string)>)
    ensures r.Ok? <==> |Split(Strip(latestLog), ' ')| == 2
    ensures r.Err? ==> r.error == ValueError
    ensures r.Ok? ==> r.value.0 + " " + r.value.1 == Strip(latestLog)
    ensures r.Ok? ==> ' ' !in r.value.0 && ' ' !in r.value.1
  {
    var line := Strip(latestLog);
    var parts := Split(line, ' ');
    SplitLength(line, ' ');
    JoinSplit(line, ' ');
    if |parts| == 2 then
      assert parts[1..] == [parts[1]];
      Ok((parts[0], parts[1]))
    else Err(ValueError)
  }

  /**
   * The condition of `open_db`: rebuild when there is no latest log line,
   * when either field is empty, when the logged date is more than
   * `updateTime` days from `today`, or when the manifest holds a different
   * number of pages than the log recorded. The checks run left to right and
   * stop at the first that decides; `parseDate` stands for `strptime`.
   */
  function ShouldRebuild(latestLog: string, pageCount: int, updateTime: int, today: int,
                         parseDate: string -> Option<int>): (r: Result<bool>)
    ensures latestLog == "" ==> r == Ok(true)
    ensures r.Err? ==> r.error == ValueError
    // Raises exactly when the line does not unpack into two fields, when the
    // date does not parse, or when a recent date comes with a count `int()` rejects.
    ensures r.Err? <==>
      (&& latestLog != ""
       && (|| LogFields(latestLog).Err?
           || (&& LogFields(latestLog).value.0 != ""
               && LogFields(latestLog).value.1 != ""
               && (|| parseDate(LogFields(latestLog).value.0).None?
                   || (&& -updateTime <= today - parseDate(LogFields(latestLog).value.0).value <= updateTime
                       && ParseInt(LogFields(latestLog).value.1).Err?)))))
    ensures r == Ok(false) <==>
      (&& latestLog != ""
       && LogFields(latestLog).Ok?
       && LogFields(latestLog).value.0 != ""
       && LogFields(latestLog).value.1 != ""
       && parseDate(LogFields(latestLog).value.0).Some?
       && -updateTime <= today - parseDate(LogFields(latestLog).value.0).value <= updateTime
       && ParseInt(LogFields(latestLog).value.1) == Ok(pageCount))
  {
    if latestLog == "" then Ok(true)
    else match LogFields(latestLog)
      case Err(e) => Err(e)
      case Ok((time, num)) =>
        if time == "" || num == "" then Ok(true)
        else match Method.CheckTimeDifference(time, updateTime, today, parseDate)
          case Err(e) => Err(e)
          case Ok(recent) =>
            if !recent then Ok(true)
            else match Method.CheckNumDifference(pageCount, num)
              case Err(e) => Err(e)
              case Ok(same) => Ok(!same)
  }

  /** What `open_db` runs before it loads the inverted index: all three phases in order, or none. */
  function RebuildPlan(latestLog: string, pageCount: int, updateTime: int, today: int,
                       parseDate: string -> Option<int>): (r: Result<seq<Step>>)
    ensures r.Err? <==> ShouldRebuild(latestLog, pageCount, updateTime, today, parseDate).Err?
    ensures r.Ok? && r.value != [] <==> ShouldRebuild(latestLog, pageCount, updateTime, today, parseDate) == Ok(true)
    ensures r.Ok? && r.value != [] ==> r.value == [UpdateDatabase, RemoveDuplicate, UpdateTfIdf]
  {
    match ShouldRebuild(latestLog, pageCount, updateTime, today, parseDate)
    case Err(e) => Err(e)
    case Ok(rebuild) => Ok(if rebuild then [UpdateDatabase, RemoveDuplicate, UpdateTfIdf] else [])
  }

  /** A line of two fields without spaces, each starting and ending visibly, splits into them. */
  lemma LogFieldsOf(date: string, num: string)
    requires date != [] && num != [] && ' ' !in date && ' ' !in num
    requires NotSpace(date[0]) && NotSpace(num[|num| - 1])
    ensures LogFields(date + " " + num) == Ok((date, num))
  {
    var line := date + " " + num;
    StripFields(date, num);
    SplitTwo(date, num, ' ');
    assert line == date + [' '] + num;
  }

  /** A log line of one field, such as a bare date, makes the unpacking raise instead of rebuilding. */
  lemma OneFieldRaises(line: string, pageCount: int, updateTime: int, today: int,
                       parseDate: string -> Option<int>)
    requires line != [] && ' ' !in line && NotSpace(line[0]) && NotSpace(line[|line| - 1])
    ensures ShouldRebuild(line, pageCount, updateTime, today, parseDate) == Err(ValueError)
  {
    TrimKeeps(line, IsSpace);
    SplitNoSep(line, ' ');
  }

  /** Such a line is its own strip. */
  lemma StripFields(date: string, num: string)
    requires date != [] && num != []
    requires NotSpace(date[0]) && NotSpace(num[|num| - 1])
    ensures Strip(date + " " + num) == date + " " + num
  {
    var line := date + " " + num;
    assert line[0] == date[0] && line[|line| - 1] == num[|num| - 1];
    TrimKeeps(line, IsSpace);
  }

  /**
   * The line `_update_database` writes, `"<date> <count>"`, read back on the
   * same day with an unchanged manifest, skips the rebuild.
   */
  lemma FreshLogSkipsRebuild(date: string, n: nat, updateTime: nat, today: int,
                             parseDate: string -> Option<int>)
    requires date != [] && ' ' !in date && NotSpace(date[0])
    requires parseDate(date) == Some(today)
    ensures ShouldRebuild(date + " " + NatToString(n), n, updateTime, today, parseDate) == Ok(false)
  {
    var num := NatToString(n);
    assert ' ' !in num && NotSpace(num[|num| - 1]) by {
      assert forall k :: 0 <= k < |num| ==> IsDigit(num[k]);
    }
    LogFieldsOf(date, num);
    ParseNatToString(n);
  }

  // ---------------------------------------------------------------------------
  // _get_query_vector
  // ---------------------------------------------------------------------------

  /** The weight of one query token: its count in the query as `f_td`, the query length as `d`. */
  function QueryWeight(tokens: seq<string>, t: string, total: nat, docNum: Result<int>,
                       log: real -> real, round8: real -> real): Result<real>
  {
    match docNum
    case Err(e) => Err(e)
    case Ok(k) => Method.CalculateTfIdf(Count(tokens, t), |tokens|, total + 1, k + 1, log, round8)
  }

  /** The query vector after the first `k` tokens: a failing token ends it with its error. */
  function QueryVector(tokens: seq<string>, k: nat, raw: RawWebpageProcessor, tokenProcessor: TokenProcessor,
                       log: real -> real, round8: real -> real): Result<map<string, real>>
    requires k <= |tokens|
    reads raw, tokenProcessor
  {
    if k == 0 then Ok(map[])
    else match QueryVector(tokens, k - 1, raw, tokenProcessor, log, round8)
      case Err(e) => Err(e)
      case Ok(m) =>
        var t := tokens[k - 1];
        match QueryWeight(tokens, t, raw.GetTotalLength(), tokenProcessor.GetDocNum(t), log, round8)
        case Err(e) => Err(e)
        case Ok(w) => Ok(m[t := w])
  }

  /**
   * The vector has exactly the distinct query tokens as keys, each with its
   * own weight; it fails exactly when some token's weight fails, with the
   * error of the first such token.
   */
  lemma {:induction false} QueryVectorMeaning(tokens: seq<string>, k: nat, raw: RawWebpageProcessor,
                                              tokenProcessor: TokenProcessor, log: real -> real, round8: real -> real)
    requires k <= |tokens|
    ensures var r := QueryVector(tokens, k, raw, tokenProcessor, log, round8);
            && (r.Ok? <==> forall i :: 0 <= i < k ==>
                  QueryWeight(tokens, tokens[i], raw.GetTotalLength(), tokenProcessor.GetDocNum(tokens[i]), log, round8).Ok?)
            && (r.Ok? ==> forall t :: t in r.value <==> t in tokens[..k])
            && (r.Ok? ==> forall t :: t in r.value ==>
                  QueryWeight(tokens, t, raw.GetTotalLength(), tokenProcessor.GetDocNum(t), log, round8) == Ok(r.value[t]))
            && (r.Err? ==> exists i :: (&& 0 <= i < k
                  && QueryWeight(tokens, tokens[i], raw.GetTotalLength(), tokenProcessor.GetDocNum(tokens[i]), log, round8) == Err(r.error)
                  && forall j :: 0 <= j < i ==>
                       QueryWeight(tokens, tokens[j], raw.GetTotalLength(), tokenProcessor.GetDocNum(tokens[j]), log, round8).Ok?))
  {
    QueryVectorOutcome(tokens, k, raw, tokenProcessor, log, round8);
    QueryVectorContent(tokens, k, raw, tokenProcessor, log, round8);
  }

  /** The success-or-first-failure half of `QueryVectorMeaning`. */
  lemma {:induction false} QueryVectorOutcome(tokens: seq<string>, k: nat, raw: RawWebpageProcessor,
                                              tokenProcessor: TokenProcessor, log: real -> real, round8: real -> real)
    requires k <= |tokens|
    ensures QueryVector(tokens, k, raw, tokenProcessor, log, round8).Ok? <==> forall i :: 0 <= i < k ==>
              QueryWeight(tokens, tokens[i], raw.GetTotalLength(), tokenProcessor.GetDocNum(tokens[i]), log, round8).Ok?
    ensures QueryVector(tokens, k, raw, tokenProcessor, log, round8).Err? ==> exists i :: (&& 0 <= i < k
              && QueryWeight(tokens, tokens[i], raw.GetTotalLength(), tokenProcessor.GetDocNum(tokens[i]), log, round8)
                 == Err(QueryVector(tokens, k, raw, tokenProcessor, log, round8).error)
              && forall j :: 0 <= j < i ==>
                   QueryWeight(tokens, tokens[j], raw.GetTotalLength(), tokenProcessor.GetDocNum(tokens[j]), log, round8).Ok?)
  {
    var ws := Weights(tokens, raw, tokenProcessor, log, round8);
    QueryVectorIsFold(tokens, k, raw, tokenProcessor, log, round8, ws);
    FoldOutcome(tokens, ws, k);
  }

  /** The weight of every query token, position by position. */
  ghost function Weights(tokens: seq<string>, raw: RawWebpageProcessor, tokenProcessor: TokenProcessor,
                         log: real -> real, round8: real -> real): (ws: seq<Result<real>>)
    reads raw, tokenProcessor
    ensures |ws| == |tokens|
    ensures forall i :: 0 <= i < |tokens| ==>
              ws[i] == QueryWeight(tokens, tokens[i], raw.GetTotalLength(), tokenProcessor.GetDocNum(tokens[i]), log, round8)
  {
    seq(|tokens|, i requires 0 <= i < |tokens| reads raw, tokenProcessor =>
      QueryWeight(tokens, tokens[i], raw.GetTotalLength(), tokenProcessor.GetDocNum(tokens[i]), log, round8))
  }

  /** `QueryVector` with the weights given position by position. */
  function Fold(tokens: seq<string>, ws: seq<Result<real>>, k: nat): Result<map<string, real>>
    requires k <= |tokens| == |ws|
  {
    if k == 0 then Ok(map[])
    else match Fold(tokens, ws, k - 1)
      case Err(e) => Err(e)
      case Ok(m) =>
        match ws[k - 1]
        case Err(e) => Err(e)
        case Ok(w) => Ok(m[tokens[k - 1] := w])
  }

  lemma {:induction false} QueryVectorIsFold(tokens: seq<string>, k: nat, raw: RawWebpageProcessor,
                                             tokenProcessor: TokenProcessor, log: real -> real, round8: real -> real,
                                             ws: seq<Result<real>>)
    requires k <= |tokens|
    requires ws == Weights(tokens, raw, tokenProcessor, log, round8)
    ensures QueryVector(tokens, k, raw, tokenProcessor, log, round8) == Fold(tokens, ws, k)
    decreases k
  {
    if k > 0 {
      QueryVectorIsFold(tokens, k - 1, raw, tokenProcessor, log, round8, ws);
      QueryVectorNext(tokens, k - 1, raw, tokenProcessor, log, round8);
      var prev, w := Fold(tokens, ws, k - 1), ws[k - 1];
      assert w == QueryWeight(tokens, tokens[k - 1], raw.GetTotalLength(),
                              tokenProcessor.GetDocNum(tokens[k - 1]), log, round8);
      if prev.Err? {
        assert Fold(tokens, ws, k) == prev;
      } else if w.Err? {
        assert Fold(tokens, ws, k) == Err(w.error);
      } else {
        assert Fold(tokens, ws, k) == Ok(prev.value[tokens[k - 1] := w.value]);
      }
    }
  }

  /** The fold succeeds exactly when every weight does, and otherwise fails with the first failing weight. */
  lemma {:induction false} FoldOutcome(tokens: seq<string>, ws: seq<Result<real>>, k: nat)
    requires k <= |tokens| == |ws|
    ensures Fold(tokens, ws, k).Ok? <==> forall i :: 0 <= i < k ==> ws[i].Ok?
    ensures Fold(tokens, ws, k).Err? ==> exists i :: (&& 0 <= i < k && ws[i] == Err(Fold(tokens, ws, k).error)
              && forall j :: 0 <= j < i ==> ws[j].Ok?)
    decreases k
  {
    if k > 0 {
      FoldOutcome(tokens, ws, k - 1);
      if Fold(tokens, ws, k - 1).Err? {
        var i :| && 0 <= i < k - 1 && ws[i] == Err(Fold(tokens, ws, k - 1).error)
                 && forall j :: 0 <= j < i ==> ws[j].Ok?;
        assert !ws[i].Ok?;
      }
    }
  }

  /** The keys-and-values half of `QueryVectorMeaning`. */
  lemma {:induction false} QueryVectorContent(tokens: seq<string>, k: nat, raw: RawWebpageProcessor,
                                              tokenProcessor: TokenProcessor, log: real -> real, round8: real -> real)
    requires k <= |tokens|
    ensures QueryVector(tokens, k, raw, tokenProcessor, log, round8).Ok? ==>
              forall t :: t in QueryVector(tokens, k, raw, tokenProcessor, log, round8).value <==> t in tokens[..k]
    ensures QueryVector(tokens, k, raw, tokenProcessor, log, round8).Ok? ==>
              forall t :: t in QueryVector(tokens, k, raw, tokenProcessor, log, round8).value ==>
                QueryWeight(tokens, t, raw.GetTotalLength(), tokenProcessor.GetDocNum(t), log, round8)
                == Ok(QueryVector(tokens, k, raw, tokenProcessor, log, round8).value[t])
    decreases k
  {
    if k > 0 {
      QueryVectorContent(tokens, k - 1, raw, tokenProcessor, log, round8);
      QueryVectorNext(tokens, k - 1, raw, tokenProcessor, log, round8);
      assert tokens[..k] == tokens[..k - 1] + [tokens[k - 1]];
    }
  }

  lemma QueryVectorNext(tokens: seq<string>, i: nat, raw: RawWebpageProcessor, tokenProcessor: TokenProcessor,
                        log: real -> real, round8: real -> real)
    requires i < |tokens|
    ensures QueryVector(tokens, i + 1, raw, tokenProcessor, log, round8)
         == match QueryVector(tokens, i, raw, tokenProcessor, log, round8)
            case Err(e) => Err(e)
            case Ok(m) =>
              match QueryWeight(tokens, tokens[i], raw.GetTotalLength(), tokenProcessor.GetDocNum(tokens[i]), log, round8)
              case Err(e) => Err(e)
              case Ok(w) => Ok(m[tokens[i] := w])
  {
  }

  /** Once a prefix of the query fails, the whole vector fails with the same error. */
  lemma {:induction false} QueryVectorErrorSticks(tokens: seq<string>, k: nat, m: nat, raw: RawWebpageProcessor,
                                                  tokenProcessor: TokenProcessor, log: real -> real, round8: real -> real)
    requires k <= m <= |tokens|
    requires QueryVector(tokens, k, raw, tokenProcessor, log, round8).Err?
    ensures QueryVector(tokens, m, raw, tokenProcessor, log, round8) == QueryVector(tokens, k, raw, tokenProcessor, log, round8)
    decreases m - k
  {
    if k < m {
      QueryVectorErrorSticks(tokens, k, m - 1, raw, tokenProcessor, log, round8);
    }
  }

  /** `token_counts`: every query token with the number of times it occurs. */
  method CountTokens(tokens: seq<string>) returns (counts: map<string, nat>)
    ensures forall t :: t in counts <==> t in tokens
    ensures forall t :: t in counts ==> counts[t] == Count(tokens, t)
  {
    counts := map[];
    for i := 0 to |tokens|
      invariant forall t :: t in counts <==> t in tokens[..i]
      invariant forall t :: t in counts ==> counts[t] == Count(tokens[..i], t)
    {
      var token := tokens[i];
      assert tokens[..i + 1] == tokens[..i] + [token];
      forall t ensures Count(tokens[..i + 1], t) == Count(tokens[..i], t) + (if t == token then 1 else 0) {
        assert tokens[..i + 1][..i] == tokens[..i];
      }
      if token in counts {
        counts := counts[token := counts[token] + 1];
      } else {
        counts := counts[token := 1];
      }
    }
    assert tokens[..|tokens|] == tokens;
  }

  /** One more token: its weight extends the vector, or its error is the whole vector's error. */
  lemma QueryVectorStep(tokens: seq<string>, i: nat, raw: RawWebpageProcessor, tokenProcessor: TokenProcessor,
                        log: real -> real, round8: real -> real, vector: map<string, real>, w: Result<real>)
    requires i < |tokens| && QueryVector(tokens, i, raw, tokenProcessor, log, round8) == Ok(vector)
    requires w == QueryWeight(tokens, tokens[i], raw.GetTotalLength(), tokenProcessor.GetDocNum(tokens[i]), log, round8)
    ensures w.Err? ==> QueryVector(tokens, |tokens|, raw, tokenProcessor, log, round8) == Err(w.error)
    ensures w.Ok? ==> QueryVector(tokens, i + 1, raw, tokenProcessor, log, round8) == Ok(vector[tokens[i] := w.value])
  {
    QueryVectorNext(tokens, i, raw, tokenProcessor, log, round8);
    if w.Err? {
      QueryVectorErrorSticks(tokens, i + 1, |tokens|, raw, tokenProcessor, log, round8);
    }
  }

  /** `_get_query_vector`. */
  method GetQueryVector(tokens: seq<string>, raw: RawWebpageProcessor, tokenProcessor: TokenProcessor,
                        log: real -> real, round8: real -> real) returns (r: Result<map<string, real>>)
    ensures r == QueryVector(tokens, |tokens|, raw, tokenProcessor, log, round8)
  {
    var d := |tokens|;
    var n := raw.GetTotalLength() + 1;
    var counts := CountTokens(tokens);
    var vector := map[];
    for i := 0 to |tokens|
      invariant QueryVector(tokens, i, raw, tokenProcessor, log, round8) == Ok(vector)
    {
      var token := tokens[i];
      var fTd := counts[token];
      var docNum := tokenProcessor.GetDocNum(token);
      if docNum.Err? {
        QueryVectorStep(tokens, i, raw, tokenProcessor, log, round8, vector, Err(docNum.error));
        return Err(docNum.error);
      }
      var nT := docNum.value + 1;
      assert fTd == Count(tokens, token) && n == raw.GetTotalLength() + 1;
      var tfIdf := Method.CalculateTfIdf(fTd, d, n, nT, log, round8);
      QueryVectorStep(tokens, i, raw, tokenProcessor, log, round8, vector, tfIdf);
      if tfIdf.Err? {
        return Err(tfIdf.error);
      }
      vector := vector[token := tfIdf.value];
    }
    return Ok(vector);
  }

  // ---------------------------------------------------------------------------
  // _process_tokens: reference definitions
  // ---------------------------------------------------------------------------

  /** One entry of a token's postings list: `docID`, `tf_idf` and `position`. */
  datatype Posting = Posting(docId: string, tfIdf: real, positions: seq<int>)

  type Index = map<string, seq<Posting>>

  predicate Unique(s: seq<string>)
  {
    forall a, b :: 0 <= a < b < |s| ==> s[a] != s[b]
  }

  /** Some posting is for document `d`. */
  predicate Listed(ps: seq<Posting>, d: string)
  {
    exists k :: 0 <= k < |ps| && ps[k].docId == d
  }

  lemma ListedLast(ps: seq<Posting>)
    requires ps != []
    ensures forall d :: Listed(ps, d) <==> Listed(ps[..|ps| - 1], d) || ps[|ps| - 1].docId == d
  {
    forall d | Listed(ps, d) ensures Listed(ps[..|ps| - 1], d) || ps[|ps| - 1].docId == d {
      var k :| 0 <= k < |ps| && ps[k].docId == d;
      if k < |ps| - 1 {
        assert ps[..|ps| - 1][k] == ps[k];
      }
    }
    forall d | Listed(ps[..|ps| - 1], d) ensures Listed(ps, d) {
      var k :| 0 <= k < |ps| - 1 && ps[..|ps| - 1][k].docId == d;
      assert ps[k].docId == d;
    }
  }

  /** `Σ wt_d * wt_q` over the postings of `d`. */
  function Dot(ps: seq<Posting>, d: string, w: real): real
  {
    if ps == [] then 0.0
    else Dot(ps[..|ps| - 1], d, w) + (if ps[|ps| - 1].docId == d then ps[|ps| - 1].tfIdf * w else 0.0)
  }

  /** `Σ wt_d ** 2` over the postings of `d`. */
  function Squares(ps: seq<Posting>, d: string): real
  {
    if ps == [] then 0.0
    else Squares(ps[..|ps| - 1], d) + (if ps[|ps| - 1].docId == d then ps[|ps| - 1].tfIdf * ps[|ps| - 1].tfIdf else 0.0)
  }

  /** The position lists of the postings of `d`, in order. */
  function ListsFor(ps: seq<Posting>, d: string): (r: seq<seq<int>>)
    ensures r == [] <==> !Listed(ps, d)
  {
    if ps == [] then []
    else
      ListedLast(ps);
      ListsFor(ps[..|ps| - 1], d) + (if ps[|ps| - 1].docId == d then [ps[|ps| - 1].positions] else [])
  }

  /** `seen` extended by the documents of `ps` it does not hold yet, in order of first appearance. */
  function NewDocs(seen: seq<string>, ps: seq<Posting>): (r: seq<string>)
    ensures forall d :: d in r <==> d in seen || Listed(ps, d)
    ensures Unique(seen) ==> Unique(r)
  {
    if ps == [] then seen
    else
      ListedLast(ps);
      var prior := NewDocs(seen, ps[..|ps| - 1]);
      var d := ps[|ps| - 1].docId;
      if d in prior then prior else prior + [d]
  }

  /** Every query token that is in the index has a query weight. */
  predicate Covered(index: Index, qv: map<string, real>, query: seq<string>)
  {
    forall t :: t in query && t in index ==> t in qv
  }

  /** Some query token in the index lists document `d`. */
  ghost predicate Hit(index: Index, query: seq<string>, d: string)
  {
    exists t :: t in query && t in index && Listed(index[t], d)
  }

  lemma HitLast(index: Index, query: seq<string>)
    requires query != []
    ensures var t := query[|query| - 1];
            forall d :: Hit(index, query, d) <==>
              Hit(index, query[..|query| - 1], d) || (t in index && Listed(index[t], d))
  {
    var prior := query[..|query| - 1];
    assert query == prior + [query[|query| - 1]];
  }

  /** The token at the end of `query` occurs in it for the first time. */
  predicate FirstOccurrence(query: seq<string>)
    requires query != []
  {
    query[|query| - 1] !in query[..|query| - 1]
  }

  /**
   * The accumulated `scores[d]` before the phrase bonus: the `wt_d * wt_q`
   * products of the FIRST occurrence of each query token in the index.
   */
  function BaseScore(index: Index, qv: map<string, real>, query: seq<string>, d: string): real
    requires Covered(index, qv, query)
  {
    if query == [] then 0.0
    else
      var t := query[|query| - 1];
      BaseScore(index, qv, query[..|query| - 1], d)
        + (if t in index && FirstOccurrence(query) then Dot(index[t], d, qv[t]) else 0.0)
  }

  /** The accumulated `doc_lengths[d]`: squared weights, again from first occurrences only. */
  function Length(index: Index, query: seq<string>, d: string): real
  {
    if query == [] then 0.0
    else
      var t := query[|query| - 1];
      Length(index, query[..|query| - 1], d) + (if t in index && FirstOccurrence(query) then Squares(index[t], d) else 0.0)
  }

  /** `doc_positions[d]`: one list per posting of `d`, for EVERY occurrence of a token in the index. */
  function PositionLists(index: Index, query: seq<string>, d: string): (r: seq<seq<int>>)
    ensures r == [] <==> !Hit(index, query, d)
  {
    if query == [] then []
    else
      var t := query[|query| - 1];
      HitLast(index, query);
      PositionLists(index, query[..|query| - 1], d) + (if t in index then ListsFor(index[t], d) else [])
  }

  /** The keys of `scores` in insertion order: the documents in order of first scoring. */
  function FirstSeen(index: Index, query: seq<string>): (r: seq<string>)
    ensures forall d :: d in r <==> Hit(index, query, d)
    ensures Unique(r)
  {
    if query == [] then []
    else
      var t := query[|query| - 1];
      var prior := FirstSeen(index, query[..|query| - 1]);
      HitLast(index, query);
      if t in index && FirstOccurrence(query) then NewDocs(prior, index[t])
      else
        assert t in index ==> forall d :: Listed(index[t], d) ==> Hit(index, query[..|query| - 1], d);
        prior
  }

  const PhraseBonusValue: real := 2.0

  /** Some position of `a` is directly followed by a position of `b`. */
  predicate Adjacent(a: seq<int>, b: seq<int>)
  {
    exists k :: 0 <= k < |a| && a[k] + 1 in b
  }

  /** The number of consecutive pairs of position lists that are adjacent. */
  function PairCount(lists: seq<seq<int>>): (n: nat)
    ensures n <= (if lists == [] then 0 else |lists| - 1)
  {
    if |lists| < 2 then 0
    else PairCount(lists[..|lists| - 1]) + (if Adjacent(lists[|lists| - 2], lists[|lists| - 1]) then 1 else 0)
  }

  function Bonus(lists: seq<seq<int>>): real
  {
    PhraseBonusValue * PairCount(lists) as real
  }

  /** No adjacent pair, no bonus. */
  lemma {:induction false} NoAdjacencyNoBonus(lists: seq<seq<int>>)
    requires forall i :: 0 <= i < |lists| - 1 ==> !Adjacent(lists[i], lists[i + 1])
    ensures PairCount(lists) == 0
  {
    if |lists| >= 2 {
      var prior := lists[..|lists| - 1];
      NoAdjacencyNoBonus(prior);
    }
  }

  /** Every consecutive pair adjacent: one bonus per pair, `|lists| - 1` in all. */
  lemma {:induction false} AllAdjacentFullBonus(lists: seq<seq<int>>)
    requires lists != []
    requires forall i :: 0 <= i < |lists| - 1 ==> Adjacent(lists[i], lists[i + 1])
    ensures PairCount(lists) == |lists| - 1
  {
    if |lists| >= 2 {
      var prior := lists[..|lists| - 1];
      AllAdjacentFullBonus(prior);
    }
  }

  /** `sqrt` is positive on positive arguments, as `x ** 0.5` is. */
  ghost predicate PositiveRoot(sqrt: real -> real)
  {
    forall x :: x > 0.0 ==> sqrt(x) > 0.0
  }

  /** Length normalisation: divide by `sqrt(length)` only when the length is positive. */
  function Normalized(score: real, length: real, sqrt: real -> real): real
    requires PositiveRoot(sqrt)
  {
    if length > 0.0 then score / sqrt(length) else score
  }

  /** The final score of `d`: base score plus phrase bonus, normalised. */
  function FinalScore(index: Index, qv: map<string, real>, query: seq<string>, sqrt: real -> real, d: string): real
    requires Covered(index, qv, query) && PositiveRoot(sqrt)
  {
    Normalized(BaseScore(index, qv, query, d) + Bonus(PositionLists(index, query, d)), Length(index, query, d), sqrt)
  }

  /** What `_process_tokens` returns: a KeyError for a token without a query weight, else the top 50. */
  function Ranked(index: Index, qv: map<string, real>, query: seq<string>, sqrt: real -> real): Result<seq<string>>
    requires PositiveRoot(sqrt)
  {
    if !Covered(index, qv, query) then Err(KeyError)
    else
      var seen := FirstSeen(index, query);
      Ok(TopK.NLargest(50, seen, map d | d in seen :: FinalScore(index, qv, query, sqrt, d)))
  }

  // ---------------------------------------------------------------------------
  // _process_tokens: properties
  // ---------------------------------------------------------------------------

  /**
   * How one more query token `t` changes the reference quantities: a token
   * outside the index changes nothing; a first occurrence adds its postings'
   * products, squares and documents; a repeated token adds its position
   * lists again and nothing else.
   */
  lemma AppendToken(index: Index, qv: map<string, real>, query: seq<string>, t: string, d: string)
    requires Covered(index, qv, query + [t])
    ensures Covered(index, qv, query)
    ensures t !in index ==>
      && BaseScore(index, qv, query + [t], d) == BaseScore(index, qv, query, d)
      && Length(index, query + [t], d) == Length(index, query, d)
      && PositionLists(index, query + [t], d) == PositionLists(index, query, d)
      && FirstSeen(index, query + [t]) == FirstSeen(index, query)
    ensures t in index && t !in query ==>
      && BaseScore(index, qv, query + [t], d) == BaseScore(index, qv, query, d) + Dot(index[t], d, qv[t])
      && Length(index, query + [t], d) == Length(index, query, d) + Squares(index[t], d)
      && PositionLists(index, query + [t], d) == PositionLists(index, query, d) + ListsFor(index[t], d)
      && FirstSeen(index, query + [t]) == NewDocs(FirstSeen(index, query), index[t])
    ensures t in index && t in query ==>
      && BaseScore(index, qv, query + [t], d) == BaseScore(index, qv, query, d)
      && Length(index, query + [t], d) == Length(index, query, d)
      && PositionLists(index, query + [t], d) == PositionLists(index, query, d) + ListsFor(index[t], d)
      && FirstSeen(index, query + [t]) == FirstSeen(index, query)
  {
    assert (query + [t])[..|query|] == query;
  }

  /**
   * The ranking returns at most 50 distinct documents, each listed by some
   * query token, best final score first; a document left out scores no more
   * than any returned one; with at most 50 candidates all are returned.
   */
  lemma RankedShape(index: Index, qv: map<string, real>, query: seq<string>, sqrt: real -> real)
    requires PositiveRoot(sqrt) && Covered(index, qv, query)
    ensures var ids := Ranked(index, qv, query, sqrt).value;
            var seen := FirstSeen(index, query);
            && |ids| == Min(50, |seen|)
            && Unique(ids)
            && (forall k :: 0 <= k < |ids| ==> Hit(index, query, ids[k]))
            && (forall a, b :: 0 <= a < b < |ids| ==>
                  FinalScore(index, qv, query, sqrt, ids[a]) >= FinalScore(index, qv, query, sqrt, ids[b]))
            && (forall d, k :: Hit(index, query, d) && d !in ids && 0 <= k < |ids| ==>
                  FinalScore(index, qv, query, sqrt, d) <= FinalScore(index, qv, query, sqrt, ids[k]))
            && (|seen| <= 50 ==> forall d :: Hit(index, query, d) ==> d in ids)
  {
    var seen := FirstSeen(index, query);
    var score := map d | d in seen :: FinalScore(index, qv, query, sqrt, d);
    var ids := TopK.NLargest(50, seen, score);
    TopK.NLargestOfUnique(50, seen, score);
    forall k | 0 <= k < |ids| ensures ids[k] in seen && score[ids[k]] == FinalScore(index, qv, query, sqrt, ids[k]) {
    }
    forall d | Hit(index, query, d) ensures d in seen && score[d] == FinalScore(index, qv, query, sqrt, d) {
    }
    if |seen| <= 50 {
      TopK.NLargestKeepsAll(50, seen, score);
    }
  }

  /** A query vector from `_get_query_vector` weighs every token, so the scoring pass never raises KeyError. */
  lemma VectorCoversQuery(tokens: seq<string>, index: Index, raw: RawWebpageProcessor, tokenProcessor: TokenProcessor,
                          log: real -> real, round8: real -> real)
    requires QueryVector(tokens, |tokens|, raw, tokenProcessor, log, round8).Ok?
    ensures Covered(index, QueryVector(tokens, |tokens|, raw, tokenProcessor, log, round8).value, tokens)
  {
    QueryVectorMeaning(tokens, |tokens|, raw, tokenProcessor, log, round8);
    assert tokens[..|tokens|] == tokens;
  }

  // ---------------------------------------------------------------------------
  // _process_tokens: the passes
  // ---------------------------------------------------------------------------

  /**
   * The dictionaries of the scoring pass. Python dictionaries keep insertion
   * order, which `nlargest` sees; `order` records the insertion order of
   * `scores` (and of `doc_lengths`, which gains its keys at the same time).
   */
  datatype Tally = Tally(scores: map<string, real>, lengths: map<string, real>, order: seq<string>,
                         positions: map<string, seq<seq<int>>>)

  function ValueOr(m: map<string, real>, d: string): real
  {
    if d in m then m[d] else 0.0
  }

  function ListsOr(m: map<string, seq<seq<int>>>, d: string): seq<seq<int>>
  {
    if d in m then m[d] else []
  }

  ghost predicate WellFormed(t: Tally)
  {
    && (forall d :: d in t.scores <==> d in t.order)
    && (forall d :: d in t.lengths <==> d in t.order)
    && Unique(t.order)
    && (forall d :: d in t.positions ==> t.positions[d] != [])
  }

  lemma NewDocsNext(seen: seq<string>, ps: seq<Posting>, j: nat)
    requires j < |ps|
    ensures NewDocs(seen, ps[..j + 1])
         == (var prior := NewDocs(seen, ps[..j]); if ps[j].docId in prior then prior else prior + [ps[j].docId])
  {
    assert ps[..j + 1][..j] == ps[..j];
  }

  lemma PostingsNext(ps: seq<Posting>, j: nat, w: real, d: string)
    requires j < |ps|
    ensures Dot(ps[..j + 1], d, w) == Dot(ps[..j], d, w) + (if ps[j].docId == d then ps[j].tfIdf * w else 0.0)
    ensures Squares(ps[..j + 1], d) == Squares(ps[..j], d) + (if ps[j].docId == d then ps[j].tfIdf * ps[j].tfIdf else 0.0)
    ensures ListsFor(ps[..j + 1], d) == ListsFor(ps[..j], d) + (if ps[j].docId == d then [ps[j].positions] else [])
  {
    assert ps[..j + 1][..j] == ps[..j];
  }

  /** Every posting of `ps` appended its position list to `doc_positions`. */
  ghost predicate PositionsApplied(t: Tally, r: Tally, ps: seq<Posting>)
  {
    forall d :: ListsOr(r.positions, d) == ListsOr(t.positions, d) + ListsFor(ps, d)
  }

  /**
   * Every posting of `ps` was scored: its document was added to `order` on
   * first sight, and its score and length grew by `wt_d * wt_q` and `wt_d ** 2`.
   */
  ghost predicate ScoresApplied(t: Tally, r: Tally, ps: seq<Posting>, wq: real)
  {
    && r.order == NewDocs(t.order, ps)
    && (forall d :: ValueOr(r.scores, d) == ValueOr(t.scores, d) + Dot(ps, d, wq))
    && (forall d :: ValueOr(r.lengths, d) == ValueOr(t.lengths, d) + Squares(ps, d))
  }

  /** `r` is `t` after the postings `ps` of one token; only its first occurrence (`first`) scores. */
  ghost predicate Applied(t: Tally, r: Tally, ps: seq<Posting>, wq: real, first: bool)
  {
    && PositionsApplied(t, r, ps)
    && (first ==> ScoresApplied(t, r, ps, wq))
    && (!first ==> r.scores == t.scores && r.lengths == t.lengths && r.order == t.order)
  }

  lemma SinglePosting(seen: seq<string>, p: Posting, w: real, d: string)
    ensures Dot([p], d, w) == (if p.docId == d then p.tfIdf * w else 0.0)
    ensures Squares([p], d) == (if p.docId == d then p.tfIdf * p.tfIdf else 0.0)
    ensures ListsFor([p], d) == (if p.docId == d then [p.positions] else [])
    ensures NewDocs(seen, [p]) == (if p.docId in seen then seen else seen + [p.docId])
  {
    assert [p][..0] == [];
  }

  lemma PositionsAppliedNext(t: Tally, prior: Tally, r: Tally, ps: seq<Posting>, j: nat)
    requires j < |ps|
    requires PositionsApplied(t, prior, ps[..j])
    requires PositionsApplied(prior, r, [ps[j]])
    ensures PositionsApplied(t, r, ps[..j + 1])
  {
    assert ps[..j + 1][..j] == ps[..j];
    assert [ps[j]][..0] == [];
    forall d ensures ListsOr(r.positions, d) == ListsOr(t.positions, d) + ListsFor(ps[..j + 1], d) {
      var a, b := ListsOr(t.positions, d), ListsFor(ps[..j], d);
      var x := ListsFor([ps[j]], d);
      assert ListsOr(prior.positions, d) == a + b;
      assert ListsOr(r.positions, d) == (a + b) + x;
      assert (a + b) + x == a + (b + x);
    }
  }

  /** The sums over one more posting are the sums so far plus that posting's own. */
  lemma PostingSplit(ps: seq<Posting>, j: nat, w: real, d: string)
    requires j < |ps|
    ensures Dot(ps[..j + 1], d, w) == Dot(ps[..j], d, w) + Dot([ps[j]], d, w)
    ensures Squares(ps[..j + 1], d) == Squares(ps[..j], d) + Squares([ps[j]], d)
  {
    SinglePosting([], ps[j], w, d);
    PostingsNext(ps, j, w, d);
  }

  /** One more posting, seen from document `d`: its score and length contributions add up. */
  lemma ScoreNext(tScore: real, priorScore: real, rScore: real, tLength: real, priorLength: real, rLength: real,
                  ps: seq<Posting>, j: nat, wq: real, d: string)
    requires j < |ps|
    requires priorScore == tScore + Dot(ps[..j], d, wq) && rScore == priorScore + Dot([ps[j]], d, wq)
    requires priorLength == tLength + Squares(ps[..j], d) && rLength == priorLength + Squares([ps[j]], d)
    ensures rScore == tScore + Dot(ps[..j + 1], d, wq)
    ensures rLength == tLength + Squares(ps[..j + 1], d)
  {
    PostingSplit(ps, j, wq, d);
  }

  lemma SumsNext(t: Tally, prior: Tally, r: Tally, ps: seq<Posting>, j: nat, wq: real)
    requires j < |ps|
    requires forall d :: ValueOr(prior.scores, d) == ValueOr(t.scores, d) + Dot(ps[..j], d, wq)
    requires forall d :: ValueOr(prior.lengths, d) == ValueOr(t.lengths, d) + Squares(ps[..j], d)
    requires forall d :: ValueOr(r.scores, d) == ValueOr(prior.scores, d) + Dot([ps[j]], d, wq)
    requires forall d :: ValueOr(r.lengths, d) == ValueOr(prior.lengths, d) + Squares([ps[j]], d)
    ensures forall d :: ValueOr(r.scores, d) == ValueOr(t.scores, d) + Dot(ps[..j + 1], d, wq)
    ensures forall d :: ValueOr(r.lengths, d) == ValueOr(t.lengths, d) + Squares(ps[..j + 1], d)
  {
    forall d ensures
      && ValueOr(r.scores, d) == ValueOr(t.scores, d) + Dot(ps[..j + 1], d, wq)
      && ValueOr(r.lengths, d) == ValueOr(t.lengths, d) + Squares(ps[..j + 1], d)
    {
      ScoreNext(ValueOr(t.scores, d), ValueOr(prior.scores, d), ValueOr(r.scores, d),
                ValueOr(t.lengths, d), ValueOr(prior.lengths, d), ValueOr(r.lengths, d), ps, j, wq, d);
    }
  }

  lemma ScoresAppliedNext(t: Tally, prior: Tally, r: Tally, ps: seq<Posting>, j: nat, wq: real)
    requires j < |ps|
    requires ScoresApplied(t, prior, ps[..j], wq)
    requires ScoresApplied(prior, r, [ps[j]], wq)
    ensures ScoresApplied(t, r, ps[..j + 1], wq)
  {
    SumsNext(t, prior, r, ps, j, wq);
    OrderNext(t.order, prior.order, r.order, ps, j);
  }

  lemma OrderNext(seen: seq<string>, prior: seq<string>, r: seq<string>, ps: seq<Posting>, j: nat)
    requires j < |ps|
    requires prior == NewDocs(seen, ps[..j]) && r == NewDocs(prior, [ps[j]])
    ensures r == NewDocs(seen, ps[..j + 1])
  {
    assert [ps[j]][..0] == [];
    NewDocsNext(seen, ps, j);
  }

  /** Adding one posting's products to its document's entries is scoring that posting. */
  lemma PostingScored(t: Tally, r: Tally, p: Posting, wq: real)
    requires r.scores == t.scores[p.docId := ValueOr(t.scores, p.docId) + p.tfIdf * wq]
    requires r.lengths == t.lengths[p.docId := ValueOr(t.lengths, p.docId) + p.tfIdf * p.tfIdf]
    requires r.order == if p.docId in t.order then t.order else t.order + [p.docId]
    ensures ScoresApplied(t, r, [p], wq)
  {
    SinglePosting(t.order, p, wq, "");
    forall d ensures ValueOr(r.scores, d) == ValueOr(t.scores, d) + Dot([p], d, wq) {
      SinglePosting(t.order, p, wq, d);
      if d == p.docId {
        assert ValueOr(r.scores, d) == ValueOr(t.scores, d) + p.tfIdf * wq;
      } else {
        assert ValueOr(r.scores, d) == ValueOr(t.scores, d);
      }
    }
    forall d ensures ValueOr(r.lengths, d) == ValueOr(t.lengths, d) + Squares([p], d) {
      SinglePosting(t.order, p, wq, d);
      if d == p.docId {
        assert ValueOr(r.lengths, d) == ValueOr(t.lengths, d) + p.tfIdf * p.tfIdf;
      } else {
        assert ValueOr(r.lengths, d) == ValueOr(t.lengths, d);
      }
    }
  }

  /**
   * The body of the inner loop for one posting: append its position list;
   * unless the token was processed before (`!first`), create the document's
   * entries at 0 on first sight and add `wt_d * wt_q` and `wt_d ** 2`.
   */
  method AddPosting(t: Tally, p: Posting, wq: real, first: bool) returns (r: Tally)
    requires WellFormed(t)
    ensures WellFormed(r)
    ensures Applied(t, r, [p], wq, first)
  {
    var positions := t.positions[p.docId := ListsOr(t.positions, p.docId) + [p.positions]];
    assert PositionsApplied(t, Tally(t.scores, t.lengths, t.order, positions), [p]) by {
      forall d ensures ListsOr(positions, d) == ListsOr(t.positions, d) + ListsFor([p], d) {
        SinglePosting(t.order, p, wq, d);
      }
    }
    if !first {
      return Tally(t.scores, t.lengths, t.order, positions);
    }
    var scores := t.scores;
    var lengths := t.lengths;
    var order := t.order;
    if p.docId !in scores {
      scores := scores[p.docId := 0.0];
      lengths := lengths[p.docId := 0.0];
      order := order + [p.docId];
    }
    scores := scores[p.docId := scores[p.docId] + p.tfIdf * wq];
    lengths := lengths[p.docId := lengths[p.docId] + p.tfIdf * p.tfIdf];
    r := Tally(scores, lengths, order, positions);
    PostingScored(t, r, p, wq);
  }

  /** The inner loop of `_process_tokens`, over one token's postings. */
  method AddPostings(t: Tally, ps: seq<Posting>, wq: real, first: bool) returns (r: Tally)
    requires WellFormed(t)
    ensures WellFormed(r)
    ensures Applied(t, r, ps, wq, first)
  {
    r := t;
    assert ps[..0] == [];
    for j := 0 to |ps|
      invariant WellFormed(r)
      invariant Applied(t, r, ps[..j], wq, first)
    {
      ghost var prior := r;
      r := AddPosting(r, ps[j], wq, first);
      PositionsAppliedNext(t, prior, r, ps, j);
      if first {
        ScoresAppliedNext(t, prior, r, ps, j, wq);
      }
    }
    assert ps[..|ps|] == ps;
  }

  /** The tally after the query tokens `query`: the accumulated values the reference functions give. */
  ghost predicate Summarizes(t: Tally, index: Index, qv: map<string, real>, query: seq<string>)
  {
    && Covered(index, qv, query)
    && WellFormed(t)
    && t.order == FirstSeen(index, query)
    && (forall d :: ValueOr(t.scores, d) == BaseScore(index, qv, query, d))
    && (forall d :: ValueOr(t.lengths, d) == Length(index, query, d))
    && (forall d :: ListsOr(t.positions, d) == PositionLists(index, query, d))
  }

  /** A token missing from the index leaves the tally as it is. */
  lemma SkipToken(t: Tally, index: Index, qv: map<string, real>, query: seq<string>, token: string)
    requires Summarizes(t, index, qv, query) && token !in index
    ensures Summarizes(t, index, qv, query + [token])
  {
    forall d ensures
      && BaseScore(index, qv, query + [token], d) == BaseScore(index, qv, query, d)
      && Length(index, query + [token], d) == Length(index, query, d)
      && PositionLists(index, query + [token], d) == PositionLists(index, query, d)
    {
      AppendToken(index, qv, query, token, d);
    }
    AppendToken(index, qv, query, token, "");
  }

  /** Applying an indexed token's postings, scoring them only on its first occurrence, extends the tally by it. */
  lemma ScoreToken(t: Tally, r: Tally, index: Index, qv: map<string, real>, query: seq<string>, token: string)
    requires Summarizes(t, index, qv, query) && token in index && token in qv
    requires WellFormed(r) && Applied(t, r, index[token], qv[token], token !in query)
    ensures Summarizes(r, index, qv, query + [token])
  {
    forall d ensures
      && ValueOr(r.scores, d) == BaseScore(index, qv, query + [token], d)
      && ValueOr(r.lengths, d) == Length(index, query + [token], d)
      && ListsOr(r.positions, d) == PositionLists(index, query + [token], d)
    {
      AppendToken(index, qv, query, token, d);
    }
    assert r.order == FirstSeen(index, query + [token]) by {
      AppendToken(index, qv, query, token, "");
    }
  }

  /** The first loop of `_process_tokens`, over the query tokens. */
  method Accumulate(query: seq<string>, qv: map<string, real>, index: Index) returns (r: Result<Tally>)
    ensures r.Err? <==> !Covered(index, qv, query)
    ensures r.Err? ==> r.error == KeyError
    ensures r.Ok? ==> WellFormed(r.value) && r.value.order == FirstSeen(index, query)
    ensures r.Ok? ==> forall d :: d in r.value.positions <==> d in r.value.scores
    ensures r.Ok? ==> Covered(index, qv, query) && forall d ::
      && ValueOr(r.value.scores, d) == BaseScore(index, qv, query, d)
      && ValueOr(r.value.lengths, d) == Length(index, query, d)
      && ListsOr(r.value.positions, d) == PositionLists(index, query, d)
  {
    var t := Tally(map[], map[], [], map[]);
    var processed: set<string> := {};
    for i := 0 to |query|
      invariant forall u :: u in processed <==> u in query[..i] && u in index
      invariant Summarizes(t, index, qv, query[..i])
    {
      var token := query[i];
      assert query[..i + 1] == query[..i] + [token];
      if token !in index {
        SkipToken(t, index, qv, query[..i], token);
        continue;
      }
      if token !in qv {
        assert query[i] in query;
        return Err(KeyError);
      }
      var wq := qv[token];
      var first := token !in processed;
      ghost var prior := t;
      t := AddPostings(t, index[token], wq, first);
      ScoreToken(prior, t, index, qv, query[..i], token);
      processed := processed + {token};
    }
    assert query[..|query|] == query;
    forall d ensures d in t.positions <==> d in t.scores {
      assert d in t.positions <==> ListsOr(t.positions, d) != [];
    }
    return Ok(t);
  }

  /** The bonus loops for one document: 2.0 for each consecutive pair with an adjacent position. */
  method PhraseBonus(lists: seq<seq<int>>) returns (bonus: real)
    ensures bonus == Bonus(lists)
  {
    bonus := 0.0;
    if |lists| > 1 {
      for i := 0 to |lists| - 1
        invariant bonus == Bonus(lists[..i + 1])
      {
        assert lists[..i + 2][..i + 1] == lists[..i + 1];
        assert lists[..i + 2][i] == lists[i] && lists[..i + 2][i + 1] == lists[i + 1];
        var before := bonus;
        for j := 0 to |lists[i]|
          invariant bonus == before
          invariant forall k :: 0 <= k < j ==> lists[i][k] + 1 !in lists[i + 1]
        {
          if lists[i][j] + 1 in lists[i + 1] {
            bonus := bonus + PhraseBonusValue;
            assert Adjacent(lists[i], lists[i + 1]);
            break;
          }
        }
      }
      assert lists[..|lists|] == lists;
    }
  }

  /** The second loop of `_process_tokens`: adds each positioned document's bonus to its score. */
  method AddPhraseBonus(scores: map<string, real>, positions: map<string, seq<seq<int>>>) returns (r: map<string, real>)
    requires forall d :: d in positions ==> d in scores
    ensures forall d :: d in r <==> d in scores
    ensures forall d :: d in r ==> r[d] == scores[d] + Bonus(ListsOr(positions, d))
  {
    var docs := Enumerate(positions.Keys);
    r := scores;
    for k := 0 to |docs|
      invariant forall d :: d in r <==> d in scores
      invariant forall d :: d in r ==> r[d] == scores[d] + (if d in docs[..k] then Bonus(positions[d]) else 0.0)
    {
      var d := docs[k];
      assert d !in docs[..k];
      var bonus := PhraseBonus(positions[d]);
      r := r[d := r[d] + bonus];
      assert docs[..k + 1] == docs[..k] + [d];
    }
    assert docs[..|docs|] == docs;
  }

  /** The third loop of `_process_tokens`: length normalisation. */
  method Normalize(scores: map<string, real>, lengths: map<string, real>, sqrt: real -> real) returns (r: map<string, real>)
    requires PositiveRoot(sqrt)
    requires forall d :: d in scores ==> d in lengths
    ensures forall d :: d in r <==> d in scores
    ensures forall d :: d in r ==> r[d] == Normalized(scores[d], lengths[d], sqrt)
  {
    var docs := Enumerate(scores.Keys);
    r := scores;
    for k := 0 to |docs|
      invariant forall d :: d in r <==> d in scores
      invariant forall d :: d in r ==> r[d] == (if d in docs[..k] then Normalized(scores[d], lengths[d], sqrt) else scores[d])
    {
      var d := docs[k];
      assert d !in docs[..k];
      if lengths[d] > 0.0 {
        r := r[d := r[d] / sqrt(lengths[d])];
      }
      assert docs[..k + 1] == docs[..k] + [d];
    }
    assert docs[..|docs|] == docs;
  }

  /** Two maps with the same keys and the same value at each key are equal. */
  lemma SameEntries(a: map<string, real>, b: map<string, real>)
    requires forall d :: d in a ==> d in b && a[d] == b[d]
    requires forall d :: d in b ==> d in a
    ensures a == b
  {
  }

  /** One document's passes, from its accumulated sums to its final score. */
  lemma FinalScoreAt(index: Index, qv: map<string, real>, query: seq<string>, sqrt: real -> real, d: string,
                     base: real, length: real, lists: seq<seq<int>>, withBonus: real, score: real)
    requires PositiveRoot(sqrt) && Covered(index, qv, query)
    requires base == BaseScore(index, qv, query, d) && length == Length(index, query, d)
    requires lists == PositionLists(index, query, d)
    requires withBonus == base + Bonus(lists) && score == Normalized(withBonus, length, sqrt)
    ensures score == FinalScore(index, qv, query, sqrt, d)
  {
  }

  /** The scores after the bonus and normalisation passes are the final scores of the documents seen. */
  lemma TallyScores(index: Index, qv: map<string, real>, query: seq<string>, sqrt: real -> real,
                    t: Tally, withBonus: map<string, real>, scores: map<string, real>)
    requires PositiveRoot(sqrt) && Covered(index, qv, query)
    requires WellFormed(t) && t.order == FirstSeen(index, query)
    requires forall d ::
      && ValueOr(t.scores, d) == BaseScore(index, qv, query, d)
      && ValueOr(t.lengths, d) == Length(index, query, d)
      && ListsOr(t.positions, d) == PositionLists(index, query, d)
    requires forall d :: d in withBonus <==> d in t.scores
    requires forall d :: d in withBonus ==> withBonus[d] == t.scores[d] + Bonus(ListsOr(t.positions, d))
    requires forall d :: d in scores <==> d in withBonus
    requires forall d :: d in scores ==> scores[d] == Normalized(withBonus[d], t.lengths[d], sqrt)
    ensures scores == map d | d in FirstSeen(index, query) :: FinalScore(index, qv, query, sqrt, d)
  {
    var want := map d | d in FirstSeen(index, query) :: FinalScore(index, qv, query, sqrt, d);
    assert forall d :: d in scores ==> d in want && scores[d] == want[d] by {
      forall d | d in scores ensures d in want && scores[d] == want[d] {
        assert d in t.scores && d in t.order && d in t.lengths;
        FinalScoreAt(index, qv, query, sqrt, d, t.scores[d], t.lengths[d], ListsOr(t.positions, d), withBonus[d], scores[d]);
      }
    }
    assert forall d :: d in want ==> d in scores by {
      forall d | d in want ensures d in scores {
        assert d in t.order;
      }
    }
    SameEntries(scores, want);
  }

  /** `_process_tokens`. */
  method ProcessTokens(query: seq<string>, qv: map<string, real>, index: Index, sqrt: real -> real)
    returns (r: Result<seq<string>>)
    requires PositiveRoot(sqrt)
    ensures r == Ranked(index, qv, query, sqrt)
  {
    var tally := Accumulate(query, qv, index);
    if tally.Err? {
      return Err(tally.error);
    }
    var t := tally.value;
    var withBonus := AddPhraseBonus(t.scores, t.positions);
    var scores := Normalize(withBonus, t.lengths, sqrt);
    TallyScores(index, qv, query, sqrt, t, withBonus, scores);
    var top := TopK.NLargest(50, t.order, scores);
    return Ok(top);
  }

  // ---------------------------------------------------------------------------
  // search_tokens
  // ---------------------------------------------------------------------------

  /** The rows `search_by_doc_id` finds for each ranked id, concatenated in ranked order. */
  function AllListings(raw: RawWebpageProcessor, ids: seq<string>): (r: seq<Listing>)
    reads raw
    ensures |r| <= |ids|
  {
    if ids == [] then []
    else AllListings(raw, ids[..|ids| - 1]) + raw.SearchByDocId(ids[|ids| - 1])
  }

  /** Every collected row belongs to a ranked id that the table holds. */
  lemma {:induction false} AllListingsFromTable(raw: RawWebpageProcessor, ids: seq<string>)
    ensures forall k :: 0 <= k < |AllListings(raw, ids)| ==>
              AllListings(raw, ids)[k].docId in ids && AllListings(raw, ids)[k].docId in raw.rows
    decreases |ids|
  {
    if ids != [] {
      var init := ids[..|ids| - 1];
      AllListingsFromTable(raw, init);
      var prior, found := AllListings(raw, init), raw.SearchByDocId(ids[|ids| - 1]);
      var r := prior + found;
      forall k | 0 <= k < |r| ensures r[k].docId in ids && r[k].docId in raw.rows {
        if k < |prior| {
          assert r[k] == prior[k];
          assert prior[k].docId in init && prior[k].docId in raw.rows;
          var j :| 0 <= j < |init| && init[j] == prior[k].docId;
          assert ids[j] == init[j];
        } else {
          assert r[k] == found[0];
          assert found[0].docId == ids[|ids| - 1];
        }
      }
    }
  }

  const MaxResults := 50

  /** What `search_tokens` returns for ranked ids: the first `min(50, total)` rows. */
  function SearchResults(raw: RawWebpageProcessor, ids: seq<string>): (r: seq<Listing>)
    reads raw
    ensures |r| == Min(MaxResults, |AllListings(raw, ids)|)
    ensures r == AllListings(raw, ids)[..|r|]
  {
    var all := AllListings(raw, ids);
    all[..Min(MaxResults, |all|)]
  }

  lemma {:induction false} AllListingsAppend(raw: RawWebpageProcessor, a: seq<string>, b: seq<string>)
    ensures AllListings(raw, a + b) == AllListings(raw, a) + AllListings(raw, b)
    decreases |b|
  {
    if b == [] {
      assert a + b == a;
    } else {
      assert (a + b)[..|a + b| - 1] == a + b[..|b| - 1];
      AllListingsAppend(raw, a, b[..|b| - 1]);
    }
  }

  /** Cutting a concatenation inside its second part keeps the first part whole. */
  lemma CutInside<T>(a: seq<T>, b: seq<T>, c: seq<T>, n: nat)
    requires |a| <= n < |a| + |b|
    ensures (a + b + c)[..n] == a + b[..n - |a|]
  {
    assert (a + b + c)[..n] == (a + b)[..n];
  }

  /** The rows of id `i` overflow the page: the results end inside them. */
  lemma OverflowAt(raw: RawWebpageProcessor, ids: seq<string>, i: nat)
    requires i < |ids|
    requires |AllListings(raw, ids[..i])| <= MaxResults < |AllListings(raw, ids[..i])| + |raw.SearchByDocId(ids[i])|
    ensures var prior := AllListings(raw, ids[..i]);
            SearchResults(raw, ids) == prior + raw.SearchByDocId(ids[i])[..MaxResults - |prior|]
  {
    var prior, found := AllListings(raw, ids[..i]), raw.SearchByDocId(ids[i]);
    var after := AllListings(raw, ids[i + 1..]);
    AllListingsAround(raw, ids, i);
    CutInside(prior, found, after, MaxResults);
  }

  /** The rows of all ids are those before id `i`, then its own, then those after. */
  lemma AllListingsAround(raw: RawWebpageProcessor, ids: seq<string>, i: nat)
    requires i < |ids|
    ensures AllListings(raw, ids) ==
            AllListings(raw, ids[..i]) + raw.SearchByDocId(ids[i]) + AllListings(raw, ids[i + 1..])
  {
    assert ids[..i + 1][..i] == ids[..i];
    assert ids == ids[..i + 1] + ids[i + 1..];
    AllListingsAppend(raw, ids[..i + 1], ids[i + 1..]);
  }

  /** The result loop of `search_tokens`: extend, and on passing 50 rows take what fits and stop. */
  method CollectResults(raw: RawWebpageProcessor, ids: seq<string>) returns (result: seq<Listing>)
    ensures result == SearchResults(raw, ids)
  {
    result := [];
    for i := 0 to |ids|
      invariant result == AllListings(raw, ids[..i])
      invariant |result| <= MaxResults
    {
      var docResult := raw.SearchByDocId(ids[i]);
      if |result| + |docResult| > MaxResults {
        OverflowAt(raw, ids, i);
        result := result + docResult[..MaxResults - |result|];
        break;
      }
      assert ids[..i + 1][..i] == ids[..i];
      result := result + docResult;
    }
    assert ids[..|ids|] == ids;
  }

  /** Parameters of the ranked search that the index build fixes. */
  function RankTokens(tokens: seq<string>, index: Index, raw: RawWebpageProcessor, tokenProcessor: TokenProcessor,
                      log: real -> real, round8: real -> real, sqrt: real -> real): Result<seq<string>>
    requires PositiveRoot(sqrt)
    reads raw, tokenProcessor
  {
    match QueryVector(tokens, |tokens|, raw, tokenProcessor, log, round8)
    case Err(e) => Err(e)
    case Ok(qv) => Ranked(index, qv, tokens, sqrt)
  }

  /** The multi-token branch of `search_tokens`: `_get_query_vector`, then `_process_tokens`. */
  method RankQuery(tokens: seq<string>, index: Index, raw: RawWebpageProcessor, tokenProcessor: TokenProcessor,
                   log: real -> real, round8: real -> real, sqrt: real -> real)
    returns (r: Result<seq<string>>)
    requires PositiveRoot(sqrt)
    ensures r == RankTokens(tokens, index, raw, tokenProcessor, log, round8, sqrt)
  {
    var vector := GetQueryVector(tokens, raw, tokenProcessor, log, round8);
    if vector.Err? {
      return Err(vector.error);
    }
    r := ProcessTokens(tokens, vector.value, index, sqrt);
  }

  /**
   * `search_tokens`. No token gives no result; one token looks up the sorted
   * ids of `query[0]`, the first CHARACTER of the raw query (IndexError on an
   * empty query); more tokens go through the query vector and the scoring pass.
   */
  method SearchTokens(query: string, preprocess: string -> seq<string>, index: Index, raw: RawWebpageProcessor,
                      tokenProcessor: TokenProcessor, sortedIds: string -> seq<string>,
                      log: real -> real, round8: real -> real, sqrt: real -> real)
    returns (r: Result<seq<Listing>>)
    requires PositiveRoot(sqrt)
    ensures |preprocess(query)| == 0 ==> r == Ok([])
    ensures |preprocess(query)| == 1 ==>
      r == (if query == [] then Err(IndexError) else Ok(SearchResults(raw, sortedIds(query[..1]))))
    ensures |preprocess(query)| > 1 ==>
      r == match RankTokens(preprocess(query), index, raw, tokenProcessor, log, round8, sqrt)
           case Err(e) => Err(e)
           case Ok(ids) => Ok(SearchResults(raw, ids))
  {
    var tokens := preprocess(query);
    var sortedDocIds: seq<string>;
    if |tokens| > 1 {
      var ranked := RankQuery(tokens, index, raw, tokenProcessor, log, round8, sqrt);
      if ranked.Err? {
        return Err(ranked.error);
      }
      sortedDocIds := ranked.value;
    } else if |tokens| == 1 {
      if query == [] {
        return Err(IndexError);
      }
      sortedDocIds := sortedIds([query[0]]);
      assert [query[0]] == query[..1];
    } else {
      sortedDocIds := [];
    }
    var result := CollectResults(raw, sortedDocIds);
    return Ok(result);
  }
}

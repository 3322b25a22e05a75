/**
 * The static helpers of the `Method` class: freshness and count checks of the
 * build log, the doc id split, the tf-idf formula, the structural token
 * weighting and the 20-word description.
 *
 * HTML parsing and the nltk pipeline (sentence splitting, tokenising,
 * stop-word removal, lemmatising) are not modelled: the weighting and the
 * description work on what they would have produced.
 */
module Method {
  import opened Common
  import opened Strings

  // ---------------------------------------------------------------------------
  // Build-log checks
  // ---------------------------------------------------------------------------

  function Abs(x: int): nat { if x < 0 then -x else x }

  /**
   * `check_time_difference`: parses the logged date and tells whether it lies
   * within `updateTime` days of today, in either direction. Dates are day
   * numbers; `parseDate` stands for `strptime(..., "%Y-%m-%d")` (None: the
   * text is not such a date, and ValueError is raised) and `today` for the clock.
   */
  function CheckTimeDifference(prevTime: string, updateTime: int, today: int,
                               parseDate: string -> Option<int>): (r: Result<bool>)
    ensures r.Err? <==> parseDate(prevTime).None?
    ensures r.Err? ==> r.error == ValueError
    ensures r.Ok? ==> (r.value <==> -updateTime <= today - parseDate(prevTime).value <= updateTime)
  {
    match parseDate(prevTime)
    case None => Err(ValueError)
    case Some(prev) => Ok(Abs(today - prev) <= updateTime)
  }

  /** A date `k` days in the past and one `k` days in the future get the same verdict. */
  lemma TimeDifferenceSymmetric(today: int, k: nat, updateTime: int, a: string, b: string,
                                parseDate: string -> Option<int>)
    requires parseDate(a) == Some(today - k) && parseDate(b) == Some(today + k)
    ensures CheckTimeDifference(a, updateTime, today, parseDate)
         == CheckTimeDifference(b, updateTime, today, parseDate)
  {
  }

  /**
   * `check_num_difference(count, logged)`: compares the integer values, so
   * a logged count with leading zeros still matches; a non-numeric text raises.
   */
  function CheckNumDifference(count: int, logged: string): (r: Result<bool>)
    ensures r.Err? <==> ParseInt(logged).Err?
    ensures r.Ok? ==> (r.value <==> ParseInt(logged).value == count)
  {
    match ParseInt(logged)
    case Err(e) => Err(e)
    case Ok(v) => Ok(count == v)
  }

  /** A count written with `str` is read back as equal. */
  lemma {:induction false} CheckNumDifferenceOfWritten(n: nat)
    ensures CheckNumDifference(n, NatToString(n)) == Ok(true)
  {
    ParseNatToString(n);
  }

  /** Leading zeros are ignored: "007" matches 7. */
  lemma CheckNumDifferenceLeadingZeros(n: nat, zeros: string)
    requires forall k :: 0 <= k < |zeros| ==> zeros[k] == '0'
    ensures CheckNumDifference(n, zeros + NatToString(n)) == Ok(true)
  {
    var s := NatToString(n);
    var t := zeros + s;
    assert DigitsValue(t) == n by {
      DigitsOfNatToString(n);
      assert forall k :: 0 <= k < |s| ==> DecimalOrUnderscore(s[k]);
      LeadingZerosIgnored(zeros, s);
    }
    assert AllDigits(t);
    ParseDigits(t);
  }

  /** Whitespace around the logged count, such as a line break, is ignored. */
  lemma CheckNumDifferenceSurrounded(n: nat, a: string, b: string)
    requires forall k :: 0 <= k < |a| ==> IsIntSpace(a[k])
    requires forall k :: 0 <= k < |b| ==> IsIntSpace(b[k])
    ensures CheckNumDifference(n, a + NatToString(n) + b) == Ok(true)
  {
    ParseNatToString(n);
    ParseIntSurrounded(a, NatToString(n), b);
  }

  // ---------------------------------------------------------------------------
  // Doc ids
  // ---------------------------------------------------------------------------

  /**
   * `get_folder_num_and_file_num`: `folder, file = doc_id.split("/")`, which
   * raises ValueError unless the split gives exactly two parts.
   */
  function GetFolderNumAndFileNum(docId: string): (r: Result<(string, string)>)
    ensures r.Ok? <==> Count(docId, '/') == 1
    ensures r.Err? ==> r.error == ValueError
    ensures r.Ok? ==> r.value.0 + "/" + r.value.1 == docId
    ensures r.Ok? ==> '/' !in r.value.0 && '/' !in r.value.1
  {
    var parts := Split(docId, '/');
    SplitLength(docId, '/');
    JoinSplit(docId, '/');
    if |parts| == 2 then
      assert parts[1..] == [parts[1]];
      Ok((parts[0], parts[1]))
    else Err(ValueError)
  }

  // ---------------------------------------------------------------------------
  // tf-idf
  // ---------------------------------------------------------------------------

  /**
   * `calculate_tf_idf`: `round((f_td / d) * (log((n + 1) / (n_t + 1)) + 1), 8)`.
   * `log` and `round8` stand for the floating-point library functions. Python
   * raises ZeroDivisionError for `d == 0` or `n_t == -1`, and `math.log` raises
   * ValueError when its argument is not positive.
   */
  function CalculateTfIdf(fTd: int, d: int, n: int, nT: int,
                          log: real -> real, round8: real -> real): (r: Result<real>)
    ensures r == Err(ZeroDivisionError) <==> d == 0 || nT + 1 == 0
    ensures r == Err(ValueError) <==> d != 0 && nT + 1 != 0 && (n + 1) as real / (nT + 1) as real <= 0.0
    ensures r.Ok? <==> d != 0 && nT + 1 != 0 && (n + 1) as real / (nT + 1) as real > 0.0
  {
    if d == 0 || nT + 1 == 0 then Err(ZeroDivisionError)
    else
      var tf := fTd as real / d as real;
      var ratio := (n + 1) as real / (nT + 1) as real;
      if ratio <= 0.0 then Err(ValueError)
      else Ok(round8(tf * (log(ratio) + 1.0)))
  }

  // ---------------------------------------------------------------------------
  // Structural token weights
  // ---------------------------------------------------------------------------

  datatype BlockTag = H1 | H2 | H3 | H4 | H5 | H6 | P {
    predicate IsHeading() { this != P }
  }

  /**
   * One element found by the `//h1|...|//h6|//p` search, with each of its
   * sentences already reduced to the tokens that survive preprocessing.
   */
  datatype Block = Block(tag: BlockTag, sentences: seq<seq<string>>)

  /**
   * What the weighting reads from a parsed page: the tokens of the first
   * `<title>` (empty when it has no text), the blocks in document order, and
   * the tokens of each `b`, `strong`, `i` and `em` element.
   */
  datatype PageTokens = PageTokens(title: seq<string>, blocks: seq<Block>, emphasis: seq<seq<string>>)

  const TitleWeight := 10
  const SentenceWeight := 5
  const EmphasisWeight := 1

  /** The first sentence that has at least one token, or none. */
  function FirstNonEmpty(sentences: seq<seq<string>>): seq<string>
  {
    if sentences == [] then []
    else if sentences[0] != [] then sentences[0]
    else FirstNonEmpty(sentences[1..])
  }

  /**
   * The tokens of a block that earn the sentence weight, in the order the
   * loop over its sentences meets them: every token of a heading, and the
   * tokens of the first non-empty sentence of a paragraph.
   */
  function ScoredTokens(tag: BlockTag, sentences: seq<seq<string>>): seq<string>
  {
    if sentences == [] then []
    else
      var init, last := sentences[..|sentences| - 1], sentences[|sentences| - 1];
      ScoredTokens(tag, init)
        + (if last != [] && (tag.IsHeading() || FirstNonEmpty(init) == []) then last else [])
  }

  lemma {:induction false} FirstNonEmptySnoc(ss: seq<seq<string>>, x: seq<string>)
    ensures FirstNonEmpty(ss + [x]) == if FirstNonEmpty(ss) == [] then x else FirstNonEmpty(ss)
  {
    if ss != [] {
      assert (ss + [x])[1..] == ss[1..] + [x];
      FirstNonEmptySnoc(ss[1..], x);
    }
  }

  /** A paragraph scores exactly its first non-empty sentence; a sentence left empty by preprocessing does not use up that slot. */
  lemma {:induction false} ParagraphScoresFirstSentence(sentences: seq<seq<string>>)
    ensures ScoredTokens(P, sentences) == FirstNonEmpty(sentences)
    decreases |sentences|
  {
    if sentences != [] {
      var init, last := sentences[..|sentences| - 1], sentences[|sentences| - 1];
      ParagraphScoresFirstSentence(init);
      FirstNonEmptySnoc(init, last);
      assert init + [last] == sentences;
    }
  }

  /** A heading scores every token of every sentence. */
  lemma {:induction false} HeadingScoresAllSentences(tag: BlockTag, sentences: seq<seq<string>>)
    requires tag.IsHeading()
    ensures ScoredTokens(tag, sentences) == Flatten(sentences)
    decreases |sentences|
  {
    if sentences != [] {
      HeadingScoresAllSentences(tag, sentences[..|sentences| - 1]);
    }
  }

  /** The tokens of all blocks that earn the sentence weight. */
  function BlockTokens(blocks: seq<Block>): seq<string>
  {
    if blocks == [] then []
    else
      var b := blocks[|blocks| - 1];
      BlockTokens(blocks[..|blocks| - 1]) + ScoredTokens(b.tag, b.sentences)
  }

  /** Every `(token, weight)` that `add_weight` receives, in call order. */
  function Contributions(page: PageTokens): seq<(string, int)>
  {
    Tag(page.title, TitleWeight)
      + Tag(BlockTokens(page.blocks), SentenceWeight)
      + Tag(Flatten(page.emphasis), EmphasisWeight)
  }

  function Tag(tokens: seq<string>, w: int): (r: seq<(string, int)>)
    ensures |r| == |tokens|
    ensures forall i :: 0 <= i < |tokens| ==> r[i] == (tokens[i], w)
  {
    seq(|tokens|, i requires 0 <= i < |tokens| => (tokens[i], w))
  }

  /** Sum of the weights given to `t`. */
  function WeightOf(cs: seq<(string, int)>, t: string): int
  {
    if cs == [] then 0
    else WeightOf(cs[..|cs| - 1], t) + (if cs[|cs| - 1].0 == t then cs[|cs| - 1].1 else 0)
  }

  ghost predicate Mentions(cs: seq<(string, int)>, t: string)
  {
    exists i :: 0 <= i < |cs| && cs[i].0 == t
  }

  /** `m` holds exactly the tokens of `cs`, each with its summed weight. */
  ghost predicate Tallies(m: map<string, int>, cs: seq<(string, int)>)
  {
    (forall t :: t in m <==> Mentions(cs, t))
    && (forall t :: t in m ==> m[t] == WeightOf(cs, t))
  }

  /** The nested `add_weight`. */
  function AddWeight(m: map<string, int>, token: string, weight: int): map<string, int>
  {
    if token in m then m[token := m[token] + weight] else m[token := weight]
  }

  lemma AddWeightTallies(m: map<string, int>, cs: seq<(string, int)>, token: string, weight: int)
    requires Tallies(m, cs)
    ensures Tallies(AddWeight(m, token, weight), cs + [(token, weight)])
  {
    var cs' := cs + [(token, weight)];
    assert cs'[..|cs'| - 1] == cs;
    forall t ensures Mentions(cs', t) <==> Mentions(cs, t) || t == token {
      if Mentions(cs', t) && t != token {
        var i :| 0 <= i < |cs'| && cs'[i].0 == t;
        assert cs[i].0 == t;
      }
      if Mentions(cs, t) {
        var i :| 0 <= i < |cs| && cs[i].0 == t;
        assert cs'[i].0 == t;
      }
      if t == token {
        assert cs'[|cs|].0 == t;
      }
    }
    forall t | !Mentions(cs, t) ensures WeightOf(cs, t) == 0 {
      WeightOfUnmentioned(cs, t);
    }
  }

  lemma {:induction false} WeightOfUnmentioned(cs: seq<(string, int)>, t: string)
    requires !Mentions(cs, t)
    ensures WeightOf(cs, t) == 0
  {
    if cs != [] {
      var init := cs[..|cs| - 1];
      assert !Mentions(init, t) by {
        forall i | 0 <= i < |init| ensures init[i].0 != t {
          assert init[i] == cs[i];
        }
      }
      WeightOfUnmentioned(init, t);
    }
  }

  lemma TagSnoc(tokens: seq<string>, k: nat, w: int)
    requires k < |tokens|
    ensures Tag(tokens[..k + 1], w) == Tag(tokens[..k], w) + [(tokens[k], w)]
  {
  }

  /** Adds `weight` for every token of `tokens`, as the inner `for token in ...` loops do. */
  method AddAll(m: map<string, int>, ghost cs: seq<(string, int)>, tokens: seq<string>, weight: int)
    returns (m': map<string, int>)
    requires Tallies(m, cs)
    ensures Tallies(m', cs + Tag(tokens, weight))
  {
    m' := m;
    assert cs + Tag(tokens[..0], weight) == cs;
    for k := 0 to |tokens|
      invariant Tallies(m', cs + Tag(tokens[..k], weight))
    {
      TagSnoc(tokens, k, weight);
      assert cs + Tag(tokens[..k + 1], weight) == (cs + Tag(tokens[..k], weight)) + [(tokens[k], weight)];
      AddWeightTallies(m', cs + Tag(tokens[..k], weight), tokens[k], weight);
      m' := AddWeight(m', tokens[k], weight);
    }
    assert tokens[..|tokens|] == tokens;
  }

  /**
   * The loop over the sentences of one heading or paragraph: every non-empty
   * sentence of a heading adds 5 per token; in a paragraph only the first
   * sentence that has tokens does.
   */
  method WeighBlock(m: map<string, int>, ghost cs: seq<(string, int)>, block: Block)
    returns (m': map<string, int>)
    requires Tallies(m, cs)
    ensures Tallies(m', cs + Tag(ScoredTokens(block.tag, block.sentences), SentenceWeight))
  {
    m' := m;
    var firstSentence := true;
    assert cs + Tag(ScoredTokens(block.tag, block.sentences[..0]), SentenceWeight) == cs;
    for s := 0 to |block.sentences|
      invariant firstSentence <==> FirstNonEmpty(block.sentences[..s]) == []
      invariant Tallies(m', cs + Tag(ScoredTokens(block.tag, block.sentences[..s]), SentenceWeight))
    {
      var tokens := block.sentences[s];
      ScoredStep(block.tag, block.sentences, s);
      ghost var prefix := ScoredTokens(block.tag, block.sentences[..s]);
      if tokens != [] {
        if firstSentence || block.tag.IsHeading() {
          // The source picks 5 for a paragraph's first sentence and 5 otherwise.
          var weight := if block.tag == P && firstSentence then SentenceWeight else SentenceWeight;
          TagAfter(cs, prefix, tokens, weight);
          m' := AddAll(m', cs + Tag(prefix, weight), tokens, weight);
          assert ScoredTokens(block.tag, block.sentences[..s + 1]) == prefix + tokens;
        } else {
          assert prefix + [] == prefix;
          assert ScoredTokens(block.tag, block.sentences[..s + 1]) == prefix;
        }
        firstSentence := false;
      } else {
        assert prefix + [] == prefix;
        assert ScoredTokens(block.tag, block.sentences[..s + 1]) == prefix;
      }
    }
    assert block.sentences[..|block.sentences|] == block.sentences;
  }

  /** One more sentence: how the scored tokens and the first non-empty sentence grow. */
  lemma ScoredStep(tag: BlockTag, ss: seq<seq<string>>, s: nat)
    requires s < |ss|
    ensures FirstNonEmpty(ss[..s + 1]) == if FirstNonEmpty(ss[..s]) == [] then ss[s] else FirstNonEmpty(ss[..s])
    ensures ScoredTokens(tag, ss[..s + 1])
         == ScoredTokens(tag, ss[..s])
          + (if ss[s] != [] && (tag.IsHeading() || FirstNonEmpty(ss[..s]) == []) then ss[s] else [])
  {
    assert ss[..s + 1][..s] == ss[..s];
    assert ss[..s + 1] == ss[..s] + [ss[s]];
    FirstNonEmptySnoc(ss[..s], ss[s]);
  }

  lemma TagAfter(cs: seq<(string, int)>, prefix: seq<string>, tokens: seq<string>, w: int)
    ensures cs + Tag(prefix + tokens, w) == (cs + Tag(prefix, w)) + Tag(tokens, w)
  {
    assert Tag(prefix + tokens, w) == Tag(prefix, w) + Tag(tokens, w);
  }

  /**
   * `calculate_token_weight`, after parsing: title tokens weigh 10 each,
   * heading sentences 5 per token, the first non-empty sentence of a
   * paragraph 5 per token, emphasised text 1 per token, summed per token.
   * A page that fails to parse (None) gives the empty map.
   */
  method CalculateTokenWeight(page: Option<PageTokens>) returns (weights: map<string, int>)
    ensures page.None? ==> weights == map[]
    ensures page.Some? ==> Tallies(weights, Contributions(page.value))
  {
    weights := map[];
    if page.None? {
      return;
    }
    var pg := page.value;
    ghost var cs: seq<(string, int)> := [];
    weights := AddAll(weights, cs, pg.title, TitleWeight);
    assert cs + Tag(pg.title, TitleWeight) == Tag(pg.title, TitleWeight);
    cs := Tag(pg.title, TitleWeight);

    assert cs + Tag(BlockTokens(pg.blocks[..0]), SentenceWeight) == cs;
    for b := 0 to |pg.blocks|
      invariant Tallies(weights, cs + Tag(BlockTokens(pg.blocks[..b]), SentenceWeight))
    {
      var block := pg.blocks[b];
      ghost var before := BlockTokens(pg.blocks[..b]);
      BlockTokensSnoc(pg.blocks, b);
      TagAfter(cs, before, ScoredTokens(block.tag, block.sentences), SentenceWeight);
      weights := WeighBlock(weights, cs + Tag(before, SentenceWeight), block);
    }
    assert pg.blocks[..|pg.blocks|] == pg.blocks;
    cs := cs + Tag(BlockTokens(pg.blocks), SentenceWeight);

    assert cs + Tag(Flatten(pg.emphasis[..0]), EmphasisWeight) == cs;
    for e := 0 to |pg.emphasis|
      invariant Tallies(weights, cs + Tag(Flatten(pg.emphasis[..e]), EmphasisWeight))
    {
      ghost var before := Flatten(pg.emphasis[..e]);
      FlattenSnoc(pg.emphasis, e);
      TagAfter(cs, before, pg.emphasis[e], EmphasisWeight);
      weights := AddAll(weights, cs + Tag(before, EmphasisWeight), pg.emphasis[e], EmphasisWeight);
    }
    assert pg.emphasis[..|pg.emphasis|] == pg.emphasis;
    assert cs + Tag(Flatten(pg.emphasis), EmphasisWeight) == Contributions(pg);
  }

  lemma BlockTokensSnoc(blocks: seq<Block>, b: nat)
    requires b < |blocks|
    ensures BlockTokens(blocks[..b + 1]) == BlockTokens(blocks[..b]) + ScoredTokens(blocks[b].tag, blocks[b].sentences)
  {
    assert blocks[..b + 1][..b] == blocks[..b];
  }

  lemma FlattenSnoc(xs: seq<seq<string>>, e: nat)
    requires e < |xs|
    ensures Flatten(xs[..e + 1]) == Flatten(xs[..e]) + xs[e]
  {
    assert xs[..e + 1][..e] == xs[..e];
  }

  lemma {:induction false} WeightOfAppend(a: seq<(string, int)>, b: seq<(string, int)>, t: string)
    ensures WeightOf(a + b, t) == WeightOf(a, t) + WeightOf(b, t)
    decreases |b|
  {
    if b == [] {
      assert a + b == a;
    } else {
      assert (a + b)[..|a + b| - 1] == a + b[..|b| - 1];
      WeightOfAppend(a, b[..|b| - 1], t);
    }
  }

  lemma {:induction false} WeightOfTag(tokens: seq<string>, w: int, t: string)
    ensures WeightOf(Tag(tokens, w), t) == w * Count(tokens, t)
    decreases |tokens|
  {
    if tokens != [] {
      var init, last := tokens[..|tokens| - 1], tokens[|tokens| - 1];
      var tagged := Tag(tokens, w);
      assert tagged[..|tokens| - 1] == Tag(init, w) && tagged[|tokens| - 1] == (last, w);
      WeightOfTag(init, w, t);
      var c := Count(init, t);
      assert Count(tokens, t) == c + (if last == t then 1 else 0);
      MulSucc(w, c);
    }
  }

  lemma MulSucc(w: int, c: int)
    ensures w * (c + 1) == w * c + w
  {
  }

  /** Every token of the headings, in order. */
  function HeadingTokens(blocks: seq<Block>): seq<string>
  {
    if blocks == [] then []
    else
      var b := blocks[|blocks| - 1];
      HeadingTokens(blocks[..|blocks| - 1]) + (if b.tag.IsHeading() then Flatten(b.sentences) else [])
  }

  /** The first non-empty sentence of every paragraph, in order. */
  function LeadTokens(blocks: seq<Block>): seq<string>
  {
    if blocks == [] then []
    else
      var b := blocks[|blocks| - 1];
      LeadTokens(blocks[..|blocks| - 1]) + (if b.tag.IsHeading() then [] else FirstNonEmpty(b.sentences))
  }

  lemma {:induction false} BlockTokensCount(blocks: seq<Block>, t: string)
    ensures Count(BlockTokens(blocks), t) == Count(HeadingTokens(blocks), t) + Count(LeadTokens(blocks), t)
    decreases |blocks|
  {
    if blocks != [] {
      var init, b := blocks[..|blocks| - 1], blocks[|blocks| - 1];
      BlockTokensCount(init, t);
      var scored := ScoredTokens(b.tag, b.sentences);
      assert BlockTokens(blocks) == BlockTokens(init) + scored;
      CountAppend(BlockTokens(init), scored, t);
      if b.tag.IsHeading() {
        HeadingScoresAllSentences(b.tag, b.sentences);
        assert HeadingTokens(blocks) == HeadingTokens(init) + scored;
        assert LeadTokens(blocks) == LeadTokens(init) + [];
        CountAppend(HeadingTokens(init), scored, t);
        assert LeadTokens(init) + [] == LeadTokens(init);
      } else {
        ParagraphScoresFirstSentence(b.sentences);
        assert LeadTokens(blocks) == LeadTokens(init) + scored;
        assert HeadingTokens(blocks) == HeadingTokens(init) + [];
        CountAppend(LeadTokens(init), scored, t);
        assert HeadingTokens(init) + [] == HeadingTokens(init);
      }
    }
  }

  /**
   * The weight of a token is 10 per title occurrence, 5 per occurrence in
   * any heading sentence, 5 per occurrence in the first non-empty sentence of
   * a paragraph, and 1 per occurrence in emphasised text.
   */
  lemma WeightBreakdown(page: PageTokens, weights: map<string, int>, t: string)
    requires Tallies(weights, Contributions(page))
    ensures t in weights ==> (
              weights[t] == TitleWeight * Count(page.title, t)
                          + SentenceWeight * Count(HeadingTokens(page.blocks), t)
                          + SentenceWeight * Count(LeadTokens(page.blocks), t)
                          + EmphasisWeight * Count(Flatten(page.emphasis), t))
  {
    var a, b, c := Tag(page.title, TitleWeight), Tag(BlockTokens(page.blocks), SentenceWeight),
                   Tag(Flatten(page.emphasis), EmphasisWeight);
    WeightOfAppend(a + b, c, t);
    WeightOfAppend(a, b, t);
    WeightOfTag(page.title, TitleWeight, t);
    WeightOfTag(BlockTokens(page.blocks), SentenceWeight, t);
    WeightOfTag(Flatten(page.emphasis), EmphasisWeight, t);
    BlockTokensCount(page.blocks, t);
  }

  // ---------------------------------------------------------------------------
  // General page information
  // ---------------------------------------------------------------------------

  const DescriptionWords := 20

  /** `' '.join(full_text.split()[:20])`. */
  function Description(fullText: string): string
  {
    var words := Words(fullText);
    Join(words[..if |words| < DescriptionWords then |words| else DescriptionWords], ' ')
  }

  /** The description is the first (at most) 20 words of the body text, each intact. */
  lemma DescriptionIsFirstWords(fullText: string)
    ensures var words := Words(fullText);
      Words(Description(fullText)) == words[..if |words| < DescriptionWords then |words| else DescriptionWords]
  {
    var words := Words(fullText);
    var first := words[..if |words| < DescriptionWords then |words| else DescriptionWords];
    RunsShape(fullText, NotSpace);
    RunsOfJoin(first, ' ', NotSpace);
  }

  /**
   * What `get_html_general_info` reads from a parsed page: the text of the
   * first `<title>` (None without one), the body text nodes joined with
   * spaces, and the number of tokens preprocessing leaves in the whole text.
   */
  datatype PageText = PageText(title: Option<string>, bodyText: string, tokenCount: nat)

  datatype GeneralInfo = GeneralInfo(title: Option<string>, description: Option<string>, totalWords: Option<int>)

  /** `get_html_general_info`; a page that fails to parse gives `(None, None, None)`. */
  function GetHtmlGeneralInfo(page: Option<PageText>): (r: GeneralInfo)
    ensures page.None? ==> r == GeneralInfo(None, None, None)
    ensures page.Some? ==> r.title == page.value.title && r.totalWords == Some(page.value.tokenCount)
    ensures page.Some? ==> r.description == Some(Description(page.value.bodyText))
    ensures page.Some? ==> var words := Words(page.value.bodyText);
      && r.description.Some?
      && |Words(r.description.value)| <= DescriptionWords
      && Words(r.description.value) == words[..if |words| < DescriptionWords then |words| else DescriptionWords]
  {
    match page
    case None => GeneralInfo(None, None, None)
    case Some(p) =>
      DescriptionIsFirstWords(p.bodyText);
      GeneralInfo(p.title, Some(Description(p.bodyText)), Some(p.tokenCount))
  }
}

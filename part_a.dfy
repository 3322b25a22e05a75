/**
 * The word-frequency utility: splits a text into lower-cased words made of
 * English letters and digits, counts each word, and lists the counts from
 * the most frequent word down.
 */
module PartA {
  import opened Common
  import opened Strings

  /** a-z, A-Z and 0-9, and nothing else. */
  predicate IsAlnum(c: char)
  {
    ('a' <= c <= 'z') || ('A' <= c <= 'Z') || ('0' <= c <= '9')
  }

  /** `is_english_alphanumeric`: anything other than a one-character string is answered False. */
  function IsEnglishAlphanumeric(c: PyArg<string>): (r: bool)
    ensures r ==> c.Arg? && |c.value| == 1
    ensures c.Arg? && |c.value| == 1 ==> (r <==> IsAlnum(c.value[0]))
  {
    match c
    case WrongType => false
    case Arg(s) => |s| == 1 && IsAlnum(s[0])
  }

  /** `.lower()` of every word. */
  function LowerAll(ws: seq<string>): (r: seq<string>)
    ensures |r| == |ws|
    ensures forall i :: 0 <= i < |ws| ==> r[i] == Lower(ws[i])
  {
    seq(|ws|, i requires 0 <= i < |ws| => Lower(ws[i]))
  }

  /** The words `tokenize` finds in a text: the maximal runs of alphanumerics, lower-cased, in order. */
  function Words(s: string): seq<string>
  {
    LowerAll(Runs(s, IsAlnum))
  }

  /** Every word is non-empty and made of a-z and 0-9 only; a text without alphanumerics has none. */
  lemma WordsAreLowerAlnum(s: string)
    ensures forall i :: 0 <= i < |Words(s)| ==> Words(s)[i] != []
    ensures forall i, k :: 0 <= i < |Words(s)| && 0 <= k < |Words(s)[i]| ==>
      ('a' <= Words(s)[i][k] <= 'z') || ('0' <= Words(s)[i][k] <= '9')
    ensures (forall k :: 0 <= k < |s| ==> !IsAlnum(s[k])) ==> Words(s) == []
  {
    var rs := Runs(s, IsAlnum);
    RunsShape(s, IsAlnum);
    forall i, k | 0 <= i < |rs| && 0 <= k < |rs[i]|
      ensures ('a' <= Lower(rs[i])[k] <= 'z') || ('0' <= Lower(rs[i])[k] <= '9')
    {
      assert IsAlnum(rs[i][k]);
    }
  }

  /**
   * After scanning `s[..i]`, `words` holds the finished words and `current`
   * the run still being read, which is the last run exactly when the last
   * character read is alphanumeric.
   */
  ghost predicate Scanned(s: string, i: nat, current: string, words: seq<string>)
  {
    i <= |s|
    && (current != [] <==> i > 0 && IsAlnum(s[i - 1]))
    && var rs := Runs(s[..i], IsAlnum);
    if current == [] then words == LowerAll(rs)
    else rs != [] && current == rs[|rs| - 1] && words == LowerAll(rs[..|rs| - 1])
  }

  lemma ScanAlnum(s: string, i: nat, current: string, words: seq<string>)
    requires Scanned(s, i, current, words) && i < |s| && IsAlnum(s[i])
    ensures Scanned(s, i + 1, current + [s[i]], words)
  {
    assert s[..i + 1][..i] == s[..i];
    var rs := Runs(s[..i + 1], IsAlnum);
    var prior := Runs(s[..i], IsAlnum);
    if current != [] {
      assert rs == prior[..|prior| - 1] + [prior[|prior| - 1] + [s[i]]];
      assert rs[..|rs| - 1] == prior[..|prior| - 1];
    } else {
      assert rs == prior + [[s[i]]];
      assert rs[..|rs| - 1] == prior;
    }
  }

  lemma ScanSeparator(s: string, i: nat, current: string, words: seq<string>)
    requires Scanned(s, i, current, words) && i < |s| && !IsAlnum(s[i])
    ensures Scanned(s, i + 1, [], if current == [] then words else words + [Lower(current)])
  {
    assert s[..i + 1][..i] == s[..i];
    var rs := Runs(s[..i], IsAlnum);
    assert Runs(s[..i + 1], IsAlnum) == rs;
    if current != [] {
      assert rs == rs[..|rs| - 1] + [current];
      assert LowerAll(rs) == LowerAll(rs[..|rs| - 1]) + [Lower(current)];
    }
  }

  lemma ScanEnd(s: string, current: string, words: seq<string>)
    requires Scanned(s, |s|, current, words)
    ensures Words(s) == if current == [] then words else words + [Lower(current)]
  {
    assert s[..|s|] == s;
    var rs := Runs(s, IsAlnum);
    if current != [] {
      assert rs == rs[..|rs| - 1] + [current];
      assert LowerAll(rs) == LowerAll(rs[..|rs| - 1]) + [Lower(current)];
    }
  }

  /** `tokenize`: the character loop with its `current_word` accumulator; a non-string yields []. */
  method Tokenize(content: PyArg<string>) returns (words: seq<string>)
    ensures content.WrongType? ==> words == []
    ensures content.Arg? ==> words == Words(content.value)
  {
    words := [];
    if content.WrongType? {
      return;
    }
    var s := content.value;
    var current := "";
    assert s[..0] == [];
    for i := 0 to |s|
      invariant Scanned(s, i, current, words)
    {
      var c := s[i];
      if IsEnglishAlphanumeric(Arg([c])) {
        ScanAlnum(s, i, current, words);
        current := current + [c];
      } else {
        ScanSeparator(s, i, current, words);
        if current != [] {
          words := words + [Lower(current)];
          current := "";
        }
      }
    }
    ScanEnd(s, current, words);
    if current != [] {
      words := words + [Lower(current)];
    }
  }

  // ---------------------------------------------------------------------------
  // Counting: collections.Counter keeps the words in first-occurrence order
  // ---------------------------------------------------------------------------

  /** The position of `w` among the counted words, if it is there. */
  function IndexOf(items: seq<(string, nat)>, w: string): (r: Option<nat>)
    ensures r.Some? ==> r.value < |items| && items[r.value].0 == w
    ensures r.None? ==> forall i :: 0 <= i < |items| ==> items[i].0 != w
  {
    if items == [] then None
    else if items[0].0 == w then Some(0)
    else match IndexOf(items[1..], w)
      case None => None
      case Some(i) => Some(i + 1)
  }

  /** The words of the counted items, in order. */
  function WordsOf(items: seq<(string, nat)>): (ws: seq<string>)
    ensures |ws| == |items|
    ensures forall i :: 0 <= i < |items| ==> ws[i] == items[i].0
  {
    seq(|items|, i requires 0 <= i < |items| => items[i].0)
  }

  predicate DistinctWords(items: seq<(string, nat)>)
  {
    forall i, j :: 0 <= i < j < |items| ==> items[i].0 != items[j].0
  }

  /** `Counter(words)`: each distinct word once, in first-occurrence order, with its number of occurrences. */
  function Frequency(words: seq<string>): (r: seq<(string, nat)>)
    ensures DistinctWords(r)
    ensures forall w :: w in words <==> w in WordsOf(r)
    ensures forall i :: 0 <= i < |r| ==> r[i].1 == Count(words, r[i].0)
  {
    if words == [] then []
    else
      var init, w := words[..|words| - 1], words[|words| - 1];
      var prior := Frequency(init);
      assert words == init + [w];
      TallyStep(init, w, prior);
      Tallied(prior, w)
  }

  /** Counting one more word keeps the three properties of `Frequency`. */
  lemma TallyStep(init: seq<string>, w: string, prior: seq<(string, nat)>)
    requires DistinctWords(prior)
    requires forall x :: x in init <==> x in WordsOf(prior)
    requires forall i :: 0 <= i < |prior| ==> prior[i].1 == Count(init, prior[i].0)
    ensures DistinctWords(Tallied(prior, w))
    ensures forall x :: x in init + [w] <==> x in WordsOf(Tallied(prior, w))
    ensures forall i :: 0 <= i < |Tallied(prior, w)| ==> Tallied(prior, w)[i].1 == Count(init + [w], Tallied(prior, w)[i].0)
  {
    CountSnoc(init, w);
    var r := Tallied(prior, w);
    match IndexOf(prior, w)
    case Some(i) => TallyBumped(init, w, prior, i, r);
    case None => TallyAppended(init, w, prior, r);
  }

  /** The case of `TallyStep` where `w` was already counted at `i`. */
  lemma TallyBumped(init: seq<string>, w: string, prior: seq<(string, nat)>, i: nat, r: seq<(string, nat)>)
    requires i < |prior| && prior[i].0 == w && r == prior[i := (w, prior[i].1 + 1)]
    requires DistinctWords(prior)
    requires forall x :: x in init <==> x in WordsOf(prior)
    requires forall j :: 0 <= j < |prior| ==> prior[j].1 == Count(init, prior[j].0)
    requires forall x :: x in init + [w] <==> x in init || x == w
    requires forall x :: Count(init + [w], x) == Count(init, x) + (if x == w then 1 else 0)
    ensures DistinctWords(r)
    ensures forall x :: x in init + [w] <==> x in WordsOf(r)
    ensures forall j :: 0 <= j < |r| ==> r[j].1 == Count(init + [w], r[j].0)
  {
    assert forall j :: 0 <= j < |r| ==> r[j].0 == prior[j].0;
    assert WordsOf(r) == WordsOf(prior);
    assert w in WordsOf(prior) by { assert WordsOf(prior)[i] == w; }
  }

  /** The case of `TallyStep` where `w` is new. */
  lemma TallyAppended(init: seq<string>, w: string, prior: seq<(string, nat)>, r: seq<(string, nat)>)
    requires forall j :: 0 <= j < |prior| ==> prior[j].0 != w
    requires r == prior + [(w, 1)]
    requires DistinctWords(prior)
    requires forall x :: x in init <==> x in WordsOf(prior)
    requires forall j :: 0 <= j < |prior| ==> prior[j].1 == Count(init, prior[j].0)
    requires forall x :: x in init + [w] <==> x in init || x == w
    requires forall x :: Count(init + [w], x) == Count(init, x) + (if x == w then 1 else 0)
    ensures DistinctWords(r)
    ensures forall x :: x in init + [w] <==> x in WordsOf(r)
    ensures forall j :: 0 <= j < |r| ==> r[j].1 == Count(init + [w], r[j].0)
  {
    assert WordsOf(r) == WordsOf(prior) + [w];
    assert w !in init;
    assert Count(init, w) == 0;
  }

  lemma CountSnoc(init: seq<string>, w: string)
    ensures forall x :: x in init + [w] <==> x in init || x == w
    ensures forall x :: Count(init + [w], x) == Count(init, x) + (if x == w then 1 else 0)
  {
    forall x ensures Count(init + [w], x) == Count(init, x) + (if x == w then 1 else 0) {
      CountAppend(init, [w], x);
      assert [w][..0] == [];
    }
  }

  /** One more occurrence of `w`: its entry counts one more, or it gets a new entry with count 1. */
  function Tallied(prior: seq<(string, nat)>, w: string): seq<(string, nat)>
  {
    match IndexOf(prior, w)
    case Some(i) => prior[i := (w, prior[i].1 + 1)]
    case None => prior + [(w, 1)]
  }

  /** Sum of the counts. */
  function Total(items: seq<(string, nat)>): nat
  {
    if items == [] then 0 else Total(items[..|items| - 1]) + items[|items| - 1].1
  }

  lemma {:induction false} TotalBump(items: seq<(string, nat)>, i: nat)
    requires i < |items|
    ensures Total(items[i := (items[i].0, items[i].1 + 1)]) == Total(items) + 1
    decreases |items|
  {
    var n := |items| - 1;
    var bumped := items[i := (items[i].0, items[i].1 + 1)];
    if i < n {
      assert bumped[..n] == items[..n][i := (items[i].0, items[i].1 + 1)];
      TotalBump(items[..n], i);
    } else {
      assert bumped[..n] == items[..n];
    }
  }

  /** One more occurrence adds one to the total. */
  lemma TalliedTotal(prior: seq<(string, nat)>, w: string)
    ensures Total(Tallied(prior, w)) == Total(prior) + 1
  {
    match IndexOf(prior, w)
    case Some(i) =>
      TotalBump(prior, i);
    case None =>
      assert (prior + [(w, 1)])[..|prior|] == prior;
  }

  /** The counts add up to the number of words. */
  lemma {:induction false} FrequencyTotal(words: seq<string>)
    ensures Total(Frequency(words)) == |words|
    decreases |words|
  {
    if words != [] {
      var init, w := words[..|words| - 1], words[|words| - 1];
      FrequencyTotal(init);
      assert words[..|words| - 1] == init;
      TalliedTotal(Frequency(init), w);
    }
  }

  /** `get_words_frequency`: the counts of the words of a text; a non-string yields an empty dict. */
  function GetWordsFrequency(content: PyArg<string>): (r: seq<(string, nat)>)
    ensures content.WrongType? ==> r == []
    ensures content.Arg? ==> forall i :: 0 <= i < |r| ==> r[i].1 == Count(Words(content.value), r[i].0) && r[i].1 > 0
    ensures content.Arg? ==> forall w :: w in Words(content.value) <==> w in WordsOf(r)
  {
    match content
    case WrongType => []
    case Arg(s) => Frequency(Words(s))
  }

  // ---------------------------------------------------------------------------
  // sorted(items, key=lambda item: (-item[1], item[0]))
  // ---------------------------------------------------------------------------

  /** `a` sorts before `b`: a higher count, or the same count and a smaller word. */
  predicate Before(a: (string, nat), b: (string, nat))
  {
    a.1 > b.1 || (a.1 == b.1 && Less(a.0, b.0))
  }

  predicate Ordered(items: seq<(string, nat)>)
  {
    forall i, j :: 0 <= i < j < |items| ==> Before(items[i], items[j])
  }

  /** Inserts `x` before the first item it sorts before. */
  function Insert(x: (string, nat), sorted: seq<(string, nat)>): (r: seq<(string, nat)>)
    ensures multiset(r) == multiset(sorted) + multiset{x}
  {
    if sorted == [] || Before(x, sorted[0]) then [x] + sorted
    else
      assert sorted == [sorted[0]] + sorted[1..];
      [sorted[0]] + Insert(x, sorted[1..])
  }

  lemma {:induction false} InsertOrdered(x: (string, nat), sorted: seq<(string, nat)>)
    requires Ordered(sorted)
    requires forall i :: 0 <= i < |sorted| ==> sorted[i].0 != x.0
    ensures Ordered(Insert(x, sorted))
    decreases |sorted|
  {
    if sorted != [] && !Before(x, sorted[0]) {
      LessTotal(x.0, sorted[0].0);
      InsertOrdered(x, sorted[1..]);
      var r := Insert(x, sorted);
      assert r[1..] == Insert(x, sorted[1..]);
      forall j | 0 < j < |r|
        ensures Before(r[0], r[j])
      {
        assert r[j] in multiset(sorted[1..]) + multiset{x};
        if r[j] != x {
          assert r[j] in sorted[1..];
        }
      }
    } else if sorted != [] {
      forall j | 0 < j < |sorted|
        ensures Before(x, sorted[j])
      {
        assert Before(sorted[0], sorted[j]);
        if x.1 == sorted[0].1 && sorted[0].1 == sorted[j].1 {
          LessTransitive(x.0, sorted[0].0, sorted[j].0);
        }
      }
    }
  }

  /** `sorted(...)` over the items. */
  function SortItems(items: seq<(string, nat)>): (r: seq<(string, nat)>)
    ensures multiset(r) == multiset(items)
  {
    if items == [] then []
    else
      assert items == [items[0]] + items[1..];
      Insert(items[0], SortItems(items[1..]))
  }

  /** With distinct words the items come out by descending count, ties by ascending word. */
  lemma {:induction false} SortItemsOrdered(items: seq<(string, nat)>)
    requires DistinctWords(items)
    ensures Ordered(SortItems(items))
    decreases |items|
  {
    if items != [] {
      SortItemsOrdered(items[1..]);
      var rest := SortItems(items[1..]);
      forall i | 0 <= i < |rest|
        ensures rest[i].0 != items[0].0
      {
        assert rest[i] in multiset(items[1..]);
        var k :| 0 <= k < |items[1..]| && items[1..][k] == rest[i];
        assert items[k + 1] == rest[i];
      }
      InsertOrdered(items[0], rest);
    }
  }

  /** `sort_frequency`: the items ordered by descending count, ties by word; a non-dict yields []. */
  function SortFrequency(frequency: PyArg<seq<(string, nat)>>): (r: seq<(string, nat)>)
    ensures frequency.WrongType? ==> r == []
    ensures frequency.Arg? ==> multiset(r) == multiset(frequency.value)
  {
    match frequency
    case WrongType => []
    case Arg(items) => SortItems(items)
  }

  /** The frequency listing of a text is a permutation of its counts in the promised order. */
  lemma SortedFrequencyOrdered(s: string)
    ensures Ordered(SortFrequency(Arg(GetWordsFrequency(Arg(s)))))
  {
    SortItemsOrdered(Frequency(Words(s)));
  }
}

/**
 * The common-words utility: the number of distinct words two texts share.
 * Its tokenizer is the same character loop as the word-frequency utility's.
 */
module PartB {
  import opened Common
  import PartA

  /** `tokenize`: the same loop as the word-frequency utility's tokenizer, with the same result. */
  method Tokenize(content: PyArg<string>) returns (words: seq<string>)
    ensures content.WrongType? ==> words == []
    ensures content.Arg? ==> words == PartA.Words(content.value)
  {
    words := PartA.Tokenize(content);
  }

  /** `count_words`: the set of the words of a text; a non-string yields the empty set. */
  function CountWords(content: PyArg<string>): (r: set<string>)
    ensures content.WrongType? ==> r == {}
    ensures content.Arg? ==> forall w :: w in r <==> w in PartA.Words(content.value)
  {
    match content
    case WrongType => {}
    case Arg(s) => set w | w in PartA.Words(s)
  }

  /** `get_intersection_num`: counts the words of the first set that are in the second; 0 unless both are sets. */
  method GetIntersectionNum(file1: PyArg<set<string>>, file2: PyArg<set<string>>) returns (count: nat)
    ensures file1.WrongType? || file2.WrongType? ==> count == 0
    ensures file1.Arg? && file2.Arg? ==> count == |file1.value * file2.value|
  {
    count := 0;
    if file1.WrongType? || file2.WrongType? {
      return;
    }
    var a, b := file1.value, file2.value;
    var rest := a;
    while rest != {}
      invariant rest <= a
      invariant count == |(a - rest) * b|
      decreases |rest|
    {
      var word :| word in rest;
      MoveOne(a, b, rest, word);
      if word in b {
        count := count + 1;
      }
      rest := rest - {word};
    }
    assert a - rest == a;
  }

  /** Moving one word out of `rest` adds it to the words met so far, and to the shared ones when `b` has it. */
  lemma MoveOne(a: set<string>, b: set<string>, rest: set<string>, word: string)
    requires rest <= a && word in rest
    ensures word in b ==> |(a - (rest - {word})) * b| == |(a - rest) * b| + 1
    ensures word !in b ==> (a - (rest - {word})) * b == (a - rest) * b
  {
    assert word !in (a - rest) * b;
    if word in b {
      assert (a - (rest - {word})) * b == (a - rest) * b + {word};
    }
  }

  lemma {:induction false} SubsetSize<T>(x: set<T>, y: set<T>)
    requires x <= y
    ensures |x| <= |y|
    decreases |y|
  {
    if x != {} {
      var e :| e in x;
      SubsetSize(x - {e}, y - {e});
    }
  }

  /** The shared-word count does not depend on the order of the texts and is at most either text's word count. */
  lemma IntersectionBounds(a: set<string>, b: set<string>)
    ensures |a * b| == |b * a|
    ensures |a * b| <= |a| && |a * b| <= |b|
  {
    assert a * b == b * a;
    SubsetSize(a * b, a);
    SubsetSize(a * b, b);
  }
}

/**
 * `heapq.nlargest(n, ids, key=score.get)`: the `n` ids with the largest
 * scores, largest first. The selection is stable: ids with equal scores come
 * out in the order they had in `ids`. It is modelled as an insertion sort of
 * the positions `0 .. |ids|-1` under the strict order `Before`, which ranks
 * by score and breaks ties by position, followed by taking a prefix.
 */
module TopK {
  import opened Common

  /** The key of each position of `ids`. */
  function KeysOf(ids: seq<string>, score: map<string, real>): (key: seq<real>)
    requires forall k :: 0 <= k < |ids| ==> ids[k] in score
    ensures |key| == |ids|
    ensures forall k :: 0 <= k < |ids| ==> key[k] == score[ids[k]]
  {
    seq(|ids|, k requires 0 <= k < |ids| => score[ids[k]])
  }

  /** Position `i` comes out ahead of position `j`: a larger key, or an equal key and an earlier position. */
  predicate Before(key: seq<real>, i: nat, j: nat)
    requires i < |key| && j < |key|
  {
    key[i] > key[j] || (key[i] == key[j] && i < j)
  }

  predicate InRange(key: seq<real>, s: seq<nat>)
  {
    forall k :: 0 <= k < |s| ==> s[k] < |key|
  }

  predicate Distinct(s: seq<nat>)
  {
    forall a, b :: 0 <= a < b < |s| ==> s[a] != s[b]
  }

  predicate Ordered(key: seq<real>, s: seq<nat>)
    requires InRange(key, s)
  {
    forall a, b :: 0 <= a < b < |s| ==> Before(key, s[a], s[b])
  }

  /** Inserts `x` in front of the first element it ranks before. */
  function Insert(key: seq<real>, x: nat, s: seq<nat>): (r: seq<nat>)
    requires x < |key| && InRange(key, s)
    ensures |r| == |s| + 1
    ensures multiset(r) == multiset(s) + multiset{x}
    ensures InRange(key, r)
  {
    if s == [] || Before(key, x, s[0]) then [x] + s
    else
      assert s == [s[0]] + s[1..];
      [s[0]] + Insert(key, x, s[1..])
  }

  /** The head of an ordered sequence ranks before everything inserted into its tail. */
  lemma HeadBeforeInsert(key: seq<real>, x: nat, s: seq<nat>)
    requires x < |key| && InRange(key, s) && Ordered(key, s) && s != [] && Before(key, s[0], x)
    ensures forall b :: 0 <= b < |Insert(key, x, s[1..])| ==> Before(key, s[0], Insert(key, x, s[1..])[b])
  {
    var tail := s[1..];
    var rest := Insert(key, x, tail);
    forall b | 0 <= b < |rest| ensures Before(key, s[0], rest[b]) {
      assert rest[b] in multiset(rest);
      if rest[b] != x {
        assert rest[b] in multiset(tail);
        var k :| 0 <= k < |tail| && tail[k] == rest[b];
        assert s[k + 1] == rest[b];
      }
    }
  }

  lemma {:induction false} InsertOrdered(key: seq<real>, x: nat, s: seq<nat>)
    requires x < |key| && InRange(key, s) && Ordered(key, s) && x !in s
    ensures Ordered(key, Insert(key, x, s))
  {
    if s == [] || Before(key, x, s[0]) {
      var r := [x] + s;
      forall a, b | 0 <= a < b < |r| ensures Before(key, r[a], r[b]) {
        if a == 0 && b > 1 {
          assert Before(key, s[0], s[b - 1]);
        }
      }
    } else {
      var tail := s[1..];
      assert s == [s[0]] + tail;
      assert Ordered(key, tail);
      InsertOrdered(key, x, tail);
      var rest := Insert(key, x, tail);
      var r := [s[0]] + rest;
      assert x != s[0];
      HeadBeforeInsert(key, x, s);
      forall a, b | 0 <= a < b < |r| ensures Before(key, r[a], r[b]) {
        if a == 0 {
          assert r[b] == rest[b - 1];
        } else {
          assert r[a] == rest[a - 1] && r[b] == rest[b - 1];
        }
      }
    }
  }

  /** Insertion sort under `Before`. */
  function Sort(key: seq<real>, s: seq<nat>): (r: seq<nat>)
    requires InRange(key, s)
    ensures |r| == |s|
    ensures multiset(r) == multiset(s)
    ensures InRange(key, r)
  {
    if s == [] then []
    else
      assert s == [s[0]] + s[1..];
      Insert(key, s[0], Sort(key, s[1..]))
  }

  lemma {:induction false} SortOrdered(key: seq<real>, s: seq<nat>)
    requires InRange(key, s) && Distinct(s)
    ensures Ordered(key, Sort(key, s))
  {
    if s != [] {
      var tail := s[1..];
      assert s == [s[0]] + tail;
      SortOrdered(key, tail);
      assert forall k :: 0 <= k < |tail| ==> tail[k] != s[0] by {
        forall k | 0 <= k < |tail| ensures tail[k] != s[0] {
          assert tail[k] == s[k + 1];
        }
      }
      assert s[0] !in multiset(Sort(key, tail));
      InsertOrdered(key, s[0], Sort(key, tail));
    }
  }

  /** `0, 1, …, n-1`. */
  function Range(n: nat): (r: seq<nat>)
    ensures |r| == n
    ensures forall k :: 0 <= k < n ==> r[k] == k
  {
    seq(n, k => k)
  }

  /**
   * The positions `nlargest` picks, best first: every picked position
   * ranks before every later pick and before every position left out.
   */
  function LargestPositions(n: nat, ids: seq<string>, score: map<string, real>): (ps: seq<nat>)
    requires forall k :: 0 <= k < |ids| ==> ids[k] in score
    ensures |ps| == Min(n, |ids|)
    ensures InRange(KeysOf(ids, score), ps)
    ensures Ordered(KeysOf(ids, score), ps)
    ensures forall i, k :: 0 <= i < |ids| && i !in ps && 0 <= k < |ps| ==> Before(KeysOf(ids, score), ps[k], i)
    ensures |ids| <= n ==> forall i :: 0 <= i < |ids| ==> i in ps
  {
    var key := KeysOf(ids, score);
    var all := Range(|ids|);
    SortOrdered(key, all);
    var sorted := Sort(key, all);
    var ps := sorted[..Min(n, |ids|)];
    SortedCoversAll(sorted, |ids|);
    PrefixRanksFirst(key, sorted, Min(n, |ids|));
    assert |ids| <= n ==> ps == sorted;
    ps
  }

  /** A permutation of `0 .. m-1` holds every one of them. */
  lemma SortedCoversAll(sorted: seq<nat>, m: nat)
    requires multiset(sorted) == multiset(Range(m))
    ensures forall i :: 0 <= i < m ==> i in sorted
  {
    var all := Range(m);
    forall i | 0 <= i < m ensures i in sorted {
      assert all[i] == i;
      assert i in multiset(all);
    }
  }

  /** Every position in an ordered prefix ranks before every position left out of it. */
  lemma PrefixRanksFirst(key: seq<real>, sorted: seq<nat>, m: nat)
    requires InRange(key, sorted) && Ordered(key, sorted) && m <= |sorted|
    requires forall i :: 0 <= i < |key| ==> i in sorted
    ensures forall i, k :: 0 <= i < |key| && i !in sorted[..m] && 0 <= k < m ==> Before(key, sorted[k], i)
  {
    forall i, k | 0 <= i < |key| && i !in sorted[..m] && 0 <= k < m ensures Before(key, sorted[k], i) {
      assert i in sorted;
      var p :| 0 <= p < |sorted| && sorted[p] == i;
    }
  }

  /** `heapq.nlargest(n, ids, key=score.get)`. */
  function NLargest(n: nat, ids: seq<string>, score: map<string, real>): (r: seq<string>)
    requires forall k :: 0 <= k < |ids| ==> ids[k] in score
    ensures |r| == Min(n, |ids|)
    ensures forall k :: 0 <= k < |r| ==> r[k] in ids
  {
    var ps := LargestPositions(n, ids, score);
    seq(|ps|, k requires 0 <= k < |ps| => ids[ps[k]])
  }

  /**
   * The picks come best first, and on equal scores in their order in `ids`;
   * no id left out scores more than any id picked.
   */
  lemma NLargestRanks(n: nat, ids: seq<string>, score: map<string, real>)
    requires forall k :: 0 <= k < |ids| ==> ids[k] in score
    ensures var r := NLargest(n, ids, score);
            var ps := LargestPositions(n, ids, score);
            && (forall k :: 0 <= k < |r| ==> r[k] == ids[ps[k]])
            && (forall a, b :: 0 <= a < b < |r| ==>
                  score[r[a]] > score[r[b]] || (score[r[a]] == score[r[b]] && ps[a] < ps[b]))
            && (forall i, k :: 0 <= i < |ids| && i !in ps && 0 <= k < |r| ==> score[ids[i]] <= score[r[k]])
  {
    var key := KeysOf(ids, score);
    var ps := LargestPositions(n, ids, score);
    var r := NLargest(n, ids, score);
    forall a, b | 0 <= a < b < |r|
      ensures score[r[a]] > score[r[b]] || (score[r[a]] == score[r[b]] && ps[a] < ps[b])
    {
      assert Before(key, ps[a], ps[b]);
    }
    forall i, k | 0 <= i < |ids| && i !in ps && 0 <= k < |r|
      ensures score[ids[i]] <= score[r[k]]
    {
      assert Before(key, ps[k], i);
    }
  }

  /** With no more than `n` ids, every id is picked. */
  lemma NLargestKeepsAll(n: nat, ids: seq<string>, score: map<string, real>)
    requires forall k :: 0 <= k < |ids| ==> ids[k] in score
    requires |ids| <= n
    ensures forall k :: 0 <= k < |ids| ==> ids[k] in NLargest(n, ids, score)
  {
    var ps := LargestPositions(n, ids, score);
    var r := NLargest(n, ids, score);
    forall k | 0 <= k < |ids| ensures ids[k] in r {
      assert k in ps;
      var j :| 0 <= j < |ps| && ps[j] == k;
      assert r[j] == ids[k];
    }
  }

  /**
   * Over ids without repeats: the picks have no repeats, come in
   * non-increasing score order, and no id left out scores more than a pick.
   */
  lemma NLargestOfUnique(n: nat, ids: seq<string>, score: map<string, real>)
    requires forall k :: 0 <= k < |ids| ==> ids[k] in score
    requires forall a, b :: 0 <= a < b < |ids| ==> ids[a] != ids[b]
    ensures var r := NLargest(n, ids, score);
            && (forall a, b :: 0 <= a < b < |r| ==> r[a] != r[b])
            && (forall a, b :: 0 <= a < b < |r| ==> score[r[a]] >= score[r[b]])
            && (forall x, k :: x in ids && x !in r && 0 <= k < |r| ==> score[x] <= score[r[k]])
  {
    var ps := LargestPositions(n, ids, score);
    var r := NLargest(n, ids, score);
    NLargestRanks(n, ids, score);
    forall a, b | 0 <= a < b < |r| ensures r[a] != r[b] {
      assert ps[a] != ps[b];
    }
    forall x, k | x in ids && x !in r && 0 <= k < |r| ensures score[x] <= score[r[k]] {
      var i :| 0 <= i < |ids| && ids[i] == x;
    }
  }
}

/**
 * The `tokens_weight` table: one row per (token, page) occurrence record,
 * with the token's weight in that page and its positions. The table has no
 * key, so it is a sequence of rows in insertion order and may hold
 * duplicates.
 */
module TokensWeight {
  import opened Common
  import opened Strings
  import opened Tokens

  /** One row; `positions` stands for the JSON text the source stores. */
  datatype WeightRow = WeightRow(token: string, docId: string, wordNum: int, positions: seq<int>)

  /** The rows whose doc_id is not listed in `ids`, in their order. */
  function Without(rows: seq<WeightRow>, ids: seq<string>): (r: seq<WeightRow>)
    ensures forall x :: x in r ==> x.docId !in ids
  {
    if rows == [] then []
    else
      var init, last := rows[..|rows| - 1], rows[|rows| - 1];
      Without(init, ids) + (if last.docId in ids then [] else [last])
  }

  /** Deleting keeps every row of an unlisted doc_id, as often as it occurred. */
  lemma {:induction false} WithoutKeeps(rows: seq<WeightRow>, ids: seq<string>, x: WeightRow)
    requires x.docId !in ids
    ensures multiset(Without(rows, ids))[x] == multiset(rows)[x]
    decreases |rows|
  {
    if rows != [] {
      var init, last := rows[..|rows| - 1], rows[|rows| - 1];
      WithoutKeeps(init, ids, x);
      var kept := if last.docId in ids then [] else [last];
      assert Without(rows, ids) == Without(init, ids) + kept;
      MultisetSnoc(rows);
      assert multiset(kept)[x] == multiset{last}[x];
    }
  }

  /** The rows of one document, in their order. */
  function RowsOf(rows: seq<WeightRow>, docId: string): (r: seq<WeightRow>)
    ensures forall x :: x in r ==> x.docId == docId
  {
    if rows == [] then []
    else
      var init, last := rows[..|rows| - 1], rows[|rows| - 1];
      RowsOf(init, docId) + (if last.docId == docId then [last] else [])
  }

  /** Selecting keeps every row of that doc_id, as often as it occurred. */
  lemma {:induction false} RowsOfKeeps(rows: seq<WeightRow>, docId: string, x: WeightRow)
    requires x.docId == docId
    ensures multiset(RowsOf(rows, docId))[x] == multiset(rows)[x]
    decreases |rows|
  {
    if rows != [] {
      var init, last := rows[..|rows| - 1], rows[|rows| - 1];
      RowsOfKeeps(init, docId, x);
      var kept := if last.docId == docId then [last] else [];
      assert RowsOf(rows, docId) == RowsOf(init, docId) + kept;
      MultisetSnoc(rows);
      assert multiset(kept)[x] == multiset{last}[x];
    }
  }

  /** Deleting for `a` and then for `b` is deleting for `a + b`. */
  lemma {:induction false} WithoutTwice(rows: seq<WeightRow>, a: seq<string>, b: seq<string>)
    ensures Without(Without(rows, a), b) == Without(rows, a + b)
    decreases |rows|
  {
    if rows != [] {
      var init, last := rows[..|rows| - 1], rows[|rows| - 1];
      WithoutTwice(init, a, b);
      assert (last.docId in a + b) == (last.docId in a || last.docId in b);
      var once := Without(rows, a);
      if last.docId in a {
        assert once == Without(init, a);
        assert Without(rows, a + b) == Without(init, a + b);
      } else {
        assert once == Without(init, a) + [last];
        assert once[..|once| - 1] == Without(init, a);
        assert Without(once, b) == Without(Without(init, a), b) + (if last.docId in b then [] else [last]);
        assert Without(rows, a + b) == Without(init, a + b) + (if last.docId in b then [] else [last]);
      }
    }
  }

  /** Deleting for no doc_id changes nothing. */
  lemma {:induction false} WithoutNothing(rows: seq<WeightRow>)
    ensures Without(rows, []) == rows
    decreases |rows|
  {
    if rows != [] {
      var init, last := rows[..|rows| - 1], rows[|rows| - 1];
      WithoutNothing(init);
      assert rows == init + [last];
    }
  }

  /** Rows of a deleted document are gone; the rows of every other document stay as they were. */
  lemma {:induction false} RowsOfWithout(rows: seq<WeightRow>, ids: seq<string>, docId: string)
    ensures RowsOf(Without(rows, ids), docId) == if docId in ids then [] else RowsOf(rows, docId)
    decreases |rows|
  {
    if rows != [] {
      var init, last := rows[..|rows| - 1], rows[|rows| - 1];
      RowsOfWithout(init, ids, docId);
      var w := Without(rows, ids);
      if last.docId in ids {
        assert w == Without(init, ids);
      } else {
        assert w == Without(init, ids) + [last];
        assert w[..|w| - 1] == Without(init, ids);
        assert RowsOf(w, docId) == RowsOf(Without(init, ids), docId) + (if last.docId == docId then [last] else []);
      }
    }
  }

  /** Selecting one document distributes over appended rows, so a second insert for a page doubles its rows. */
  lemma {:induction false} RowsOfAppend(a: seq<WeightRow>, b: seq<WeightRow>, docId: string)
    ensures RowsOf(a + b, docId) == RowsOf(a, docId) + RowsOf(b, docId)
    decreases |b|
  {
    if b == [] {
      assert a + b == a;
    } else {
      assert (a + b)[..|a + b| - 1] == a + b[..|b| - 1];
      RowsOfAppend(a, b[..|b| - 1], docId);
    }
  }

  class TokensWeightProcessor {
    /** The `tokens_weight` table in insertion order. */
    var rows: seq<WeightRow>

    constructor ()
      ensures rows == []
    {
      rows := [];
    }

    /** `update_tokens_weight`: appends one row per token of the page, tagged with `docId`; nothing is replaced. */
    method UpdateTokensWeight(info: map<string, TokenInfo>, docId: string)
      modifies this
      ensures |rows| == |old(rows)| + |info.Keys|
      ensures rows[..|old(rows)|] == old(rows)
      ensures forall k :: |old(rows)| <= k < |rows| ==>
        rows[k].token in info && rows[k] == WeightRow(rows[k].token, docId, info[rows[k].token].weight, info[rows[k].token].positions)
      ensures forall t :: t in info ==> exists k :: |old(rows)| <= k < |rows| && rows[k].token == t
      ensures forall k, l :: |old(rows)| <= k < l < |rows| ==> rows[k].token != rows[l].token
    {
      var keys := Enumerate(info.Keys);
      ghost var n := |rows|;
      for i := 0 to |keys|
        invariant |rows| == n + i
        invariant rows[..n] == old(rows)
        invariant forall k :: n <= k < |rows| ==> rows[k] == WeightRow(keys[k - n], docId, info[keys[k - n]].weight, info[keys[k - n]].positions)
      {
        var t := keys[i];
        rows := rows + [WeightRow(t, docId, info[t].weight, info[t].positions)];
      }
      forall t | t in info
        ensures exists k :: n <= k < |rows| && rows[k].token == t
      {
        var j :| 0 <= j < |keys| && keys[j] == t;
        assert rows[n + j].token == t;
      }
    }

    /**
     * `remove_duplicate`: deletes every row of the listed documents and keeps
     * all others in order. `fault` says the database raised, which rolls back.
     */
    method RemoveDuplicate(docIds: seq<string>, fault: bool)
      modifies this
      ensures fault ==> rows == old(rows)
      ensures !fault ==> rows == Without(old(rows), docIds)
    {
      if fault {
        return;
      }
      WithoutNothing(rows);
      for i := 0 to |docIds|
        invariant rows == Without(old(rows), docIds[..i])
      {
        WithoutTwice(old(rows), docIds[..i], [docIds[i]]);
        assert docIds[..i] + [docIds[i]] == docIds[..i + 1];
        rows := Without(rows, [docIds[i]]);
      }
      assert docIds[..|docIds|] == docIds;
    }

    /** `get_token_by_doc_id`: the token of every row of that document. */
    function GetTokenByDocId(docId: string): (tokens: seq<string>)
      reads this
      ensures |tokens| == |RowsOf(rows, docId)|
      ensures forall i :: 0 <= i < |tokens| ==> tokens[i] == RowsOf(rows, docId)[i].token
    {
      var rs := RowsOf(rows, docId);
      seq(|rs|, i requires 0 <= i < |rs| => rs[i].token)
    }

    /** `get_word_num`: token and weight of every row of that document. */
    function GetWordNum(docId: string): (nums: seq<(string, int)>)
      reads this
      ensures |nums| == |RowsOf(rows, docId)|
      ensures forall i :: 0 <= i < |nums| ==> nums[i] == (RowsOf(rows, docId)[i].token, RowsOf(rows, docId)[i].wordNum)
    {
      var rs := RowsOf(rows, docId);
      seq(|rs|, i requires 0 <= i < |rs| => (rs[i].token, rs[i].wordNum))
    }

    /** `get_word_position`: token and positions of every row of that document. */
    function GetWordPosition(docId: string): (positions: seq<(string, seq<int>)>)
      reads this
      ensures |positions| == |RowsOf(rows, docId)|
      ensures forall i :: 0 <= i < |positions| ==> positions[i] == (RowsOf(rows, docId)[i].token, RowsOf(rows, docId)[i].positions)
    {
      var rs := RowsOf(rows, docId);
      seq(|rs|, i requires 0 <= i < |rs| => (rs[i].token, rs[i].positions))
    }

    /** The three getters see the same rows: equally many, with the same tokens in the same order. */
    lemma GettersAgree(docId: string)
      ensures |GetTokenByDocId(docId)| == |GetWordNum(docId)| == |GetWordPosition(docId)|
      ensures forall i :: 0 <= i < |GetTokenByDocId(docId)| ==>
        GetWordNum(docId)[i].0 == GetTokenByDocId(docId)[i] == GetWordPosition(docId)[i].0
    {
    }
  }
}

/**
 * The `tokens` table: for every token, the number of documents that contain
 * it (`doc_num`) and its summed weight over them (`total_num`), with the
 * operations of `TokenProcessor`.
 */
module Tokens {
  import opened Common
  import opened Strings

  datatype TokenStat = TokenStat(docNum: int, totalNum: int)

  /** What the document pipeline records per token of one page: its weight and its positions. */
  datatype TokenInfo = TokenInfo(weight: int, positions: seq<int>)

  /** The row `_update_token_record` leaves for `t` after one more document of weight `w`. */
  function Bumped(table: map<string, TokenStat>, t: string, w: int): TokenStat
  {
    if t in table then TokenStat(table[t].docNum + 1, table[t].totalNum + w) else TokenStat(1, w)
  }

  /** The row `remove_duplicate` leaves for a present `t` after withdrawing one document of weight `w`. */
  function Lowered(stat: TokenStat, w: int): TokenStat
  {
    TokenStat(if stat.docNum - 1 > 0 then stat.docNum - 1 else 0,
              if stat.totalNum - w > 0 then stat.totalNum - w else 0)
  }

  /** The table after `update_token(info)`. */
  function Incremented(table: map<string, TokenStat>, info: map<string, TokenInfo>): (r: map<string, TokenStat>)
    ensures r.Keys == table.Keys + info.Keys
  {
    map t | t in table.Keys + info.Keys :: if t in info then Bumped(table, t, info[t].weight) else table[t]
  }

  /** The table after `remove_duplicate(info)`. */
  function Decremented(table: map<string, TokenStat>, info: map<string, TokenInfo>): (r: map<string, TokenStat>)
    ensures r.Keys == table.Keys
  {
    map t | t in table :: if t in info then Lowered(table[t], info[t].weight) else table[t]
  }

  predicate NonNegative(table: map<string, TokenStat>)
  {
    forall t :: t in table ==> table[t].docNum >= 0 && table[t].totalNum >= 0
  }

  /** A new token starts at one document and its weight; a known one gains one document and the weight. */
  lemma IncrementedRows(table: map<string, TokenStat>, info: map<string, TokenInfo>, t: string)
    ensures t in info && t !in table ==> Incremented(table, info)[t] == TokenStat(1, info[t].weight)
    ensures t in info && t in table ==>
      Incremented(table, info)[t].docNum == table[t].docNum + 1
      && Incremented(table, info)[t].totalNum == table[t].totalNum + info[t].weight
    ensures t !in info && t in table ==> Incremented(table, info)[t] == table[t]
  {
  }

  /** Withdrawing never drives a count below zero, never inserts and leaves other tokens alone. */
  lemma DecrementedFloor(table: map<string, TokenStat>, info: map<string, TokenInfo>)
    requires NonNegative(table)
    ensures NonNegative(Decremented(table, info))
    ensures forall t :: t in table && t !in info ==> Decremented(table, info)[t] == table[t]
  {
  }

  /**
   * Registering a page and then withdrawing it restores every token that was
   * already known; a token the page introduced stays behind with zero counts.
   */
  lemma UpdateThenRemove(table: map<string, TokenStat>, info: map<string, TokenInfo>)
    requires NonNegative(table)
    ensures var r := Decremented(Incremented(table, info), info);
      && r.Keys == table.Keys + info.Keys
      && (forall t :: t in table ==> r[t] == table[t])
      && (forall t :: t in info && t !in table ==> r[t].docNum == 0)
  {
    var r := Decremented(Incremented(table, info), info);
    forall t | t in table
      ensures r[t] == table[t]
    {
      if t in info {
        assert Incremented(table, info)[t] == TokenStat(table[t].docNum + 1, table[t].totalNum + info[t].weight);
      }
    }
  }

  /** `table` is `saved` after `_update_token_record` for every token of `done`. */
  ghost predicate BumpedUpTo(saved: map<string, TokenStat>, table: map<string, TokenStat>,
                             info: map<string, TokenInfo>, done: seq<string>)
  {
    && (forall t :: t in table <==> t in saved || t in done)
    && (forall t :: t in done ==> t in info && table[t] == Bumped(saved, t, info[t].weight))
    && (forall t :: t in saved && t !in done ==> table[t] == saved[t])
  }

  lemma BumpNext(saved: map<string, TokenStat>, table: map<string, TokenStat>,
                 info: map<string, TokenInfo>, done: seq<string>, t: string)
    requires BumpedUpTo(saved, table, info, done) && t in info && t !in done
    ensures BumpedUpTo(saved, table[t := Bumped(table, t, info[t].weight)], info, done + [t])
  {
    assert Bumped(table, t, info[t].weight) == Bumped(saved, t, info[t].weight);
    var next := table[t := Bumped(table, t, info[t].weight)];
    forall u | u in done + [t] ensures u in info && next[u] == Bumped(saved, u, info[u].weight) {
      if u != t {
        assert u in done;
      }
    }
  }

  lemma BumpedAll(saved: map<string, TokenStat>, table: map<string, TokenStat>,
                  info: map<string, TokenInfo>, done: seq<string>)
    requires BumpedUpTo(saved, table, info, done)
    requires forall t :: t in done <==> t in info
    ensures table == Incremented(saved, info)
  {
    var r := Incremented(saved, info);
    assert table.Keys == r.Keys;
    forall t | t in table ensures table[t] == r[t] {
    }
  }

  /** `table` is `saved` after `remove_duplicate`'s update for every token of `done`. */
  ghost predicate LoweredUpTo(saved: map<string, TokenStat>, table: map<string, TokenStat>,
                              info: map<string, TokenInfo>, done: seq<string>)
  {
    && table.Keys == saved.Keys
    && (forall t :: t in done && t in saved ==> t in info && table[t] == Lowered(saved[t], info[t].weight))
    && (forall t :: t in saved && t !in done ==> table[t] == saved[t])
  }

  lemma LowerNext(saved: map<string, TokenStat>, table: map<string, TokenStat>,
                  info: map<string, TokenInfo>, done: seq<string>, t: string)
    requires LoweredUpTo(saved, table, info, done) && t in info && t !in done
    ensures t in table ==> LoweredUpTo(saved, table[t := Lowered(table[t], info[t].weight)], info, done + [t])
    ensures t !in table ==> LoweredUpTo(saved, table, info, done + [t])
  {
    if t in table {
      var next := table[t := Lowered(table[t], info[t].weight)];
      assert next.Keys == saved.Keys;
      forall u | u in done + [t] && u in saved ensures u in info && next[u] == Lowered(saved[u], info[u].weight) {
        if u != t {
          assert u in done;
        }
      }
    }
  }

  lemma LoweredAll(saved: map<string, TokenStat>, table: map<string, TokenStat>,
                   info: map<string, TokenInfo>, done: seq<string>)
    requires LoweredUpTo(saved, table, info, done)
    requires forall t :: t in done <==> t in info
    ensures table == Decremented(saved, info)
  {
    var r := Decremented(saved, info);
    forall t | t in table ensures table[t] == r[t] {
    }
  }

  class TokenProcessor {
    /** The `tokens` table, keyed by token. */
    var table: map<string, TokenStat>

    /** No count in the table is negative. */
    ghost predicate Valid()
      reads this
    {
      NonNegative(table)
    }

    constructor ()
      ensures Valid() && table == map[]
    {
      table := map[];
    }

    /** `_update_token_record`: inserts `(1, totalNum)` or adds one document and `totalNum`. */
    method UpdateTokenRecord(token: string, totalNum: int) returns (ok: bool)
      modifies this
      ensures ok
      ensures table == old(table)[token := Bumped(old(table), token, totalNum)]
      ensures old(Valid()) && totalNum >= 0 ==> Valid()
    {
      if token !in table {
        table := table[token := TokenStat(1, totalNum)];
      } else {
        var stat := table[token];
        table := table[token := TokenStat(stat.docNum + 1, stat.totalNum + totalNum)];
      }
      ok := true;
    }

    /** `update_token`: one `_update_token_record` per token of the page. */
    method UpdateToken(info: map<string, TokenInfo>)
      modifies this
      ensures table == Incremented(old(table), info)
      ensures old(Valid()) && (forall t :: t in info ==> info[t].weight >= 0) ==> Valid()
    {
      var saved := table;
      var keys := Enumerate(info.Keys);
      assert keys[..0] == [];
      for i := 0 to |keys|
        invariant BumpedUpTo(saved, table, info, keys[..i])
      {
        var t := keys[i];
        assert keys[..i + 1] == keys[..i] + [t];
        assert t !in keys[..i] by {
          forall j | 0 <= j < i ensures keys[j] != t { }
        }
        BumpNext(saved, table, info, keys[..i], t);
        var _ := UpdateTokenRecord(t, info[t].weight);
      }
      assert keys[..|keys|] == keys;
      BumpedAll(saved, table, info, keys);
    }

    /**
     * `remove_duplicate`: withdraws one document of the given weight from
     * every listed token that has a row. `fault` says the database raised,
     * which rolls back.
     */
    method RemoveDuplicate(info: map<string, TokenInfo>, fault: bool)
      modifies this
      ensures fault ==> table == old(table)
      ensures !fault ==> table == Decremented(old(table), info)
      ensures old(Valid()) ==> Valid()
    {
      if fault {
        return;
      }
      var saved, rows := table, table;
      var keys := Enumerate(info.Keys);
      assert keys[..0] == [];
      for i := 0 to |keys|
        invariant LoweredUpTo(saved, rows, info, keys[..i])
      {
        var t := keys[i];
        assert keys[..i + 1] == keys[..i] + [t];
        assert t !in keys[..i] by {
          forall j | 0 <= j < i ensures keys[j] != t { }
        }
        LowerNext(saved, rows, info, keys[..i], t);
        if t in rows {
          var stat := rows[t];
          var docNum := if stat.docNum - 1 > 0 then stat.docNum - 1 else 0;
          var totalNum := if stat.totalNum - info[t].weight > 0 then stat.totalNum - info[t].weight else 0;
          assert TokenStat(docNum, totalNum) == Lowered(stat, info[t].weight);
          rows := rows[t := TokenStat(docNum, totalNum)];
        }
      }
      assert keys[..|keys|] == keys;
      LoweredAll(saved, rows, info, keys);
      table := rows;
    }

    /** `get_all_tokens`: every token once, in ascending text order. */
    method GetAllTokens() returns (tokens: seq<string>)
      ensures forall t :: t in tokens <==> t in table
      ensures forall i, j :: 0 <= i < j < |tokens| ==> Less(tokens[i], tokens[j])
    {
      tokens := [];
      var rest := table.Keys;
      while rest != {}
        invariant rest <= table.Keys
        invariant forall t :: t in tokens <==> t in table && t !in rest
        invariant forall i, j :: 0 <= i < j < |tokens| ==> Less(tokens[i], tokens[j])
        invariant forall i, x :: 0 <= i < |tokens| && x in rest ==> Less(tokens[i], x)
        decreases |rest|
      {
        var m := Smallest(rest);
        tokens := tokens + [m];
        rest := rest - {m};
      }
    }

    /** `get_doc_num`: the document count; a token without a row makes `fetchone()[0]` raise. */
    function GetDocNum(token: string): (r: Result<int>)
      reads this
      ensures r.Err? <==> token !in table
      ensures r.Err? ==> r.error == TypeError
      ensures r.Ok? ==> r.value == table[token].docNum
    {
      if token in table then Ok(table[token].docNum) else Err(TypeError)
    }
  }
}

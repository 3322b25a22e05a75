/**
 * The `webpage` table of the index database and the operations of
 * `RawWebpageProcessor` on it. The table is a map from the primary key
 * `doc_id` to the rest of the row; a NULL column is `None`.
 */
module RawWebpage {
  import opened Common
  import opened Strings

  type Bytes = seq<bv8>

  /** The columns of one `webpage` row besides `doc_id`. */
  datatype Row = Row(
    url: string,
    title: Option<string>,
    description: Option<string>,
    totalWords: Option<int>,
    corpus: Option<Bytes>,
    vector: Option<string>)

  /** One result of `search_by_url` / `search_by_doc_id`: `doc_id, url, title, description`. */
  datatype Listing = Listing(docId: string, url: string, title: Option<string>, description: Option<string>)

  /** The row an upsert writes: the URL, and NULL in every derived column. */
  function Placeholder(url: string): Row
  {
    Row(url, None, None, None, None, None)
  }

  function ListingOf(docId: string, row: Row): Listing
  {
    Listing(docId, row.url, row.title, row.description)
  }

  /**
   * `d` is not the first, in text order, of the rows that share its corpus.
   * All NULL corpora form one group, as they do under SQL's PARTITION BY.
   */
  predicate Shadowed(rows: map<string, Row>, d: string)
    requires d in rows
  {
    exists e :: e in rows && rows[e].corpus == rows[d].corpus && Less(e, d)
  }

  /** The rows `ROW_NUMBER() OVER (PARTITION BY corpus ORDER BY doc_id) > 1` selects. */
  function Duplicates(rows: map<string, Row>): (dups: set<string>)
    ensures dups <= rows.Keys
  {
    set d | d in rows && Shadowed(rows, d)
  }

  /** After deduplication no two rows share a corpus. */
  lemma DedupLeavesDistinctCorpora(rows: map<string, Row>)
    ensures var kept := rows - Duplicates(rows);
      forall a, b :: a in kept && b in kept && a != b ==> kept[a].corpus != kept[b].corpus
  {
    var kept := rows - Duplicates(rows);
    forall a, b | a in kept && b in kept && a != b
      ensures kept[a].corpus != kept[b].corpus
    {
      LessTotal(a, b);
    }
  }

  /** Every corpus present before deduplication keeps exactly the row with the smallest doc_id. */
  lemma DedupKeepsSmallest(rows: map<string, Row>, d: string)
    requires d in rows
    ensures var kept := rows - Duplicates(rows);
      exists k :: k in kept && kept[k].corpus == rows[d].corpus && (k == d || Less(k, d))
  {
    var group := set e | e in rows && rows[e].corpus == rows[d].corpus;
    assert d in group;
    var m := LeastExists(group);
    if Shadowed(rows, m) {
      var e :| e in rows && rows[e].corpus == rows[m].corpus && Less(e, m);
      assert e in group;
      LessIrreflexive(e);
      LessAsymmetric(m, e);
      assert false;
    }
    assert m in rows - Duplicates(rows);
  }

  /** A second deduplication finds nothing more to delete. */
  lemma DedupIdempotent(rows: map<string, Row>)
    ensures Duplicates(rows - Duplicates(rows)) == {}
  {
    var kept := rows - Duplicates(rows);
    forall d | d in kept
      ensures !Shadowed(kept, d)
    {
      assert !Shadowed(rows, d);
    }
  }

  /** `rows` is `saved` with every doc_id of `done` upserted from `pages`. */
  ghost predicate Upserted(saved: map<string, Row>, rows: map<string, Row>, pages: map<string, string>, done: seq<string>)
  {
    && (forall d :: d in rows <==> d in saved || d in done)
    && (forall d :: d in done ==> d in pages && rows[d] == Placeholder(pages[d]))
    && (forall d :: d in saved && d !in done ==> rows[d] == saved[d])
  }

  /** Upserting one more doc_id keeps the account. */
  lemma UpsertNext(saved: map<string, Row>, rows: map<string, Row>, pages: map<string, string>, done: seq<string>, d: string)
    requires Upserted(saved, rows, pages, done) && d in pages
    ensures Upserted(saved, rows[d := Placeholder(pages[d])], pages, done + [d])
  {
    var next := rows[d := Placeholder(pages[d])];
    forall e | e in done + [d] ensures e in pages && next[e] == Placeholder(pages[e]) {
      if e != d {
        assert e in done;
      }
    }
  }

  /** Once every doc_id of `pages` is upserted, the table is `saved` overwritten by `pages`. */
  lemma UpsertedAll(saved: map<string, Row>, rows: map<string, Row>, pages: map<string, string>, done: seq<string>)
    requires Upserted(saved, rows, pages, done)
    requires forall d :: d in done <==> d in pages
    ensures rows.Keys == saved.Keys + pages.Keys
    ensures forall d :: d in pages ==> rows[d] == Placeholder(pages[d])
    ensures forall d :: d in saved && d !in pages ==> rows[d] == saved[d]
  {
  }

  class RawWebpageProcessor {
    /** The `webpage` table, keyed by `doc_id`. */
    var rows: map<string, Row>

    constructor ()
      ensures rows == map[]
    {
      rows := map[];
    }

    /**
     * `_update_webpage_record`: inserts an unknown doc_id, or overwrites a
     * known one; either way the URL is set and the derived columns are
     * cleared, even when the URL is the one already stored.
     */
    method UpdateWebpageRecord(docId: string, url: string) returns (ok: bool)
      modifies this
      ensures ok
      ensures rows == old(rows)[docId := Placeholder(url)]
    {
      if docId !in rows {
        rows := rows[docId := Row(url, None, None, None, None, None)];
      } else {
        rows := rows[docId := rows[docId].(url := url, title := None, description := None,
                                           totalWords := None, corpus := None, vector := None)];
      }
      ok := true;
    }

    /**
     * `update_raw_webpage`: upserts every `doc_id -> url` of `content` in
     * one transaction. `failing` holds the doc_ids whose write the database
     * rejects; meeting one rolls the whole transaction back.
     */
    method UpdateRawWebpage(content: PyArg<map<string, string>>, failing: set<string>) returns (r: Result<nat>)
      modifies this
      ensures content.WrongType? ==> r == Err(ValueError) && rows == old(rows)
      ensures content.Arg? && content.value.Keys * failing != {} ==> r == Ok(0) && rows == old(rows)
      ensures content.Arg? && content.value.Keys * failing == {} ==>
        && r == Ok(|content.value.Keys|)
        && rows.Keys == old(rows).Keys + content.value.Keys
        && (forall d :: d in content.value ==> rows[d] == Placeholder(content.value[d]))
        && (forall d :: d in old(rows) && d !in content.value ==> rows[d] == old(rows)[d])
    {
      if content.WrongType? {
        return Err(ValueError);
      }
      var pages := content.value;
      var saved := rows;
      var keys := Enumerate(pages.Keys);
      var num := 0;
      assert keys[..0] == [];
      for i := 0 to |keys|
        invariant num == i
        invariant forall d :: d in keys[..i] ==> d !in failing
        invariant Upserted(saved, rows, pages, keys[..i])
      {
        var d := keys[i];
        if d in failing {
          assert d in pages.Keys * failing;
          rows := saved;
          return Ok(0);
        }
        assert keys[..i + 1] == keys[..i] + [d];
        UpsertNext(saved, rows, pages, keys[..i], d);
        var ok := UpdateWebpageRecord(d, pages[d]);
        if ok {
          num := num + 1;
        }
      }
      assert keys[..|keys|] == keys;
      UpsertedAll(saved, rows, pages, keys);
      assert pages.Keys * failing == {};
      r := Ok(num);
    }

    /**
     * `update_webpage_info`: sets title, description, total_words and corpus
     * of one row. `fault` says the database raised, which rolls back and
     * yields False.
     */
    method UpdateWebpageInfo(docId: string, title: Option<string>, description: Option<string>,
                             totalWords: Option<int>, corpus: Option<Bytes>, fault: bool) returns (ok: bool)
      modifies this
      ensures ok == !fault
      ensures ok && docId in old(rows) ==>
        rows == old(rows)[docId := old(rows)[docId].(title := title, description := description,
                                                     totalWords := totalWords, corpus := corpus)]
      ensures !ok || docId !in old(rows) ==> rows == old(rows)
    {
      if fault {
        return false;
      }
      if docId in rows {
        rows := rows[docId := rows[docId].(title := title, description := description,
                                           totalWords := totalWords, corpus := corpus)];
      }
      ok := true;
    }

    /**
     * `remove_duplicate`: deletes every row that is not the smallest doc_id
     * of its corpus group and returns exactly the deleted doc_ids. `fault`
     * says the database raised, which rolls back and yields [].
     */
    method RemoveDuplicate(fault: bool) returns (deleted: seq<string>)
      modifies this
      ensures fault ==> deleted == [] && rows == old(rows)
      ensures !fault ==>
        && (forall d :: d in deleted <==> d in Duplicates(old(rows)))
        && (forall i, j :: 0 <= i < j < |deleted| ==> deleted[i] != deleted[j])
        && rows.Keys == old(rows).Keys - Duplicates(old(rows))
        && (forall d :: d in rows ==> rows[d] == old(rows)[d])
    {
      if fault {
        return [];
      }
      var dups := Enumerate(Duplicates(rows));
      if dups == [] {
        return [];
      }
      ghost var before := rows;
      for i := 0 to |dups|
        invariant rows.Keys == before.Keys - (set j | 0 <= j < i :: dups[j])
        invariant forall d :: d in rows ==> rows[d] == before[d]
      {
        rows := rows - {dups[i]};
      }
      assert (set j | 0 <= j < |dups| :: dups[j]) == Duplicates(before);
      deleted := dups;
    }

    /** `update_tf_idf`: sets the vector column of one row and nothing else. */
    method UpdateTfIdf(docId: string, vector: string)
      modifies this
      ensures docId in old(rows) ==> rows == old(rows)[docId := old(rows)[docId].(vector := Some(vector))]
      ensures docId !in old(rows) ==> rows == old(rows)
    {
      if docId in rows {
        rows := rows[docId := rows[docId].(vector := Some(vector))];
      }
    }

    /** `get_all_doc_id`: every doc_id once. */
    method GetAllDocId() returns (ids: seq<string>)
      ensures forall d :: d in ids <==> d in rows
      ensures forall i, j :: 0 <= i < j < |ids| ==> ids[i] != ids[j]
    {
      ids := Enumerate(rows.Keys);
    }

    /** `get_total_length`: the number of rows. */
    function GetTotalLength(): (n: nat)
      reads this
      ensures n == |rows.Keys|
    {
      |rows|
    }

    /** `get_total_words`: the total_words column, which may be NULL; no row makes `fetchone()[0]` raise. */
    function GetTotalWords(docId: string): (r: Result<Option<int>>)
      reads this
      ensures r.Err? <==> docId !in rows
      ensures r.Err? ==> r.error == TypeError
      ensures r.Ok? ==> r.value == rows[docId].totalWords
    {
      if docId in rows then Ok(rows[docId].totalWords) else Err(TypeError)
    }

    /** `search_by_url`: every row with that URL. */
    method SearchByUrl(url: string) returns (found: seq<Listing>)
      ensures forall l :: l in found <==> l.docId in rows && rows[l.docId].url == url && l == ListingOf(l.docId, rows[l.docId])
      ensures forall i, j :: 0 <= i < j < |found| ==> found[i].docId != found[j].docId
    {
      var ids := Enumerate(rows.Keys);
      found := [];
      for i := 0 to |ids|
        invariant forall l :: l in found <==> exists j :: 0 <= j < i && rows[ids[j]].url == url && l == ListingOf(ids[j], rows[ids[j]])
        invariant forall a, b :: 0 <= a < b < |found| ==> found[a].docId != found[b].docId
        invariant forall l :: l in found ==> l.docId in ids[..i]
      {
        if rows[ids[i]].url == url {
          found := found + [ListingOf(ids[i], rows[ids[i]])];
        }
      }
    }

    /** `search_by_doc_id`: the row of that doc_id; at most one, since doc_id is the primary key. */
    function SearchByDocId(docId: string): (found: seq<Listing>)
      reads this
      ensures |found| <= 1
      ensures found == [] <==> docId !in rows
      ensures found != [] ==> found[0].docId == docId && found[0].url == rows[docId].url
      ensures found != [] ==> found[0].title == rows[docId].title && found[0].description == rows[docId].description
    {
      if docId in rows then [ListingOf(docId, rows[docId])] else []
    }
  }
}

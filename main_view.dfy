/**
 * The paging state of the search window: the current results cut into
 * pages of 10, and the index of the page on screen.
 */
module Views {
  import opened Common
  import opened Strings

  const PageSize := 10

  /** Consecutive slices of `size` elements, the last one possibly shorter. */
  function Chunks<T>(lst: seq<T>, size: nat): (r: seq<seq<T>>)
    requires lst != [] && size > 0
    ensures r != []
    ensures forall k :: 0 <= k < |r| - 1 ==> |r[k]| == size
    ensures 0 < |r[|r| - 1]| <= size
    decreases |lst|
  {
    if |lst| <= size then [lst] else [lst[..size]] + Chunks(lst[size..], size)
  }

  /** The pages put together give back the list. */
  lemma {:induction false} ChunksFlatten<T>(lst: seq<T>, size: nat)
    requires lst != [] && size > 0
    ensures Flatten(Chunks(lst, size)) == lst
    decreases |lst|
  {
    if |lst| > size {
      var rest := Chunks(lst[size..], size);
      assert Chunks(lst, size) == [lst[..size]] + rest;
      ChunksFlatten(lst[size..], size);
      FlattenCons(lst[..size], rest);
      assert lst[..size] + lst[size..] == lst;
    } else {
      assert Chunks(lst, size) == [lst];
      FlattenCons(lst, []);
      assert [lst] + [] == [lst] && lst + [] == lst;
    }
  }

  /** A slice of a suffix is a shifted slice of the whole. */
  lemma DropSlice<T>(s: seq<T>, n: nat, lo: nat, hi: nat)
    requires n <= |s| && lo <= hi <= |s| - n
    ensures s[n..][lo..hi] == s[n + lo..n + hi]
  {
    assert forall i :: 0 <= i < hi - lo ==> s[n..][lo..hi][i] == s[n + lo + i];
  }

  /** Neighbouring page offsets differ by one page. */
  lemma PageOffsets(k: nat, size: nat)
    requires k > 0
    ensures (k - 1) * size + size == k * size
    ensures k * size + size == (k + 1) * size
  {
  }

  /** Page `k` holds the elements from `k * size` up to the next page's first element or the end. */
  lemma {:induction false} ChunkAt<T>(lst: seq<T>, size: nat, k: nat)
    requires lst != [] && size > 0
    requires k < |Chunks(lst, size)|
    ensures k * size < |lst|
    ensures Chunks(lst, size)[k] == lst[k * size .. if (k + 1) * size < |lst| then (k + 1) * size else |lst|]
    decreases |lst|
  {
    if k > 0 {
      var rest := lst[size..];
      assert |lst| > size;
      assert Chunks(lst, size)[k] == Chunks(rest, size)[k - 1];
      ChunkAt(rest, size, k - 1);
      var lo, here, next := (k - 1) * size, k * size, (k + 1) * size;
      PageOffsets(k, size);
      var hi := if here < |rest| then here else |rest|;
      assert Chunks(rest, size)[k - 1] == rest[lo..hi];
      DropSlice(lst, size, lo, hi);
      var end := if next < |lst| then next else |lst|;
      assert lo + size == here && hi + size == end;
      assert Chunks(lst, size)[k] == lst[here..end];
      assert here < |lst|;
    } else {
      assert Chunks(lst, size)[0] == if |lst| <= size then lst else lst[..size];
    }
  }

  /**
   * `chunk_list`: the list in pages of `size`. The loop returns on its first
   * round, so an empty list (or a negative size) yields None; a size of 0
   * makes `range` raise.
   */
  function ChunkList<T>(lst: seq<T>, size: int): (r: Result<Option<seq<seq<T>>>>)
    ensures size == 0 <==> r.Err?
    ensures r.Ok? ==> (r.value.None? <==> lst == [] || size < 0)
    ensures r.Ok? && r.value.Some? ==> r.value.value != [] && forall k :: 0 <= k < |r.value.value| ==> r.value.value[k] != []
    ensures r.Ok? && r.value.Some? ==> size > 0 && r.value.value == Chunks(lst, size) && Flatten(r.value.value) == lst
  {
    if size == 0 then Err(ValueError)
    else if size < 0 || lst == [] then Ok(None)
    else
      ChunksFlatten(lst, size);
      Ok(Some(Chunks(lst, size)))
  }

  datatype Direction = Next | Prev | Other

  class MainView<T> {
    /** `_paged_results`: None until the first search returns results. */
    var pagedResults: Option<seq<seq<T>>>
    /** `_current_page`. */
    var currentPage: int

    /** The page index always names an existing page. */
    ghost predicate Valid()
      reads this
    {
      match pagedResults
      case None => currentPage == 0
      case Some(pages) => pages != [] && 0 <= currentPage < |pages| && forall k :: 0 <= k < |pages| ==> pages[k] != []
    }

    constructor ()
      ensures Valid() && pagedResults.None? && currentPage == 0
    {
      pagedResults := None;
      currentPage := 0;
    }

    /**
     * `on_change_page`: "next" moves on only before the last page, "prev"
     * moves back only after the first. Asking for the next page before any
     * results exist fails on `len(None)`.
     */
    method OnChangePage(direction: Direction) returns (r: Result<()>)
      requires Valid()
      modifies this
      ensures Valid()
      ensures pagedResults == old(pagedResults)
      ensures direction == Next && pagedResults.None? ==> r == Err(TypeError) && currentPage == old(currentPage)
      ensures direction == Next && pagedResults.Some? ==>
        r.Ok? && currentPage == (if old(currentPage) < |pagedResults.value| - 1 then old(currentPage) + 1 else old(currentPage))
      ensures direction == Prev ==> r.Ok? && currentPage == if old(currentPage) > 0 then old(currentPage) - 1 else old(currentPage)
      ensures direction == Other ==> r.Ok? && currentPage == old(currentPage)
    {
      r := Ok(());
      if direction == Next {
        if pagedResults.None? {
          return Err(TypeError);
        }
        if currentPage < |pagedResults.value| - 1 {
          currentPage := currentPage + 1;
        }
      } else if direction == Prev && currentPage > 0 {
        currentPage := currentPage - 1;
      }
    }

    /**
     * `event_handler` on a token or URL search result: pages of 10 and back
     * to the first page. An empty result makes `list(None)` raise before
     * anything is changed.
     */
    method ShowResults(results: seq<T>) returns (r: Result<()>)
      requires Valid()
      modifies this
      ensures Valid()
      ensures results == [] ==> r == Err(TypeError) && pagedResults == old(pagedResults) && currentPage == old(currentPage)
      ensures results != [] ==> r.Ok? && pagedResults == Some(Chunks(results, PageSize)) && currentPage == 0
    {
      var chunks := ChunkList(results, PageSize);
      if chunks.Err? || chunks.value.None? {
        return Err(TypeError);
      }
      pagedResults := chunks.value;
      currentPage := 0;
      r := Ok(());
    }

    /** The results on screen: page `currentPage`, numbered from `currentPage * 10 + 1`. */
    function CurrentResults(): (page: seq<T>)
      reads this
      requires Valid() && pagedResults.Some?
      ensures page != []
    {
      pagedResults.value[currentPage]
    }
  }

  /** After a search the screen shows the first 10 results (or all of them, when fewer). */
  lemma FirstPageAfterSearch<T>(results: seq<T>)
    requires results != []
    ensures Chunks(results, PageSize)[0] == results[..if PageSize < |results| then PageSize else |results|]
  {
    ChunkAt(results, PageSize, 0);
  }
}

/**
 The `Table` component (src/components/Table.tsx:13-118) as an object whose
 fields are the component's state and its page cache, and whose methods are the
 event handlers that update them. Rendering is not modelled; the selection the
 table is shown is `Selection.VisibleSelection(selected, data)`.
 */
module TableComponent {
  import opened Artworks
  import opened Dedup
  import opened Selection
  import opened BulkRange

  /** The rows per page the component starts with. */
  const InitialRows := 12

  /** The 1-based page shown at paginator offset `first` with `rows` rows per
      page (`first / rows + 1`); the paginator only produces offsets that are
      multiples of the page size. */
  function PageIndex(first: int, rows: int): (page: int)
    requires rows >= 1 && first >= 0 && first % rows == 0
    ensures page >= 1
    ensures (page - 1) * rows == first
  {
    first / rows + 1
  }

  /** The first loop of `handleOverlayAction` (src/components/Table.tsx:73-79):
      the pages among 1..pagesNeeded the cache lacks, ascending. */
  method CollectMissingPages(cache: Cache, pagesNeeded: nat) returns (pagesToFetch: seq<int>)
    ensures pagesToFetch == MissingPages(cache, pagesNeeded)
    ensures forall p :: p in pagesToFetch <==> 1 <= p <= pagesNeeded && p !in cache
  {
    pagesToFetch := [];
    var page := 1;
    while page <= pagesNeeded
      invariant 1 <= page <= pagesNeeded + 1
      invariant pagesToFetch == MissingPages(cache, page - 1)
    {
      if page !in cache {
        pagesToFetch := pagesToFetch + [page];
      }
      page := page + 1;
    }
    MissingPagesExact(cache, pagesNeeded);
  }

  /** `Promise.all(pagesToFetch.map(page => fetch(page, rowsPerPage)))`
      (src/components/Table.tsx:81-83), run in page order: every request is
      issued, and the combined result succeeds only if each one does. */
  method FetchPages(pages: seq<int>, limit: int, fetcher: Fetcher)
    returns (results: seq<FetchOutcome>, requests: seq<PageRequest>, allFetched: bool)
    ensures |results| == |pages|
    ensures forall k :: 0 <= k < |pages| ==> results[k] == fetcher(pages[k], limit)
    ensures requests == RequestsFor(pages, limit)
    ensures allFetched <==> forall p :: p in pages ==> fetcher(p, limit).Fetched?
  {
    results, requests, allFetched := [], [], true;
    var i := 0;
    while i < |pages|
      invariant 0 <= i <= |pages|
      invariant |results| == i && |requests| == i
      invariant forall k :: 0 <= k < i ==>
        results[k] == fetcher(pages[k], limit) && requests[k] == PageRequest(pages[k], limit)
      invariant allFetched <==> forall k :: 0 <= k < i ==> results[k].Fetched?
    {
      var res := fetcher(pages[i], limit);
      requests := requests + [PageRequest(pages[i], limit)];
      results := results + [res];
      allFetched := allFetched && res.Fetched?;
      i := i + 1;
    }
  }

  /** The concatenation loop of `handleOverlayAction`
      (src/components/Table.tsx:90-96): the cached pages 1..pagesNeeded in page
      order. */
  method ConcatCachedPages(cache: Cache, pagesNeeded: nat) returns (allArtworks: seq<Artwork>)
    ensures allArtworks == ConcatPages(cache, pagesNeeded)
  {
    allArtworks := [];
    var page := 1;
    while page <= pagesNeeded
      invariant 1 <= page <= pagesNeeded + 1
      invariant allArtworks == ConcatPages(cache, page - 1)
    {
      if page in cache {
        allArtworks := allArtworks + cache[page];
      }
      page := page + 1;
    }
  }

  class Table {
    /** The records of the page on display. */
    var data: seq<Artwork>
    /** The total number of records, as last reported by the remote source. */
    var totalRecords: int
    /** The paginator offset and page size. */
    var first: int
    var rows: int
    /** The cross-page selection. */
    var selected: seq<Artwork>
    /** Whether the loading overlay is up. */
    var loading: bool
    /** Pages fetched so far this session, by page number. */
    var cache: Cache

    ghost predicate Valid()
      reads this
    {
      rows >= 1 && first >= 0 && first % rows == 0 && DistinctIds(selected)
    }

    /** The initial state of the component (src/components/Table.tsx:14-21). */
    constructor ()
      ensures Valid()
      ensures data == [] && totalRecords == 0 && first == 0 && rows == InitialRows
      ensures selected == [] && !loading && cache == map[]
    {
      data, totalRecords, first, rows := [], 0, 0, InitialRows;
      selected, loading, cache := [], false, map[];
    }

    /** `fetchAndCachePage`: show a cached page without asking the remote source;
        otherwise fetch it, and on success show it, take its total and cache it.
        A failed fetch changes nothing but the loading flag. `requested` tells
        whether the remote source was called. */
    method FetchAndCachePage(page: int, limit: int, fetcher: Fetcher) returns (requested: bool)
      requires Valid()
      modifies this
      ensures Valid()
      ensures requested <==> page !in old(cache)
      ensures !requested ==>
        && data == old(cache)[page]
        && totalRecords == old(totalRecords) && cache == old(cache) && loading == old(loading)
      ensures requested ==> !loading
      ensures requested && fetcher(page, limit).Fetched? ==>
        && data == fetcher(page, limit).artworks
        && totalRecords == fetcher(page, limit).total
        && cache == old(cache)[page := fetcher(page, limit).artworks]
      ensures requested && fetcher(page, limit).FetchFailed? ==>
        data == old(data) && totalRecords == old(totalRecords) && cache == old(cache)
      ensures selected == old(selected) && first == old(first) && rows == old(rows)
      ensures forall p :: p in old(cache) ==> p in cache && cache[p] == old(cache)[p]
    {
      if page in cache {
        data := cache[page];
        return false;
      }
      requested := true;
      loading := true;
      match fetcher(page, limit) {
        case Fetched(artworks, total) =>
          data := artworks;
          totalRecords := total;
          cache := cache[page := artworks];
        case FetchFailed =>
          // the component logs the error and keeps its state
      }
      loading := false;
    }

    /** The initial load when the component mounts (src/components/Table.tsx:24-27):
        the page at the initial offset and page size. */
    method Mount(fetcher: Fetcher) returns (requested: bool)
      requires Valid()
      modifies this
      ensures Valid()
      ensures var page := PageIndex(old(first), old(rows));
        && (requested <==> page !in old(cache))
        && (!requested ==>
              && data == old(cache)[page]
              && totalRecords == old(totalRecords) && cache == old(cache) && loading == old(loading))
        && (requested ==> !loading)
        && (requested && fetcher(page, old(rows)).Fetched? ==>
              && data == fetcher(page, old(rows)).artworks
              && totalRecords == fetcher(page, old(rows)).total
              && cache == old(cache)[page := fetcher(page, old(rows)).artworks])
        && (requested && fetcher(page, old(rows)).FetchFailed? ==>
              data == old(data) && totalRecords == old(totalRecords) && cache == old(cache))
      ensures selected == old(selected) && first == old(first) && rows == old(rows)
      ensures forall p :: p in old(cache) ==> p in cache && cache[p] == old(cache)[p]
    {
      requested := FetchAndCachePage(PageIndex(first, rows), rows, fetcher);
    }

    /** `onPage`: record the new offset and page size, then load page
        `newFirst / newRows + 1` through the cache. */
    method OnPage(newFirst: int, newRows: int, fetcher: Fetcher) returns (requested: bool)
      requires Valid()
      requires newRows >= 1 && newFirst >= 0 && newFirst % newRows == 0
      modifies this
      ensures Valid()
      ensures first == newFirst && rows == newRows
      ensures var page := PageIndex(newFirst, newRows);
        && (requested <==> page !in old(cache))
        && (!requested ==>
              && data == old(cache)[page]
              && totalRecords == old(totalRecords) && cache == old(cache) && loading == old(loading))
        && (requested ==> !loading)
        && (requested && fetcher(page, newRows).Fetched? ==>
              && data == fetcher(page, newRows).artworks
              && totalRecords == fetcher(page, newRows).total
              && cache == old(cache)[page := fetcher(page, newRows).artworks])
        && (requested && fetcher(page, newRows).FetchFailed? ==>
              data == old(data) && totalRecords == old(totalRecords) && cache == old(cache))
      ensures selected == old(selected)
      ensures forall p :: p in old(cache) ==> p in cache && cache[p] == old(cache)[p]
    {
      first := newFirst;
      rows := newRows;
      requested := FetchAndCachePage(PageIndex(newFirst, newRows), newRows, fetcher);
    }

    /** The cache-write loop of `handleOverlayAction`
        (src/components/Table.tsx:85-88): `dataCache.set(page, res.artworks)` for
        each fetched page, in order. */
    method StoreFetchedPages(pages: seq<int>, results: seq<FetchOutcome>, ghost limit: int, ghost fetcher: Fetcher)
      requires |results| == |pages|
      requires forall k :: 0 <= k < |pages| ==> results[k] == fetcher(pages[k], limit)
      requires forall p :: p in pages ==> fetcher(p, limit).Fetched?
      requires forall p :: p in pages ==> p !in cache
      modifies this
      ensures cache == StorePages(old(cache), pages, limit, fetcher)
      ensures forall p :: p in old(cache) ==> p in cache && cache[p] == old(cache)[p]
      ensures data == old(data) && totalRecords == old(totalRecords) && loading == old(loading)
      ensures first == old(first) && rows == old(rows) && selected == old(selected)
    {
      var i := 0;
      while i < |pages|
        invariant 0 <= i <= |pages|
        invariant forall p :: p in pages[..i] ==> fetcher(p, limit).Fetched?
        invariant cache == StorePages(old(cache), pages[..i], limit, fetcher)
        invariant data == old(data) && totalRecords == old(totalRecords) && loading == old(loading)
        invariant first == old(first) && rows == old(rows) && selected == old(selected)
      {
        StorePagesNext(old(cache), pages, i, limit, fetcher);
        cache := cache[pages[i] := results[i].artworks];
        i := i + 1;
      }
      assert pages[..i] == pages;
      StorePagesEffect(old(cache), pages, limit, fetcher);
    }

    /** The last step of `handleOverlayAction` (src/components/Table.tsx:99-101):
        the selection becomes the de-duplicated first `count` records. */
    method SelectFirstRecords(allArtworks: seq<Artwork>, count: nat)
      requires Valid()
      modifies this
      ensures Valid()
      ensures selected == DedupById(Take(allArtworks, count))
      ensures data == old(data) && totalRecords == old(totalRecords) && loading == old(loading)
      ensures first == old(first) && rows == old(rows) && cache == old(cache)
    {
      var sliced := if count <= |allArtworks| then allArtworks[..count] else allArtworks;
      selected := DedupById(sliced);
    }

    /** The success path of `handleOverlayAction` (src/components/Table.tsx:85-101):
        cache the fetched pages, then select the de-duplicated first `count`
        records of pages 1..pagesNeeded. */
    method CommitBulkSelection(count: int, rowsPerPage: int, pagesToFetch: seq<int>,
                               results: seq<FetchOutcome>, ghost fetcher: Fetcher)
      requires Valid()
      requires count >= 1 && rowsPerPage >= 1
      requires pagesToFetch == MissingPages(cache, CeilDiv(count, rowsPerPage))
      requires |results| == |pagesToFetch|
      requires forall k :: 0 <= k < |pagesToFetch| ==> results[k] == fetcher(pagesToFetch[k], rowsPerPage)
      requires forall p :: p in pagesToFetch ==> fetcher(p, rowsPerPage).Fetched?
      modifies this
      ensures Valid()
      ensures BulkSelect(old(cache), count, rowsPerPage, fetcher) == BulkSelected(cache, selected)
      ensures data == old(data) && totalRecords == old(totalRecords) && loading == old(loading)
      ensures first == old(first) && rows == old(rows)
      ensures forall p :: p in old(cache) ==> p in cache && cache[p] == old(cache)[p]
    {
      var pagesNeeded := CeilDiv(count, rowsPerPage);
      ghost var before := cache;
      assert forall p :: p in pagesToFetch ==> p !in cache by {
        MissingPagesExact(cache, pagesNeeded);
      }
      StoreFetchedPages(pagesToFetch, results, rowsPerPage, fetcher);
      var allArtworks := ConcatCachedPages(cache, pagesNeeded);
      SelectFirstRecords(allArtworks, count);
      BulkSelectWhenAllFetched(before, count, rowsPerPage, fetcher);
    }

    /** `handleOverlayAction`: select the first `count` rows across pages of
        `rowsPerPage` rows. Every uncached page among 1..pagesNeeded is requested,
        in ascending order; if any request fails nothing is committed, otherwise
        the fetched pages are cached and the selection is replaced by the
        de-duplicated first `count` records of pages 1..pagesNeeded. */
    method HandleOverlayAction(count: int, rowsPerPage: int, fetcher: Fetcher)
      returns (ok: bool, requests: seq<PageRequest>)
      requires Valid()
      requires count >= 1 && rowsPerPage >= 1
      modifies this
      ensures Valid()
      ensures requests == RequestsFor(MissingPages(old(cache), CeilDiv(count, rowsPerPage)), rowsPerPage)
      ensures ok <==> BulkSelect(old(cache), count, rowsPerPage, fetcher).BulkSelected?
      ensures ok ==> BulkSelect(old(cache), count, rowsPerPage, fetcher) == BulkSelected(cache, selected)
      ensures !ok ==> cache == old(cache) && selected == old(selected)
      ensures data == old(data) && totalRecords == old(totalRecords) && loading == old(loading)
      ensures first == old(first) && rows == old(rows)
      ensures forall p :: p in old(cache) ==> p in cache && cache[p] == old(cache)[p]
    {
      var pagesNeeded := CeilDiv(count, rowsPerPage);
      var pagesToFetch := CollectMissingPages(cache, pagesNeeded);
      var fetchedResults, allFetched;
      fetchedResults, requests, allFetched := FetchPages(pagesToFetch, rowsPerPage, fetcher);
      if !allFetched {
        ghost var failed :| failed in pagesToFetch && fetcher(failed, rowsPerPage).FetchFailed?;
        BulkSelectWhenOneFails(cache, count, rowsPerPage, fetcher, failed);
        return false, requests;
      }
      CommitBulkSelection(count, rowsPerPage, pagesToFetch, fetchedResults, fetcher);
      ok := true;
    }

    /** `handleSelectionChange`: reconcile the rows the table reports as checked
        on the current page with the selection kept across pages. When those rows
        are distinct rows of the page, the table is afterwards shown exactly them
        and the selection off the page is unchanged. */
    method HandleSelectionChange(checked: seq<Artwork>)
      requires Valid()
      modifies this
      ensures Valid()
      ensures selected == ApplySelectionChange(old(selected), data, checked)
      ensures DistinctIds(checked) && IdSet(checked) <= IdSet(data) ==>
        && VisibleSelection(selected, data) == checked
        && WithoutIds(selected, IdSet(data)) == WithoutIds(old(selected), IdSet(data))
      ensures data == old(data) && totalRecords == old(totalRecords) && loading == old(loading)
      ensures first == old(first) && rows == old(rows) && cache == old(cache)
    {
      if DistinctIds(checked) && IdSet(checked) <= IdSet(data) {
        SelectionChangeRoundTrip(selected, data, checked);
      }
      selected := ApplySelectionChange(selected, data, checked);
    }
  }
}

/**
 The page cache as a value, and the meaning of the bulk "select the first N rows"
 action (`handleOverlayAction`, src/components/Table.tsx:61-104) as a function
 of the cache, the requested count, the page size and the fetcher. The class in
 table.dfy carries out the same steps with loops and is proved to agree with
 `BulkSelect`; the lemmas here state what that outcome guarantees.
 */
module BulkRange {
  import opened Artworks
  import opened Dedup

  /** The page cache: page number to the records of that page. It is keyed by the
      page number alone, not by the page size the page was fetched with. */
  type Cache = map<int, seq<Artwork>>

  /** One request to the fetcher. */
  datatype PageRequest = PageRequest(page: int, limit: int)

  /** The result of a bulk selection: the cache and selection it commits, or a
      failure that commits nothing. */
  datatype BulkOutcome =
    | BulkSelected(cache: Cache, selection: seq<Artwork>)
    | BulkFailed

  /** `Math.ceil(count / rowsPerPage)` for the positive integers the row selector
      lets through: the fewest pages of `rowsPerPage` rows that hold `count` rows. */
  function CeilDiv(count: int, rowsPerPage: int): (n: nat)
    requires count >= 1 && rowsPerPage >= 1
    ensures n >= 1
    ensures (n - 1) * rowsPerPage < count <= n * rowsPerPage
  {
    var q, rem := (count + rowsPerPage - 1) / rowsPerPage, (count + rowsPerPage - 1) % rowsPerPage;
    assert count + rowsPerPage - 1 == q * rowsPerPage + rem;
    assert (q - 1) * rowsPerPage == q * rowsPerPage - rowsPerPage;
    q
  }

  /** The pages among 1..n that the cache lacks, in ascending order (the first
      loop of `handleOverlayAction`). */
  function MissingPages(cache: Cache, n: nat): (ps: seq<int>)
  {
    if n == 0 then []
    else MissingPages(cache, n - 1) + (if n in cache then [] else [n])
  }

  /** The cached pages 1..n concatenated in page order; a page the cache lacks
      contributes nothing. */
  function ConcatPages(cache: Cache, n: nat): (s: seq<Artwork>)
  {
    if n == 0 then []
    else ConcatPages(cache, n - 1) + (if n in cache then cache[n] else [])
  }

  /** `s.slice(0, count)` for a non-negative count. */
  function Take(s: seq<Artwork>, count: nat): (r: seq<Artwork>)
    ensures |r| <= count && |r| <= |s|
    ensures count <= |s| ==> |r| == count
    ensures count > |s| ==> r == s
    ensures r <= s
  {
    if count <= |s| then s[..count] else s
  }

  /** The fetch requests for the given pages, each with the given limit. */
  function RequestsFor(pages: seq<int>, limit: int): (rs: seq<PageRequest>)
    ensures |rs| == |pages|
    ensures forall i :: 0 <= i < |pages| ==> rs[i].page == pages[i] && rs[i].limit == limit
  {
    seq(|pages|, i requires 0 <= i < |pages| => PageRequest(pages[i], limit))
  }

  /** Writes the fetched pages into the cache in order, one `dataCache.set` per
      page. */
  function StorePages(cache: Cache, pages: seq<int>, limit: int, fetcher: Fetcher): (c: Cache)
    requires forall p :: p in pages ==> fetcher(p, limit).Fetched?
  {
    if pages == [] then cache
    else
      var init, last := pages[..|pages| - 1], pages[|pages| - 1];
      assert forall p :: p in init ==> p in pages;
      StorePages(cache, init, limit, fetcher)[last := fetcher(last, limit).artworks]
  }

  /** Storing one more page of a list is one more `set`. */
  lemma StorePagesNext(cache: Cache, pages: seq<int>, i: nat, limit: int, fetcher: Fetcher)
    requires i < |pages|
    requires forall p :: p in pages ==> fetcher(p, limit).Fetched?
    ensures forall p :: p in pages[..i] ==> fetcher(p, limit).Fetched?
    ensures forall p :: p in pages[..i + 1] ==> fetcher(p, limit).Fetched?
    ensures StorePages(cache, pages[..i + 1], limit, fetcher)
         == StorePages(cache, pages[..i], limit, fetcher)[pages[i] := fetcher(pages[i], limit).artworks]
  {
    assert pages[..i + 1][..i] == pages[..i];
    assert forall p :: p in pages[..i + 1] ==> p in pages;
  }

  /** Storing pages adds exactly those pages, each with its fetched records, and
      leaves every other cached page as it was. */
  lemma {:induction false} StorePagesEffect(cache: Cache, pages: seq<int>, limit: int, fetcher: Fetcher)
    requires forall p :: p in pages ==> fetcher(p, limit).Fetched?
    ensures forall p :: p in StorePages(cache, pages, limit, fetcher) <==> p in cache || p in pages
    ensures forall p :: p in pages ==> StorePages(cache, pages, limit, fetcher)[p] == fetcher(p, limit).artworks
    ensures forall p :: p in cache && p !in pages ==> StorePages(cache, pages, limit, fetcher)[p] == cache[p]
  {
    if pages != [] {
      var init, last := pages[..|pages| - 1], pages[|pages| - 1];
      assert pages == init + [last];
      assert forall p :: p in init ==> p in pages;
      StorePagesEffect(cache, init, limit, fetcher);
    }
  }

  /** The bulk selection of the first `count` rows with pages of `rowsPerPage`
      rows. Every missing page among 1..pagesNeeded is requested; if any request
      fails nothing is committed. Otherwise the fetched pages are added to the
      cache and the selection becomes the de-duplicated first `count` records of
      the cached pages 1..pagesNeeded. The previous selection plays no part. */
  function BulkSelect(cache: Cache, count: int, rowsPerPage: int, fetcher: Fetcher): (r: BulkOutcome)
    requires count >= 1 && rowsPerPage >= 1
    ensures r.BulkSelected? ==> |r.selection| <= count && DistinctIds(r.selection)
  {
    var pagesNeeded := CeilDiv(count, rowsPerPage);
    var missing := MissingPages(cache, pagesNeeded);
    if exists p :: p in missing && fetcher(p, rowsPerPage).FetchFailed? then
      BulkFailed
    else
      var filled := StorePages(cache, missing, rowsPerPage, fetcher);
      BulkSelected(filled, DedupById(Take(ConcatPages(filled, pagesNeeded), count)))
  }

  /** Unfolding step for callers: when every missing page fetches, BulkSelect
      commits the filled cache and the selection taken from it. */
  lemma BulkSelectWhenAllFetched(cache: Cache, count: int, rowsPerPage: int, fetcher: Fetcher)
    requires count >= 1 && rowsPerPage >= 1
    requires forall p :: p in MissingPages(cache, CeilDiv(count, rowsPerPage)) ==> fetcher(p, rowsPerPage).Fetched?
    ensures var filled := StorePages(cache, MissingPages(cache, CeilDiv(count, rowsPerPage)), rowsPerPage, fetcher);
      BulkSelect(cache, count, rowsPerPage, fetcher)
      == BulkSelected(filled, DedupById(Take(ConcatPages(filled, CeilDiv(count, rowsPerPage)), count)))
  {
  }

  /** Unfolding step for callers: when some missing page fails to fetch,
      BulkSelect commits nothing. */
  lemma BulkSelectWhenOneFails(cache: Cache, count: int, rowsPerPage: int, fetcher: Fetcher, page: int)
    requires count >= 1 && rowsPerPage >= 1
    requires page in MissingPages(cache, CeilDiv(count, rowsPerPage)) && fetcher(page, rowsPerPage).FetchFailed?
    ensures BulkSelect(cache, count, rowsPerPage, fetcher) == BulkFailed
  {
  }

  /** The pages requested are exactly the uncached pages among 1..n, ascending. */
  lemma {:induction false} MissingPagesExact(cache: Cache, n: nat)
    ensures forall p :: p in MissingPages(cache, n) <==> 1 <= p <= n && p !in cache
    ensures forall i, j :: 0 <= i < j < |MissingPages(cache, n)| ==>
      MissingPages(cache, n)[i] < MissingPages(cache, n)[j]
  {
    if n > 0 {
      MissingPagesExact(cache, n - 1);
      var prev := MissingPages(cache, n - 1);
      assert forall i :: 0 <= i < |prev| ==> prev[i] in prev;
    }
  }

  /** The requests a bulk selection issues are exactly one per uncached page
      among 1..n, each with the given limit, in ascending page order. */
  lemma RequestsForMissingPages(cache: Cache, n: nat, limit: int)
    ensures var rs := RequestsFor(MissingPages(cache, n), limit);
      && (forall q: PageRequest :: q in rs <==> 1 <= q.page <= n && q.page !in cache && q.limit == limit)
      && (forall i, j :: 0 <= i < j < |rs| ==> rs[i].page < rs[j].page)
  {
    var missing := MissingPages(cache, n);
    var rs := RequestsFor(missing, limit);
    MissingPagesExact(cache, n);
    forall q: PageRequest | 1 <= q.page <= n && q.page !in cache && q.limit == limit
      ensures q in rs
    {
      var i :| 0 <= i < |missing| && missing[i] == q.page;
      assert rs[i] == q;
    }
    forall q: PageRequest | q in rs
      ensures 1 <= q.page <= n && q.page !in cache && q.limit == limit
    {
      var i :| 0 <= i < |rs| && rs[i] == q;
      assert missing[i] in missing;
    }
  }

  /** A bulk selection fails exactly when some uncached page among 1..pagesNeeded
      fails to fetch. */
  lemma BulkSelectFailsIff(cache: Cache, count: int, rowsPerPage: int, fetcher: Fetcher)
    requires count >= 1 && rowsPerPage >= 1
    ensures BulkSelect(cache, count, rowsPerPage, fetcher).BulkFailed?
        <==> exists p :: 1 <= p <= CeilDiv(count, rowsPerPage) && p !in cache
                         && fetcher(p, rowsPerPage).FetchFailed?
  {
    MissingPagesExact(cache, CeilDiv(count, rowsPerPage));
  }

  /** A successful bulk selection only adds the pages it fetched: every page
      cached before keeps its records (whatever page size it was fetched with, and
      whether or not it lies beyond pagesNeeded), every new entry is a fetched page
      among 1..pagesNeeded, and afterwards all of 1..pagesNeeded are cached. */
  lemma BulkSelectCacheEffect(cache: Cache, count: int, rowsPerPage: int, fetcher: Fetcher)
    requires count >= 1 && rowsPerPage >= 1
    requires BulkSelect(cache, count, rowsPerPage, fetcher).BulkSelected?
    ensures var filled := BulkSelect(cache, count, rowsPerPage, fetcher).cache;
      && (forall p :: p in cache ==> p in filled && filled[p] == cache[p])
      && (forall p :: 1 <= p <= CeilDiv(count, rowsPerPage) ==> p in filled)
      && (forall p :: p in filled && p !in cache ==>
            1 <= p <= CeilDiv(count, rowsPerPage)
            && fetcher(p, rowsPerPage).Fetched? && filled[p] == fetcher(p, rowsPerPage).artworks)
  {
    var missing := MissingPages(cache, CeilDiv(count, rowsPerPage));
    MissingPagesExact(cache, CeilDiv(count, rowsPerPage));
    StorePagesEffect(cache, missing, rowsPerPage, fetcher);
  }

  /** The concatenation of n cached pages of `size` records each holds n * size
      records. */
  lemma {:induction false} ConcatFullPagesLength(cache: Cache, n: nat, size: nat)
    requires forall p :: 1 <= p <= n ==> p in cache && |cache[p]| == size
    ensures |ConcatPages(cache, n)| == n * size
  {
    if n > 0 {
      ConcatFullPagesLength(cache, n - 1, size);
    }
  }

  /** When the pages 1..pagesNeeded are all full and carry distinct ids, a bulk
      selection of `count` rows is exactly the first `count` records in page order. */
  lemma BulkSelectFullPages(cache: Cache, count: int, rowsPerPage: int, fetcher: Fetcher)
    requires count >= 1 && rowsPerPage >= 1
    requires BulkSelect(cache, count, rowsPerPage, fetcher).BulkSelected?
    requires var filled := BulkSelect(cache, count, rowsPerPage, fetcher).cache;
      && (forall p :: 1 <= p <= CeilDiv(count, rowsPerPage) ==> p in filled && |filled[p]| == rowsPerPage)
      && DistinctIds(ConcatPages(filled, CeilDiv(count, rowsPerPage)))
    ensures var r := BulkSelect(cache, count, rowsPerPage, fetcher);
      && count <= |ConcatPages(r.cache, CeilDiv(count, rowsPerPage))|
      && r.selection == ConcatPages(r.cache, CeilDiv(count, rowsPerPage))[..count]
      && |r.selection| == count
  {
    var n := CeilDiv(count, rowsPerPage);
    var filled := BulkSelect(cache, count, rowsPerPage, fetcher).cache;
    var all := ConcatPages(filled, n);
    ConcatFullPagesLength(filled, n, rowsPerPage);
    assert DistinctIds(all[..count]);
    DedupOfDistinct(all[..count]);
  }

  lemma {:induction false} NothingMissingWhenCached(cache: Cache, n: nat)
    requires forall p :: 1 <= p <= n ==> p in cache
    ensures MissingPages(cache, n) == []
  {
    if n > 0 {
      NothingMissingWhenCached(cache, n - 1);
    }
  }

  /** With the pages 1..pagesNeeded all cached, a bulk selection requests nothing,
      keeps the cache and selects from the cached pages. */
  lemma BulkSelectFromCache(cache: Cache, count: int, rowsPerPage: int, fetcher: Fetcher)
    requires count >= 1 && rowsPerPage >= 1
    requires forall p :: 1 <= p <= CeilDiv(count, rowsPerPage) ==> p in cache
    ensures MissingPages(cache, CeilDiv(count, rowsPerPage)) == []
    ensures BulkSelect(cache, count, rowsPerPage, fetcher)
         == BulkSelected(cache, DedupById(Take(ConcatPages(cache, CeilDiv(count, rowsPerPage)), count)))
  {
    var n := CeilDiv(count, rowsPerPage);
    NothingMissingWhenCached(cache, n);
  }

  /** Repeating a successful bulk selection with the same count and page size
      requests no page and yields the same cache and selection, whatever the
      fetcher would now return. */
  lemma BulkSelectIdempotent(cache: Cache, count: int, rowsPerPage: int, fetcher: Fetcher, later: Fetcher)
    requires count >= 1 && rowsPerPage >= 1
    requires BulkSelect(cache, count, rowsPerPage, fetcher).BulkSelected?
    ensures var r := BulkSelect(cache, count, rowsPerPage, fetcher);
      && MissingPages(r.cache, CeilDiv(count, rowsPerPage)) == []
      && BulkSelect(r.cache, count, rowsPerPage, later) == r
  {
    BulkSelectCacheEffect(cache, count, rowsPerPage, fetcher);
    BulkSelectFromCache(BulkSelect(cache, count, rowsPerPage, fetcher).cache, count, rowsPerPage, later);
  }
}

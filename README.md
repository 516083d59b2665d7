# Artworks table: selection and page cache

This project models the state logic of the `Table` component of the artworks
viewer. The component shows one page of artworks at a time from a remote
collection and keeps the pages it has fetched in a page cache. It also keeps a
selection of artworks that spans pages. The model covers:

- **Paging through the cache.** `onPage` and the initial mount load page
  `first / rows + 1`. `fetchAndCachePage` serves that page from the cache when
  it can. Otherwise it asks the remote source, and on success it shows the page,
  takes the reported total and caches the page.
- **Selection changes.** A checkbox event on the page removes every selected
  artwork whose id is on the page. It then appends the rows the table reports as
  checked and de-duplicates by id. The table is shown the selected artworks that
  match a row of the page.
- **Bulk "select the first N rows".** The selection is replaced by the first
  `count` artworks of pages `1..ceil(count / rowsPerPage)`. Any of those pages
  the cache lacks are fetched first and cached.
- **De-duplication by id.** Both selection paths build a JavaScript `Map` from
  id to artwork and take its values. The result has one entry per id, in the
  order of that id's first occurrence, holding the artwork from its last
  occurrence.

Layout:

- `artworks.dfy` (`Artworks`): the artwork record, the outcome of one page
  request, and id sets.
- `dedup.dfy` (`Dedup`): the `Map`-based de-duplication. It is written as a left
  fold of `MapSet`, which models one `Map.set`.
- `selection.dfy` (`Selection`): the selection change and the visible
  selection, as pure functions.
- `bulk_select.dfy` (`BulkRange`): the bulk selection as a pure function of the
  cache and the remote source, with its properties.
- `table.dfy` (`TableComponent`): the component as a class. Its fields are the
  component's state and its cache. Its methods are the event handlers, each
  proved against the functions above.

The remote source is a parameter: a total function from `(page, limit)` to
`Fetched(artworks, total)` or `FetchFailed`.

## Model

| member | source | states |
|---|---|---|
| Dedup.MapSet | src/components/Table.tsx:99-101 | `Map.set` on a sequence of entries. A key already present keeps its position and takes the new value. A new key is appended. Id set grows by the key, and distinct ids stay distinct. |
| Dedup.DedupById | src/components/Table.tsx:99-101 | The `Map` idiom yields distinct ids, exactly the input's ids, and no more entries than the input. |
| Dedup.DedupFirstOccurrenceOrder | src/components/Table.tsx:113-115 | Entries are ordered by the position of their id's first occurrence in the input. |
| Dedup.DedupLastOccurrenceValue | src/components/Table.tsx:113-115 | Each entry is the input's record at the last occurrence of its id. |
| Dedup.DedupCharacterised | src/components/Table.tsx:113-115 | These three properties together (same ids, first-occurrence order, last-occurrence values) determine the result: any sequence with them equals the de-duplication. |
| Dedup.DedupOfDistinct | src/components/Table.tsx:99-101 | De-duplicating a sequence whose ids are already distinct returns it unchanged. |
| Dedup.DedupAfterDistinctPrefix | src/components/Table.tsx:108-115 | A distinct prefix whose ids do not recur later passes through de-duplication untouched, in front of the de-duplicated rest. |
| Selection.WithoutIds | src/components/Table.tsx:107-109 | The filter `!currentPageIds.has(item.id)` keeps exactly the ids outside the page, keeps distinct ids distinct, and never grows. |
| Selection.ApplySelectionChange | src/components/Table.tsx:106-118 | After a change event the selected ids are the previously selected ids not on the page, together with the checked ids, with no id twice. |
| Selection.VisibleSelection | src/components/Table.tsx:134-136 | The table is shown exactly the selected ids that are on the page, each entry being a record of the selection, with no id twice. |
| Selection.SelectionChangeKeepsOtherPages | src/components/Table.tsx:107-115 | When the checked rows belong to the page, the selection off the page is kept with its values and order, in front of the checked rows. |
| Selection.SelectionChangeRoundTrip | src/components/Table.tsx:106-118 | After a change event with distinct checked rows of the page, the table is shown exactly those rows, and the selection off the page is what it was. |
| BulkRange.CeilDiv | src/components/Table.tsx:72 | `pagesNeeded` is the least page count whose pages hold `count` rows, and it is at least 1. |
| BulkRange.Take | src/components/Table.tsx:98 | `slice(0, count)` is a prefix of the input. It has exactly `count` records when there are enough, and is the whole input otherwise. |
| BulkRange.RequestsForMissingPages | src/components/Table.tsx:72-83 | The requests issued are exactly one per uncached page among `1..pagesNeeded`, each with limit `rowsPerPage`, in strictly ascending page order. |
| BulkRange.MissingPagesExact | src/components/Table.tsx:73-79 | The pages to fetch are exactly the uncached pages among `1..pagesNeeded`, strictly ascending. |
| BulkRange.StorePagesEffect | src/components/Table.tsx:85-88 | Writing the fetched pages adds exactly those keys, stores each fetched page's records, and leaves every other entry alone. |
| BulkRange.BulkSelect | src/components/Table.tsx:61-104 | A successful bulk selection has at most `count` records and no id twice. |
| BulkRange.BulkSelectFailsIff | src/components/Table.tsx:81-88 | The bulk selection fails exactly when some page it has to fetch fails. |
| BulkRange.BulkSelectCacheEffect | src/components/Table.tsx:75-88 | On success, every earlier cache entry is kept, pages `1..pagesNeeded` are all cached, and each new entry is a fetched page among them. |
| BulkRange.BulkSelectFullPages | src/components/Table.tsx:90-101 | When every page `1..pagesNeeded` holds `rowsPerPage` rows and their ids are distinct, the selection is exactly the first `count` records of pages 1, 2, … in order. |
| BulkRange.BulkSelectFromCache | src/components/Table.tsx:75-101 | With pages `1..pagesNeeded` all cached, nothing is requested, the cache is unchanged and the selection comes from the cache. |
| BulkRange.BulkSelectIdempotent | src/components/Table.tsx:61-104 | Repeating a successful bulk selection requests nothing and gives the same cache and selection, whatever the remote source now answers. |
| TableComponent.PageIndex | src/components/Table.tsx:55 | `first / rows + 1` is a page number of at least 1 whose first row is at offset `first`. |
| TableComponent.CollectMissingPages | src/components/Table.tsx:73-79 | The page loop collects exactly the uncached pages among `1..pagesNeeded`. |
| TableComponent.FetchPages | src/components/Table.tsx:81-83 | Every page is requested with limit `rowsPerPage`. The combined result succeeds exactly when each request does, and each result is that page's response. |
| TableComponent.ConcatCachedPages | src/components/Table.tsx:90-96 | The concatenation loop yields the cached pages `1..pagesNeeded` in page order, skipping absent ones. |
| TableComponent.Table.constructor | src/components/Table.tsx:14-21 | The initial state: no data, total 0, offset 0, 12 rows per page, nothing selected, not loading, empty cache. |
| TableComponent.Table.FetchAndCachePage | src/components/Table.tsx:29-52 | A cache hit shows the cached page and requests nothing. A miss requests the page. Success shows it, takes its total and caches it. Failure leaves data, total and cache as they were. Loading ends false, and no earlier cache entry changes. |
| TableComponent.Table.Mount | src/components/Table.tsx:24-27 | The mount effect loads page `first / rows + 1` through the cache, with the effects above. |
| TableComponent.Table.OnPage | src/components/Table.tsx:54-59 | A page event records the new offset and page size, then loads page `first / rows + 1` through the cache. |
| TableComponent.Table.StoreFetchedPages | src/components/Table.tsx:85-88 | The cache-write loop leaves the cache equal to `StorePages` of the old cache, with every old entry intact and nothing else changed. |
| TableComponent.Table.SelectFirstRecords | src/components/Table.tsx:98-103 | The selection becomes the de-duplicated first `count` records, and nothing else changes. |
| TableComponent.Table.CommitBulkSelection | src/components/Table.tsx:85-103 | After all fetches succeed, the new cache and selection are the ones `BulkSelect` describes, with old entries kept. |
| TableComponent.Table.HandleOverlayAction | src/components/Table.tsx:61-104 | It requests exactly the missing pages in ascending order, each with limit `rowsPerPage`. It succeeds exactly when `BulkSelect` does. On success it commits `BulkSelect`'s cache and selection. On failure the cache and selection are untouched. The displayed page and paging state never change. |
| TableComponent.Table.HandleSelectionChange | src/components/Table.tsx:106-118 | The selection becomes `ApplySelectionChange` of the old selection, the shown page and the checked rows. For distinct checked rows of the page, the table is then shown exactly those rows, and the selection off the page is unchanged. |

Where the code and the component's documented intent could be read differently,
the model follows the code:

- `onPage` records the new offset and page size before the fetch and keeps them
  even when the fetch fails. So a failed page change shows the old rows under
  the new paginator position.
- The cache is keyed by page number only. A page cached under one page size is
  reused as-is under another. Both `fetchAndCachePage` and the bulk selection
  do this, and `BulkSelectCacheEffect` keeps such entries.
- When fewer than `count` records exist, the bulk selection keeps what there is
  and reports no error.
- The bulk selection replaces the selection. It does not merge with the earlier
  one, and the selection it is handed is ignored.

## Left out

- Rendering (the data table, its columns, the paginator widget, the loading
  overlay and the selected-rows counter) is presentation only. The model keeps
  the `loading` flag but not the spinner.
- The row-selector overlay (src/components/RowSelectorOverlay.tsx) is not part
  of this model. Its submit guard is the precondition `count >= 1` of
  `HandleOverlayAction`, and the `Number()` string coercion it applies is not
  modelled.
- The HTTP client (src/utils/artworkApi.ts) is not part of this model. The remote
  source is a function parameter. Its normalisation of a missing inscription to
  `"-"` and of a missing total to the page length is assumed to have happened
  already; it is described on `FetchOutcome`.
- Concurrency is not modelled: `Promise.all` runs the requests in page order, and
  the commit is all-or-nothing. Responses arriving out of order, a stale response
  for a page the user has left, and React's batching of state updates are not
  modelled.
- A rejected `Promise.all` in `handleOverlayAction` escapes as an unhandled
  rejection. The model reports it as `ok == false`, with nothing committed.
- The error logging in `fetchAndCachePage` is not modelled.
- `Math.ceil(count / rowsPerPage)` on floating-point numbers is modelled as
  integer ceiling division for `count >= 1` and `rowsPerPage >= 1`.
- `first / rows` is only an integer page index when the paginator's offset is a
  multiple of its page size. `OnPage` requires that, and `Table.Valid` keeps it.
- Artwork ids and the reported total are JavaScript numbers. They are modelled
  as unbounded integers.
- The `setSelectedItems` argument of `handleOverlayAction` is modelled as the
  component's own `selected` field.

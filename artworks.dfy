/**
 The record shown by the artwork table, the outcome of one page fetch, and the
 id-level helpers the rest of the model is stated in.
 */
module Artworks {

  /** One catalogue entry (src/types.ts:11-19). Only `id` takes part in the
      selection and cache logic; the other fields are carried along unchanged. */
  datatype Artwork = Artwork(
    id: int,
    title: string,
    placeOfOrigin: string,
    artistDisplay: string,
    inscriptions: string,
    dateStart: int,
    dateEnd: int)

  /** What one call of the remote fetch adapter for a (page, limit) pair gives.
      The adapter itself (src/utils/artworkApi.ts) is HTTP and JSON plumbing and is
      not part of this model; it normalises a missing `inscriptions` to "-" and a
      missing `pagination.total` to the number of records fetched, so `artworks`
      and `total` here are already normalised. A network or parse failure is
      `FetchFailed`. */
  datatype FetchOutcome =
    | Fetched(artworks: seq<Artwork>, total: int)
    | FetchFailed

  /** The remote source, as a supplied function of (page, limit). */
  type Fetcher = (int, int) -> FetchOutcome

  /** The set of ids occurring in a sequence of records. */
  function IdSet(xs: seq<Artwork>): set<int>
  {
    set i | 0 <= i < |xs| :: xs[i].id
  }

  /** No two entries share an id. */
  predicate DistinctIds(xs: seq<Artwork>)
  {
    forall i, j :: 0 <= i < j < |xs| ==> xs[i].id != xs[j].id
  }

  lemma IdSetAppend(a: seq<Artwork>, b: seq<Artwork>)
    ensures IdSet(a + b) == IdSet(a) + IdSet(b)
  {
    forall id | id in IdSet(a + b) ensures id in IdSet(a) + IdSet(b) {
      var i :| 0 <= i < |a + b| && (a + b)[i].id == id;
      if i < |a| { assert a[i].id == id; } else { assert b[i - |a|].id == id; }
    }
    forall id | id in IdSet(a) + IdSet(b) ensures id in IdSet(a + b) {
      if id in IdSet(a) {
        var i :| 0 <= i < |a| && a[i].id == id;
        assert (a + b)[i].id == id;
      } else {
        var i :| 0 <= i < |b| && b[i].id == id;
        assert (a + b)[|a| + i].id == id;
      }
    }
  }

  lemma IdSetSingle(x: Artwork)
    ensures IdSet([x]) == {x.id}
  {
    assert [x][0].id == x.id;
  }
}

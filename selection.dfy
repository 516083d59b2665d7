/**
 The pure part of the cross-page selection: reconciling a checkbox event on the
 current page with the selection kept across pages
 (src/components/Table.tsx:106-118), and the view of the selection the table is
 given, restricted to the rows it shows (src/components/Table.tsx:134-136).
 */
module Selection {
  import opened Artworks
  import opened Dedup

  /** The records of `xs` whose id is in `ids`, in their order. */
  function WithIds(xs: seq<Artwork>, ids: set<int>): (r: seq<Artwork>)
    ensures IdSet(r) == IdSet(xs) * ids
    ensures forall i :: 0 <= i < |r| ==> r[i] in xs
    ensures |r| <= |xs|
    ensures DistinctIds(xs) ==> DistinctIds(r)
  {
    if xs == [] then []
    else
      IdSetAppend([xs[0]], xs[1..]);
      IdSetSingle(xs[0]);
      assert xs == [xs[0]] + xs[1..];
      var rest := WithIds(xs[1..], ids);
      IdSetAppend([xs[0]], rest);
      if xs[0].id in ids then [xs[0]] + rest else rest
  }

  /** The records of `xs` whose id is not in `ids`, in their order. */
  function WithoutIds(xs: seq<Artwork>, ids: set<int>): (r: seq<Artwork>)
    ensures IdSet(r) == IdSet(xs) - ids
    ensures forall i :: 0 <= i < |r| ==> r[i] in xs
    ensures |r| <= |xs|
    ensures DistinctIds(xs) ==> DistinctIds(r)
  {
    if xs == [] then []
    else
      IdSetAppend([xs[0]], xs[1..]);
      IdSetSingle(xs[0]);
      assert xs == [xs[0]] + xs[1..];
      var rest := WithoutIds(xs[1..], ids);
      IdSetAppend([xs[0]], rest);
      if xs[0].id !in ids then [xs[0]] + rest else rest
  }

  /** `handleSelectionChange`: drop every selected record whose id is on the
      current page, append the rows the table reports as checked, de-duplicate.
      The ids selected afterwards are the previously selected ids that are not
      on the page together with the checked ids. */
  function ApplySelectionChange(selected: seq<Artwork>, page: seq<Artwork>, checked: seq<Artwork>): (r: seq<Artwork>)
    ensures DistinctIds(r)
    ensures IdSet(r) == (IdSet(selected) - IdSet(page)) + IdSet(checked)
  {
    var kept := WithoutIds(selected, IdSet(page));
    IdSetAppend(kept, checked);
    DedupById(kept + checked)
  }

  /** The selection handed to the table: the selected records that match a row
      of the current page, in selection order. */
  function VisibleSelection(selected: seq<Artwork>, page: seq<Artwork>): (r: seq<Artwork>)
    ensures IdSet(r) == IdSet(selected) * IdSet(page)
    ensures forall i :: 0 <= i < |r| ==> r[i] in selected
    ensures DistinctIds(selected) ==> DistinctIds(r)
  {
    WithIds(selected, IdSet(page))
  }

  lemma {:induction false} WithIdsAppend(a: seq<Artwork>, b: seq<Artwork>, ids: set<int>)
    ensures WithIds(a + b, ids) == WithIds(a, ids) + WithIds(b, ids)
  {
    if a != [] {
      assert (a + b)[1..] == a[1..] + b;
      WithIdsAppend(a[1..], b, ids);
    } else {
      assert a + b == b;
    }
  }

  lemma {:induction false} WithoutIdsAppend(a: seq<Artwork>, b: seq<Artwork>, ids: set<int>)
    ensures WithoutIds(a + b, ids) == WithoutIds(a, ids) + WithoutIds(b, ids)
  {
    if a != [] {
      assert (a + b)[1..] == a[1..] + b;
      WithoutIdsAppend(a[1..], b, ids);
    } else {
      assert a + b == b;
    }
  }

  /** Filtering keeps everything when every id passes and nothing when none does. */
  lemma {:induction false} FiltersOnUniformInput(xs: seq<Artwork>, ids: set<int>)
    ensures IdSet(xs) <= ids ==> WithIds(xs, ids) == xs && WithoutIds(xs, ids) == []
    ensures IdSet(xs) !! ids ==> WithIds(xs, ids) == [] && WithoutIds(xs, ids) == xs
  {
    if xs != [] {
      IdSetAppend([xs[0]], xs[1..]);
      IdSetSingle(xs[0]);
      assert xs == [xs[0]] + xs[1..];
      FiltersOnUniformInput(xs[1..], ids);
    }
  }

  /** When the checked rows all belong to the current page (as the table reports
      them), the records selected on other pages stay exactly as they were, in
      their order and with their values, in front of the checked rows. */
  lemma SelectionChangeKeepsOtherPages(selected: seq<Artwork>, page: seq<Artwork>, checked: seq<Artwork>)
    requires DistinctIds(selected)
    requires IdSet(checked) <= IdSet(page)
    ensures ApplySelectionChange(selected, page, checked)
         == WithoutIds(selected, IdSet(page)) + DedupById(checked)
  {
    var kept := WithoutIds(selected, IdSet(page));
    DedupAfterDistinctPrefix(kept, checked);
  }

  /** Filtering a selection whose off-page part precedes its on-page part
      splits it back into the two parts. */
  lemma SplitByPage(kept: seq<Artwork>, checked: seq<Artwork>, ids: set<int>)
    requires IdSet(kept) !! ids
    requires IdSet(checked) <= ids
    ensures WithIds(kept + checked, ids) == checked
    ensures WithoutIds(kept + checked, ids) == kept
  {
    WithIdsAppend(kept, checked, ids);
    WithoutIdsAppend(kept, checked, ids);
    FiltersOnUniformInput(kept, ids);
    FiltersOnUniformInput(checked, ids);
  }

  /** The round trip through the table: after a change event, the selection the
      table is shown for the page is exactly the rows it reported as checked, and
      the selection restricted to ids off the page is what it was before. */
  lemma SelectionChangeRoundTrip(selected: seq<Artwork>, page: seq<Artwork>, checked: seq<Artwork>)
    requires DistinctIds(selected)
    requires DistinctIds(checked)
    requires IdSet(checked) <= IdSet(page)
    ensures VisibleSelection(ApplySelectionChange(selected, page, checked), page) == checked
    ensures WithoutIds(ApplySelectionChange(selected, page, checked), IdSet(page))
         == WithoutIds(selected, IdSet(page))
  {
    var kept := WithoutIds(selected, IdSet(page));
    SelectionChangeKeepsOtherPages(selected, page, checked);
    DedupOfDistinct(checked);
    SplitByPage(kept, checked, IdSet(page));
  }
}

/**
 The de-duplication idiom used twice by the table component
 (src/components/Table.tsx:99-101 and 113-115):

   Array.from(new Map(xs.map(x => [x.id, x])).values())

 A JavaScript Map keeps its keys in insertion order, and `set` on a key that is
 already present replaces the value without moving the key. Building the Map
 from the array is a left fold of `set` over the entries, and `values()` reads
 the entries back in key order. Here the Map is represented by the sequence of
 its values (the key of each entry is that record's id), so the idiom becomes
 `DedupById`.
 */
module Dedup {
  import opened Artworks

  /** `map.set(x.id, x)`: a present key keeps its place and takes `x`; a new key
      is appended. */
  function MapSet(m: seq<Artwork>, x: Artwork): (r: seq<Artwork>)
    ensures DistinctIds(m) ==> DistinctIds(r)
    ensures IdSet(r) == IdSet(m) + {x.id}
    ensures x.id in IdSet(m) ==> |r| == |m|
    ensures x.id !in IdSet(m) ==> r == m + [x]
    ensures forall i :: 0 <= i < |m| ==> r[i] == (if m[i].id == x.id then x else m[i])
  {
    if x.id in IdSet(m) then
      var r := seq(|m|, i requires 0 <= i < |m| => if m[i].id == x.id then x else m[i]);
      assert forall i :: 0 <= i < |m| ==> r[i].id == m[i].id;
      assert IdSet(r) == IdSet(m);
      r
    else
      IdSetAppend(m, [x]);
      IdSetSingle(x);
      m + [x]
  }

  /** The Map idiom: one entry per distinct id, keys in first-occurrence order,
      each holding the record of the last occurrence of its id. */
  function DedupById(xs: seq<Artwork>): (r: seq<Artwork>)
    ensures DistinctIds(r)
    ensures IdSet(r) == IdSet(xs)
    ensures |r| <= |xs|
  {
    if xs == [] then []
    else
      var init, last := xs[..|xs| - 1], xs[|xs| - 1];
      assert xs == init + [last];
      IdSetAppend(init, [last]);
      IdSetSingle(last);
      MapSet(DedupById(init), last)
  }

  /** Position of the first record carrying `id`; `|xs|` when there is none. */
  function FirstIndex(xs: seq<Artwork>, id: int): (k: nat)
    ensures k <= |xs|
    ensures k < |xs| ==> xs[k].id == id
    ensures forall j :: 0 <= j < k ==> xs[j].id != id
  {
    if xs == [] then 0
    else if xs[0].id == id then 0
    else 1 + FirstIndex(xs[1..], id)
  }

  /** Position of the last record carrying `id`. */
  function LastIndex(xs: seq<Artwork>, id: int): (k: nat)
    requires id in IdSet(xs)
    ensures k < |xs| && xs[k].id == id
    ensures forall j :: k < j < |xs| ==> xs[j].id != id
  {
    var n := |xs| - 1;
    if xs[n].id == id then n
    else
      assert id in IdSet(xs[..n]) by {
        var i :| 0 <= i < |xs| && xs[i].id == id;
        assert xs[..n][i].id == id;
      }
      LastIndex(xs[..n], id)
  }

  /** Appending a record does not move the first occurrence of an id that is
      already present. */
  lemma FirstIndexAppend(xs: seq<Artwork>, x: Artwork, id: int)
    requires FirstIndex(xs, id) < |xs|
    ensures FirstIndex(xs + [x], id) == FirstIndex(xs, id)
  {
    var k := FirstIndex(xs, id);
    assert (xs + [x])[k] == xs[k];
    assert forall j :: 0 <= j < k ==> (xs + [x])[j] == xs[j];
  }

  /** The ids of `r` occur in `xs`, in the order of their first occurrence. */
  predicate OrderedByFirstOccurrence(r: seq<Artwork>, xs: seq<Artwork>)
  {
    && (forall i :: 0 <= i < |r| ==> FirstIndex(xs, r[i].id) < |xs|)
    && forall i, j :: 0 <= i < j < |r| ==> FirstIndex(xs, r[i].id) < FirstIndex(xs, r[j].id)
  }

  /** `set` of a present id keeps every key where it was. */
  lemma OrderAfterReplace(init: seq<Artwork>, last: Artwork, m: seq<Artwork>)
    requires last.id in IdSet(m)
    requires OrderedByFirstOccurrence(m, init)
    ensures OrderedByFirstOccurrence(MapSet(m, last), init + [last])
  {
    var xs, r := init + [last], MapSet(m, last);
    assert |r| == |m|;
    forall i | 0 <= i < |r|
      ensures r[i].id == m[i].id && FirstIndex(xs, r[i].id) == FirstIndex(init, m[i].id)
    {
      FirstIndexAppend(init, last, m[i].id);
    }
  }

  /** `set` of a new id appends a key whose first occurrence is the last one. */
  lemma OrderAfterAppend(init: seq<Artwork>, last: Artwork, m: seq<Artwork>)
    requires IdSet(m) == IdSet(init) && last.id !in IdSet(m)
    requires OrderedByFirstOccurrence(m, init)
    ensures OrderedByFirstOccurrence(MapSet(m, last), init + [last])
  {
    var xs, r := init + [last], MapSet(m, last);
    assert r == m + [last];
    forall i | 0 <= i < |m| ensures FirstIndex(xs, m[i].id) == FirstIndex(init, m[i].id) {
      FirstIndexAppend(init, last, m[i].id);
    }
    assert FirstIndex(xs, last.id) == |init| by {
      assert forall k :: 0 <= k < |init| ==> init[k].id in IdSet(init);
      assert forall k :: 0 <= k < |init| ==> xs[k] == init[k];
      assert xs[|init|] == last;
    }
  }

  /** The idiom keeps ids in the order of their first occurrence in the input. */
  lemma {:induction false} DedupFirstOccurrenceOrder(xs: seq<Artwork>)
    ensures OrderedByFirstOccurrence(DedupById(xs), xs)
  {
    if xs != [] {
      var init, last := xs[..|xs| - 1], xs[|xs| - 1];
      assert xs == init + [last];
      DedupFirstOccurrenceOrder(init);
      if last.id in IdSet(DedupById(init)) {
        OrderAfterReplace(init, last, DedupById(init));
      } else {
        OrderAfterAppend(init, last, DedupById(init));
      }
    }
  }

  /** Each entry holds the record of the last occurrence of its id. */
  lemma {:induction false} DedupLastOccurrenceValue(xs: seq<Artwork>)
    ensures forall i :: 0 <= i < |DedupById(xs)| ==>
      DedupById(xs)[i] == xs[LastIndex(xs, DedupById(xs)[i].id)]
  {
    if xs != [] {
      var init, last := xs[..|xs| - 1], xs[|xs| - 1];
      assert xs == init + [last];
      var m := DedupById(init);
      DedupLastOccurrenceValue(init);
      var r := DedupById(xs);
      assert r == MapSet(m, last);
      forall i | 0 <= i < |r| ensures r[i] == xs[LastIndex(xs, r[i].id)] {
        if r[i].id == last.id {
          assert r[i] == last;
        } else {
          assert i < |m| && r[i] == m[i];
          assert m[i].id in IdSet(m);
          assert xs[..|xs| - 1] == init;
        }
      }
    }
  }

  /** On input whose ids are already distinct the idiom changes nothing. */
  lemma {:induction false} DedupOfDistinct(xs: seq<Artwork>)
    requires DistinctIds(xs)
    ensures DedupById(xs) == xs
  {
    if xs != [] {
      var init, last := xs[..|xs| - 1], xs[|xs| - 1];
      assert DistinctIds(init);
      DedupOfDistinct(init);
      assert last.id !in IdSet(init) by {
        assert forall i :: 0 <= i < |init| ==> init[i].id == xs[i].id != xs[|xs| - 1].id;
      }
      assert xs == init + [last];
    }
  }

  /** `set` of an id absent from a prefix only touches the part after it. */
  lemma MapSetAfterPrefix(a: seq<Artwork>, m: seq<Artwork>, x: Artwork)
    requires x.id !in IdSet(a)
    ensures MapSet(a + m, x) == a + MapSet(m, x)
  {
    IdSetAppend(a, m);
    var l, r := MapSet(a + m, x), a + MapSet(m, x);
    if x.id in IdSet(m) {
      assert |l| == |r|;
      forall i | 0 <= i < |l| ensures l[i] == r[i] {
        if i < |a| {
          assert a[i].id in IdSet(a);
        }
      }
    }
  }

  /** De-duplicating a run of distinct records followed by records with other
      ids leaves the run in place, in front of the de-duplicated rest. */
  lemma {:induction false} DedupAfterDistinctPrefix(a: seq<Artwork>, b: seq<Artwork>)
    requires DistinctIds(a)
    requires IdSet(a) !! IdSet(b)
    ensures DedupById(a + b) == a + DedupById(b)
  {
    if b == [] {
      assert a + b == a;
      DedupOfDistinct(a);
    } else {
      var init, last := b[..|b| - 1], b[|b| - 1];
      assert b == init + [last];
      IdSetAppend(init, [last]);
      IdSetSingle(last);
      DedupAfterDistinctPrefix(a, init);
      assert a + b == (a + init) + [last];
      assert (a + b)[..|a + b| - 1] == a + init;
      MapSetAfterPrefix(a, DedupById(init), last);
    }
  }

  /** The integers of `a` are strictly increasing. */
  predicate Ascending(a: seq<int>)
  {
    forall i, j :: 0 <= i < j < |a| ==> a[i] < a[j]
  }

  /** Two ascending sequences with the same elements start alike, and their
      tails have the same elements. */
  lemma AscendingHeads(a: seq<int>, b: seq<int>)
    requires a != [] && b != []
    requires Ascending(a) && Ascending(b)
    requires forall x :: x in a <==> x in b
    ensures a[0] == b[0]
    ensures Ascending(a[1..]) && Ascending(b[1..])
    ensures forall x :: x in a[1..] <==> x in b[1..]
  {
    assert a[0] in a && b[0] in b;
    var k :| 0 <= k < |b| && b[k] == a[0];
    var m :| 0 <= m < |a| && a[m] == b[0];
    assert b[0] <= b[k] && a[0] <= a[m];
    forall x ensures x in a[1..] <==> x in b[1..] {
      assert x in a[1..] <==> x in a && x != a[0] by {
        if x in a[1..] {
          var i :| 0 <= i < |a[1..]| && a[1..][i] == x;
          assert a[i + 1] == x;
        }
        if x in a && x != a[0] {
          var i :| 0 <= i < |a| && a[i] == x;
          assert a[1..][i - 1] == x;
        }
      }
      assert x in b[1..] <==> x in b && x != b[0] by {
        if x in b[1..] {
          var i :| 0 <= i < |b[1..]| && b[1..][i] == x;
          assert b[i + 1] == x;
        }
        if x in b && x != b[0] {
          var i :| 0 <= i < |b| && b[i] == x;
          assert b[1..][i - 1] == x;
        }
      }
    }
  }

  /** Two strictly ascending sequences of integers with the same elements are
      equal. */
  lemma {:induction false} AscendingWithSameElements(a: seq<int>, b: seq<int>)
    requires Ascending(a) && Ascending(b)
    requires forall x :: x in a <==> x in b
    ensures a == b
  {
    // an element of one is an element of the other, so both are empty or neither is
    assert a != [] ==> a[0] in a;
    assert b != [] ==> b[0] in b;
    if a != [] && b != [] {
      AscendingHeads(a, b);
      AscendingWithSameElements(a[1..], b[1..]);
      assert a == [a[0]] + a[1..] && b == [b[0]] + b[1..];
    }
  }

  /** The first-occurrence positions of the ids of `r`. */
  function FirstPositions(r: seq<Artwork>, xs: seq<Artwork>): (ks: seq<int>)
    ensures |ks| == |r|
    ensures forall i :: 0 <= i < |r| ==> ks[i] == FirstIndex(xs, r[i].id)
  {
    seq(|r|, i requires 0 <= i < |r| => FirstIndex(xs, r[i].id))
  }

  lemma FirstPositionsIncluded(xs: seq<Artwork>, a: seq<Artwork>, b: seq<Artwork>)
    requires forall i :: 0 <= i < |a| ==> a[i].id in IdSet(xs)
    requires forall i :: 0 <= i < |b| ==> b[i].id in IdSet(xs)
    requires IdSet(a) <= IdSet(b)
    ensures forall k :: k in FirstPositions(a, xs) ==> k in FirstPositions(b, xs)
  {
    var ka, kb := FirstPositions(a, xs), FirstPositions(b, xs);
    forall k | k in ka ensures k in kb {
      var i :| 0 <= i < |a| && ka[i] == k;
      assert a[i].id in IdSet(b);
      var j :| 0 <= j < |b| && b[j].id == a[i].id;
      assert kb[j] == k;
    }
  }

  /** Two sequences with the same ids, both ordered by first occurrence in
      `xs`, list the same ids in the same order. */
  lemma SameFirstOccurrenceOrder(xs: seq<Artwork>, a: seq<Artwork>, b: seq<Artwork>)
    requires IdSet(a) == IdSet(b)
    requires OrderedByFirstOccurrence(a, xs) && OrderedByFirstOccurrence(b, xs)
    ensures |a| == |b|
    ensures forall i :: 0 <= i < |a| ==> a[i].id == b[i].id
  {
    var ka, kb := FirstPositions(a, xs), FirstPositions(b, xs);
    FirstPositionsIncluded(xs, a, b);
    FirstPositionsIncluded(xs, b, a);
    AscendingWithSameElements(ka, kb);
    forall i | 0 <= i < |a| ensures a[i].id == b[i].id {
      assert a[i].id == xs[ka[i]].id;
      assert b[i].id == xs[kb[i]].id;
    }
  }

  /** The three properties characterise the idiom: a sequence that holds exactly
      the ids of the input, orders them by first occurrence and holds, for each,
      the record of its last occurrence is the idiom's result. */
  lemma DedupCharacterised(xs: seq<Artwork>, r: seq<Artwork>)
    requires IdSet(r) == IdSet(xs)
    requires OrderedByFirstOccurrence(r, xs)
    requires forall i :: 0 <= i < |r| ==> r[i] == xs[LastIndex(xs, r[i].id)]
    ensures r == DedupById(xs)
  {
    var d := DedupById(xs);
    DedupFirstOccurrenceOrder(xs);
    DedupLastOccurrenceValue(xs);
    SameFirstOccurrenceOrder(xs, r, d);
  }
}

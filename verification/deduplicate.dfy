/** The catalogue clean-up script (scripts/deduplicate.js): it keeps the first
    entry of `catalogue.json` for each date and drops the later ones. The
    script's `seen` map, whose values are all `true`, is a set of dates here;
    reading and writing the file are left out. */
module Deduplicate {
  import opened Common

  /** The dates of the entries. */
  function DatesOf(entries: seq<CatalogueItem>): set<string> {
    if entries == [] then {} else DatesOf(entries[..|entries| - 1]) + {entries[|entries| - 1].date}
  }

  lemma {:induction false} DatesOfFirst(entries: seq<CatalogueItem>, d: string)
    ensures d in DatesOf(entries) <==> FirstWithDate(entries, d) < |entries|
  {
    if entries != [] {
      var n := |entries| - 1;
      DatesOfFirst(entries[..n], d);
      FirstWithDateOfPrefix(entries, n, d);
    }
  }

  /** No two entries share a date. */
  predicate DistinctDates(entries: seq<CatalogueItem>) {
    forall i, j :: 0 <= i < j < |entries| ==> entries[i].date != entries[j].date
  }

  /** What the loop keeps: each entry whose date no earlier entry has. */
  function Dedup(data: seq<CatalogueItem>): seq<CatalogueItem> {
    if data == [] then []
    else
      var before := data[..|data| - 1];
      var item := data[|data| - 1];
      Dedup(before) + (if item.date in DatesOf(before) then [] else [item])
  }

  /** The script: `seen` holds the dates met so far; an entry whose date is
      new is kept. It also reports how many entries were removed. */
  method Deduplicate(data: seq<CatalogueItem>) returns (deduplicated: seq<CatalogueItem>, removed: int)
    ensures deduplicated == Dedup(data)
    ensures removed == |data| - |deduplicated|
  {
    var seen: set<string> := {};
    deduplicated := [];
    for i := 0 to |data|
      invariant seen == DatesOf(data[..i])
      invariant deduplicated == Dedup(data[..i])
    {
      assert data[..i + 1][..i] == data[..i];
      var item := data[i];
      if item.date !in seen {
        seen := seen + {item.date};
        deduplicated := deduplicated + [item];
      }
    }
    assert data[..|data|] == data;
    removed := |data| - |deduplicated|;
  }

  /** Every date of the input is kept, and no other. */
  lemma {:induction false} DedupKeepsDates(data: seq<CatalogueItem>)
    ensures DatesOf(Dedup(data)) == DatesOf(data)
  {
    if data != [] {
      var before := data[..|data| - 1];
      var item := data[|data| - 1];
      DedupKeepsDates(before);
      var tail := if item.date in DatesOf(before) then [] else [item];
      DatesOfAppend(Dedup(before), tail);
    }
  }

  lemma {:induction false} DatesOfAppend(a: seq<CatalogueItem>, b: seq<CatalogueItem>)
    ensures DatesOf(a + b) == DatesOf(a) + DatesOf(b)
    decreases |b|
  {
    if b == [] {
      assert a + b == a;
    } else {
      assert (a + b)[..|a + b| - 1] == a + b[..|b| - 1];
      DatesOfAppend(a, b[..|b| - 1]);
    }
  }

  /** The output has at most one entry per date. */
  lemma {:induction false} DedupDistinct(data: seq<CatalogueItem>)
    ensures DistinctDates(Dedup(data))
  {
    if data != [] {
      var before := data[..|data| - 1];
      var item := data[|data| - 1];
      DedupDistinct(before);
      DedupKeepsDates(before);
      var kept := Dedup(before);
      if item.date !in DatesOf(before) {
        forall i | 0 <= i < |kept|
          ensures kept[i].date != item.date
        {
          DatesOfFirst(kept, kept[i].date);
          DatesOfFirst(kept, item.date);
        }
      }
    }
  }

  /** Each output entry is the first input entry with its date. */
  lemma {:induction false} DedupFirstWins(data: seq<CatalogueItem>)
    ensures forall i :: 0 <= i < |Dedup(data)| ==>
      FirstWithDate(data, Dedup(data)[i].date) < |data|
      && Dedup(data)[i] == data[FirstWithDate(data, Dedup(data)[i].date)]
  {
    if data != [] {
      var n := |data| - 1;
      var before := data[..n];
      var item := data[n];
      DedupFirstWins(before);
      var kept := Dedup(before);
      var out := Dedup(data);
      forall i | 0 <= i < |out|
        ensures FirstWithDate(data, out[i].date) < |data| && out[i] == data[FirstWithDate(data, out[i].date)]
      {
        var d := out[i].date;
        FirstWithDateOfPrefix(data, n, d);
        if i < |kept| {
          assert out[i] == kept[i];
          assert before[FirstWithDate(before, d)] == data[FirstWithDate(before, d)];
        } else {
          assert out[i] == item;
          DatesOfFirst(before, d);
        }
      }
    }
  }

  /** The output keeps entries of the input in their order. */
  lemma DedupIsSubsequence(data: seq<CatalogueItem>)
    ensures IsSubsequence(Dedup(data), data)
  {
    var idx := DedupEmbedding(data);
  }

  lemma {:induction false} DedupEmbedding(data: seq<CatalogueItem>) returns (idx: seq<nat>)
    ensures Embeds(idx, Dedup(data), data)
  {
    if data == [] {
      idx := [];
    } else {
      var n := |data| - 1;
      idx := DedupEmbedding(data[..n]);
      EmbedsSnoc(idx, Dedup(data[..n]), data);
      if data[n].date !in DatesOf(data[..n]) {
        idx := idx + [n];
      }
    }
  }

  /** Entries with distinct dates are kept as they are. */
  lemma {:induction false} DedupOfDistinct(data: seq<CatalogueItem>)
    requires DistinctDates(data)
    ensures Dedup(data) == data
  {
    if data != [] {
      var n := |data| - 1;
      DedupOfDistinct(data[..n]);
      if data[n].date in DatesOf(data[..n]) {
        DatesOfFirst(data[..n], data[n].date);
        assert false;
      }
      assert data[..n] + [data[n]] == data;
    }
  }

  /** Running the clean-up again removes nothing. */
  lemma DedupIdempotent(data: seq<CatalogueItem>)
    ensures Dedup(Dedup(data)) == Dedup(data)
  {
    DedupDistinct(data);
    DedupOfDistinct(Dedup(data));
  }
}

/** The page selector of the archive (dailynews-next/app/components/Pagination.tsx):
    `getPageNumbers` and the enabled state of the previous and next buttons. */
module Pagination {
  import opened Common

  /** One button of the selector: a page number or the `'...'` gap marker. */
  datatype PageEntry = Num(page: int) | Ellipsis

  const MaxVisible: nat := 7

  /** The numbered buttons `first, first + 1, …, last` (none when `last < first`). */
  function Run(first: int, last: int): (r: seq<PageEntry>)
    ensures |r| == Max(0, last - first + 1)
    ensures forall i :: 0 <= i < |r| ==> r[i] == Num(first + i)
  {
    seq(Max(0, last - first + 1), i requires 0 <= i => Num(first + i))
  }

  /** A run holds exactly the pages `first..last`, no ellipsis, in increasing
      order from `first` to `last`. */
  lemma RunRange(first: int, last: int)
    ensures forall k :: Num(k) in Run(first, last) <==> first <= k <= last
    ensures Ellipsis !in Run(first, last)
    ensures first <= last ==> Run(first, last)[0] == Num(first) && Run(first, last)[last - first] == Num(last)
    ensures forall i, j :: 0 <= i < j < |Run(first, last)| ==> Run(first, last)[i].page < Run(first, last)[j].page
  {
    var r := Run(first, last);
    assert forall k :: first <= k <= last ==> r[k - first] == Num(k);
  }

  /** A run grows by one button at its end. */
  lemma RunSnoc(first: int, last: int)
    requires first <= last + 1
    ensures Run(first, last + 1) == Run(first, last) + [Num(last + 1)]
  {
  }

  /** The middle window `[startPage, endPage]` once it has been widened. It
      always holds five pages strictly between the first and the last page. */
  function Window(current: int, total: int): (w: (int, int))
    requires total > MaxVisible
    ensures 2 <= w.0 && w.1 <= total - 1 && w.1 - w.0 == 4
    ensures 2 <= current <= total - 1 ==> w.0 <= current <= w.1
  {
    var start := Max(2, current - 2);
    var end := Min(total - 1, current + 2);
    if end - start + 1 < 5 then
      // `currentPage < totalPages / 2`, with real division
      if 2 * current < total then (start, Min(total - 1, start + 4))
      else (Max(2, end - 4), end)
    else (start, end)
  }

  /** The widening keeps the start when the current page lies in the first
      half, and keeps the end otherwise; a full window is left as it is. */
  lemma WindowWidening(current: int, total: int)
    requires total > MaxVisible
    ensures var start := Max(2, current - 2);
      var end := Min(total - 1, current + 2);
      var w := Window(current, total);
      && (end - start + 1 >= 5 ==> w == (start, end))
      && (end - start + 1 < 5 && 2 * current < total ==> w.0 == start)
      && (end - start + 1 < 5 && 2 * current >= total ==> w.1 == end)
  {
  }

  /** What `getPageNumbers` returns. */
  function PageNumbers(current: int, total: nat): seq<PageEntry> {
    if total <= MaxVisible then Run(1, total)
    else
      var w := Window(current, total);
      [Num(1)]
      + (if w.0 > 2 then [Ellipsis] else [])
      + Run(w.0, w.1)
      + (if w.1 < total - 1 then [Ellipsis] else [])
      + [Num(total)]
  }

  /** `getPageNumbers`: pushes the buttons one by one. */
  method GetPageNumbers(current: int, total: nat) returns (pages: seq<PageEntry>)
    ensures pages == PageNumbers(current, total)
  {
    pages := [];
    if total <= MaxVisible {
      for i := 1 to total + 1
        invariant pages == Run(1, i - 1)
      {
        RunSnoc(1, i - 1);
        pages := pages + [Num(i)];
      }
      return;
    }
    pages := pages + [Num(1)];
    var startPage := Max(2, current - 2);
    var endPage := Min(total - 1, current + 2);
    var rangeSize := endPage - startPage + 1;
    if rangeSize < 5 {
      if 2 * current < total {
        endPage := Min(total - 1, startPage + 4);
      } else {
        startPage := Max(2, endPage - 4);
      }
    }
    assert (startPage, endPage) == Window(current, total);
    ghost var gapBefore: seq<PageEntry> := if startPage > 2 then [Ellipsis] else [];
    ghost var gapAfter: seq<PageEntry> := if endPage < total - 1 then [Ellipsis] else [];
    if startPage > 2 {
      pages := pages + [Ellipsis];
    }
    ghost var head := pages;
    assert head == [Num(1)] + gapBefore;
    for i := startPage to endPage + 1
      invariant pages == head + Run(startPage, i - 1)
    {
      RunSnoc(startPage, i - 1);
      pages := pages + [Num(i)];
    }
    if endPage < total - 1 {
      pages := pages + [Ellipsis];
    }
    pages := pages + [Num(total)];
    assert pages == head + Run(startPage, endPage) + gapAfter + [Num(total)];
  }

  /** Seven pages or fewer: every page, in order. */
  lemma SmallTotalListsAll(current: int, total: nat)
    requires total <= MaxVisible
    ensures |PageNumbers(current, total)| == total
    ensures forall i :: 0 <= i < total ==> PageNumbers(current, total)[i] == Num(i + 1)
  {
  }

  /** More than seven pages: the first page opens the list and the last closes
      it; a gap marker follows the first page exactly when the window starts
      after page 2, and precedes the last exactly when it ends before the
      second-to-last page. */
  lemma LargeTotalShape(current: int, total: nat)
    requires total > MaxVisible
    ensures var p := PageNumbers(current, total);
      var w := Window(current, total);
      && |p| >= 7
      && p[0] == Num(1) && p[|p| - 1] == Num(total)
      && (p[1] == Ellipsis <==> w.0 > 2)
      && (p[|p| - 2] == Ellipsis <==> w.1 < total - 1)
  {
  }

  /** The page numbers in the list strictly increase. */
  lemma PageNumbersIncrease(current: int, total: nat)
    ensures var p := PageNumbers(current, total);
      forall i, j :: 0 <= i < j < |p| && p[i].Num? && p[j].Num? ==> p[i].page < p[j].page
  {
    var p := PageNumbers(current, total);
    if total > MaxVisible {
      var w := Window(current, total);
      var a := if w.0 > 2 then [Ellipsis] else [];
      var b := if w.1 < total - 1 then [Ellipsis] else [];
      var run := Run(w.0, w.1);
      assert p == [Num(1)] + a + run + b + [Num(total)];
      forall i, j | 0 <= i < j < |p| && p[i].Num? && p[j].Num?
        ensures p[i].page < p[j].page
      {
        var lo := 1 + |a|;
        var hi := lo + |run|;
        assert forall k :: lo <= k < hi ==> p[k] == run[k - lo];
        assert forall k :: 0 <= k < |p| && p[k].Num? ==> 1 <= p[k].page <= total;
        assert forall k :: 0 <= k < |p| && p[k].Num? ==> (k == 0 <==> p[k].page == 1);
      }
    }
  }

  /** The current page, when it is one of the pages, has a button (so it can be marked active). */
  lemma CurrentPageListed(current: int, total: nat)
    requires 1 <= current <= total
    ensures Num(current) in PageNumbers(current, total)
  {
    var p := PageNumbers(current, total);
    if total <= MaxVisible {
      assert p[current - 1] == Num(current);
    } else if current == 1 {
      assert p[0] == Num(1);
    } else if current == total {
      assert p[|p| - 1] == Num(total);
    } else {
      var w := Window(current, total);
      var a := if w.0 > 2 then [Ellipsis] else [];
      var b := if w.1 < total - 1 then [Ellipsis] else [];
      var run := Run(w.0, w.1);
      assert p == [Num(1)] + a + run + b + [Num(total)];
      assert run[current - w.0] == Num(current);
      assert p[1 + |a| + (current - w.0)] == Num(current);
    }
  }

  /** `disabled={currentPage === 1}` on the previous button. */
  predicate PrevDisabled(current: int) {
    current == 1
  }

  /** `disabled={currentPage === totalPages}` on the next button. */
  predicate NextDisabled(current: int, total: nat) {
    current == total
  }

  /** From a page in range, an enabled previous or next button leads to a page in range. */
  lemma ButtonsStayInRange(current: int, total: nat)
    requires 1 <= current <= total
    ensures !PrevDisabled(current) ==> 1 <= current - 1 <= total
    ensures !NextDisabled(current, total) ==> 1 <= current + 1 <= total
  {
  }
}

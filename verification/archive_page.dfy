/** The archive page of the site (dailynews-next/app/archive/page.tsx): the list
    of stored days, a keyword search over it and 20-per-page paging. The React
    state (`allNews`, `filteredNews`, `currentPage`, `searchKeyword`) is the
    state of a class; the page's own `formatDate` is the same code as
    `formatDate` in src/assets/js/utils.js and is modelled once, as
    `Utils.FormatDate`. */
module ArchivePage {
  import opened Common
  import Utils

  /** One row of `/api/news?all=true`, without `id` and `created_at`. */
  datatype Summary = Summary(date: string, abstractText: string, newsCount: int)

  const ItemsPerPage: nat := 20

  /** The filter of `handleSearch`: the lower-cased summary contains the
      lower-cased keyword, or the formatted date contains the keyword as typed. */
  predicate Matches(item: Summary, keyword: string) {
    || Contains(Lower(item.abstractText), Lower(keyword))
    || Contains(Utils.FormatDate(item.date), keyword)
  }

  /** What `handleSearch` puts in `filteredNews`: everything for a blank
      keyword, otherwise the matching items. */
  function SearchResult(all: seq<Summary>, keyword: string): seq<Summary> {
    if Trim(keyword) == "" then all else Filter(all, (item: Summary) => Matches(item, keyword))
  }

  /** The result keeps the order of `all`; for a keyword that is not blank it
      holds exactly the items that match it, and for a blank one all items. */
  lemma SearchResultSpec(all: seq<Summary>, keyword: string)
    ensures IsSubsequence(SearchResult(all, keyword), all)
    ensures Trim(keyword) == "" ==> SearchResult(all, keyword) == all
    ensures Trim(keyword) != "" ==>
      forall item :: item in SearchResult(all, keyword) <==> item in all && Matches(item, keyword)
  {
    var p := (item: Summary) => Matches(item, keyword);
    if Trim(keyword) == "" {
      IdentityEmbeds(all);
    } else {
      FilterIsSubsequence(all, p);
      forall item
        ensures item in SearchResult(all, keyword) <==> item in all && Matches(item, keyword)
      {
        FilterMembership(all, p, item);
      }
    }
  }

  /** `Math.ceil(n / 20)`. */
  function TotalPages(n: nat): (t: nat)
    ensures n <= t * ItemsPerPage
    ensures t > 0 ==> (t - 1) * ItemsPerPage < n
  {
    (n + ItemsPerPage - 1) / ItemsPerPage
  }

  /** A position argument of JavaScript `slice`: negative counts from the end;
      the result is clamped to `[0, len]`. */
  function SliceIndex(i: int, len: nat): (k: nat)
    ensures k <= len
  {
    if i < 0 then Max(len + i, 0) else Min(i, len)
  }

  /** JavaScript `s.slice(start, end)`. */
  function Slice<T>(s: seq<T>, start: int, end: int): (r: seq<T>)
    ensures |r| <= |s|
  {
    var a := SliceIndex(start, |s|);
    var b := SliceIndex(end, |s|);
    if a < b then s[a..b] else []
  }

  /** The items of page `page`: `slice((page - 1) * 20, page * 20)`. */
  function PageItems<T>(s: seq<T>, page: int): seq<T> {
    Slice(s, (page - 1) * ItemsPerPage, page * ItemsPerPage)
  }

  /** A page in range shows the next (up to) 20 items from where the previous
      page stopped, and is never empty; no page shows more than 20. */
  lemma PageItemsSpec<T>(s: seq<T>, page: int)
    ensures |PageItems(s, page)| <= ItemsPerPage
    ensures 1 <= page <= TotalPages(|s|) ==>
      var from := (page - 1) * ItemsPerPage;
      PageItems(s, page) == s[from..Min(from + ItemsPerPage, |s|)] && PageItems(s, page) != []
  {
  }

  /** The pages `1..k` together are the first `k * 20` items (or all of them). */
  function Pages<T>(s: seq<T>, k: nat): seq<T> {
    if k == 0 then [] else Pages(s, k - 1) + PageItems(s, k)
  }

  /** Paging loses nothing and repeats nothing: the pages `1..TotalPages`, one
      after the other, are the whole list. */
  lemma PagesCoverAll<T>(s: seq<T>)
    ensures Pages(s, TotalPages(|s|)) == s
  {
    PagesPrefix(s, TotalPages(|s|));
  }

  lemma {:induction false} PagesPrefix<T>(s: seq<T>, k: nat)
    requires k <= TotalPages(|s|)
    ensures Pages(s, k) == s[..Min(k * ItemsPerPage, |s|)]
  {
    if k > 0 {
      PagesPrefix(s, k - 1);
      PageItemsSpec(s, k);
      var a := (k - 1) * ItemsPerPage;
      assert s[..a] + s[a..Min(a + ItemsPerPage, |s|)] == s[..Min(k * ItemsPerPage, |s|)];
    }
  }

  /** The page's state. */
  class Archive {
    var allNews: seq<Summary>
    var filteredNews: seq<Summary>
    var currentPage: int
    var searchKeyword: string

    /** The listed items are always some of the loaded items, in their order. */
    ghost predicate Valid()
      reads this
    {
      IsSubsequence(filteredNews, allNews)
    }

    /** The initial state, before the list has been loaded. */
    constructor ()
      ensures allNews == [] && filteredNews == [] && currentPage == 1 && searchKeyword == ""
      ensures Valid()
    {
      allNews, filteredNews, currentPage, searchKeyword := [], [], 1, "";
      new;
      assert Embeds([], filteredNews, allNews);
    }

    /** A successful load: `setAllNews(data)` and `setFilteredNews(data)`. */
    method Load(data: seq<Summary>)
      modifies this
      ensures allNews == data && filteredNews == data
      ensures currentPage == old(currentPage) && searchKeyword == old(searchKeyword)
      ensures Valid()
    {
      allNews, filteredNews := data, data;
      SearchResultSpec(data, "");
    }

    /** `handleSearch(keyword)`: the keyword is stored, the page goes back to the
        first one and the list is filtered again from all loaded items. */
    method HandleSearch(keyword: string)
      requires Valid()
      modifies this
      ensures searchKeyword == keyword && currentPage == 1
      ensures filteredNews == SearchResult(allNews, keyword)
      ensures allNews == old(allNews)
      ensures Valid()
    {
      searchKeyword := keyword;
      currentPage := 1;
      SearchResultSpec(allNews, keyword);
      if Trim(keyword) == "" {
        filteredNews := allNews;
        return;
      }
      filteredNews := Filter(allNews, (item: Summary) => Matches(item, keyword));
    }

    /** `handlePageChange(page)`; the scroll to the top is not modelled. */
    method HandlePageChange(page: int)
      requires Valid()
      modifies this
      ensures currentPage == page
      ensures allNews == old(allNews) && filteredNews == old(filteredNews) && searchKeyword == old(searchKeyword)
      ensures Valid()
    {
      currentPage := page;
    }

    /** `totalPages`. */
    function PageCount(): (t: nat)
      reads this
      ensures |filteredNews| <= t * ItemsPerPage
    {
      TotalPages(|filteredNews|)
    }

    /** `currentNews`: what the list shows. */
    function CurrentNews(): (r: seq<Summary>)
      reads this
      ensures |r| <= ItemsPerPage
    {
      PageItemsSpec(filteredNews, currentPage);
      PageItems(filteredNews, currentPage)
    }

    /** `totalPages > 1 && <Pagination … />`: the selector is shown only when
        there is more than one page, that is, more than 20 items. */
    predicate ShowsPagination()
      reads this
    {
      PageCount() > 1
    }
  }

  /** The selector appears exactly when the filtered list does not fit on one page. */
  lemma ShowsPaginationIff(a: Archive)
    ensures a.ShowsPagination() <==> |a.filteredNews| > ItemsPerPage
  {
  }
}

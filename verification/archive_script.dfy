/** The archive page of the static site (src/assets/js/archive.js): every entry
    of `catalogue.json` as a card, and a search box that narrows the list. The
    page's DOM (`#archive-list`, `#total-count`) is the state of a class; the
    HTML of each entry is a `Card` value. */
module ArchiveScript {
  import opened Common
  import Utils

  const PreviewLength: nat := 150
  const NoDataMessage: string := "暂无数据"
  const NoMatchMessage: string := "未找到匹配的结果"

  /** One `.archive-item`: its element id, the date shown, the summary preview
      and the address of its detail page. */
  datatype Card = Card(id: string, shownDate: string, preview: string, link: string)

  /** What `#archive-list` shows: a message or the cards. */
  datatype ListView = Message(text: string) | Cards(cards: seq<Card>)

  /** The preview of a summary: line breaks become spaces, and the first 150
      characters are followed by `...` whether or not anything was cut. */
  function Preview(abstractText: string): (r: string)
    ensures |r| == Min(|abstractText|, PreviewLength) + 3
    ensures r[|r| - 3..] == "..."
    ensures '\n' !in r
    ensures forall i :: 0 <= i < |r| - 3 ==>
      r[i] == (if abstractText[i] == '\n' then ' ' else abstractText[i])
  {
    Substring(ReplaceChar(abstractText, '\n', ' '), 0, PreviewLength) + "..."
  }

  function CardOf(item: CatalogueItem): Card {
    Card(item.date, Utils.FormatDate(item.date), Preview(item.abstractText), "detail.html?date=" + item.date)
  }

  /** The cards of `data`, one per entry, in order. */
  function CardsOf(data: seq<CatalogueItem>): (r: seq<Card>)
    ensures |r| == |data| && forall i :: 0 <= i < |data| ==> r[i] == CardOf(data[i])
  {
    seq(|data|, i requires 0 <= i < |data| => CardOf(data[i]))
  }

  /** What `renderArchive(data)` puts in the list. */
  function ViewOf(data: seq<CatalogueItem>): ListView {
    if |data| == 0 then Message(NoDataMessage) else Cards(CardsOf(data))
  }

  /** The keyword of `searchArchive`: the input trimmed and lower-cased. */
  function SearchKeyword(input: string): string {
    Lower(Trim(input))
  }

  /** The filter of `searchArchive`: the lower-cased date or the lower-cased
      summary contains the keyword. */
  predicate ItemMatches(item: CatalogueItem, keyword: string) {
    Contains(Lower(item.date), keyword) || Contains(Lower(item.abstractText), keyword)
  }

  /** The entries `searchArchive` renders. */
  function Found(all: seq<CatalogueItem>, input: string): seq<CatalogueItem> {
    var keyword := SearchKeyword(input);
    if keyword == "" then all else Filter(all, (item: CatalogueItem) => ItemMatches(item, keyword))
  }

  /** What the list shows after a search: the rendering of what was found,
      except that a search with a keyword that finds nothing says so. */
  function SearchView(all: seq<CatalogueItem>, input: string): ListView {
    var found := Found(all, input);
    if SearchKeyword(input) != "" && found == [] then Message(NoMatchMessage) else ViewOf(found)
  }

  /** A search with a keyword finds exactly the matching entries, in order; a
      blank input finds everything. */
  lemma FoundSpec(all: seq<CatalogueItem>, input: string)
    ensures IsSubsequence(Found(all, input), all)
    ensures Trim(input) == "" ==> Found(all, input) == all
    ensures forall item ::
      item in Found(all, input) <==> item in all && (Trim(input) == "" || ItemMatches(item, SearchKeyword(input)))
  {
    var keyword := SearchKeyword(input);
    var p := (item: CatalogueItem) => ItemMatches(item, keyword);
    if keyword == "" {
      IdentityEmbeds(all);
      assert Trim(input) == "";
    } else {
      FilterIsSubsequence(all, p);
      forall item
        ensures item in Found(all, input) <==> item in all && ItemMatches(item, keyword)
      {
        FilterMembership(all, p, item);
      }
    }
  }

  /** The three outcomes of a search: the no-data message only for an empty
      catalogue and a blank input, the no-match message only when a keyword
      matches no entry, and otherwise one card per entry found. */
  lemma SearchViewCases(all: seq<CatalogueItem>, input: string)
    ensures SearchView(all, input) == Message(NoDataMessage) <==> Trim(input) == "" && all == []
    ensures SearchView(all, input) == Message(NoMatchMessage) <==>
      Trim(input) != "" && forall item :: item in all ==> !ItemMatches(item, SearchKeyword(input))
    ensures SearchView(all, input).Cards? ==> SearchView(all, input).cards == CardsOf(Found(all, input))
  {
    FoundSpec(all, input);
    var found := Found(all, input);
    if Trim(input) != "" && found != [] {
      assert found[0] in found;
    }
  }

  /** The page's state. */
  class ArchiveList {
    var allData: seq<CatalogueItem>
    var totalCount: nat
    var view: ListView

    constructor ()
      ensures allData == [] && totalCount == 0 && view == Cards([])
    {
      allData, totalCount, view := [], 0, Cards([]);
    }

    /** `renderArchive(data)`: the count shows how many entries are rendered,
        and the list their cards, built one entry at a time. */
    method Render(data: seq<CatalogueItem>)
      modifies this
      ensures totalCount == |data| && view == ViewOf(data)
      ensures allData == old(allData)
    {
      totalCount := |data|;
      if |data| == 0 {
        view := Message(NoDataMessage);
        return;
      }
      var cards: seq<Card> := [];
      for i := 0 to |data|
        invariant cards == CardsOf(data[..i])
      {
        cards := cards + [CardOf(data[i])];
      }
      assert data[..|data|] == data;
      view := Cards(cards);
    }

    /** A successful load of the catalogue. */
    method Load(data: seq<CatalogueItem>)
      modifies this
      ensures allData == data && totalCount == |data| && view == ViewOf(data)
    {
      allData := data;
      Render(data);
    }

    /** `searchArchive()` with the search box holding `input`. The count shows
        the number of entries found. */
    method SearchArchive(input: string)
      modifies this
      ensures allData == old(allData)
      ensures totalCount == |Found(allData, input)|
      ensures view == SearchView(allData, input)
    {
      var keyword := SearchKeyword(input);
      if keyword == "" {
        Render(allData);
        return;
      }
      var filtered := Filter(allData, (item: CatalogueItem) => ItemMatches(item, keyword));
      Render(filtered);
      if |filtered| == 0 {
        view := Message(NoMatchMessage);
      }
    }
  }
}

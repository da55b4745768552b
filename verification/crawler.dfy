/** The daily transcript crawl (dailynews-next/lib/crawler.ts): index page ->
    distinct links -> summary -> one article page per link, fetched one at a
    time with a pause in between -> one Markdown document.

    The network is a value: `Origin` gives, for each URL, what a GET returns,
    already reduced by the HTML parser to the parts the crawler reads (the
    anchors' hrefs of an index page, the summary paragraph of a summary page,
    the title and content nodes of an article page). Pauses and fetches are
    recorded in an event log instead of taking time. */
module Crawler {
  import opened Common
  import opened Calendar

  // ---------------------------------------------------------------------------
  // Fetching

  /** What one GET of a URL produces: a network-level failure, or a response
      with an HTTP status and a (parsed) body. */
  datatype Reply<T> = NetworkFailure(reason: string) | Response(status: nat, body: T)

  /** The parts of an article page the crawler reads: the title node and the
      content node, each absent when the page layout has changed. */
  datatype ArticleNodes = ArticleNodes(title: Option<string>, content: Option<string>)

  /** The scraped site: what a GET of each URL returns. */
  datatype Origin = Origin(
    indexPage: string -> Reply<seq<string>>,
    abstractPage: string -> Reply<Option<string>>,
    articlePage: string -> Reply<ArticleNodes>)

  /** One step of a crawl run, in the order it happens. */
  datatype Event = Fetch(url: string) | Pause(ms: nat)

  /** Delay between two consecutive article fetches. */
  const PauseMs: nat := 500

  /** `fetchHTML`: the body of a 2xx response; otherwise the error it throws. */
  function FetchHtml<T>(reply: Reply<T>): (r: Result<T>)
    ensures r.Ok? <==> reply.Response? && 200 <= reply.status <= 299
    ensures r.Ok? ==> r.value == reply.body
    ensures reply.NetworkFailure? ==> r == Err(reply.reason)
  {
    match reply
    case NetworkFailure(reason) => Err(reason)
    case Response(status, body) =>
      if 200 <= status <= 299 then Ok(body) else Err("HTTP error! status: " + Decimal(status))
  }

  // ---------------------------------------------------------------------------
  // Today's date

  /** `getDate` with the clock's reading passed in: `YYYYMMDD`. */
  function GetDate(today: Date): (r: string)
    requires ValidDate(today)
    ensures AllDigits(r) && r != ""
    ensures 1000 <= today.year <= 9999 ==> |r| == 8 && ParseKey(r) == today
  {
    if 1000 <= today.year <= 9999 then DateKeyRoundTrip(today); DateKey(today) else DateKey(today)
  }

  // ---------------------------------------------------------------------------
  // Link list

  /** The links `getNewsList` collects from the anchors' hrefs: each non-empty
      href at its first occurrence, in document order. */
  function DistinctLinks(hrefs: seq<string>): seq<string> {
    if hrefs == [] then []
    else
      var links := DistinctLinks(hrefs[..|hrefs| - 1]);
      var href := hrefs[|hrefs| - 1];
      if href != "" && href !in links then links + [href] else links
  }

  predicate NoDuplicates(s: seq<string>) {
    forall i, j :: 0 <= i < j < |s| ==> s[i] != s[j]
  }

  /** `idx` lists, in increasing order, exactly the positions of `hrefs` that
      hold a non-empty href not seen before, and `links` holds those hrefs. */
  ghost predicate FirstOccurrencePositions(idx: seq<nat>, links: seq<string>, hrefs: seq<string>) {
    && Embeds(idx, links, hrefs)
    && forall k :: 0 <= k < |hrefs| ==> (k in idx <==> hrefs[k] != "" && hrefs[k] !in hrefs[..k])
  }

  /** The collected links are exactly the non-empty hrefs, without repetition,
      each taken at its first occurrence and in document order. */
  lemma DistinctLinksSpec(hrefs: seq<string>)
    ensures NoDuplicates(DistinctLinks(hrefs))
    ensures forall x :: x in DistinctLinks(hrefs) <==> x in hrefs && x != ""
    ensures exists idx :: FirstOccurrencePositions(idx, DistinctLinks(hrefs), hrefs)
  {
    DistinctLinksMembership(hrefs);
    DistinctLinksNoDuplicates(hrefs);
    var idx := DistinctLinksPositions(hrefs);
  }

  lemma {:induction false} DistinctLinksMembership(hrefs: seq<string>)
    ensures forall x :: x in DistinctLinks(hrefs) <==> x in hrefs && x != ""
  {
    if hrefs != [] {
      var front := hrefs[..|hrefs| - 1];
      DistinctLinksMembership(front);
      assert hrefs == front + [hrefs[|hrefs| - 1]];
    }
  }

  lemma {:induction false} DistinctLinksNoDuplicates(hrefs: seq<string>)
    ensures NoDuplicates(DistinctLinks(hrefs))
  {
    if hrefs != [] {
      DistinctLinksNoDuplicates(hrefs[..|hrefs| - 1]);
    }
  }

  lemma {:induction false} DistinctLinksPositions(hrefs: seq<string>) returns (idx: seq<nat>)
    ensures FirstOccurrencePositions(idx, DistinctLinks(hrefs), hrefs)
  {
    if hrefs == [] {
      idx := [];
    } else {
      var n := |hrefs| - 1;
      var front := hrefs[..n];
      var idx0 := DistinctLinksPositions(front);
      var href := hrefs[n];
      DistinctLinksMembership(front);
      assert href != "" && href !in DistinctLinks(front) <==> href != "" && href !in hrefs[..n];
      if href != "" && href !in DistinctLinks(front) {
        idx := idx0 + [n];
      } else {
        idx := idx0;
      }
      assert Embeds(idx, DistinctLinks(hrefs), hrefs);
      forall k | 0 <= k < |hrefs|
        ensures k in idx <==> hrefs[k] != "" && hrefs[k] !in hrefs[..k]
      {
        if k < n {
          assert hrefs[..k] == front[..k] && hrefs[k] == front[k];
          assert k in idx <==> k in idx0;
        } else {
          assert k !in idx0;
        }
      }
    }
  }

  /** The `forEach` of `getNewsList`: keep each non-empty href the first time it is seen. */
  method CollectLinks(hrefs: seq<string>) returns (links: seq<string>)
    ensures links == DistinctLinks(hrefs)
    ensures NoDuplicates(links)
    ensures forall x :: x in links <==> x in hrefs && x != ""
  {
    links := [];
    var i := 0;
    while i < |hrefs|
      invariant 0 <= i <= |hrefs|
      invariant links == DistinctLinks(hrefs[..i])
    {
      var link := hrefs[i];
      if link != "" && link !in links {
        links := links + [link];
      }
      assert hrefs[..i + 1][..i] == hrefs[..i];
      i := i + 1;
    }
    assert hrefs[..i] == hrefs;
    DistinctLinksSpec(hrefs);
  }

  /** The result of `getNewsList`: the summary page link and the article links. */
  datatype NewsList = NewsList(abstractLink: string, news: seq<string>)

  const NoNewsListMessage: string := "未能获取到新闻列表"

  function IndexUrl(date: string): string {
    "http://tv.cctv.com/lm/xwlb/day/" + date + ".shtml"
  }

  /** `getNewsList`: the first distinct link is the summary link and the rest are
      the article links; fewer than two distinct links, or a failed fetch, throws. */
  method GetNewsList(date: string, origin: Origin) returns (r: Result<NewsList>)
    ensures match FetchHtml(origin.indexPage(IndexUrl(date)))
      case Err(m) => r == Err(m)
      case Ok(hrefs) =>
        && (r.Ok? <==> |DistinctLinks(hrefs)| >= 2)
        && (r.Err? ==> r.message == NoNewsListMessage)
        && (r.Ok? ==> [r.value.abstractLink] + r.value.news == DistinctLinks(hrefs))
    ensures r.Ok? ==> |r.value.news| >= 1 && r.value.abstractLink != "" && r.value.abstractLink !in r.value.news
    ensures r.Ok? ==> NoDuplicates(r.value.news)
  {
    var page := FetchHtml(origin.indexPage(IndexUrl(date)));
    if page.Err? {
      return Err(page.message);
    }
    var links := CollectLinks(page.value);
    if |links| == 0 {
      return Err(NoNewsListMessage);
    }
    var abstractLink, news := links[0], links[1..];
    if |news| == 0 {
      return Err(NoNewsListMessage);
    }
    assert links == [abstractLink] + news;
    assert abstractLink in links;
    r := Ok(NewsList(abstractLink, news));
  }

  // ---------------------------------------------------------------------------
  // Summary reflow

  const Semicolon: char := '；'
  const Colon: char := '：'

  predicate IsMark(c: char) {
    c == Semicolon || c == Colon
  }

  /** `s.replace(/mark/g, mark + '\n\n')`. */
  function BreakAfter(s: string, mark: char): (r: string)
    ensures |r| == |s| + 2 * CountChar(s, mark)
  {
    if s == [] then []
    else (if s[0] == mark then [mark, '\n', '\n'] else [s[0]]) + BreakAfter(s[1..], mark)
  }

  /** The re-flow `getAbstract` applies to the summary paragraph: the semicolon
      pass, then the colon pass. */
  function Reflow(html: string): string {
    BreakAfter(BreakAfter(html, Semicolon), Colon)
  }

  /** Both passes at once: a paragraph break after every semicolon and every colon. */
  function BreakMarks(s: string): (r: string)
    ensures |r| == |s| + 2 * (CountChar(s, Semicolon) + CountChar(s, Colon))
  {
    if s == [] then []
    else (if IsMark(s[0]) then [s[0], '\n', '\n'] else [s[0]]) + BreakMarks(s[1..])
  }

  lemma {:induction false} BreakAfterAppend(a: string, b: string, mark: char)
    ensures BreakAfter(a + b, mark) == BreakAfter(a, mark) + BreakAfter(b, mark)
  {
    if a != [] {
      BreakAfterAppend(a[1..], b, mark);
      assert (a + b)[1..] == a[1..] + b;
    } else {
      assert a + b == b;
    }
  }

  lemma {:induction false} BreakAfterNoMark(s: string, mark: char)
    requires mark !in s
    ensures BreakAfter(s, mark) == s
  {
    if s != [] {
      BreakAfterNoMark(s[1..], mark);
    }
  }

  /** The two passes do not interfere: together they are the single pass. */
  lemma {:induction false} ReflowIsSinglePass(s: string)
    ensures Reflow(s) == BreakMarks(s)
  {
    if s != [] {
      ReflowIsSinglePass(s[1..]);
      var head := if s[0] == Semicolon then [Semicolon, '\n', '\n'] else [s[0]];
      assert BreakAfter(s, Semicolon) == head + BreakAfter(s[1..], Semicolon);
      BreakAfterAppend(head, BreakAfter(s[1..], Semicolon), Colon);
      if s[0] == Colon {
        assert BreakAfter(head, Colon) == [Colon, '\n', '\n'] + BreakAfter([], Colon);
      } else {
        BreakAfterNoMark(head, Colon);
      }
    }
  }

  /** The inverse of the re-flow: drop the two characters after each mark. */
  function RemoveBreaks(s: string): string {
    if s == [] then []
    else if IsMark(s[0]) then [s[0]] + RemoveBreaks(s[Min(3, |s|)..])
    else [s[0]] + RemoveBreaks(s[1..])
  }

  /** The re-flow grows the text by exactly two characters per mark. */
  lemma ReflowLength(html: string)
    ensures |Reflow(html)| == |html| + 2 * (CountChar(html, Semicolon) + CountChar(html, Colon))
  {
    ReflowIsSinglePass(html);
  }

  /** Deleting the two characters after each mark restores the original text:
      the re-flow keeps every other character, in order. */
  lemma {:induction false} ReflowRoundTrip(html: string)
    ensures RemoveBreaks(Reflow(html)) == html
  {
    ReflowIsSinglePass(html);
    BreakMarksRoundTrip(html);
  }

  lemma {:induction false} BreakMarksRoundTrip(s: string)
    ensures RemoveBreaks(BreakMarks(s)) == s
  {
    if s != [] {
      BreakMarksRoundTrip(s[1..]);
      var r := BreakMarks(s);
      if IsMark(s[0]) {
        assert r[Min(3, |r|)..] == BreakMarks(s[1..]);
      } else {
        assert r[1..] == BreakMarks(s[1..]);
      }
      assert s == [s[0]] + s[1..];
    }
  }

  /** Every mark in the re-flowed text is followed by a paragraph break. */
  lemma {:induction false} ReflowBreaksAfterMarks(html: string)
    ensures forall i :: 0 <= i < |Reflow(html)| && IsMark(Reflow(html)[i]) ==>
      i + 2 < |Reflow(html)| && Reflow(html)[i + 1] == '\n' && Reflow(html)[i + 2] == '\n'
  {
    ReflowIsSinglePass(html);
    BreakMarksBreaks(html);
  }

  lemma {:induction false} BreakMarksBreaks(s: string)
    ensures forall i :: 0 <= i < |BreakMarks(s)| && IsMark(BreakMarks(s)[i]) ==>
      i + 2 < |BreakMarks(s)| && BreakMarks(s)[i + 1] == '\n' && BreakMarks(s)[i + 2] == '\n'
  {
    if s != [] {
      BreakMarksBreaks(s[1..]);
      var r := BreakMarks(s);
      var tail := BreakMarks(s[1..]);
      var h := if IsMark(s[0]) then 3 else 1;
      assert r == r[..h] + tail;
      forall i | 0 <= i < |r| && IsMark(r[i])
        ensures i + 2 < |r| && r[i + 1] == '\n' && r[i + 2] == '\n'
      {
        if i >= h {
          assert r[i] == tail[i - h];
        }
      }
    }
  }

  // ---------------------------------------------------------------------------
  // Summary and articles

  const NoAbstract: string := "暂无简介"

  /** `getAbstract`, given what the GET of the summary link returned: the
      re-flowed summary paragraph, or the sentinel when the fetch fails or the
      paragraph is missing. It never fails. */
  function GetAbstract(reply: Reply<Option<string>>): (r: string)
    ensures var page := FetchHtml(reply);
      if page.Ok? && page.value.Some? then RemoveBreaks(r) == page.value.value else r == NoAbstract
  {
    var page := FetchHtml(reply);
    if page.Ok? && page.value.Some? then
      ReflowRoundTrip(page.value.value);
      Reflow(page.value.value)
    else NoAbstract
  }

  /** One article of the day. */
  datatype NewsItem = NewsItem(title: string, content: string)

  const VideoMarker: string := "[视频]"
  const NoTitle: string := "无标题"
  const NoContent: string := "无内容"
  const FailedTitle: string := "获取失败"
  const FailedContent: string := "内容获取失败"

  /** JavaScript `s.indexOf(pat)`: the first position where `pat` occurs, or -1. */
  function IndexOf(s: string, pat: string): (k: int)
    ensures -1 <= k <= |s|
    ensures k == -1 ==> forall j :: !OccursAt(s, pat, j)
    ensures k >= 0 ==> OccursAt(s, pat, k) && forall j :: 0 <= j < k ==> !OccursAt(s, pat, j)
    decreases |s|
  {
    if IsPrefix(pat, s) then
      assert OccursAt(s, pat, 0);
      0
    else if s == [] then -1
    else
      OccursShift(s, pat);
      var k := IndexOf(s[1..], pat);
      if k == -1 then -1 else k + 1
  }

  lemma OccursShift(s: string, pat: string)
    requires s != []
    ensures forall j {:trigger OccursAt(s, pat, j)} :: 1 <= j ==> (OccursAt(s, pat, j) <==> OccursAt(s[1..], pat, j - 1))
    ensures OccursAt(s, pat, 0) <==> IsPrefix(pat, s)
  {
    forall j | 1 <= j
      ensures OccursAt(s, pat, j) <==> OccursAt(s[1..], pat, j - 1)
    {
      if j <= |s| - |pat| {
        assert s[1..][j - 1..j - 1 + |pat|] == s[j..j + |pat|];
      }
    }
  }

  /** `s.replace(pat, '')` with a string pattern: only the first occurrence goes. */
  function RemoveFirst(s: string, pat: string): (r: string)
    ensures IndexOf(s, pat) == -1 ==> r == s
    ensures IndexOf(s, pat) >= 0 ==> |r| == |s| - |pat|
  {
    var k := IndexOf(s, pat);
    if k == -1 then s else s[..k] + s[k + |pat|..]
  }

  /** Putting the pattern back where `RemoveFirst` took it out restores the string. */
  lemma RemoveFirstRestores(s: string, pat: string)
    requires IndexOf(s, pat) >= 0
    ensures var k := IndexOf(s, pat); var r := RemoveFirst(s, pat);
      r[..k] + pat + r[k..] == s
  {
    var k := IndexOf(s, pat);
    SpliceRestores(s, pat, k);
  }

  /** Cutting out an occurrence and putting it back gives the string again. */
  lemma SpliceRestores(s: string, pat: string, k: int)
    requires OccursAt(s, pat, k)
    ensures var r := s[..k] + s[k + |pat|..]; r[..k] + pat + r[k..] == s
  {
    var before, after := s[..k], s[k + |pat|..];
    var r := before + after;
    assert r[..k] == before && r[k..] == after;
    assert s == s[..k] + s[k..k + |pat|] + s[k + |pat|..];
  }

  /** Non-empty, and no leading or trailing whitespace. */
  predicate IsTrimmedText(t: string) {
    t != "" && !IsJsWhitespace(t[0]) && !IsJsWhitespace(t[|t| - 1])
  }

  /** `titleElement?.innerHTML?.replace('[视频]', '').trim() || '无标题'`: the
      title without its first video marker and surrounding whitespace; the
      sentinel when the node is missing or nothing is left. */
  function TitleText(node: Option<string>): (t: string)
    ensures IsTrimmedText(t)
    ensures node.None? ==> t == NoTitle
    ensures node.Some? ==>
      var rest := Trim(RemoveFirst(node.value, VideoMarker));
      t == if rest == "" then NoTitle else rest
  {
    match node
    case None => NoTitle
    case Some(html) =>
      var t := Trim(RemoveFirst(html, VideoMarker));
      if t == "" then NoTitle else t
  }

  /** `contentElement?.innerHTML?.trim() || '无内容'`: the content without
      surrounding whitespace; the sentinel when the node is missing or blank. */
  function ContentText(node: Option<string>): (t: string)
    ensures IsTrimmedText(t)
    ensures node.None? ==> t == NoContent
    ensures node.Some? ==>
      var rest := Trim(node.value);
      t == if rest == "" then NoContent else rest
  {
    match node
    case None => NoContent
    case Some(html) => var t := Trim(html); if t == "" then NoContent else t
  }

  /** `getSingleNews`, given what the GET of the article link returned. It never
      fails: every article record has a non-empty, trimmed title and content, and
      a failed fetch gives exactly the two failure sentinels; otherwise the title
      and the content are extracted independently of each other. */
  function GetSingleNews(reply: Reply<ArticleNodes>): (item: NewsItem)
    ensures IsTrimmedText(item.title) && IsTrimmedText(item.content)
    ensures FetchHtml(reply).Err? ==> item == NewsItem(FailedTitle, FailedContent)
  {
    var page := FetchHtml(reply);
    if page.Err? then NewsItem(FailedTitle, FailedContent)
    else NewsItem(TitleText(page.value.title), ContentText(page.value.content))
  }

  // ---------------------------------------------------------------------------
  // Sequential article walk

  /** The fetch log of a walk over `links`: one fetch per link, in order, with a
      pause before every fetch but the first. */
  function WalkLog(links: seq<string>): seq<Event> {
    if links == [] then []
    else if |links| == 1 then [Fetch(links[0])]
    else WalkLog(links[..|links| - 1]) + [Pause(PauseMs), Fetch(links[|links| - 1])]
  }

  /** Even positions of the log fetch the links in order; odd positions pause. */
  ghost predicate PoliteWalk(log: seq<Event>, links: seq<string>) {
    && |log| == (if links == [] then 0 else 2 * |links| - 1)
    && forall k :: 0 <= k < |log| ==> log[k] == (if k % 2 == 0 then Fetch(links[k / 2]) else Pause(PauseMs))
  }

  /** The walk is strictly sequential: a pause between two consecutive fetches
      and none after the last. */
  lemma {:induction false} WalkLogShape(links: seq<string>)
    ensures PoliteWalk(WalkLog(links), links)
    decreases |links|
  {
    if |links| > 1 {
      var n := |links|;
      var front := links[..n - 1];
      WalkLogShape(front);
      var log := WalkLog(links);
      forall k | 0 <= k < |log|
        ensures log[k] == (if k % 2 == 0 then Fetch(links[k / 2]) else Pause(PauseMs))
      {
        if k < 2 * n - 3 {
          assert log[k] == WalkLog(front)[k];
          assert k / 2 < n - 1;
        } else if k == 2 * n - 3 {
          assert k % 2 == 1;
        } else {
          assert k == 2 * (n - 1);
        }
      }
    }
  }

  /** `getAllNews`: one record per link, in the same order, fetched one after the other. */
  method GetAllNews(links: seq<string>, origin: Origin) returns (news: seq<NewsItem>, log: seq<Event>)
    ensures |news| == |links|
    ensures forall i :: 0 <= i < |links| ==> news[i] == GetSingleNews(origin.articlePage(links[i]))
    ensures log == WalkLog(links) && PoliteWalk(log, links)
  {
    var n := |links|;
    news, log := [], [];
    for i := 0 to n
      invariant news == ArticlesOf(links[..i], origin)
      invariant log == WalkSoFar(links, i)
    {
      MapSnoc(links, (link: string) => GetSingleNews(origin.articlePage(link)), i);
      news := news + [GetSingleNews(origin.articlePage(links[i]))];
      WalkSoFarStep(links, i);
      log := log + [Fetch(links[i])];
      if i < n - 1 {
        log := log + [Pause(PauseMs)];
      }
    }
    assert links[..n] == links;
    WalkLogShape(links);
  }

  /** The log after the first `i` iterations of the walk. */
  function WalkSoFar(links: seq<string>, i: nat): seq<Event>
    requires i <= |links|
  {
    if i == 0 then [] else WalkLog(links[..i]) + (if i < |links| then [Pause(PauseMs)] else [])
  }

  lemma WalkSoFarStep(links: seq<string>, i: nat)
    requires i < |links|
    ensures WalkSoFar(links, i + 1)
      == WalkSoFar(links, i) + [Fetch(links[i])] + (if i < |links| - 1 then [Pause(PauseMs)] else [])
  {
    WalkLogStep(links, i);
  }

  lemma WalkLogStep(links: seq<string>, i: nat)
    requires i < |links|
    ensures i == 0 ==> WalkLog(links[..i + 1]) == [Fetch(links[i])]
    ensures i > 0 ==> WalkLog(links[..i + 1]) == WalkLog(links[..i]) + [Pause(PauseMs), Fetch(links[i])]
  {
    assert links[..i + 1][..i] == links[..i];
  }

  function CountPauses(log: seq<Event>): nat {
    if log == [] then 0 else CountPauses(log[..|log| - 1]) + (if log[|log| - 1].Pause? then 1 else 0)
  }

  /** A walk over n >= 1 links pauses n - 1 times. */
  lemma {:induction false} WalkLogPauses(links: seq<string>)
    ensures CountPauses(WalkLog(links)) == Max(0, |links| - 1)
    decreases |links|
  {
    if |links| > 1 {
      var front := links[..|links| - 1];
      WalkLogPauses(front);
      var log := WalkLog(links);
      assert log[..|log| - 1] == WalkLog(front) + [Pause(PauseMs)];
      assert log[..|log| - 1][..|log| - 2] == WalkLog(front);
    } else if |links| == 1 {
      assert WalkLog(links)[..0] == [];
    }
  }

  // ---------------------------------------------------------------------------
  // Markdown assembly

  /** `links[i]` in a template literal: an index past the end reads `undefined`. */
  function LinkAt(links: seq<string>, i: nat): string {
    if i < |links| then links[i] else "undefined"
  }

  /** The block `newsToMarkdown` writes for one article. */
  function Block(item: NewsItem, link: string): string {
    var linkLine := "[查看原文](" + link + ")";
    "### " + item.title + "\n\n" + item.content + "\n\n" + linkLine + "\n\n"
  }

  /** The blocks of the articles, in order, `news[i]` paired with `links[i]`. */
  function Blocks(news: seq<NewsItem>, links: seq<string>): string {
    if news == [] then ""
    else Blocks(news[..|news| - 1], links) + Block(news[|news| - 1], LinkAt(links, |news| - 1))
  }

  /** The whole document around the article blocks; `updatedAt` is the
      `toLocaleString('zh-CN')` reading of the clock at assembly time. */
  function Document(date: string, abstractText: string, blocks: string, updatedAt: string): string {
    var title := "# 《新闻联播》 (" + DashDate(date) + ")";
    var footer := "*更新时间: " + updatedAt + "*";
    title + "\n\n" + "## 新闻摘要" + "\n\n" + abstractText + "\n\n" + "## 详细新闻" + "\n\n"
    + blocks + "\n\n" + "---" + "\n\n" + footer + "\n"
  }

  /** `newsToMarkdown`: the loop appends one block per article. */
  method NewsToMarkdown(date: string, abstractText: string, news: seq<NewsItem>, links: seq<string>, updatedAt: string)
    returns (md: string)
    ensures md == Document(date, abstractText, Blocks(news, links), updatedAt)
  {
    var mdNews := "";
    for i := 0 to |news|
      invariant mdNews == Blocks(news[..i], links)
    {
      assert news[..i + 1][..i] == news[..i];
      mdNews := mdNews + Block(news[i], LinkAt(links, i));
    }
    assert news[..|news|] == news;
    md := Document(date, abstractText, mdNews, updatedAt);
  }

  // ---------------------------------------------------------------------------
  // A whole crawl

  /** What `crawlNews` hands to storage. */
  datatype CrawlResult = CrawlResult(date: string, abstractText: string, content: string, newsCount: nat)

  /** The article records `getAllNews` produces for `links`. */
  function ArticlesOf(links: seq<string>, origin: Origin): (news: seq<NewsItem>)
    ensures |news| == |links|
  {
    Map(links, (link: string) => GetSingleNews(origin.articlePage(link)))
  }

  /** What `crawlNews` returns for `date`: the list stage is the only one that
      can fail; otherwise the summary, the article records and the document. */
  function CrawlOutcome(date: string, origin: Origin, updatedAt: string): Result<CrawlResult> {
    match FetchHtml(origin.indexPage(IndexUrl(date)))
    case Err(m) => Err(m)
    case Ok(hrefs) =>
      var links := DistinctLinks(hrefs);
      if |links| < 2 then Err(NoNewsListMessage)
      else
        var abstractText := GetAbstract(origin.abstractPage(links[0]));
        var news := ArticlesOf(links[1..], origin);
        Ok(CrawlResult(date, abstractText, Document(date, abstractText, Blocks(news, links[1..]), updatedAt), |news|))
  }

  /** The GETs `crawlNews` issues, and the pauses between them, in order. */
  function CrawlLog(date: string, origin: Origin): seq<Event> {
    [Fetch(IndexUrl(date))] +
    match FetchHtml(origin.indexPage(IndexUrl(date)))
    case Err(_) => []
    case Ok(hrefs) =>
      var links := DistinctLinks(hrefs);
      if |links| < 2 then [] else [Fetch(links[0])] + WalkLog(links[1..])
  }

  /** A crawl fails exactly when the index page cannot be fetched or holds fewer
      than two distinct links; a successful crawl keeps the date, counts one
      article per distinct link after the summary link, and its document carries
      one block per article. */
  lemma CrawlOutcomeSpec(date: string, origin: Origin, updatedAt: string)
    ensures var index := FetchHtml(origin.indexPage(IndexUrl(date)));
      var r := CrawlOutcome(date, origin, updatedAt);
      && (r.Err? <==> index.Err? || |DistinctLinks(index.value)| < 2)
      && (index.Err? ==> r.message == index.message)
      && (index.Ok? && r.Err? ==> r.message == NoNewsListMessage)
      && (r.Ok? ==>
        && r.value.date == date
        && r.value.newsCount == |DistinctLinks(index.value)| - 1
        && r.value.abstractText == GetAbstract(origin.abstractPage(DistinctLinks(index.value)[0])))
    ensures CrawlOutcome(date, origin, updatedAt).Err? ==> CrawlLog(date, origin) == [Fetch(IndexUrl(date))]
  {
  }

  /** `crawlNews`: list, summary, articles, document. */
  method CrawlNews(date: string, origin: Origin, updatedAt: string) returns (r: Result<CrawlResult>, log: seq<Event>)
    ensures r == CrawlOutcome(date, origin, updatedAt)
    ensures log == CrawlLog(date, origin)
  {
    log := [Fetch(IndexUrl(date))];
    var list := GetNewsList(date, origin);
    if list.Err? {
      return Err(list.message), log;
    }
    ghost var links := DistinctLinks(FetchHtml(origin.indexPage(IndexUrl(date))).value);
    assert links[0] == list.value.abstractLink && links[1..] == list.value.news by {
      assert [list.value.abstractLink] + list.value.news == links;
    }
    var abstractText := GetAbstract(origin.abstractPage(list.value.abstractLink));
    log := log + [Fetch(list.value.abstractLink)];
    var news, walk := GetAllNews(list.value.news, origin);
    log := log + walk;
    assert log == [Fetch(IndexUrl(date))] + ([Fetch(links[0])] + WalkLog(links[1..]));
    assert news == ArticlesOf(list.value.news, origin);
    var markdown := NewsToMarkdown(date, abstractText, news, list.value.news, updatedAt);
    r := Ok(CrawlResult(date, abstractText, markdown, |news|));
  }
}

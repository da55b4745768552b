/** How the parts of the system fit together: the article count the import
    script reads back from a Markdown file is the number of articles the
    crawler wrote into it, and the batch script's counters classify the crawl
    endpoint's answers as the endpoint means them. */
module Agreement {
  import opened Common
  import opened Calendar
  import opened Crawler
  import opened NewsStore
  import opened ImportOldData
  import opened CrawlerRoute
  import opened BatchCrawl

  // ---------------------------------------------------------------------------
  // Heading counts of generated documents

  /** Joining two texts with a line feed adds their heading counts. */
  lemma JoinLine(a: string, b: string)
    ensures ExtractNewsCount(a + "\n" + b) == ExtractNewsCount(a) + ExtractNewsCount(b)
  {
    var nl := "\n";
    assert !HeadingAt(nl, 0);
    CountAdditive(a, nl);
    CountAdditive(a + nl, b);
  }

  /** The same across a blank line. */
  lemma BlankLine(a: string, b: string)
    ensures ExtractNewsCount(a + "\n\n" + b) == ExtractNewsCount(a) + ExtractNewsCount(b)
  {
    assert a + "\n\n" + b == a + "\n" + ("" + "\n" + b);
    assert ExtractNewsCount("") == 0;
    JoinLine("", b);
    JoinLine(a, "" + "\n" + b);
  }

  /** A line of no heading: one line that does not start with `### `. */
  lemma PlainLine(s: string)
    requires NoLineTerminator(s) && !HeadingAt(s, 0)
    ensures ExtractNewsCount(s) == 0
  {
    OneLine(s);
  }

  /** The fixed lines of the document are plain lines. */
  lemma FixedLines()
    ensures ExtractNewsCount("## 新闻摘要") == 0
    ensures ExtractNewsCount("## 详细新闻") == 0
    ensures ExtractNewsCount("---") == 0
    ensures ExtractNewsCount("") == 0
  {
    var summary, details := "## 新闻摘要", "## 详细新闻";
    assert summary[2] == details[2] == ' ';
    PlainLine(summary);
    PlainLine(details);
    PlainLine("---");
  }

  /** A trailing line feed adds no heading. */
  lemma TrailingLine(a: string)
    ensures ExtractNewsCount(a + "\n") == ExtractNewsCount(a)
  {
    JoinLine(a, "");
    assert a + "\n" + "" == a + "\n";
  }

  /** `### <title>` is one heading when the title is a single line. */
  lemma TitleLine(title: string)
    requires NoLineTerminator(title)
    ensures ExtractNewsCount(Heading + title) == 1
  {
    var s := Heading + title;
    assert s[..|Heading|] == Heading;
    OneLine(s);
  }

  /** What the crawler must hold for its document to be counted back exactly:
      a one-line title and a content with no line starting with `### `. */
  predicate CountableArticle(item: NewsItem) {
    NoLineTerminator(item.title) && ExtractNewsCount(item.content) == 0
  }

  /** A block is one heading: its title line. */
  lemma BlockCount(item: NewsItem, link: string)
    requires CountableArticle(item) && NoLineTerminator(link)
    ensures ExtractNewsCount(Block(item, link)) == 1
  {
    var linkLine := "[查看原文](" + link + ")";
    var p1 := Heading + item.title;
    var p2 := p1 + "\n\n" + item.content;
    var p3 := p2 + "\n\n" + linkLine;
    assert Block(item, link) == p3 + "\n\n";
    TitleLine(item.title);
    BlankLine(p1, item.content);
    assert linkLine[0] == '[';
    PlainLine(linkLine);
    BlankLine(p2, linkLine);
    BlankLine(p3, "");
    FixedLines();
    assert p3 + "\n\n" + "" == p3 + "\n\n";
  }

  /** Each block counts one: the blocks of `news` count `|news|`. */
  lemma {:induction false} BlocksCount(news: seq<NewsItem>, links: seq<string>)
    requires forall i :: 0 <= i < |news| ==> CountableArticle(news[i])
    requires forall i :: 0 <= i < |links| ==> NoLineTerminator(links[i])
    ensures ExtractNewsCount(Blocks(news, links)) == |news|
  {
    if news != [] {
      var n := |news| - 1;
      var before := Blocks(news[..n], links);
      var block := Block(news[n], LinkAt(links, n));
      BlocksCount(news[..n], links);
      BlocksEndLine(news[..n], links);
      assert NoLineTerminator("undefined");
      BlockCount(news[n], LinkAt(links, n));
      CountAdditive(before, block);
    }
  }

  /** The blocks are empty or end with a line feed. */
  lemma BlocksEndLine(news: seq<NewsItem>, links: seq<string>)
    ensures var b := Blocks(news, links); b == [] || b[|b| - 1] == '\n'
  {
  }

  /** The import script counts exactly the articles the crawler wrote, when the
      date and the clock reading are one line each, the summary and the
      contents hold no line starting with `### `, and the titles and links are
      single lines. */
  lemma DocumentCount(date: string, abstractText: string, news: seq<NewsItem>, links: seq<string>, updatedAt: string)
    requires NoLineTerminator(date) && NoLineTerminator(updatedAt)
    requires ExtractNewsCount(abstractText) == 0
    requires forall i :: 0 <= i < |news| ==> CountableArticle(news[i])
    requires forall i :: 0 <= i < |links| ==> NoLineTerminator(links[i])
    ensures ExtractNewsCount(Document(date, abstractText, Blocks(news, links), updatedAt)) == |news|
  {
    var blocks := Blocks(news, links);
    var title := "# 《新闻联播》 (" + DashDate(date) + ")";
    var footer := "*更新时间: " + updatedAt + "*";
    TitleAndFooter(date, updatedAt);
    BlocksCount(news, links);
    SectionsCount(title, abstractText, blocks, footer);
  }

  /** The title line and the time stamp line hold no heading. */
  lemma TitleAndFooter(date: string, updatedAt: string)
    requires NoLineTerminator(date) && NoLineTerminator(updatedAt)
    ensures ExtractNewsCount("# 《新闻联播》 (" + DashDate(date) + ")") == 0
    ensures ExtractNewsCount("*更新时间: " + updatedAt + "*") == 0
  {
    var title := "# 《新闻联播》 (" + DashDate(date) + ")";
    DashDateOneLine(date);
    assert title[1] == ' ';
    PlainLine(title);
    PlainLine("*更新时间: " + updatedAt + "*");
  }

  /** The document's lines around its four variable parts add nothing. */
  lemma SectionsCount(title: string, abstractText: string, blocks: string, footer: string)
    ensures ExtractNewsCount(title + "\n\n" + "## 新闻摘要" + "\n\n" + abstractText + "\n\n" + "## 详细新闻" + "\n\n"
                             + blocks + "\n\n" + "---" + "\n\n" + footer + "\n")
      == ExtractNewsCount(title) + ExtractNewsCount(abstractText) + ExtractNewsCount(blocks) + ExtractNewsCount(footer)
  {
    var p2 := title + "\n\n" + "## 新闻摘要";
    var p3 := p2 + "\n\n" + abstractText;
    var p4 := p3 + "\n\n" + "## 详细新闻";
    var p5 := p4 + "\n\n" + blocks;
    var p6 := p5 + "\n\n" + "---";
    var p7 := p6 + "\n\n" + footer;
    FixedLines();
    BlankLine(title, "## 新闻摘要");
    BlankLine(p2, abstractText);
    BlankLine(p3, "## 详细新闻");
    BlankLine(p4, blocks);
    BlankLine(p5, "---");
    BlankLine(p6, footer);
    TrailingLine(p7);
  }

  lemma DashDateOneLine(date: string)
    requires NoLineTerminator(date)
    ensures NoLineTerminator(DashDate(date))
  {
  }

  // ---------------------------------------------------------------------------
  // The batch script's reading of the endpoint's answers

  /** The fields `skipped` and `success` of each body as JavaScript reads them;
      a missing field is `undefined`, which is false. */
  function ApiBodyOf(body: Body): ApiBody {
    match body
    case Unauthorized => ApiBody(false, false)
    case SkippedBody(_, _) => ApiBody(true, true)
    case SavedBody(_, _, _) => ApiBody(false, true)
    case FailureBody(_) => ApiBody(false, false)
  }

  /** Every answer of the endpoint is JSON, so `crawlDate` parses it. */
  function ReplyOf(resp: HttpResponse): BatchCrawl.Reply {
    Parsed(resp.status, Some(ApiBodyOf(resp.body)))
  }

  /** The endpoint's answer to the batch script's request for `date`: the
      request carries `Bearer <secret>` and the body `{ date }`, so `force` is
      absent and the date crawled is `date || getDate()`. */
  function ServerReply(rows: map<string, Article>, cronSecret: Option<string>, target: Target, date: string,
                       today: Date, origin: Origin, updatedAt: string): BatchCrawl.Reply
    requires ValidDate(today)
  {
    if !Authorized(cronSecret, Some("Bearer " + target.secret)) then ReplyOf(HttpResponse(401, Unauthorized))
    else ReplyOf(Respond(ExecuteOutcome(rows, TargetDate(Some(date), today), false, origin, updatedAt)))
  }

  /** For the non-empty dates the batch script sends, the script counts a date
      as skipped exactly when the endpoint found it stored, as a success exactly
      when the endpoint crawled and saved it, and as a failure otherwise (a
      refused secret or a failed crawl); every answer lets the loop go on to its
      pause. A secret equal to the server's is always accepted. */
  lemma BatchReadsEndpoint(rows: map<string, Article>, cronSecret: Option<string>, target: Target, date: string,
                           today: Date, origin: Origin, updatedAt: string)
    requires ValidDate(today)
    requires date != ""
    ensures var reply := ServerReply(rows, cronSecret, target, date, today, origin, updatedAt);
      var authorized := Authorized(cronSecret, Some("Bearer " + target.secret));
      && Completes(reply)
      && (VerdictOf(reply) == Skipped <==> authorized && date in rows)
      && (VerdictOf(reply) == Succeeded <==> authorized && date !in rows && CrawlOutcome(date, origin, updatedAt).Ok?)
      && (VerdictOf(reply) == Failed <==>
            !authorized || (date !in rows && CrawlOutcome(date, origin, updatedAt).Err?))
    ensures cronSecret == Some(target.secret) ==> Authorized(cronSecret, Some("Bearer " + target.secret))
  {
  }
}

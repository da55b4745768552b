# dailyNews in Dafny

dailyNews collects the daily transcript of the CCTV evening news programme
《新闻联播》. Each day, a crawler does the following:

- it reads the programme's index page for the date;
- it takes the summary link and the article links;
- it fetches the summary and every article, one at a time;
- it writes one Markdown document for the day;
- it stores that document in a table keyed by the `YYYYMMDD` date.

A protected HTTP endpoint (`GET`/`POST /api/crawler`) starts a crawl. It skips
dates that are already stored unless the crawl is forced. Three scripts work
around that table:

- a batch script asks the endpoint for every day of a date range;
- an import script copies the old static site's catalogue and Markdown files
  into the table, counting each day's articles by their `### ` headings;
- a clean-up script removes repeated dates from the catalogue.

Two archive pages list the stored days and search them. One is the React page
with a page selector; the other is the static site's page. The static site has
string helpers for dates and query strings.

The project models each of these as Dafny code:

| module | file | models |
|---|---|---|
| `Crawler` | crawler.dfy | the crawl pipeline of `lib/crawler.ts` |
| `CrawlerRoute` | crawler_route.dfy | the endpoint's authorisation, skip/force and save logic |
| `NewsStore` | store.dfy | the date-keyed `news_articles` table, as a class with a `map` field |
| `Pagination` | pagination.dfy | `getPageNumbers` and the previous/next buttons |
| `ArchivePage` | archive_page.dfy | the React archive page's state, search and 20-per-page paging |
| `ArchiveScript` | archive_script.dfy | the static archive page's rendering and search |
| `Utils` | utils.dfy | `formatDate`, `formatDateCN`, `getQueryString` (with `unescape`) |
| `BatchCrawl` | batch_crawl.dfy | argument checks, `generateDateRange` and the counting loop of the batch script |
| `ImportOldData` | import_old_data.dfy | `extractNewsCount` and the import loop |
| `Deduplicate` | deduplicate.dfy | the first-occurrence-by-date clean-up |
| `Calendar` | calendar.dfy | decimal digits, zero padding, Gregorian successor days, the date key |
| `Common` | common.dfy | `Option`/`Result`, counters, and the JavaScript string builtins the code uses |
| `Agreement` | agreement.dfy | how the parts fit together |

How the model treats the world outside the code:

- The network is a value. An `Origin` gives, for each URL, what a GET returns. That reply is already reduced to the parts the HTML parser hands to the crawler: the anchors' hrefs, the summary paragraph, and the title and content nodes.
- Pauses, fetches and the batch script's requests are recorded in event logs.
- The clock readings (today's date and the `toLocaleString` footer) are parameters.
- The endpoint's answers to the batch script are a function of the date.
- The Markdown files of the import are a function of the date.

The `Agreement` module proves two properties that span several parts:

- `DocumentCount`: the import script's heading count of a crawled document is the crawler's article count.
- `BatchReadsEndpoint`: the batch script's counters classify the endpoint's answers as the endpoint means them.

## Model

| member | source | states |
|---|---|---|
| Crawler.FetchHtml | dailynews-next/lib/crawler.ts:7-24 | the body is returned exactly for a 2xx response; a network failure passes its reason on; any other status is an error |
| Crawler.GetDate | dailynews-next/lib/crawler.ts:29-33 | today's key is all digits and, for a four-digit year, 8 characters that read back as today's date |
| Crawler.DistinctLinksSpec | dailynews-next/lib/crawler.ts:45-51 | the collected links have no duplicates, are exactly the non-empty hrefs, and are each taken at the first position it occurs, in document order |
| Crawler.CollectLinks | dailynews-next/lib/crawler.ts:45-51 | the `forEach` loop builds the distinct-link list: duplicate-free, exactly the non-empty hrefs |
| Crawler.GetNewsList | dailynews-next/lib/crawler.ts:38-69 | a fetch error passes through; otherwise it succeeds iff there are at least two distinct links, and the failure message is `未能获取到新闻列表`; the summary link followed by the article links is the distinct-link list; the article links are non-empty, duplicate-free and exclude the summary link |
| Crawler.BreakAfter | dailynews-next/lib/crawler.ts:87-89 | one replace pass grows the text by two characters per mark |
| Crawler.BreakMarks | dailynews-next/lib/crawler.ts:87-89 | the reference single-pass reflow grows the text by two characters per `；` and per `：` |
| Crawler.ReflowIsSinglePass | dailynews-next/lib/crawler.ts:87-89 | the semicolon pass followed by the colon pass equals the single pass over both marks |
| Crawler.ReflowLength | dailynews-next/lib/crawler.ts:87-89 | output length = input length + 2 × (number of `；` + number of `：`) |
| Crawler.ReflowRoundTrip | dailynews-next/lib/crawler.ts:87-89 | deleting the two characters after every mark gives the input back, so all other characters are kept in order |
| Crawler.ReflowBreaksAfterMarks | dailynews-next/lib/crawler.ts:87-89 | every mark in the reflowed text is followed by `\n\n` |
| Crawler.GetAbstract | dailynews-next/lib/crawler.ts:74-97 | with a fetched page holding the paragraph, the result is the paragraph reflowed (it undoes to the paragraph); a failed fetch or a missing paragraph gives `暂无简介`; it never fails |
| Crawler.IndexOf | dailynews-next/lib/crawler.ts:112 | `indexOf`: -1 exactly when the pattern does not occur, otherwise the leftmost position where it occurs |
| Crawler.RemoveFirst | dailynews-next/lib/crawler.ts:112 | a string-pattern `replace` removes only the first occurrence: the text is unchanged when there is none, and one pattern shorter otherwise |
| Crawler.RemoveFirstRestores | dailynews-next/lib/crawler.ts:112 | putting the pattern back at the first occurrence's position restores the original title |
| Crawler.TitleText | dailynews-next/lib/crawler.ts:112 | the title is non-empty and trimmed; a missing node gives `无标题`; otherwise it is the node with the first `[视频]` removed and then trimmed, or `无标题` when that is empty |
| Crawler.ContentText | dailynews-next/lib/crawler.ts:113 | the content is non-empty and trimmed; it is the trimmed node, or `无内容` when the node is missing or blank |
| Crawler.GetSingleNews | dailynews-next/lib/crawler.ts:102-120 | each article record has a non-empty trimmed title and content; a failed fetch gives exactly `获取失败` / `内容获取失败` |
| Crawler.WalkLogShape | dailynews-next/lib/crawler.ts:130-140 | the walk's log alternates: fetch of link k at position 2k, a 500 ms pause at each odd position, 2n-1 events for n links and none after the last fetch |
| Crawler.GetAllNews | dailynews-next/lib/crawler.ts:125-144 | one record per link, in the same order, each the record of that link's page; the log is the sequential walk with pauses between fetches |
| Crawler.WalkLogPauses | dailynews-next/lib/crawler.ts:137-139 | a walk over n links pauses max(0, n-1) times |
| Crawler.ArticlesOf | dailynews-next/lib/crawler.ts:125-144 | one record per link |
| Crawler.NewsToMarkdown | dailynews-next/lib/crawler.ts:149-167 | the loop builds the document whose article part is one `### title / content / [查看原文](link)` block per item, `news[i]` paired with `links[i]` (`undefined` past the end), under the dashed-date title |
| Crawler.CrawlOutcomeSpec | dailynews-next/lib/crawler.ts:172-200 | a crawl fails exactly when the index fetch fails (same message) or it has fewer than two distinct links (the list message); a success keeps the date, counts the distinct links minus one, and carries the summary of the first link; a failed crawl fetches only the index page |
| Crawler.CrawlNews | dailynews-next/lib/crawler.ts:172-200 | `crawlNews` yields the crawl outcome and issues the index fetch, the summary fetch and the article walk, in that order |
| CrawlerRoute.AuthorizedOnlyWithBearer | dailynews-next/app/api/crawler/route.ts:52-54 | with a secret configured, a request is let through iff its header is exactly `Bearer <secret>` |
| CrawlerRoute.TargetDate | dailynews-next/app/api/crawler/route.ts:10 | a non-empty given date is used, a missing or empty one means today's `getDate()`, so the date checked and crawled is never empty |
| CrawlerRoute.ExecuteSpec | dailynews-next/app/api/crawler/route.ts:9-41 | a stored date that is not forced leaves the table alone and answers `skipped` with the date; a failed crawl leaves the table alone; a successful crawl upserts exactly its record under that date, keeps every other row, and reports the date and the article count |
| CrawlerRoute.ExecuteCrawler | dailynews-next/app/api/crawler/route.ts:9-41 | the answer, the new table and the fetch log are those of the decision above; a skip fetches nothing |
| CrawlerRoute.Respond | dailynews-next/app/api/crawler/route.ts:58-63 | a result becomes status 200 with its body; an error becomes status 500 with `success: false` and a non-empty message, which is the error's own message when it has one |
| CrawlerRoute.HandleGet | dailynews-next/app/api/crawler/route.ts:47-65 | an unauthorised request gets 401 and nothing is fetched or stored; otherwise today's date is crawled without force: the answer, the new table and the requests made are those of `executeCrawler` (no request when the date is already stored) |
| CrawlerRoute.HandlePost | dailynews-next/app/api/crawler/route.ts:71-90 | an unauthorised request gets 401 and nothing is fetched or stored; a JSON `null` body throws on `body.date` and gets 500 with nothing fetched or stored; otherwise the body's date (or today, also for a body that does not parse) is crawled with the body's `force`, with the answer, new table and requests of `executeCrawler` |
| NewsStore.Table.constructor | dailynews-next/lib/db.ts:16-35 | the table starts empty |
| NewsStore.Table.Exists | dailynews-next/lib/db.ts:140-150 | true iff a row for the date is stored |
| NewsStore.Table.Save | dailynews-next/lib/db.ts:40-63 | the upsert writes the row for the date and leaves every other row as it was |
| NewsStore.Table.Insert | dailynews-next/scripts/import-old-data.js:94-97 | a plain insert succeeds iff the date is new, adding exactly that row; a taken date changes nothing and reports the unique-key error |
| Pagination.RunRange | dailynews-next/app/components/Pagination.tsx:54-56 | the numbered run holds exactly the pages `first..last` and no ellipsis, strictly increasing from `first` to `last` (empty when `last < first`) |
| Pagination.RunSnoc | dailynews-next/app/components/Pagination.tsx:54-56 | a run grows by one button at its end |
| Pagination.Window | dailynews-next/app/components/Pagination.tsx:38-48 | with more than 7 pages the window has exactly five pages within `[2, total-1]`, and holds the current page when that is an inner page |
| Pagination.WindowWidening | dailynews-next/app/components/Pagination.tsx:41-48 | a full window is kept; a short one keeps its start when `2·current < total` and keeps its end otherwise |
| Pagination.GetPageNumbers | dailynews-next/app/components/Pagination.tsx:25-65 | the pushes build exactly the page list: all pages for 7 or fewer, otherwise 1, an optional gap, the window, an optional gap, the last page |
| Pagination.SmallTotalListsAll | dailynews-next/app/components/Pagination.tsx:29-34 | with at most 7 pages the list is exactly `1..total` |
| Pagination.LargeTotalShape | dailynews-next/app/components/Pagination.tsx:36-62 | with more than 7 pages the list starts with 1 and ends with the last page; a gap follows 1 iff the window starts after 2, and one precedes the last iff the window ends before `total-1` |
| Pagination.PageNumbersIncrease | dailynews-next/app/components/Pagination.tsx:25-65 | the page numbers in the list strictly increase |
| Pagination.CurrentPageListed | dailynews-next/app/components/Pagination.tsx:85 | for a page in range, the current page has a button, so it can be marked active |
| Pagination.ButtonsStayInRange | dailynews-next/app/components/Pagination.tsx:69-98 | from a page in range, an enabled previous or next button leads to a page in range |
| ArchivePage.SearchResultSpec | dailynews-next/app/archive/page.tsx:68-78 | the result keeps the order of all items; a blank keyword gives all items; otherwise exactly the items whose lower-cased summary contains the lower-cased keyword or whose dashed date contains the raw keyword |
| ArchivePage.TotalPages | dailynews-next/app/archive/page.tsx:81 | `ceil(n / 20)`: the pages hold all n items, and one page fewer would not |
| ArchivePage.SliceIndex | dailynews-next/app/archive/page.tsx:82 | a `slice` position is clamped into the list |
| ArchivePage.Slice | dailynews-next/app/archive/page.tsx:82 | a `slice` is never longer than the list |
| ArchivePage.PageItemsSpec | dailynews-next/app/archive/page.tsx:23-82 | no page shows more than 20 items; a page in range shows the next up-to-20 items from where the previous page ended, and is never empty |
| ArchivePage.PagesCoverAll | dailynews-next/app/archive/page.tsx:81-82 | pages 1..totalPages, one after the other, are exactly the whole filtered list |
| ArchivePage.PagesPrefix | dailynews-next/app/archive/page.tsx:81-82 | the first k pages are the first k·20 items |
| ArchivePage.Archive.constructor | dailynews-next/app/archive/page.tsx:26-31 | empty lists, page 1, empty keyword, and the listed items are a subsequence of the loaded ones |
| ArchivePage.Archive.Load | dailynews-next/app/archive/page.tsx:36-56 | a successful load sets both lists to the data and keeps page and keyword |
| ArchivePage.Archive.HandleSearch | dailynews-next/app/archive/page.tsx:68-78 | stores the keyword, resets to page 1, refilters from all loaded items, and keeps the listed items an order-preserving subset |
| ArchivePage.Archive.HandlePageChange | dailynews-next/app/archive/page.tsx:84-87 | only the current page changes |
| ArchivePage.Archive.PageCount | dailynews-next/app/archive/page.tsx:81 | the page count covers all filtered items |
| ArchivePage.Archive.CurrentNews | dailynews-next/app/archive/page.tsx:82 | the current page shows at most 20 items |
| ArchivePage.ShowsPaginationIff | dailynews-next/app/archive/page.tsx:185 | the selector is shown iff the filtered list has more than 20 items |
| ArchiveScript.Preview | src/assets/js/archive.js:32 | the preview has `min(len, 150) + 3` characters, ends with `...`, has no line feed, and its other characters are the summary's with line feeds turned into spaces |
| ArchiveScript.FoundSpec | src/assets/js/archive.js:62-76 | a search keeps the order of all entries; a blank input finds all of them; an entry is found iff it is in the list and (the input is blank or its lower-cased date or summary contains the trimmed, lower-cased keyword) |
| ArchiveScript.SearchViewCases | src/assets/js/archive.js:20-82 | `暂无数据` appears iff the input is blank and the catalogue is empty; `未找到匹配的结果` appears iff a keyword matches no entry; otherwise the list shows the found entries' cards |
| ArchiveScript.ArchiveList.constructor | src/assets/js/archive.js:6 | no data, an empty list and a zero count |
| ArchiveScript.ArchiveList.Render | src/assets/js/archive.js:20-43 | the count is the number of entries rendered, and the list is the no-data message or their cards |
| ArchiveScript.ArchiveList.Load | src/assets/js/archive.js:9-13 | stores the data and renders it |
| ArchiveScript.ArchiveList.SearchArchive | src/assets/js/archive.js:62-82 | the data is kept, the count is the number found, and the view is the search view |
| Utils.FormatDate | src/assets/js/utils.js:8-11 | anything not 8 characters long is returned unchanged; 8 characters become 10 with `-` at 4 and 7, and removing the dashes gives the input back |
| Utils.FormatDateCN | src/assets/js/utils.js:16-19 | the same pass-through rule; 8 characters become 11 with `年`, `月`, `日` at 4, 7, 10, and removing them gives the input back |
| Utils.FormattersAgree | src/assets/js/utils.js:8-19 | both formatters write the same year, month and day digits |
| Utils.Unescape | src/assets/js/utils.js:27 | `unescape` never lengthens a string |
| Utils.UnescapePlain | src/assets/js/utils.js:27 | text without `%` is unchanged by `unescape` |
| Utils.UnescapeEscape | src/assets/js/utils.js:27 | `unescape` undoes the escaping of `%` and `&` as `%25` and `%26`, for every text |
| Utils.FirstNameAt | src/assets/js/utils.js:25-26 | finds the leftmost `name=` (case-insensitive) that starts the query or follows `&`, or reports there is none |
| Utils.UpToAmpersand | src/assets/js/utils.js:25 | `[^&]*`: the longest prefix without `&`, stopped by an `&` or the end |
| Utils.GetQueryString | src/assets/js/utils.js:24-29 | null exactly when no parameter has the name |
| Utils.GetQueryStringFound | src/assets/js/utils.js:24-29 | a value found is the unescaped text from the leftmost matching `name=` to the next `&` or the end |
| Utils.QueryStringRoundTrip | src/assets/js/utils.js:24-29 | a first parameter with an escaped value is read back exactly, whatever follows it |
| Utils.QueryStringRoundTripAlone | src/assets/js/utils.js:24-29 | the same when it is the only parameter |
| Utils.FirstParameterRead | src/assets/js/utils.js:24-29 | a first parameter that carries the name is the one read |
| Common.DashDate | dailynews-next/scripts/batch-crawl.js:34-39 | `YYYY-MM-DD`: two dashes inserted after the 4th and 6th characters; for 8 characters, removing them gives the input back |
| Common.Trim | dailynews-next/lib/crawler.ts:112-113 | `trim` leaves no whitespace at either end and never lengthens a string |
| Common.TrimInfix | dailynews-next/lib/crawler.ts:112-113 | what `trim` keeps is one stretch of the input, and all it drops is whitespace |
| Common.TrimEmpty | dailynews-next/lib/crawler.ts:112-113 | `trim` gives the empty string iff the input is all whitespace |
| Common.Lower | src/assets/js/archive.js:63 | `toLowerCase` keeps the length, leaves no upper-case ASCII letter and keeps every character that is not one |
| Common.LowerIdempotent | src/assets/js/archive.js:63 | lower-casing a lower-cased string changes nothing |
| Common.ReplaceChar | src/assets/js/archive.js:32 | `replaceAll(c, d)` keeps the length, changes exactly the `c`s, leaves no `c` when `c != d`, and is the identity when `s` has no `c` |
| Common.ReplaceCharCount | src/assets/js/archive.js:32 | after `replaceAll(c, d)` with `c != d`, the `d`s number the former `c`s plus `d`s, and no `c` is left |
| Common.Substring | dailynews-next/lib/crawler.ts:164 | `substring` clamps both ends to the length |
| Common.ContainsAt | src/assets/js/archive.js:73 | `includes` holds iff the text occurs at some position |
| Common.Filter | src/assets/js/archive.js:70-74 | `filter` keeps only elements satisfying the predicate |
| Common.FilterMembership | src/assets/js/archive.js:70-74 | an element is kept iff it is present and satisfies the predicate |
| Common.FilterIsSubsequence | dailynews-next/app/archive/page.tsx:76 | `filter` keeps the order of what it keeps |
| Common.Count | dailynews-next/scripts/batch-crawl.js:166-180 | counting one item moves exactly one counter |
| Calendar.Decimal | dailynews-next/scripts/batch-crawl.js:48 | `String(n)`: at least one digit, no leading zero |
| Calendar.ParseDecimalOfDecimal | dailynews-next/scripts/batch-crawl.js:44-45 | `parseInt` reads back what `String` writes |
| Calendar.DecimalOfParseDecimal | dailynews-next/scripts/batch-crawl.js:44-45 | a digit string without a leading zero is written back unchanged |
| Calendar.Pad2 | dailynews-next/scripts/batch-crawl.js:49-50 | `padStart(2, "0")` / `add0`: two digits below 100 |
| Calendar.Pad2RoundTrip | dailynews-next/lib/crawler.ts:30-32 | a padded number below 100 reads back as the number |
| Calendar.Pad2OfParse | dailynews-next/scripts/batch-crawl.js:44-50 | a two-digit field is padded back unchanged |
| Calendar.DaysInMonth | dailynews-next/scripts/batch-crawl.js:47 | months have 28 to 31 days |
| Calendar.NextDay | dailynews-next/scripts/batch-crawl.js:47 | `setDate(getDate() + 1)` gives a valid date |
| Calendar.NextDayNumber | dailynews-next/scripts/batch-crawl.js:47 | the next day is exactly one day later on the day line |
| Calendar.DayNumberInjective | dailynews-next/scripts/batch-crawl.js:47 | two valid dates on the same day of the day line are equal |
| Calendar.DateKey | dailynews-next/scripts/batch-crawl.js:48-51 | the key is all digits, the year's digits plus four |
| Calendar.DateKeyRoundTrip | dailynews-next/scripts/batch-crawl.js:48-51 | a date in a four-digit year has an 8-digit key that reads back as that date |
| Calendar.ParseKeyRoundTrip | dailynews-next/scripts/batch-crawl.js:44-51 | an 8-digit key without a leading zero is written back unchanged |
| BatchCrawl.ParseArgs | dailynews-next/scripts/batch-crawl.js:104-140 | an accepted command line has at least two arguments, which are the dates, and its environment is local iff the third argument is `local`, absent or empty |
| BatchCrawl.ParseArgsAccepts | dailynews-next/scripts/batch-crawl.js:104-140 | the arguments are accepted iff there are at least two, the first two are `^\d{8}$`, and the environment is `local` or `prod` (missing or empty means `local`) |
| BatchCrawl.Nth | dailynews-next/scripts/batch-crawl.js:47 | n steps of the loop land exactly n days later |
| BatchCrawl.DaysBetween | dailynews-next/scripts/batch-crawl.js:42-55 | the range has one day per day from start to end, none when start is later |
| BatchCrawl.GenerateDateRange | dailynews-next/scripts/batch-crawl.js:42-55 | the loop writes the key of every day from start to end, in order |
| BatchCrawl.DaysBetweenSpec | dailynews-next/scripts/batch-crawl.js:42-55 | empty iff start is after end; otherwise it runs from start to end, each day the successor of the previous one, strictly increasing |
| BatchCrawl.DaysBetweenComplete | dailynews-next/scripts/batch-crawl.js:42-55 | every valid day between start and end is in the range |
| BatchCrawl.KeysAreEightDigits | dailynews-next/scripts/batch-crawl.js:48-51 | for four-digit years every key is 8 digits that read back as its day |
| BatchCrawl.TallyTotal | dailynews-next/scripts/batch-crawl.js:153-190 | success + skip + fail = the number of dates |
| BatchCrawl.RunBatch | dailynews-next/scripts/batch-crawl.js:153-190 | the counters classify each reply (`skipped` → skip, else `success` → success, else fail; a reply that throws or is not JSON → fail), and the log is one request per date with a pause after each completed request but the last |
| BatchCrawl.BatchRequestsDates | dailynews-next/scripts/batch-crawl.js:157-164 | every date is requested exactly once, in order |
| BatchCrawl.BatchRequestsTarget | dailynews-next/scripts/batch-crawl.js:58-72 | every request goes to the environment's endpoint with its bearer secret |
| BatchCrawl.BatchLogEndsWithRequest | dailynews-next/scripts/batch-crawl.js:183-185 | the run ends with the last request, never with a pause |
| BatchCrawl.BatchLogPauses | dailynews-next/scripts/batch-crawl.js:183-185 | when every request completes, there is exactly one 3-second pause between each two requests |
| BatchCrawl.Run | dailynews-next/scripts/batch-crawl.js:103-190 | a rejected command line exits without any request; otherwise the script lists the range and works through it with the counters and log above |
| ImportOldData.CountAdditive | dailynews-next/scripts/import-old-data.js:45-49 | the heading count of two pieces joined at a line break is the sum of their counts |
| ImportOldData.OneLine | dailynews-next/scripts/import-old-data.js:45-49 | a single line counts 1 if it starts with `### ` and 0 otherwise |
| ImportOldData.ImportData | dailynews-next/scripts/import-old-data.js:54-106 | the loop's table and counters are those of the per-entry rule: skip a stored date, fail an unreadable or empty file, insert otherwise |
| ImportOldData.ImportTotal | dailynews-next/scripts/import-old-data.js:66-103 | each catalogue entry moves exactly one counter |
| ImportOldData.ImportRowsSpec | dailynews-next/scripts/import-old-data.js:66-103 | existing rows never change; a new row appears iff some entry has the date and its file is readable, and it holds the first such entry's summary, the file text and its heading count |
| ImportOldData.StepVerdictSpec | dailynews-next/scripts/import-old-data.js:73-99 | entry i is skipped if its date was stored or already imported by an earlier entry, failed if its file is unreadable, and imported otherwise |
| Deduplicate.Deduplicate | scripts/deduplicate.js:17-29 | the loop keeps each entry whose date is new, and the removed count is input length minus output length |
| Deduplicate.DedupKeepsDates | scripts/deduplicate.js:21-26 | the output has exactly the input's dates |
| Deduplicate.DedupDistinct | scripts/deduplicate.js:21-26 | no two output entries share a date |
| Deduplicate.DedupFirstWins | scripts/deduplicate.js:22-24 | each output entry is the first input entry with its date |
| Deduplicate.DedupIsSubsequence | scripts/deduplicate.js:21-26 | the output keeps entries of the input in their order |
| Deduplicate.DedupOfDistinct | scripts/deduplicate.js:21-26 | entries with distinct dates are kept as they are |
| Deduplicate.DedupIdempotent | scripts/deduplicate.js:17-29 | running the clean-up again removes nothing |
| Agreement.BlockCount | dailynews-next/lib/crawler.ts:158-162 | one article block counts exactly one heading |
| Agreement.BlocksCount | dailynews-next/lib/crawler.ts:158-162 | the blocks of n articles count n headings |
| Agreement.DocumentCount | dailynews-next/scripts/import-old-data.js:45-49 | the heading count of the crawler's document is the number of its articles, when titles, links, date and timestamp are single lines and the summary and contents hold no `### ` line |
| Agreement.BatchReadsEndpoint | dailynews-next/scripts/batch-crawl.js:166-180 | for the non-empty dates the script sends (the endpoint's fallback to today then leaves the date as sent), the batch script counts a date as skipped iff it was stored, as a success iff it was crawled and saved, and as a failure iff the secret was refused or the crawl failed; every answer reaches the pause |

## Left out

- Network and HTML parsing: `fetch`, JSDOM, CSS selectors and href resolution are not modelled. A page is the value the parser would hand over, and a GET of a URL always gives the same reply during one run.
- Time: the 500 ms and 3000 ms waits are log entries. The clock is a parameter (`today`, `updatedAt`).
- Storage: the SQL of `dailynews-next/lib/db.ts` and the connection handling are not modelled. A database error inside `saveNewsArticle` is not modelled: the upsert always succeeds.
- File I/O: reading and writing `catalogue.json` and the Markdown files, and `process.exit`, are not modelled. The import's files are a function from the date to an optional text.
- Console output, rendering, animations and scrolling (the scroll in `handlePageChange`, the hash-anchor highlight in `renderArchive`) are left out.
- Error pages: the archive pages' load-failure messages and the `/api/news` request are left out; only a successful load is modelled.
- Common.Lower: `toLowerCase` is modelled on the ASCII letters only; every other character is kept as it is. (`trim` is modelled with the full JavaScript whitespace and line-terminator set.)
- Utils.FirstNameAt: the `i` flag compares ASCII letters only. A `name` holding regular-expression metacharacters is matched literally, where the `RegExp` would interpret them.
- Utils.Unescape: `%uXXXX` escapes of UTF-16 surrogates are not decoded, because Dafny characters are Unicode scalar values. A string is a sequence of code points, not of UTF-16 units, so lengths such as the 150-character preview count code points.
- Crawler.GetSingleNews: its contract states the non-empty trimmed fields and the failure sentinels. The exact title and content are stated by `Crawler.TitleText` and `Crawler.ContentText`.
- Crawler.GetAbstract: its contract states the reflow through its inverse; the exact text is `Crawler.ReflowIsSinglePass` with `Crawler.BreakMarks`.
- CrawlerRoute.HandlePost: `force` is the truthiness of the body's field, and a `date` that is not a string is not modelled. The 500 answer to a JSON `null` body carries V8's `TypeError` message; another engine's wording is not modelled.
- BatchCrawl.GenerateDateRange and BatchCrawl.Run require valid calendar dates. The JavaScript `Date` normalisation of an out-of-range month or day (such as `20241345`) is not modelled.
- BatchCrawl.RunBatch: the endpoint's answer is a function of the date asked for.
- Agreement.BatchReadsEndpoint: it covers a non-empty date with `force` absent, which is what the batch script sends (every date it generates has eight digits).
- Agreement.DocumentCount holds under its stated hypotheses: single-line titles, links, date and timestamp, and no `### ` line in the summary or the contents. The crawler does not enforce these.
- The other pages and endpoints (home page, detail page, sitemap, statistics, news API), the migration script and the browser-only helpers of `src/assets/js/utils.js` (clipboard, share, loading and error boxes, JSON and Markdown loaders) are not part of this model.

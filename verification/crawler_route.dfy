/** The crawl trigger (dailynews-next/app/api/crawler/route.ts): the bearer-secret
    check shared by `GET` and `POST`, and `executeCrawler`, which skips a date
    already stored unless forced, and otherwise crawls it and upserts the result.
    The clock reading behind `getDate()` and the `toLocaleString` footer are
    parameters; the environment's `CRON_SECRET` and the request's
    `authorization` header are optional strings. */
module CrawlerRoute {
  import opened Common
  import opened Calendar
  import opened Crawler
  import opened NewsStore

  /** `!(cronSecret && authHeader !== 'Bearer ' + cronSecret)`: an unset or
      empty secret lets every request through. */
  predicate Authorized(cronSecret: Option<string>, authHeader: Option<string>) {
    cronSecret.None? || cronSecret.value == "" || authHeader == Some("Bearer " + cronSecret.value)
  }

  /** With a secret configured, the one header that passes is `Bearer <secret>`. */
  lemma AuthorizedOnlyWithBearer(secret: string, authHeader: Option<string>)
    requires secret != ""
    ensures Authorized(Some(secret), authHeader) <==> authHeader == Some("Bearer " + secret)
  {
  }

  /** The JSON bodies the route answers with. */
  datatype Body =
    | Unauthorized                                          // { error: '未授权访问' }
    | SkippedBody(message: string, date: string)            // { success: true, message, date, skipped: true }
    | SavedBody(message: string, date: string, newsCount: nat)  // { success: true, message, data: { date, newsCount } }
    | FailureBody(error: string)                            // { success: false, error }

  datatype HttpResponse = HttpResponse(status: nat, body: Body)

  const SavedMessage: string := "爬取并保存成功"
  const DefaultError: string := "爬虫执行失败"

  function SkipMessage(date: string): string {
    date + " 的新闻已存在，跳过爬取"
  }

  /** `targetDate || getDate()`: a missing or empty date means today. */
  function TargetDate(targetDate: Option<string>, today: Date): (date: string)
    requires ValidDate(today)
    ensures targetDate.Some? && targetDate.value != "" ==> date == targetDate.value
    ensures targetDate.None? || targetDate.value == "" ==> date == GetDate(today)
    ensures date != ""
  {
    if targetDate.Some? && targetDate.value != "" then targetDate.value else GetDate(today)
  }

  /** Whether `executeCrawler` stops at the existence check. */
  predicate Skips(rows: map<string, Article>, date: string, force: bool) {
    date in rows && !force
  }

  /** What `executeCrawler` answers, given the table before the call. */
  function ExecuteOutcome(rows: map<string, Article>, date: string, force: bool, origin: Origin, updatedAt: string): Result<Body> {
    if Skips(rows, date, force) then Ok(SkippedBody(SkipMessage(date), date))
    else
      match CrawlOutcome(date, origin, updatedAt)
      case Err(m) => Err(m)
      case Ok(c) => Ok(SavedBody(SavedMessage, c.date, c.newsCount))
  }

  /** The table after `executeCrawler`. */
  function ExecuteRows(rows: map<string, Article>, date: string, force: bool, origin: Origin, updatedAt: string): map<string, Article> {
    if Skips(rows, date, force) then rows
    else
      match CrawlOutcome(date, origin, updatedAt)
      case Err(_) => rows
      case Ok(c) => rows[c.date := Article(c.abstractText, c.content, c.newsCount)]
  }

  /** A skipped date leaves the table alone and fetches nothing; a crawl that
      fails leaves the table alone; a crawl that succeeds upserts exactly its
      own record under the requested date and touches no other date, and the
      answer reports that date and the article count. */
  lemma ExecuteSpec(rows: map<string, Article>, date: string, force: bool, origin: Origin, updatedAt: string)
    ensures Skips(rows, date, force) ==>
      ExecuteRows(rows, date, force, origin, updatedAt) == rows
      && ExecuteOutcome(rows, date, force, origin, updatedAt) == Ok(SkippedBody(SkipMessage(date), date))
    ensures !Skips(rows, date, force) && CrawlOutcome(date, origin, updatedAt).Err? ==>
      ExecuteRows(rows, date, force, origin, updatedAt) == rows
      && ExecuteOutcome(rows, date, force, origin, updatedAt).Err?
    ensures !Skips(rows, date, force) && CrawlOutcome(date, origin, updatedAt).Ok? ==>
      var c := CrawlOutcome(date, origin, updatedAt).value;
      var after := ExecuteRows(rows, date, force, origin, updatedAt);
      && after.Keys == rows.Keys + {date}
      && after[date] == Article(c.abstractText, c.content, c.newsCount)
      && (forall d :: d in rows && d != date ==> after[d] == rows[d])
      && ExecuteOutcome(rows, date, force, origin, updatedAt) == Ok(SavedBody(SavedMessage, date, c.newsCount))
  {
    if !Skips(rows, date, force) && CrawlOutcome(date, origin, updatedAt).Ok? {
      CrawlOutcomeSpec(date, origin, updatedAt);
    }
  }

  /** `executeCrawler(targetDate, force)`. */
  method ExecuteCrawler(table: Table, targetDate: Option<string>, force: bool, today: Date, origin: Origin, updatedAt: string)
    returns (r: Result<Body>, log: seq<Event>)
    requires ValidDate(today)
    modifies table
    ensures var date := TargetDate(targetDate, today);
      && r == ExecuteOutcome(old(table.rows), date, force, origin, updatedAt)
      && table.rows == ExecuteRows(old(table.rows), date, force, origin, updatedAt)
      && log == (if Skips(old(table.rows), date, force) then [] else CrawlLog(date, origin))
  {
    var date := TargetDate(targetDate, today);
    var present := table.Exists(date);
    if present && !force {
      return Ok(SkippedBody(SkipMessage(date), date)), [];
    }
    var result;
    result, log := CrawlNews(date, origin, updatedAt);
    if result.Err? {
      return Err(result.message), log;
    }
    var saved := table.Save(result.value.date, result.value.abstractText, result.value.content, result.value.newsCount);
    r := Ok(SavedBody(SavedMessage, result.value.date, result.value.newsCount));
  }

  /** The `catch` of both handlers: status 500 and `error.message || '爬虫执行失败'`. */
  function Respond(r: Result<Body>): (resp: HttpResponse)
    ensures r.Ok? ==> resp == HttpResponse(200, r.value)
    ensures r.Err? ==> resp.status == 500 && resp.body.FailureBody? && resp.body.error != ""
    ensures r.Err? && r.message != "" ==> resp.body == FailureBody(r.message)
  {
    match r
    case Ok(body) => HttpResponse(200, body)
    case Err(m) => HttpResponse(500, FailureBody(if m == "" then DefaultError else m))
  }

  /** `GET /api/crawler` (the scheduled trigger): today's date, never forced. */
  method HandleGet(table: Table, cronSecret: Option<string>, authHeader: Option<string>, today: Date, origin: Origin, updatedAt: string)
    returns (resp: HttpResponse, log: seq<Event>)
    requires ValidDate(today)
    modifies table
    ensures !Authorized(cronSecret, authHeader) ==>
      resp == HttpResponse(401, Unauthorized) && log == [] && table.rows == old(table.rows)
    ensures Authorized(cronSecret, authHeader) ==>
      var date := GetDate(today);
      && resp == Respond(ExecuteOutcome(old(table.rows), date, false, origin, updatedAt))
      && table.rows == ExecuteRows(old(table.rows), date, false, origin, updatedAt)
      && log == (if Skips(old(table.rows), date, false) then [] else CrawlLog(date, origin))
  {
    if !Authorized(cronSecret, authHeader) {
      return HttpResponse(401, Unauthorized), [];
    }
    var r;
    r, log := ExecuteCrawler(table, None, false, today, origin, updatedAt);
    resp := Respond(r);
  }

  /** The fields of a `POST` body the route reads; `force` is its truthiness. */
  datatype RequestBody = RequestBody(date: Option<string>, force: bool)

  /** What `request.json().catch(() => ({}))` yields. A body that does not parse
      becomes `{}`; JSON `null` parses, and reading `body.date` from it throws;
      any other JSON value is read for its `date` and `force` (a number, string,
      boolean or array has neither). */
  datatype PostBody = Malformed | JsonNull | JsonValue(fields: RequestBody)

  /** The `TypeError` message V8 gives for reading `date` from `null`. */
  const NullBodyError: string := "Cannot read properties of null (reading 'date')"

  /** The arguments `executeCrawler(body.date, body.force)` receives, or the
      message of the error thrown while reading them. */
  function ParsedBody(body: PostBody): (b: Result<RequestBody>)
    ensures b.Err? <==> body.JsonNull?
    ensures body.Malformed? ==> b == Ok(RequestBody(None, false))
    ensures body.JsonValue? ==> b == Ok(body.fields)
  {
    match body
    case Malformed => Ok(RequestBody(None, false))
    case JsonNull => Err(NullBodyError)
    case JsonValue(fields) => Ok(fields)
  }

  /** `POST /api/crawler` (manual trigger): optional date and `force`. */
  method HandlePost(table: Table, cronSecret: Option<string>, authHeader: Option<string>, body: PostBody,
                    today: Date, origin: Origin, updatedAt: string)
    returns (resp: HttpResponse, log: seq<Event>)
    requires ValidDate(today)
    modifies table
    ensures !Authorized(cronSecret, authHeader) ==>
      resp == HttpResponse(401, Unauthorized) && log == [] && table.rows == old(table.rows)
    ensures Authorized(cronSecret, authHeader) && body.JsonNull? ==>
      resp == HttpResponse(500, FailureBody(NullBodyError)) && log == [] && table.rows == old(table.rows)
    ensures Authorized(cronSecret, authHeader) && !body.JsonNull? ==>
      var req := if body.JsonValue? then body.fields else RequestBody(None, false);
      var date := TargetDate(req.date, today);
      && resp == Respond(ExecuteOutcome(old(table.rows), date, req.force, origin, updatedAt))
      && table.rows == ExecuteRows(old(table.rows), date, req.force, origin, updatedAt)
      && log == (if Skips(old(table.rows), date, req.force) then [] else CrawlLog(date, origin))
  {
    if !Authorized(cronSecret, authHeader) {
      return HttpResponse(401, Unauthorized), [];
    }
    var req := ParsedBody(body);
    if req.Err? {
      return Respond(Err(req.message)), [];
    }
    var r;
    r, log := ExecuteCrawler(table, req.value.date, req.value.force, today, origin, updatedAt);
    resp := Respond(r);
  }
}

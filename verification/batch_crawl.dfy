/** The batch crawl script (dailynews-next/scripts/batch-crawl.js): it checks its
    arguments, lists every day from a start date to an end date and asks the
    crawl endpoint for each of them in turn, three seconds apart, counting
    successes, skips and failures. The endpoint's replies are an input (a
    function of the date asked for) and the requests and pauses are a log. */
module BatchCrawl {
  import opened Common
  import opened Calendar

  // ---------------------------------------------------------------------------
  // Arguments and configuration

  datatype Environment = Local | Prod

  /** What the argument check decides: one of the three early exits, or the
      dates and environment to work with. */
  datatype Args =
    | Usage
    | BadDateFormat
    | BadEnvironment
    | Accepted(startDate: string, endDate: string, env: Environment)

  /** `/^\d{8}$/`: exactly eight ASCII digits. */
  predicate IsDateArg(s: string) {
    |s| == 8 && AllDigits(s)
  }

  /** `args[2] || "local"`. */
  function EnvName(args: seq<string>): string {
    if |args| > 2 && args[2] != "" then args[2] else "local"
  }

  /** The checks of `main`, in their order: at least two arguments, two dates
      of eight digits, and an environment that is `local` or `prod`. */
  function ParseArgs(args: seq<string>): (r: Args)
    ensures r.Accepted? ==> |args| >= 2 && r.startDate == args[0] && r.endDate == args[1]
    ensures r.Accepted? ==> (r.env == Local <==> EnvName(args) == "local")
  {
    if |args| < 2 then Usage
    else if !IsDateArg(args[0]) || !IsDateArg(args[1]) then BadDateFormat
    else if EnvName(args) == "local" then Accepted(args[0], args[1], Local)
    else if EnvName(args) == "prod" then Accepted(args[0], args[1], Prod)
    else BadEnvironment
  }

  /** The arguments are accepted exactly when all three checks pass; a missing
      or empty third argument means `local`. */
  lemma ParseArgsAccepts(args: seq<string>)
    ensures ParseArgs(args).Accepted? <==>
      |args| >= 2 && IsDateArg(args[0]) && IsDateArg(args[1])
      && (EnvName(args) == "local" || EnvName(args) == "prod")
    ensures |args| == 2 && IsDateArg(args[0]) && IsDateArg(args[1]) ==>
      ParseArgs(args) == Accepted(args[0], args[1], Local)
  {
  }

  /** Where the requests go and the secret they carry. */
  datatype Target = Target(baseUrl: string, secret: string)

  const PlaceholderSecret: string := "xxx"

  /** `config[env]`; the local secret is `process.env.CRON_SECRET || "xxx"`. */
  function TargetOf(env: Environment, cronSecret: Option<string>): Target {
    match env
    case Local =>
      Target("http://localhost:3000",
        if cronSecret.None? || cronSecret.value == "" then PlaceholderSecret else cronSecret.value)
    case Prod => Target("https://news.jieer.dpdns.org", PlaceholderSecret)
  }

  // ---------------------------------------------------------------------------
  // generateDateRange

  /** `new Date(y, …)` reads a year from 0 to 99 as 1900 to 1999. */
  function JsYear(y: nat): nat {
    if y <= 99 then 1900 + y else y
  }

  /** The day `new Date(parseInt(s[0..4]), parseInt(s[4..6]) - 1, parseInt(s[6..8]))` stands for. */
  function ArgDate(s: string): Date
    requires IsDateArg(s)
  {
    var k := ParseKey(s);
    Date(JsYear(k.year), k.month, k.day)
  }

  /** The day `n` days after `d`. */
  function Nth(d: Date, n: nat): (r: Date)
    requires ValidDate(d)
    ensures ValidDate(r) && DayNumber(r) == DayNumber(d) + n
  {
    if n == 0 then d
    else
      var p := Nth(d, n - 1);
      NextDayNumber(p);
      NextDay(p)
  }

  /** The days from `s` to `e`, both included. */
  function DaysBetween(s: Date, e: Date): (r: seq<Date>)
    requires ValidDate(s) && ValidDate(e)
    ensures |r| == Max(0, DayNumber(e) - DayNumber(s) + 1)
  {
    seq(Max(0, DayNumber(e) - DayNumber(s) + 1), i requires 0 <= i => Nth(s, i))
  }

  /** The key of each day, in order. */
  function KeysOf(days: seq<Date>): (r: seq<string>)
    ensures |r| == |days|
  {
    if days == [] then [] else KeysOf(days[..|days| - 1]) + [DateKey(days[|days| - 1])]
  }

  lemma {:induction false} KeysOfAt(days: seq<Date>, i: nat)
    requires i < |days|
    ensures KeysOf(days)[i] == DateKey(days[i])
  {
    if i < |days| - 1 {
      KeysOfAt(days[..|days| - 1], i);
    }
  }

  /** `generateDateRange(startDate, endDate)`: steps a date one day at a time
      while it is not after the end date, writing each one down. */
  method GenerateDateRange(startDate: string, endDate: string) returns (dates: seq<string>)
    requires IsDateArg(startDate) && IsDateArg(endDate)
    requires ValidDate(ArgDate(startDate)) && ValidDate(ArgDate(endDate))
    ensures dates == KeysOf(DaysBetween(ArgDate(startDate), ArgDate(endDate)))
  {
    var start := ArgDate(startDate);
    var end := ArgDate(endDate);
    dates := [];
    ghost var days: seq<Date> := [];
    var d := start;
    while DayNumber(d) <= DayNumber(end)
      invariant d == Nth(start, |days|)
      invariant |days| <= Max(0, DayNumber(end) - DayNumber(start) + 1)
      invariant forall i :: 0 <= i < |days| ==> days[i] == Nth(start, i)
      invariant dates == KeysOf(days)
      decreases DayNumber(end) - DayNumber(d)
    {
      RangeStep(start, days);
      assert (days + [d])[..|days|] == days;
      dates := dates + [DateKey(d)];
      days := days + [d];
      NextDayNumber(d);
      d := NextDay(d);
    }
    RangeComplete(start, end, days);
  }

  /** One more day of the range: the next day extends the list. */
  lemma RangeStep(start: Date, days: seq<Date>)
    requires ValidDate(start)
    requires forall i :: 0 <= i < |days| ==> days[i] == Nth(start, i)
    ensures var more := days + [Nth(start, |days|)];
      && (forall i :: 0 <= i < |more| ==> more[i] == Nth(start, i))
      && Nth(start, |more|) == NextDay(Nth(start, |days|))
  {
  }

  /** The days a walk from `start` wrote down before it passed `end` are the range. */
  lemma RangeComplete(start: Date, end: Date, days: seq<Date>)
    requires ValidDate(start) && ValidDate(end)
    requires forall i :: 0 <= i < |days| ==> days[i] == Nth(start, i)
    requires |days| <= Max(0, DayNumber(end) - DayNumber(start) + 1)
    requires DayNumber(Nth(start, |days|)) > DayNumber(end)
    ensures days == DaysBetween(start, end)
  {
    var all := DaysBetween(start, end);
    assert |days| == |all|;
    assert forall i :: 0 <= i < |all| ==> all[i] == Nth(start, i);
  }

  /** The range runs from the start day to the end day one day at a time, is
      empty exactly when the start is after the end, and holds every day in
      between. */
  lemma DaysBetweenSpec(s: Date, e: Date)
    requires ValidDate(s) && ValidDate(e)
    ensures var r := DaysBetween(s, e);
      && (r == [] <==> DayNumber(s) > DayNumber(e))
      && (r != [] ==> r[0] == s && r[|r| - 1] == e)
      && (forall i :: 0 <= i < |r| - 1 ==> r[i + 1] == NextDay(r[i]))
      && (forall i, j :: 0 <= i < j < |r| ==> DayNumber(r[i]) < DayNumber(r[j]))
  {
    var r := DaysBetween(s, e);
    if r != [] {
      DayNumberInjective(r[|r| - 1], e);
    }
  }

  /** Every valid day from the start to the end is in the range. */
  lemma DaysBetweenComplete(s: Date, e: Date, d: Date)
    requires ValidDate(s) && ValidDate(e) && ValidDate(d)
    requires DayNumber(s) <= DayNumber(d) <= DayNumber(e)
    ensures d in DaysBetween(s, e)
  {
    var r := DaysBetween(s, e);
    var i := DayNumber(d) - DayNumber(s);
    DayNumberInjective(r[i], d);
  }

  /** Between two days of four-digit years, every key is 8 digits that read
      back as its day, so consecutive keys are consecutive days. */
  lemma KeysAreEightDigits(s: Date, e: Date)
    requires ValidDate(s) && ValidDate(e) && 1000 <= s.year && e.year <= 9999
    ensures var keys := KeysOf(DaysBetween(s, e));
      forall i :: 0 <= i < |keys| ==>
        |keys[i]| == 8 && AllDigits(keys[i]) && ParseKey(keys[i]) == DaysBetween(s, e)[i]
  {
    var r := DaysBetween(s, e);
    forall i | 0 <= i < |r|
      ensures |KeysOf(r)[i]| == 8 && AllDigits(KeysOf(r)[i]) && ParseKey(KeysOf(r)[i]) == r[i]
    {
      KeyInRange(s, e, i);
    }
  }

  lemma KeyInRange(s: Date, e: Date, i: nat)
    requires ValidDate(s) && ValidDate(e) && 1000 <= s.year && e.year <= 9999
    requires i < |DaysBetween(s, e)|
    ensures var k := KeysOf(DaysBetween(s, e))[i];
      |k| == 8 && AllDigits(k) && ParseKey(k) == DaysBetween(s, e)[i]
  {
    var r := DaysBetween(s, e);
    var d := r[i];
    assert d == Nth(s, i);
    if d.year < s.year {
      YearOrder(d, s);
    }
    if e.year < d.year {
      YearOrder(e, d);
    }
    KeysOfAt(r, i);
    DateKeyRoundTrip(d);
  }

  // ---------------------------------------------------------------------------
  // The main loop

  /** The body of the endpoint's reply, as far as the script looks at it: the
      truth of its `skipped` and `success` fields. */
  datatype ApiBody = ApiBody(skipped: bool, success: bool)

  /** What `crawlDate` gives: it throws on a request error, reports a body that
      is not JSON, or hands back the parsed body. `Parsed(status, None)` is the
      JSON `null`, on which reading `skipped` throws. */
  datatype Reply =
    | Thrown(message: string)
    | NotJson(status: nat, text: string)
    | Parsed(status: nat, body: Option<ApiBody>)

  /** How the loop counts one reply. */
  function VerdictOf(reply: Reply): Verdict {
    match reply
    case Thrown(_) => Failed
    case NotJson(_, _) => Failed
    case Parsed(_, None) => Failed
    case Parsed(_, Some(b)) => if b.skipped then Skipped else if b.success then Succeeded else Failed
  }

  /** Whether the `try` block runs to its end (and so reaches the pause). */
  predicate Completes(reply: Reply) {
    reply.NotJson? || (reply.Parsed? && reply.body.Some?)
  }

  /** The three counters after the dates `dates`. */
  function TallyOf(dates: seq<string>, answer: string -> Reply): Tally {
    if dates == [] then Tally(0, 0, 0)
    else Count(TallyOf(dates[..|dates| - 1], answer), VerdictOf(answer(dates[|dates| - 1])))
  }

  /** Each date is counted exactly once: the counters add up to the number of dates. */
  lemma {:induction false} TallyTotal(dates: seq<string>, answer: string -> Reply)
    ensures TallyOf(dates, answer).Total() == |dates|
  {
    if dates != [] {
      TallyTotal(dates[..|dates| - 1], answer);
    }
  }

  const PauseMs: nat := 3000
  const CrawlerPath: string := "/api/crawler"

  datatype Event =
    | Request(url: string, authorization: string, date: string)
    | Sleep(ms: nat)

  /** The request `crawlDate(date, env)` sends: a POST to the crawl endpoint with the bearer secret. */
  function RequestFor(target: Target, date: string): Event {
    Request(target.baseUrl + CrawlerPath, "Bearer " + target.secret, date)
  }

  /** What iteration `i` does: one request, then a pause unless it was the
      last date or the request threw. */
  function Step(dates: seq<string>, target: Target, answer: string -> Reply, i: nat): seq<Event>
    requires i < |dates|
  {
    [RequestFor(target, dates[i])]
    + (if i < |dates| - 1 && Completes(answer(dates[i])) then [Sleep(PauseMs)] else [])
  }

  /** The events of the first `i` iterations. */
  function LogUpTo(dates: seq<string>, target: Target, answer: string -> Reply, i: nat): seq<Event>
    requires i <= |dates|
  {
    if i == 0 then [] else LogUpTo(dates, target, answer, i - 1) + Step(dates, target, answer, i - 1)
  }

  /** The loop of `main` over the generated dates. */
  method RunBatch(dates: seq<string>, target: Target, answer: string -> Reply)
    returns (tally: Tally, log: seq<Event>)
    ensures tally == TallyOf(dates, answer)
    ensures log == LogUpTo(dates, target, answer, |dates|)
  {
    tally := Tally(0, 0, 0);
    log := [];
    for i := 0 to |dates|
      invariant tally == TallyOf(dates[..i], answer)
      invariant log == LogUpTo(dates, target, answer, i)
    {
      ghost var logBefore, tallyBefore := log, tally;
      var date := dates[i];
      log := log + [RequestFor(target, date)];
      var reply := answer(date);
      match reply {
        case Thrown(_) =>
          tally := tally.(fail := tally.fail + 1);
        case NotJson(_, _) =>
          tally := tally.(fail := tally.fail + 1);
          if i < |dates| - 1 {
            log := log + [Sleep(PauseMs)];
          }
        case Parsed(_, None) =>
          tally := tally.(fail := tally.fail + 1);
        case Parsed(_, Some(body)) =>
          if body.skipped {
            tally := tally.(skip := tally.skip + 1);
          } else if body.success {
            tally := tally.(success := tally.success + 1);
          } else {
            tally := tally.(fail := tally.fail + 1);
          }
          if i < |dates| - 1 {
            log := log + [Sleep(PauseMs)];
          }
      }
      assert log == logBefore + Step(dates, target, answer, i);
      assert tally == Count(tallyBefore, VerdictOf(reply));
      assert dates[..i + 1][..i] == dates[..i];
    }
    assert dates[..|dates|] == dates;
  }

  /** The dates asked for, in the order of the log. */
  function Requested(log: seq<Event>): seq<string> {
    if log == [] then []
    else Requested(log[..|log| - 1]) + (if log[|log| - 1].Request? then [log[|log| - 1].date] else [])
  }

  function CountSleeps(log: seq<Event>): nat {
    if log == [] then 0 else CountSleeps(log[..|log| - 1]) + (if log[|log| - 1].Sleep? then 1 else 0)
  }

  lemma {:induction false} RequestedAppend(a: seq<Event>, b: seq<Event>)
    ensures Requested(a + b) == Requested(a) + Requested(b)
    ensures CountSleeps(a + b) == CountSleeps(a) + CountSleeps(b)
    decreases |b|
  {
    if b != [] {
      var b' := b[..|b| - 1];
      assert (a + b)[..|a + b| - 1] == a + b';
      RequestedAppend(a, b');
    } else {
      assert a + b == a;
    }
  }

  /** Every request in `log` goes to the endpoint of `target` with its secret. */
  predicate RequestsTo(log: seq<Event>, target: Target) {
    forall k :: 0 <= k < |log| && log[k].Request? ==> log[k] == RequestFor(target, log[k].date)
  }

  /** Every date is asked for exactly once, in order. */
  lemma {:induction false} BatchRequestsDates(dates: seq<string>, target: Target, answer: string -> Reply, i: nat)
    requires i <= |dates|
    ensures Requested(LogUpTo(dates, target, answer, i)) == dates[..i]
  {
    if i > 0 {
      BatchRequestsDates(dates, target, answer, i - 1);
      var prev := LogUpTo(dates, target, answer, i - 1);
      var step := Step(dates, target, answer, i - 1);
      RequestedAppend(prev, step);
      assert Requested(step) == [dates[i - 1]] by {
        if i - 1 < |dates| - 1 && Completes(answer(dates[i - 1])) {
          RequestedAppend([RequestFor(target, dates[i - 1])], [Sleep(PauseMs)]);
        }
      }
      assert dates[..i] == dates[..i - 1] + [dates[i - 1]];
    }
  }

  /** Every request goes to the endpoint of the target with its secret. */
  lemma {:induction false} BatchRequestsTarget(dates: seq<string>, target: Target, answer: string -> Reply, i: nat)
    requires i <= |dates|
    ensures RequestsTo(LogUpTo(dates, target, answer, i), target)
  {
    if i > 0 {
      BatchRequestsTarget(dates, target, answer, i - 1);
      var prev := LogUpTo(dates, target, answer, i - 1);
      var step := Step(dates, target, answer, i - 1);
      var log := prev + step;
      forall k | 0 <= k < |log| && log[k].Request?
        ensures log[k] == RequestFor(target, log[k].date)
      {
        if k >= |prev| {
          assert log[k] == step[k - |prev|];
        }
      }
    }
  }

  /** The log of the whole run ends with the last request, never with a pause. */
  lemma BatchLogEndsWithRequest(dates: seq<string>, target: Target, answer: string -> Reply)
    requires dates != []
    ensures var log := LogUpTo(dates, target, answer, |dates|);
      log != [] && log[|log| - 1] == RequestFor(target, dates[|dates| - 1])
  {
  }

  /** When no request throws and no reply is the JSON `null`, there is one pause
      between each two requests and none after the last. */
  lemma {:induction false} BatchLogPauses(dates: seq<string>, target: Target, answer: string -> Reply, i: nat)
    requires i <= |dates|
    requires forall d :: d in dates ==> Completes(answer(d))
    ensures CountSleeps(LogUpTo(dates, target, answer, i)) == (if i == |dates| then Max(0, i - 1) else i)
  {
    if i > 0 {
      BatchLogPauses(dates, target, answer, i - 1);
      var step := Step(dates, target, answer, i - 1);
      RequestedAppend(LogUpTo(dates, target, answer, i - 1), step);
      assert dates[i - 1] in dates;
      if i - 1 < |dates| - 1 {
        assert step == [RequestFor(target, dates[i - 1])] + [Sleep(PauseMs)];
        RequestedAppend([RequestFor(target, dates[i - 1])], [Sleep(PauseMs)]);
      } else {
        assert step == [RequestFor(target, dates[i - 1])];
      }
      assert CountSleeps([RequestFor(target, dates[i - 1])]) == 0;
    }
  }

  /** What the script ends with: an early exit, or the range and the counters. */
  datatype Outcome =
    | Exited(reason: Args)
    | Finished(dates: seq<string>, tally: Tally)

  /** `main`: check the arguments, list the days, and work through them. An
      early exit sends no request. */
  method Run(args: seq<string>, cronSecret: Option<string>, answer: string -> Reply)
    returns (outcome: Outcome, log: seq<Event>)
    requires ParseArgs(args).Accepted? ==>
      ValidDate(ArgDate(args[0])) && ValidDate(ArgDate(args[1]))
    ensures !ParseArgs(args).Accepted? ==> outcome == Exited(ParseArgs(args)) && log == []
    ensures ParseArgs(args).Accepted? ==>
      var dates := KeysOf(DaysBetween(ArgDate(args[0]), ArgDate(args[1])));
      && outcome == Finished(dates, TallyOf(dates, answer))
      && log == LogUpTo(dates, TargetOf(ParseArgs(args).env, cronSecret), answer, |dates|)
  {
    var parsed := ParseArgs(args);
    if !parsed.Accepted? {
      return Exited(parsed), [];
    }
    var dates := GenerateDateRange(parsed.startDate, parsed.endDate);
    var tally;
    tally, log := RunBatch(dates, TargetOf(parsed.env, cronSecret), answer);
    outcome := Finished(dates, tally);
  }
}

/** Fetching today's matches (app/page.tsx:37-64) and the list the home page
    goes on to sort (app/page.tsx:67-68). The request itself is not modelled:
    what it produced is the `FetchOutcome` passed in, and the current clock
    reading is passed in as its ISO 8601 text. */
module MatchFeed {
  import opened Optional
  import opened Matches
  import opened Text

  /** A body that parsed as JSON, with or without a `matches` array (a
      missing or null `matches` is `None`), or one that did not parse. */
  datatype Body = Json(matches: Option<seq<Match>>) | Malformed

  /** What `fetch` produced: a response with its HTTP status, or an
      exception (network failure, DNS, timeout). */
  datatype FetchOutcome = Response(status: int, body: Body) | FetchError

  /** The decoded response, `{ matches }`. */
  datatype ApiResponse = ApiResponse(matches: Option<seq<Match>>)

  /** How the promise returned by an async function settles. */
  datatype Settled<T> = Fulfilled(value: T) | Rejected

  /** The inclusive date range sent to the API. */
  datatype DateWindow = DateWindow(dateFrom: string, dateTo: string)

  const MatchesEndpoint := "https://api.football-data.org/v4/matches"
  const FromParam := "?dateFrom="
  const ToParam := "&dateTo="

  /** `Response.ok`: the status lies in 200-299. */
  predicate IsOk(status: int)
    ensures IsOk(status) <==> status / 100 == 2
  {
    200 <= status <= 299
  }

  /** The calendar date of an ISO 8601 timestamp: the text before its first `T`. */
  function DatePart(iso: string): (d: string)
    ensures d <= iso && 'T' !in d
    ensures |d| < |iso| ==> iso[|d|] == 'T'
  {
    BeforeFirst(iso, 'T')
  }

  /** The date window of the home page's query: today only. */
  function TodayWindow(nowIso: string): (w: DateWindow)
    ensures w.dateFrom == w.dateTo == DatePart(nowIso)
  {
    var today := DatePart(nowIso);
    DateWindow(today, today)
  }

  /** The query URL: `base`, the start date, `sep`, the end date. */
  function UrlWith(base: string, sep: string, w: DateWindow): string
  {
    base + w.dateFrom + sep + w.dateTo
  }

  /** Reads the date window back out of a URL built by `UrlWith`. */
  function ParseWith(base: string, sep: string, url: string): (w: Option<DateWindow>)
    ensures w.Some? && sep != [] ==> sep[0] !in w.value.dateFrom
  {
    if sep == [] then None
    else match StripPrefix(base, url)
      case None => None
      case Some(rest) =>
        var from := BeforeFirst(rest, sep[0]);
        match StripPrefix(sep, rest[|from|..])
        case None => None
        case Some(to) => Some(DateWindow(from, to))
  }

  /** Parsing undoes building whenever the separator's first character does
      not occur in the start date. */
  lemma {:induction false} ParseWithRoundTrip(base: string, sep: string, w: DateWindow)
    requires sep != [] && sep[0] !in w.dateFrom
    ensures ParseWith(base, sep, UrlWith(base, sep, w)) == Some(w)
  {
    var rest := w.dateFrom + sep + w.dateTo;
    assert UrlWith(base, sep, w) == base + rest;
    StripPrefixOfJoin(base, rest);
    BeforeFirstOfSeparated(w.dateFrom, sep, w.dateTo, sep[0]);
    assert rest[|w.dateFrom|..] == sep + w.dateTo;
    StripPrefixOfJoin(sep, w.dateTo);
  }

  /** The URL `getTodaysMatches` requests for a date window: the matches
      endpoint, then the start date, then the end date at the very end. */
  function QueryUrl(w: DateWindow): (url: string)
    ensures MatchesEndpoint + FromParam + w.dateFrom <= url
    ensures |url| >= |w.dateTo| && url[|url| - |w.dateTo|..] == w.dateTo
  {
    UrlWith(MatchesEndpoint + FromParam, ToParam, w)
  }

  /** Reads the date window back out of a query URL; the inverse of `QueryUrl`. */
  function ParseQuery(url: string): (w: Option<DateWindow>)
    ensures w.Some? ==> '&' !in w.value.dateFrom
  {
    ParseWith(MatchesEndpoint + FromParam, ToParam, url)
  }

  /** A yyyy-mm-dd calendar date, as `toISOString` writes it. */
  predicate IsCalendarDate(d: string)
  {
    && |d| == 10 && d[4] == '-' && d[7] == '-'
    && forall k :: 0 <= k < 10 && k != 4 && k != 7 ==> '0' <= d[k] <= '9'
  }

  /** The date part of a timestamp `toISOString` produced is its calendar date. */
  lemma DatePartOfTimestamp(date: string, time: string)
    requires IsCalendarDate(date)
    ensures DatePart(date + "T" + time) == date
  {
    assert 'T' !in date by {
      forall k | 0 <= k < |date| ensures date[k] != 'T' {
      }
    }
    BeforeFirstOfJoin(date, 'T', time);
  }

  /** A window whose start date has no `&` survives the round trip through
      the query URL. */
  lemma {:induction false} QueryRoundTrip(w: DateWindow)
    requires '&' !in w.dateFrom
    ensures ParseQuery(QueryUrl(w)) == Some(w)
  {
    ParseWithRoundTrip(MatchesEndpoint + FromParam, ToParam, w);
  }

  /** The home page asks for the same single day at both ends of the window,
      and that day is the date part of the current timestamp. */
  lemma TodayQueryAsksForOneDay(date: string, time: string)
    requires IsCalendarDate(date)
    ensures ParseQuery(QueryUrl(TodayWindow(date + "T" + time))) == Some(DateWindow(date, date))
  {
    DatePartOfTimestamp(date, time);
    assert '&' !in date by {
      forall k | 0 <= k < |date| ensures date[k] != '&' {
      }
    }
    QueryRoundTrip(DateWindow(date, date));
  }

  /** `getTodaysMatches` as written. `return res.json()` inside the `try`
      hands back the body's promise without awaiting it, so a body that fails
      to parse rejects after the `try` has been left and the `catch` never
      sees it: the rejection reaches the caller. */
  function GetTodaysMatchesAsWritten(o: FetchOutcome): (r: Settled<ApiResponse>)
    ensures r.Rejected? <==> o.Response? && IsOk(o.status) && o.body.Malformed?
  {
    match o
    case FetchError => Fulfilled(ApiResponse(Some([])))
    case Response(status, body) =>
      if !IsOk(status) then Fulfilled(ApiResponse(Some([])))
      else match body
        case Json(ms) => Fulfilled(ApiResponse(ms))
        case Malformed => Rejected
  }

  /** The home page's `data.matches || []` on top of the as-written fetch. */
  function HomeMatchesAsWritten(o: FetchOutcome): (r: Settled<seq<Match>>)
    ensures r.Rejected? <==> GetTodaysMatchesAsWritten(o).Rejected?
  {
    match GetTodaysMatchesAsWritten(o)
    case Fulfilled(data) => Fulfilled(if data.matches.Some? then data.matches.value else [])
    case Rejected => Rejected
  }

  /** A 200 response whose body is not JSON makes the home page itself fail
      instead of showing the empty state. */
  lemma MalformedBodyEscapes()
    ensures HomeMatchesAsWritten(Response(200, Malformed)) == Rejected
  {
  }

  /** `getTodaysMatches` with every failure absorbed, as its `try`/`catch`
      evidently intends (and as the competition page's fetch, which awaits
      `res.json()`, does): a body that fails to parse also yields no matches. */
  function GetTodaysMatches(o: FetchOutcome): (r: ApiResponse)
    ensures r.matches.None? ==> o.Response? && IsOk(o.status) && o.body == Json(None)
    ensures r.matches.Some? && r.matches.value != [] ==>
              o.Response? && IsOk(o.status) && o.body == Json(r.matches)
  {
    match o
    case FetchError => ApiResponse(Some([]))
    case Response(status, body) =>
      if !IsOk(status) then ApiResponse(Some([]))
      else match body
        case Json(ms) => ApiResponse(ms)
        case Malformed => ApiResponse(Some([]))
  }

  /** The list the home page sorts: `data.matches || []`. */
  function HomeMatches(o: FetchOutcome): (ms: seq<Match>)
    ensures ms != [] ==> o.Response? && IsOk(o.status) && o.body == Json(Some(ms))
  {
    var data := GetTodaysMatches(o);
    if data.matches.Some? then data.matches.value else []
  }

  /** A thrown fetch, a non-2xx status, a body without `matches` and a body
      that does not parse all give an empty list, never an error. */
  lemma FailuresGiveNoMatches(o: FetchOutcome)
    requires || o.FetchError?
             || (o.Response? && !IsOk(o.status))
             || (o.Response? && (o.body.Malformed? || o.body.matches.None?))
    ensures HomeMatches(o) == []
  {
  }

  /** A 2xx response with a `matches` array gives exactly that array. */
  lemma SuccessGivesMatches(status: int, ms: seq<Match>)
    requires IsOk(status)
    ensures HomeMatches(Response(status, Json(Some(ms)))) == ms
  {
  }

  /** The corrected fetch differs from the one as written only where that one
      fails: wherever the page as written gets a list, it is the same list. */
  lemma CorrectionOnlyAbsorbsFailure(o: FetchOutcome)
    ensures HomeMatchesAsWritten(o).Fulfilled? ==> HomeMatchesAsWritten(o).value == HomeMatches(o)
    ensures HomeMatchesAsWritten(o).Rejected? ==> HomeMatches(o) == []
  {
  }
}

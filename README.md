# TodaysMatch home page and site map, in Dafny

TodaysMatch (todaysmatch.org) is a Next.js site that lists the day's
football matches, using data from the football-data.org API. This project
models its two pieces of logic and proves properties of them.

- **The home page** (`app/page.tsx`):
  - It fetches today's matches. The query window runs from the date part of
    the current ISO timestamp to that same date.
  - A thrown fetch, a non-2xx status or a body without `matches` becomes
    an empty list. A 2xx body that is not JSON makes the page itself fail
    (see Findings). The model keeps that page as written (`HomeAsWritten`)
    beside the corrected one (`Home`), where that case also gives an empty
    list.
  - It sorts the list in place: live matches (`IN_PLAY`, `PAUSED`) first,
    then by kickoff time, earliest first.
  - It derives each match card from the match: the status badge and label,
    the kickoff time or the score (a `null` goal count shows as 0), the
    team names and the crests.
- **The site map** (`app/sitemap.ts`): the home page, then one page per
  supported competition.

Modules, one per concern:

| file | module | models |
|---|---|---|
| `optional.dfy` | `Optional` | the `Option` type: `null` beside a present value |
| `matches.dfy` | `Matches` | the `Team`, `Score`, `Match` records and liveness |
| `match_order.dfy` | `MatchOrder` | the sort comparator and the order it defines |
| `match_sort.dfy` | `MatchSort` | the in-place sort: an insertion sort on an `array<Match>`, proved equal to a functional specification `SortSpec` |
| `text.dfy` | `Text` | `split('T')[0]` and `replace('_', ' ')` on strings, and reading a prefix back off a URL |
| `match_feed.dfy` | `MatchFeed` | `getTodaysMatches`, the query URL and `data.matches \|\| []` |
| `match_display.dfy` | `MatchDisplay` | the contents of a match card |
| `home_page.dfy` | `HomePage` | `Home()`: fetch outcome, sort, render |
| `sitemap.dfy` | `Sitemap` | `sitemap()` |

Modelling choices:

- **The sort.** JavaScript's `Array.prototype.sort` is stable, and its
  algorithm is not the program's own. The model sorts with a stable
  insertion sort that uses the page's comparator. `StableSortUnique` then
  proves that any stable sort by that comparator gives the same result,
  so the model's output is what the page shows.
- **The kickoff instant.** It is an integer: the value of
  `new Date(utcDate).getTime()`.
- **The fetch.** Its result is an abstract `FetchOutcome` passed in: a
  thrown error, or a response with an HTTP status and a body that did or
  did not parse as JSON.
- **The clock.** The current time is passed in as its ISO text.
- **The score.** `Score` flattens the API's `score.fullTime.{home, away}`
  into `home` and `away`.

## Model

| member | source | states |
|---|---|---|
| `Matches.IsLiveStatus` | app/page.tsx:73-74 | a live status (`IN_PLAY`, `PAUSED`) is never `FINISHED`, `TIMED` or `SCHEDULED`, so the live badge and the kickoff time never apply to the same match |
| `MatchOrder.Rank` | app/page.tsx:73-74 | live matches rank 0, all others 1 |
| `MatchOrder.Compare` | app/page.tsx:72-80 | negative when only `a` is live, positive when only `b` is; for equal liveness, its sign is the sign of the kickoff difference; zero exactly when liveness and kickoff agree; non-positive exactly when `a` may come before `b` |
| `MatchOrder.CompareAntisymmetric` | app/page.tsx:72-80 | swapping the arguments negates the result |
| `MatchOrder.BeforeTotalPreorder` | app/page.tsx:72-80 | the comparator's order is reflexive, total and transitive; two matches are mutually ordered exactly when they tie |
| `MatchOrder.SortedGroups` | app/page.tsx:73-79 | a list in comparator order has every live match before every other match, with kickoff times non-decreasing within each group |
| `MatchSort.Insert` | app/page.tsx:72 | inserting one match lengthens the list by one |
| `MatchSort.SortSpec` | app/page.tsx:72 | sorting keeps the length |
| `MatchSort.Tied` | app/page.tsx:72 | the matches tied with a key form a sub-list |
| `MatchSort.TiedAppend` | app/page.tsx:72 | the tied sub-list of a concatenation is the concatenation of the tied sub-lists |
| `MatchSort.InsertPermutes` | app/page.tsx:72 | inserting adds exactly the new match to the multiset |
| `MatchSort.InsertSorted` | app/page.tsx:72-80 | inserting into a sorted list keeps it sorted |
| `MatchSort.TiedSingle` | app/page.tsx:72 | a one-match list is its own tied sub-list when the match ties with the key, and the tied sub-list is empty otherwise |
| `MatchSort.InsertStable` | app/page.tsx:72 | inserting keeps tied matches in the order of appending |
| `MatchSort.SortPermutes` | app/page.tsx:72 | sorting is a permutation: nothing added, dropped or duplicated |
| `MatchSort.SortOrders` | app/page.tsx:72-80 | the sorted list is in comparator order |
| `MatchSort.SortStableFor` | app/page.tsx:72 | for each key, the tied matches keep their original relative order |
| `MatchSort.SortStable` | app/page.tsx:72 | sorting is a stable reordering |
| `MatchSort.TiedMember` | app/page.tsx:72 | a member of a tied sub-list is in the list and ties with the key |
| `MatchSort.SortedLastIsGreatest` | app/page.tsx:72-80 | in a sorted list, every match may come before the last one |
| `MatchSort.LastAgrees` | app/page.tsx:72 | two sorted, stable reorderings of each other end with the same match |
| `MatchSort.NonEmptyHasTied` | app/page.tsx:72 | the last match is tied with itself |
| `MatchSort.DropLastKeepsTied` | app/page.tsx:72 | dropping a shared last match keeps two lists stable reorderings of each other |
| `MatchSort.StableSortUnique` | app/page.tsx:72 | two sorted, stable reorderings of each other are equal, so every stable sort by the comparator gives the same list |
| `MatchSort.SortSpecCorrect` | app/page.tsx:72-80 | the sorted list is a permutation, in comparator order, stable, with live matches first and each group ordered by kickoff |
| `MatchSort.InsertPos` | app/page.tsx:72-80 | the insertion point lies within the list; the match just before it is not put after the new one, and every match from it on is |
| `MatchSort.InsertSplices` | app/page.tsx:72 | insertion splices the new match in at the insertion point |
| `MatchSort.InsertPosShift` | app/page.tsx:72-80 | when the match before position `j` goes after the new match, the insertion point in the first `j` matches lies in the first `j - 1` |
| `MatchSort.InsertPosStop` | app/page.tsx:72-80 | where the scan stops, the scan position is the insertion point |
| `MatchSort.FindSlot` | app/page.tsx:72-80 | the scan from the right finds the insertion point of the sorted prefix |
| `MatchSort.ShiftStep` | app/page.tsx:72 | one copy step moves the gap one place to the left |
| `MatchSort.ShiftUp` | app/page.tsx:72 | the block before the inserted match moves one place to the right, over it |
| `MatchSort.UpdateJoin` | app/page.tsx:72 | overwriting the element between two parts replaces only that element |
| `MatchSort.SpliceSlot` | app/page.tsx:72 | writing the moved match into the slot opened at `j` splices it into the sorted prefix at `j` |
| `MatchSort.FillSlot` | app/page.tsx:72 | writing the match into the opened slot completes the insertion |
| `MatchSort.InsertAt` | app/page.tsx:72 | the array becomes the insertion of `a[i]` into the prefix, followed by the unsorted rest |
| `MatchSort.SortStep` | app/page.tsx:72 | one round of the outer loop extends the sorted prefix by one |
| `MatchSort.SortMatches` | app/page.tsx:72-80 | the array is sorted in place; its new contents are `SortSpec` of the old ones: a permutation, in comparator order, stable, live matches first, kickoff non-decreasing within each group |
| `Text.FirstIndex` | app/page.tsx:41 | the result is the first position of the character, or the length when it is absent |
| `Text.BeforeFirst` | app/page.tsx:41 | the result is a prefix without the character, and the character follows it unless the prefix is the whole string |
| `Text.ReplaceFirst` | app/page.tsx:133 | the length is kept, and only the first occurrence of the character changes |
| `Text.FirstIndexOfJoin` | app/page.tsx:41 | the first occurrence of `c` in `head + [c] + tail`, with no `c` in `head`, is right after `head` |
| `Text.BeforeFirstOfJoin` | app/page.tsx:41 | what follows the first occurrence does not change what comes before it |
| `Text.BeforeFirstOfSeparated` | app/page.tsx:44 | the same holds when the character opens a longer separator |
| `Text.StripPrefix` | app/page.tsx:44 | the result is defined exactly when the prefix is present, and it is the rest of the string |
| `Text.StripPrefixOfJoin` | app/page.tsx:44 | stripping a prefix undoes prepending it |
| `Text.ReplaceFirstOfJoin` | app/page.tsx:133 | the first `_` is replaced, and a later one is left alone |
| `Text.ReplaceFirstAbsent` | app/page.tsx:133 | without the character there is nothing to replace |
| `Text.ReplaceOnlyOccurrence` | app/page.tsx:133 | with at most one occurrence, none is left |
| `MatchFeed.IsOk` | app/page.tsx:55 | `res.ok` holds exactly for the 2xx status class |
| `MatchFeed.QueryUrl` | app/page.tsx:44 | the URL starts with the matches endpoint, `?dateFrom=` and the start date, and ends with the end date; `QueryRoundTrip` shows it loses nothing |
| `MatchFeed.DatePart` | app/page.tsx:41 | the date is the timestamp's prefix before its first `T` |
| `MatchFeed.TodayWindow` | app/page.tsx:41-44 | both ends of the window are that date |
| `MatchFeed.ParseWith` | app/page.tsx:44 | a parsed start date never holds the separator's first character |
| `MatchFeed.ParseWithRoundTrip` | app/page.tsx:44 | parsing a built URL gives back its window |
| `MatchFeed.ParseQuery` | app/page.tsx:44 | a parsed start date has no `&` |
| `MatchFeed.DatePartOfTimestamp` | app/page.tsx:41 | the date part of an ISO timestamp is its `yyyy-mm-dd` date |
| `MatchFeed.QueryRoundTrip` | app/page.tsx:44 | the query URL encodes its date window without loss |
| `MatchFeed.TodayQueryAsksForOneDay` | app/page.tsx:41-44 | the query asks for the timestamp's date as both `dateFrom` and `dateTo` |
| `MatchFeed.GetTodaysMatchesAsWritten` | app/page.tsx:37-64 | as written, the promise rejects exactly for a 2xx response whose body does not parse |
| `MatchFeed.HomeMatchesAsWritten` | app/page.tsx:66-68 | the page as written fails exactly when the fetch rejects |
| `MatchFeed.MalformedBodyEscapes` | app/page.tsx:59 | a 200 response with a body that is not JSON makes the page itself fail |
| `MatchFeed.GetTodaysMatches` | app/page.tsx:37-64 | `matches` is missing only for a 2xx JSON body without it; a non-empty list comes only from a 2xx JSON body holding it |
| `MatchFeed.HomeMatches` | app/page.tsx:55-68 | a non-empty list comes only from a 2xx response whose JSON body holds exactly that list |
| `MatchFeed.FailuresGiveNoMatches` | app/page.tsx:55-68 | a thrown fetch, a non-2xx status, a body without `matches` and a body that does not parse all give an empty list |
| `MatchFeed.SuccessGivesMatches` | app/page.tsx:55-68 | a 2xx response with a `matches` array gives exactly that array |
| `MatchFeed.CorrectionOnlyAbsorbsFailure` | app/page.tsx:37-68 | the corrected fetch agrees with the as-written one wherever that one succeeds, and gives an empty list where it fails |
| `MatchDisplay.BadgeFor` | app/page.tsx:126-132 | the live badge is shown exactly for `IN_PLAY` and `PAUSED`, and the finished badge exactly for `FINISHED` |
| `MatchDisplay.BadgeClasses` | app/page.tsx:126-131 | each badge's classes begin with its own background colour: `bg-red-` for live, `bg-slate-` for finished, `bg-emerald-` otherwise; the card carries them |
| `MatchDisplay.BadgeClassesDistinct` | app/page.tsx:126-131 | different badges are drawn with different classes |
| `MatchDisplay.StatusLabel` | app/page.tsx:133 | `IN_PLAY` is labelled `LIVE`; any other status keeps its length and has only its first `_` turned into a space |
| `MatchDisplay.LiveLabel` | app/page.tsx:133 | the label is `LIVE` exactly for `IN_PLAY` (or a status that is itself `LIVE`) |
| `MatchDisplay.LabelOfJoin` | app/page.tsx:133 | a status with an underscore is shown with its first underscore as a space and the rest unchanged |
| `MatchDisplay.LabelWithoutUnderscore` | app/page.tsx:133 | a status without an underscore is shown as it is |
| `MatchDisplay.PausedLabel` | app/page.tsx:126-133 | a paused match has the live badge but the label `PAUSED` |
| `MatchDisplay.ShowsKickoff` | app/page.tsx:151 | a match that shows its kickoff time has the plain badge, never the live or finished one |
| `MatchDisplay.ShownGoals` | app/page.tsx:157-159 | a reported goal count is shown as it is, and a `null` one as 0 |
| `MatchDisplay.CentreOf` | app/page.tsx:151-159 | the kickoff time is shown exactly for `TIMED` and `SCHEDULED`; otherwise the score, each side with `null` shown as 0 |
| `MatchDisplay.NullScoreShowsNil` | app/page.tsx:157-159 | a match with no goals reported shows 0 - 0, the same as a goalless match |
| `MatchDisplay.TeamName` | app/page.tsx:144-171 | the short name when it is non-empty, otherwise the full name; the shown name is empty only when both are |
| `MatchDisplay.CrestOf` | app/page.tsx:141-168 | the crest is drawn exactly when it is non-empty |
| `MatchDisplay.CardOf` | app/page.tsx:115-172 | a card has the live badge exactly when its match is live, is drawn with that badge's classes, and shows its match's competition |
| `HomePage.Render` | app/page.tsx:108-115 | the empty state is shown exactly when there are no matches; otherwise one card per match, in order |
| `HomePage.ShowSorted` | app/page.tsx:72-115 | the matches are sorted in place and rendered in that order; the empty state is shown exactly when there are none; every live card comes before every other card |
| `HomePage.Home` | app/page.tsx:66-115 | the page over the corrected fetch renders the sorted list of the fetched matches; it shows the empty state exactly when none were fetched, a body that does not parse included; every live card comes before every other card |
| `HomePage.HomeAsWritten` | app/page.tsx:59-115 | the page as written fails exactly for a 2xx response whose body does not parse; on every other outcome it shows what `Home` shows |
| `Sitemap.HomeEntry` | app/sitemap.ts:18-23 | the home entry is the bare base URL, `always`, priority 1.0, above the league priority |
| `Sitemap.LeagueEntry` | app/sitemap.ts:10-15 | a league entry's URL is the base URL and `/competitions/` followed by exactly the code; `daily`, priority 0.8 |
| `Sitemap.LeagueEntries` | app/sitemap.ts:10-15 | one entry per code, in the order of the codes |
| `Sitemap.SiteMapOf` | app/sitemap.ts:17-25 | the home entry first, then the league entries: 1 + (number of codes) entries |
| `Sitemap.LeaguesDistinct` | app/sitemap.ts:7 | the 12 competition codes are distinct |
| `Sitemap.LeagueUrlInjective` | app/sitemap.ts:11 | different codes give different league URLs |
| `Sitemap.LeagueUrlsDistinct` | app/sitemap.ts:4-11 | every league URL extends the base URL, and distinct codes give distinct URLs |
| `Sitemap.SiteMapOfShape` | app/sitemap.ts:10-25 | first entry: exactly the base URL, `always`, top priority; entry `i + 1`: `baseUrl + "/competitions/" + code i`, `daily`, the same lower priority; all URLs are distinct and begin with the base URL |
| `Sitemap.SiteMap` | app/sitemap.ts:3-26 | `sitemap()` has 13 entries: the home entry, then the entry of each of the 12 codes in list order |
| `Sitemap.SiteMapShape` | app/sitemap.ts:3-26 | `sitemap()` has 13 entries, the home page first, with distinct URLs that all begin with the base URL |

## Left out

- The HTTP request itself is not modelled: `fetch`, the `X-Auth-Token` header, the `process.env` token lookup, the `revalidate: 60` cache hint and the `console.error` logging. Their effect is the `FetchOutcome` value.
- A JSON body that is `null` or not an object is not modelled. The model treats any parsed body as an object whose `matches` may be missing.
- Date parsing is not modelled: the kickoff is an integer instant. An unparsable `utcDate` would make the comparator return `NaN`; that case is outside the model.
- `toLocaleTimeString` formatting is not modelled, because it depends on the locale and time zone. The card carries the kickoff instant instead.
- The clock readings are not modelled: today's date is passed in as an ISO timestamp, and the site map's `lastModified` is absent.
- The JSX markup and its Tailwind classes are not modelled, apart from the three badge class strings (`MatchDisplay.BadgeClasses`).
- `app/components/Navbar.tsx`, `app/layout.tsx` and the competition page are not part of this model.
- Site map priorities are kept in tenths (10 and 8) instead of the floating-point 1.0 and 0.8.
- `HomePage.Home`: models the page over the corrected fetch. The page as written, which fails on a 2xx body that is not JSON, is `HomePage.HomeAsWritten`.
- `MatchSort.SortMatches`: the engine's own sort algorithm is not modelled. `StableSortUnique` shows that every stable sort by this comparator gives the same list.
- `MatchDisplay.TeamName`: a `shortName` that is `null` is not modelled. The interface declares it as a string, and the empty string stands for it.

## Findings

| source | as written | input that shows it | evidently intended | confidence | as-written member | corrected member |
|---|---|---|---|---|---|---|
| app/page.tsx:59 | `return res.json()` inside the `try` hands back the body's promise without awaiting it. A parse failure therefore rejects after the `try` has been left, the `catch` never sees it, and `Home()` rejects. | a response with status 200 whose body is not JSON | the failure is absorbed into an empty list, as the `try`/`catch` intends and as the competition page's fetch (app/competitions/[code]/page.tsx:53) does by awaiting `res.json()` | not executed | `MatchFeed.MalformedBodyEscapes` | `MatchFeed.HomeMatches` |

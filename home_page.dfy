/** The home page (app/page.tsx:66-184): fetch today's matches, sort them in
    place, and show either the empty state or one card per match. */
module HomePage {
  import opened Matches
  import opened MatchOrder
  import opened MatchSort
  import opened MatchFeed
  import opened MatchDisplay

  /** What the list area shows. */
  datatype View = NoMatchesToday | MatchCards(cards: seq<Card>)

  /** Every card with the live badge comes before every card without it. */
  ghost predicate LiveCardsFirst(cards: seq<Card>)
  {
    forall i, j :: 0 <= i < |cards| && 0 <= j < |cards| && cards[i].badge == LiveBadge && cards[j].badge != LiveBadge ==> i < j
  }

  /** The list area for matches already in display order. */
  function Render(sorted: seq<Match>): (v: View)
    ensures v.NoMatchesToday? <==> sorted == []
    ensures v.MatchCards? ==> |v.cards| == |sorted| && forall i :: 0 <= i < |sorted| ==> v.cards[i] == CardOf(sorted[i])
  {
    if sorted == [] then NoMatchesToday
    else MatchCards(seq(|sorted|, i requires 0 <= i < |sorted| => CardOf(sorted[i])))
  }

  /** Sorts the fetched matches in place and shows them in that order:
      every card with the live badge comes before every card without it. */
  method ShowSorted(matches: seq<Match>) returns (view: View)
    ensures view == Render(SortSpec(matches))
    ensures view.NoMatchesToday? <==> matches == []
    ensures view.MatchCards? ==> LiveCardsFirst(view.cards)
  {
    var a := new Match[|matches|](i requires 0 <= i < |matches| => matches[i]);
    assert a[..] == matches;
    SortMatches(a);
    view := Render(a[..]);
    assert LiveFirst(a[..]);
  }

  /** The page over the corrected fetch: every failure, a body that does not
      parse included, shows the empty state. */
  method Home(o: FetchOutcome) returns (view: View)
    ensures view == Render(SortSpec(HomeMatches(o)))
    ensures view.NoMatchesToday? <==> HomeMatches(o) == []
    ensures view.MatchCards? ==> LiveCardsFirst(view.cards)
  {
    view := ShowSorted(HomeMatches(o));
  }

  /** The page as written: `await getTodaysMatches()` rethrows when a 2xx
      body does not parse, so the page itself fails; on every other outcome
      it shows what `Home` shows. */
  method HomeAsWritten(o: FetchOutcome) returns (r: Settled<View>)
    ensures r.Rejected? <==> o.Response? && IsOk(o.status) && o.body.Malformed?
    ensures r.Fulfilled? ==> r.value == Render(SortSpec(HomeMatches(o)))
  {
    CorrectionOnlyAbsorbsFailure(o);
    match HomeMatchesAsWritten(o)
    case Rejected =>
      r := Rejected;
    case Fulfilled(matches) =>
      var view := ShowSorted(matches);
      r := Fulfilled(view);
  }
}

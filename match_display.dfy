/** What a match card on the home page shows (app/page.tsx:121-172), derived
    from the match alone. The markup and its styling are not modelled; the
    card is the data the markup displays. */
module MatchDisplay {
  import opened Optional
  import opened Matches
  import opened Text

  /** The three looks of the status badge (app/page.tsx:126-132). */
  datatype Badge = LiveBadge | FinishedBadge | OtherBadge

  /** The middle of the card: the kickoff time, or the score with missing
      goals shown as 0. The time is the kickoff instant; its locale
      formatting is not modelled. */
  datatype Centre = KickoffTime(instant: int) | ScoreLine(home: int, away: int)

  datatype Card = Card(
    competition: string,
    badge: Badge,
    badgeClasses: string,
    statusText: string,
    homeCrest: Option<string>,
    homeName: string,
    centre: Centre,
    awayCrest: Option<string>,
    awayName: string)

  /** Live matches get the pulsing red badge, finished ones the grey one,
      all others the green one. */
  function BadgeFor(status: string): (b: Badge)
    ensures b == LiveBadge <==> IsLiveStatus(status)
    ensures b == FinishedBadge <==> status == "FINISHED"
  {
    if status == "IN_PLAY" || status == "PAUSED" then LiveBadge
    else if status == "FINISHED" then FinishedBadge
    else OtherBadge
  }

  /** The Tailwind classes each badge is drawn with: each begins with its
      own background colour, so the three looks are told apart. */
  function BadgeClasses(b: Badge): (classes: string)
    ensures |classes| > 4 && classes[..3] == "bg-"
    ensures b == LiveBadge ==> "bg-red-" <= classes
    ensures b == FinishedBadge ==> "bg-slate-" <= classes
    ensures b == OtherBadge ==> "bg-emerald-" <= classes
  {
    var (background, rest) := match b
      case LiveBadge => ("bg-red-", "50 text-red-600 border-red-100 animate-pulse")
      case FinishedBadge => ("bg-slate-", "100 text-slate-500 border-slate-200")
      case OtherBadge => ("bg-emerald-", "50 text-emerald-600 border-emerald-100");
    assert (background + rest)[..|background|] == background;
    background + rest
  }

  /** Different badges are drawn with different classes. */
  lemma BadgeClassesDistinct(b1: Badge, b2: Badge)
    requires BadgeClasses(b1) == BadgeClasses(b2)
    ensures b1 == b2
  {
    assert BadgeClasses(b1)[3] == BadgeClasses(b2)[3];
  }

  /** The badge text: `LIVE` for a match in play, otherwise the status with
      its first underscore turned into a space. */
  function StatusLabel(status: string): (text: string)
    ensures status == "IN_PLAY" ==> text == "LIVE"
    ensures status != "IN_PLAY" ==> |text| == |status|
    ensures status != "IN_PLAY" ==>
              forall k :: 0 <= k < |status| ==>
                text[k] == (if k == FirstIndex(status, '_') then ' ' else status[k])
  {
    if status == "IN_PLAY" then "LIVE" else ReplaceFirst(status, '_', ' ')
  }

  /** Only `IN_PLAY` is labelled `LIVE` (a paused match has the live badge
      but keeps its own label), unless the API itself sends `LIVE`. */
  lemma LiveLabel(status: string)
    ensures StatusLabel(status) == "LIVE" <==> status == "IN_PLAY" || status == "LIVE"
  {
    var text := StatusLabel(status);
    if status != "IN_PLAY" && text == "LIVE" {
      forall k | 0 <= k < |status| ensures status[k] == text[k] {
        assert text[k] != ' ';
      }
      assert status == text;
    }
  }

  /** A status with an underscore, other than `IN_PLAY`, is shown with that
      underscore as a space. */
  lemma LabelOfJoin(head: string, tail: string)
    requires '_' !in head && head + "_" + tail != "IN_PLAY"
    ensures StatusLabel(head + "_" + tail) == head + " " + tail
  {
    ReplaceFirstOfJoin(head, '_', tail, ' ');
  }

  /** A status without an underscore, other than `IN_PLAY`, is shown as it is. */
  lemma LabelWithoutUnderscore(status: string)
    requires '_' !in status && status != "IN_PLAY"
    ensures StatusLabel(status) == status
  {
    ReplaceFirstAbsent(status, '_', ' ');
  }

  /** A paused match has the live badge but is labelled `PAUSED`. */
  lemma PausedLabel()
    ensures BadgeFor("PAUSED") == LiveBadge && StatusLabel("PAUSED") == "PAUSED"
  {
    LabelWithoutUnderscore("PAUSED");
  }

  /** Whether the card shows the kickoff time instead of a score. */
  predicate ShowsKickoff(status: string)
    ensures ShowsKickoff(status) ==> BadgeFor(status) == OtherBadge
  {
    status == "TIMED" || status == "SCHEDULED"
  }

  /** `goals ?? 0`. */
  function ShownGoals(goals: Option<int>): (n: int)
    ensures goals.Some? ==> n == goals.value
    ensures goals.None? ==> n == 0
  {
    match goals
    case Some(g) => g
    case None => 0
  }

  function CentreOf(m: Match): (c: Centre)
    ensures c.KickoffTime? <==> ShowsKickoff(m.status)
    ensures c.KickoffTime? ==> c.instant == m.kickoff
    ensures c.ScoreLine? ==> c.home == ShownGoals(m.score.home) && c.away == ShownGoals(m.score.away)
  {
    if ShowsKickoff(m.status) then KickoffTime(m.kickoff)
    else ScoreLine(ShownGoals(m.score.home), ShownGoals(m.score.away))
  }

  /** A match without goals reported shows 0 - 0, exactly as a goalless
      match does, while its stored score stays null. */
  lemma NullScoreShowsNil(m: Match)
    requires !ShowsKickoff(m.status) && m.score == Score(None, None)
    ensures CentreOf(m) == ScoreLine(0, 0)
    ensures CentreOf(m) == CentreOf(m.(score := Score(Some(0), Some(0))))
  {
  }

  /** `shortName || name`: the short name unless it is empty. */
  function TeamName(t: Team): (name: string)
    ensures t.shortName != "" ==> name == t.shortName
    ensures t.shortName == "" ==> name == t.name
    ensures name == t.shortName || name == t.name
    ensures name == t.name ==> t.shortName == "" || t.shortName == t.name
    ensures name == "" <==> t.shortName == "" && t.name == ""
  {
    if t.shortName != "" then t.shortName else t.name
  }

  /** `crest && <img src={crest}>`: the crest is drawn only when non-empty. */
  function CrestOf(t: Team): (crest: Option<string>)
    ensures crest.Some? <==> t.crest != ""
    ensures crest.Some? ==> crest.value == t.crest
  {
    if t.crest != "" then Some(t.crest) else None
  }

  function CardOf(m: Match): (c: Card)
    ensures c.badge == LiveBadge <==> IsLive(m)
    ensures c.competition == m.competitionName
    ensures c.badgeClasses == BadgeClasses(c.badge)
  {
    var badge := BadgeFor(m.status);
    Card(m.competitionName, badge, BadgeClasses(badge), StatusLabel(m.status),
         CrestOf(m.homeTeam), TeamName(m.homeTeam), CentreOf(m),
         CrestOf(m.awayTeam), TeamName(m.awayTeam))
  }
}

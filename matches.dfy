/** The match data received from the football-data API, as the home page
    declares it (app/page.tsx, the Team, Score, Match and ApiResponse interfaces).
    A match is a read-only value: nothing in the page ever changes one. */
module Matches {
  import opened Optional

  datatype Team = Team(id: int, name: string, shortName: string, tla: string, crest: string)

  /** The full-time score; each side is `null` until the API reports it. */
  datatype Score = Score(home: Option<int>, away: Option<int>)

  /** `kickoff` stands for `new Date(utcDate).getTime()`: the kickoff instant
      in milliseconds since the epoch. */
  datatype Match = Match(
    id: int,
    kickoff: int,
    status: string,
    homeTeam: Team,
    awayTeam: Team,
    score: Score,
    competitionName: string)

  /** A match counts as live while it is being played or at half-time. A
      live status is neither finished nor scheduled, so the badge and centre
      cases that test those statuses never overlap with it. */
  predicate IsLiveStatus(status: string)
    ensures IsLiveStatus(status) ==> status != "FINISHED" && status != "TIMED" && status != "SCHEDULED"
  {
    status == "IN_PLAY" || status == "PAUSED"
  }

  predicate IsLive(m: Match)
  {
    IsLiveStatus(m.status)
  }
}

/** The order in which the home page lists matches (app/page.tsx:72-80):
    live matches first, then by kickoff time, earliest first. */
module MatchOrder {
  import opened Matches

  /** Live matches rank 0, every other match ranks 1. */
  function Rank(m: Match): (r: nat)
    ensures r == 0 <==> IsLive(m)
    ensures r <= 1
  {
    if IsLive(m) then 0 else 1
  }

  /** The intended order: `a` may be listed before `b`. */
  predicate Before(a: Match, b: Match)
  {
    Rank(a) < Rank(b) || (Rank(a) == Rank(b) && a.kickoff <= b.kickoff)
  }

  /** `a` and `b` are tied: same liveness, same kickoff instant. */
  predicate SameKey(a: Match, b: Match)
  {
    IsLive(a) == IsLive(b) && a.kickoff == b.kickoff
  }

  /** The comparator handed to `Array.prototype.sort`: negative puts `a`
      first, positive puts `b` first, zero keeps them as they are. */
  function Compare(a: Match, b: Match): (r: int)
    ensures IsLive(a) && !IsLive(b) ==> r < 0
    ensures !IsLive(a) && IsLive(b) ==> r > 0
    ensures IsLive(a) == IsLive(b) ==> (r < 0 <==> a.kickoff < b.kickoff)
    ensures r == 0 <==> SameKey(a, b)
    ensures r <= 0 <==> Before(a, b)
  {
    var aLive := IsLive(a);
    var bLive := IsLive(b);
    if aLive && !bLive then -1
    else if !aLive && bLive then 1
    else a.kickoff - b.kickoff
  }

  /** Swapping the arguments negates the comparator's answer. */
  lemma CompareAntisymmetric(a: Match, b: Match)
    ensures Compare(a, b) == -Compare(b, a)
  {
  }

  /** `Before` is a total preorder, so the comparator is consistent and the
      sorted order it defines is well defined. */
  lemma BeforeTotalPreorder(a: Match, b: Match, c: Match)
    ensures Before(a, a)
    ensures Before(a, b) || Before(b, a)
    ensures Before(a, b) && Before(b, c) ==> Before(a, c)
    ensures Before(a, b) && Before(b, a) <==> SameKey(a, b)
  {
  }

  /** A sequence is in the page's order when every earlier match may come
      before every later one. */
  ghost predicate Sorted(s: seq<Match>)
  {
    forall i, j :: 0 <= i < j < |s| ==> Before(s[i], s[j])
  }

  /** Every live match comes before every match that is not live. */
  ghost predicate LiveFirst(s: seq<Match>)
  {
    forall i, j :: 0 <= i < |s| && 0 <= j < |s| && IsLive(s[i]) && !IsLive(s[j]) ==> i < j
  }

  /** Kickoff times never decrease among matches of the same liveness. */
  ghost predicate KickoffOrderedInGroups(s: seq<Match>)
  {
    forall i, j :: 0 <= i < j < |s| && IsLive(s[i]) == IsLive(s[j]) ==> s[i].kickoff <= s[j].kickoff
  }

  /** A list in the page's order has its live matches first and each group
      ordered by kickoff time. */
  lemma SortedGroups(s: seq<Match>)
    requires Sorted(s)
    ensures LiveFirst(s)
    ensures KickoffOrderedInGroups(s)
  {
  }
}

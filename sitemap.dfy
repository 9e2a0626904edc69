/** The site map (app/sitemap.ts): the home page, then one page per
    supported competition. */
module Sitemap {

  /** The `changeFrequency` hints the site map uses. */
  datatype ChangeFrequency = Always | Daily

  /** One site map entry. The priority is kept in tenths (1.0 is 10, 0.8 is 8)
      so that it is exact; `lastModified`, the current time, is not modelled. */
  datatype Entry = Entry(url: string, changeFrequency: ChangeFrequency, priorityTenths: nat)

  const BaseUrl := "https://todaysmatch.org"
  const CompetitionsPath := "/competitions/"

  /** The 12 competitions the free API tier covers, in site map order. */
  const Leagues: seq<string> := ["PL", "PD", "BL1", "SA", "FL1", "ELC", "PPL", "DED", "BSA", "CL", "EC", "WC"]

  const HomePriority := 10
  const LeaguePriority := 8

  /** The home page: the bare base URL, `always`, priority 1.0. */
  function HomeEntry(): (e: Entry)
    ensures e.url == BaseUrl && e.changeFrequency == Always
    ensures e.priorityTenths == 10 && e.priorityTenths > LeaguePriority
  {
    Entry(BaseUrl, Always, HomePriority)
  }

  /** A competition's page: the code after the base URL and `/competitions/`,
      `daily`, priority 0.8. */
  function LeagueEntry(code: string): (e: Entry)
    ensures BaseUrl + CompetitionsPath <= e.url
    ensures e.url[|BaseUrl + CompetitionsPath|..] == code
    ensures e.changeFrequency == Daily && e.priorityTenths == 8
  {
    Entry(BaseUrl + CompetitionsPath + code, Daily, LeaguePriority)
  }

  /** `leagues.map(code => ...)`: one entry per code, in the same order. */
  function LeagueEntries(codes: seq<string>): (r: seq<Entry>)
    ensures |r| == |codes|
    ensures forall i :: 0 <= i < |codes| ==> r[i] == LeagueEntry(codes[i])
  {
    if codes == [] then [] else [LeagueEntry(codes[0])] + LeagueEntries(codes[1..])
  }

  /** The home page first, then the pages of `codes`. */
  function SiteMapOf(codes: seq<string>): (r: seq<Entry>)
    ensures |r| == 1 + |codes|
    ensures r[0] == HomeEntry()
    ensures forall i :: 0 <= i < |codes| ==> r[i + 1] == LeagueEntry(codes[i])
  {
    [HomeEntry()] + LeagueEntries(codes)
  }

  /** `sitemap()`: the home page, then the 12 competitions in list order. */
  function SiteMap(): (r: seq<Entry>)
    ensures |r| == 13 && r[0] == HomeEntry()
    ensures forall i :: 0 <= i < |Leagues| ==> r[i + 1] == LeagueEntry(Leagues[i])
  {
    SiteMapOf(Leagues)
  }

  predicate AllDistinct<T(==)>(s: seq<T>)
  {
    forall i, j :: 0 <= i < j < |s| ==> s[i] != s[j]
  }

  /** No two entries share a URL. */
  ghost predicate DistinctUrls(r: seq<Entry>)
  {
    forall i, j :: 0 <= i < j < |r| ==> r[i].url != r[j].url
  }

  /** Every URL begins with the base URL. */
  ghost predicate UnderBaseUrl(r: seq<Entry>)
  {
    forall i :: 0 <= i < |r| ==> BaseUrl <= r[i].url
  }

  /** No competition code is listed twice. */
  lemma LeaguesDistinct()
    ensures AllDistinct(Leagues)
  {
  }

  /** Two codes give the same league URL only if they are the same code. */
  lemma LeagueUrlInjective(c1: string, c2: string)
    requires LeagueEntry(c1).url == LeagueEntry(c2).url
    ensures c1 == c2
  {
    var prefix := BaseUrl + CompetitionsPath;
    assert c1 == (prefix + c1)[|prefix|..];
    assert c2 == (prefix + c2)[|prefix|..];
  }

  /** Every URL lies under the base URL, and distinct codes give distinct
      URLs, none of them the home page's. */
  lemma {:induction false} LeagueUrlsDistinct(codes: seq<string>)
    requires AllDistinct(codes)
    ensures forall i :: 0 <= i < |codes| ==> BaseUrl < LeagueEntries(codes)[i].url
    ensures forall i, j :: 0 <= i < j < |codes| ==> LeagueEntries(codes)[i].url != LeagueEntries(codes)[j].url
  {
    var r := LeagueEntries(codes);
    forall i | 0 <= i < |codes| ensures BaseUrl < r[i].url {
      assert r[i].url == BaseUrl + (CompetitionsPath + codes[i]);
    }
    forall i, j | 0 <= i < j < |codes| ensures r[i].url != r[j].url {
      if r[i].url == r[j].url {
        LeagueUrlInjective(codes[i], codes[j]);
      }
    }
  }

  /** The home page entry comes first, with change frequency `always` and
      the top priority; then each code's page in list order, daily, all at
      the same lower priority. With distinct codes, all URLs are distinct and begin
      with the base URL. */
  lemma SiteMapOfShape(codes: seq<string>)
    requires AllDistinct(codes)
    ensures SiteMapOf(codes)[0].url == BaseUrl && SiteMapOf(codes)[0].changeFrequency == Always
    ensures forall i :: 1 <= i <= |codes| ==> SiteMapOf(codes)[i].url == BaseUrl + CompetitionsPath + codes[i - 1]
    ensures forall i :: 1 <= i <= |codes| ==> SiteMapOf(codes)[i].changeFrequency == Daily
    ensures SiteMapOf(codes)[0].priorityTenths == HomePriority
    ensures forall i :: 1 <= i <= |codes| ==> SiteMapOf(codes)[i].priorityTenths == LeaguePriority < HomePriority
    ensures DistinctUrls(SiteMapOf(codes)) && UnderBaseUrl(SiteMapOf(codes))
  {
    var r := SiteMapOf(codes);
    var leagues := LeagueEntries(codes);
    assert r == [HomeEntry()] + leagues;
    LeagueUrlsDistinct(codes);
    forall i | 1 <= i <= |codes| ensures r[i] == leagues[i - 1] {
    }
    assert UnderBaseUrl(r) by {
      forall i | 0 <= i < |r| ensures BaseUrl <= r[i].url {
        if i > 0 {
          assert BaseUrl < leagues[i - 1].url;
        }
      }
    }
    assert DistinctUrls(r) by {
      forall i, j | 0 <= i < j < |r| ensures r[i].url != r[j].url {
        if i == 0 {
          assert BaseUrl < leagues[j - 1].url;
        } else {
          assert leagues[i - 1].url != leagues[j - 1].url;
        }
      }
    }
  }

  /** The site map has 13 entries, the home page first; its URLs are
      distinct and all begin with the base URL. */
  lemma SiteMapShape()
    ensures |SiteMap()| == 13 && SiteMap()[0] == HomeEntry()
    ensures DistinctUrls(SiteMap()) && UnderBaseUrl(SiteMap())
  {
    LeaguesDistinct();
    SiteMapOfShape(Leagues);
  }
}

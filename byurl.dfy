/** The per-link analysis page (docs/by-url.js): the trailing time window, the
    statistics of one short link, the filtered and sorted grid of link cards,
    and the detail panel's figures, charts and most-recent-first click table.

    The clock (`new Date()`) is the parameter `now`, in milliseconds, and the
    values of the page's select boxes and search field are parameters too. */
module ByUrl {
  import opened Seqs
  import opened Sorting
  import opened Tally
  import opened Text
  import opened Clock
  import opened Rows
  import opened Affiliate

  /** The moment of a click: `parseDate(click.Date, click.Time)`. */
  function ClickTime(c: Click): Time
  {
    ParseDate(c.date, c.time)
  }

  /** `new Date(now.getTime() - days * 24 * 60 * 60 * 1000)`. */
  function Cutoff(days: string, now: int): Time
  {
    match ToNumber(Some(days))
    case NaN => Invalid
    case Int(d) => TimeClip(now - d * MS_PER_DAY)
  }

  /** `parseDate(row.Date, row.Time) >= cutoff`. */
  function InWindow(days: string, now: int): Click -> bool
  {
    (c: Click) => AtOrAfter(ClickTime(c), Cutoff(days, now))
  }

  /** `filterDataByTime(data, days)`: everything for `'all'`, otherwise the rows
      whose moment is valid and not before the cutoff, in their order. */
  function FilterDataByTime(data: seq<Click>, days: string, now: int): (r: seq<Click>)
    ensures days == "all" ==> r == data
    ensures days != "all" ==> IsSubsequence(r, data)
    ensures days != "all" ==> forall i :: 0 <= i < |r| ==> AtOrAfter(ClickTime(r[i]), Cutoff(days, now))
    ensures days != "all" ==>
              forall i :: 0 <= i < |data| && AtOrAfter(ClickTime(data[i]), Cutoff(days, now)) ==> data[i] in r
    ensures days != "all" ==>
              forall x :: multiset(r)[x] == if AtOrAfter(ClickTime(x), Cutoff(days, now)) then multiset(data)[x] else 0
  {
    if days == "all" then data
    else
      FilterCounts(data, InWindow(days, now));
      Filter(data, InWindow(days, now))
  }

  /** Windows nest: cutting a long window down to a shorter one gives the
      shorter window of the whole data (and a window applied twice is applied
      once), as long as the long window's cutoff is a valid date. */
  lemma WindowsNest(data: seq<Click>, short: string, long: string, now: int)
    requires short != "all" && long != "all"
    requires ToNumber(Some(short)).Int? && ToNumber(Some(long)).Int?
    requires ToNumber(Some(short)).value <= ToNumber(Some(long)).value
    requires Cutoff(long, now).At?
    ensures FilterDataByTime(FilterDataByTime(data, long, now), short, now) == FilterDataByTime(data, short, now)
  {
    forall i | 0 <= i < |data| && InWindow(short, now)(data[i]) ensures InWindow(long, now)(data[i]) {
    }
    FilterFilter(data, InWindow(short, now), InWindow(long, now));
  }

  /** `click['Short link'] === url`. */
  function IsFor(url: string): Click -> bool
  {
    (c: Click) => c.shortLink == url
  }

  /** The clicks of one short link inside the time window, in log order. */
  function ClicksFor(data: seq<Click>, url: string, timeFilter: string, now: int): (r: seq<Click>)
    ensures |r| <= |data|
    ensures forall i :: 0 <= i < |r| ==> r[i] in data && r[i].shortLink == url
    ensures timeFilter == "all" ==> r == Filter(data, IsFor(url))
  {
    FilterDataByTime(Filter(data, IsFor(url)), timeFilter, now)
  }

  // ----- The latest click -----

  /** One step of the latest-click scan as `getUrlStats` writes it: take the
      click when nothing is held yet or when it is strictly later. */
  function LatestStepAsWritten(last: Option<Time>, t: Time): Option<Time>
  {
    if last.None? || Later(t, last.value) then Some(t) else last
  }

  /** `lastClick` as `getUrlStats` computes it. */
  function LatestAsWritten(ts: seq<Time>): Option<Time>
  {
    if ts == [] then None else LatestStepAsWritten(LatestAsWritten(ts[..|ts| - 1]), ts[|ts| - 1])
  }

  /** An Invalid Date is a truthy object and loses every comparison, so once
      the first click's date fails to parse, the scan never moves on. */
  lemma {:induction false} LatestAsWrittenSticks(ts: seq<Time>)
    requires ts != [] && ts[0].Invalid?
    ensures LatestAsWritten(ts) == Some(Invalid)
  {
    if |ts| > 1 {
      LatestAsWrittenSticks(ts[..|ts| - 1]);
    }
  }

  /** One step of the latest-click scan, corrected: an invalid date held so far
      is replaced by the next click. */
  function LatestStep(last: Option<Time>, t: Time): Option<Time>
  {
    if last.None? || last.value.Invalid? || Later(t, last.value) then Some(t) else last
  }

  /** The latest click moment: none without clicks, the largest valid moment
      when there is one, and an invalid date when no click date parses. */
  function Latest(ts: seq<Time>): Option<Time>
  {
    if ts == [] then None else LatestStep(Latest(ts[..|ts| - 1]), ts[|ts| - 1])
  }

  lemma {:induction false} LatestFacts(ts: seq<Time>)
    ensures Latest(ts).None? <==> ts == []
    ensures Latest(ts) == Some(Invalid) ==> forall i :: 0 <= i < |ts| ==> ts[i].Invalid?
    ensures Latest(ts).Some? && Latest(ts).value.At? ==>
              Latest(ts).value in ts
              && forall i :: 0 <= i < |ts| && ts[i].At? ==> ts[i].ms <= Latest(ts).value.ms
  {
    if ts != [] {
      var init := ts[..|ts| - 1];
      LatestFacts(init);
      assert forall i :: 0 <= i < |init| ==> init[i] == ts[i];
      assert ts[|ts| - 1] in ts;
      if Latest(init).Some? && Latest(init).value.At? {
        assert Latest(init).value in ts by {
          var j :| 0 <= j < |init| && init[j] == Latest(init).value;
          assert ts[j] == init[j];
        }
      }
    }
  }

  /** When the first click's date parses, the scan as written and the corrected
      one agree. */
  lemma {:induction false} LatestAsWrittenAgrees(ts: seq<Time>)
    requires ts != [] && ts[0].At?
    ensures LatestAsWritten(ts) == Latest(ts)
  {
    if |ts| > 1 {
      var init := ts[..|ts| - 1];
      LatestAsWrittenAgrees(init);
      LatestFacts(init);
      assert init[0] == ts[0];
    }
  }

  /** Click logs where the corrected scan and the scan as written part: the
      first click's date is empty and the second is any well-formed moment, such
      as 5 January 2024, 23:30. */
  lemma LatestAsWrittenMissesValidClick(bad: Click, good: Click, st: Stamp)
    requires bad.date == "" && ValidStamp(st)
    requires good.date == FormatDate(st) && good.time == FormatTime(st)
    ensures LatestAsWritten(Map([bad, good], ClickTime)) == Some(Invalid)
    ensures Latest(Map([bad, good], ClickTime)) == Some(At(WallClock(st)))
  {
    EmptyDateInvalid(bad);
    ParseFormatted(st);
    InvalidThenValid(bad, good, WallClock(st));
  }

  lemma InvalidThenValid(bad: Click, good: Click, m: int)
    requires ClickTime(bad) == Invalid && ClickTime(good) == At(m)
    ensures LatestAsWritten(Map([bad, good], ClickTime)) == Some(Invalid)
    ensures Latest(Map([bad, good], ClickTime)) == Some(At(m))
  {
    var ts := Map([bad, good], ClickTime);
    assert ts == [Invalid, At(m)];
    assert ts[..1] == [Invalid] && ts[..1][..0] == [];
    assert Latest(ts[..1]) == Some(Invalid);
    LatestAsWrittenSticks(ts);
  }

  /** A click with an empty `Date` has an invalid moment. */
  lemma EmptyDateInvalid(c: Click)
    requires c.date == ""
    ensures ClickTime(c) == Invalid
  {
    assert Split("", '/') == [""];
  }

  // ----- getUrlStats -----

  /** The statistics object of one short link. */
  datatype UrlStats = UrlStats(
    totalClicks: nat,
    uniqueCountries: nat,
    uniqueBrowsers: nat,
    sources: Counter,
    lastClick: Option<Time>,
    topSource: string)

  /** `Object.entries(c).sort(...)[0]?.[0] || fallback`. */
  function TopKeyOr(c: Counter, fallback: string): string
  {
    match MostFrequent(c)
    case None => fallback
    case Some(k) => OrElse(k, fallback)
  }

  /** `getUrlStats(shortUrl, timeFilter)`, with `lastClick` as corrected. */
  function UrlStatsOf(data: seq<Click>, shortUrl: string, timeFilter: string, now: int): (s: UrlStats)
    ensures s.uniqueCountries <= s.totalClicks && s.uniqueBrowsers <= s.totalClicks
    ensures Total(s.sources) == s.totalClicks
    ensures s.totalClicks == 0 <==> s.lastClick == None
    ensures s.totalClicks == 0 ==> s.topSource == "N/A" && s.uniqueCountries == 0
  {
    var clicks := ClicksFor(data, shortUrl, timeFilter, now);
    var sources := Counts(Map(clicks, MediumLabel));
    DistinctFacts(Map(clicks, CountryLabel));
    DistinctFacts(Map(clicks, BrowserLabel));
    LatestFacts(Map(clicks, ClickTime));
    UrlStats(
      |clicks|,
      |Distinct(Map(clicks, CountryLabel))|,
      |Distinct(Map(clicks, BrowserLabel))|,
      sources,
      Latest(Map(clicks, ClickTime)),
      TopKeyOr(sources, "N/A"))
  }

  lemma LatestSnoc(ts: seq<Time>, t: Time)
    ensures Latest(ts + [t]) == LatestStep(Latest(ts), t)
  {
    assert (ts + [t])[..|ts|] == ts;
  }

  /** The one pass of `getUrlStats` over the link's clicks. */
  method GetUrlStats(data: seq<Click>, shortUrl: string, timeFilter: string, now: int) returns (s: UrlStats)
    ensures s == UrlStatsOf(data, shortUrl, timeFilter, now)
  {
    var clicks := ClicksFor(data, shortUrl, timeFilter, now);
    var sources: Counter := [];
    var last: Option<Time> := None;
    var i := 0;
    while i < |clicks|
      invariant 0 <= i <= |clicks|
      invariant sources == Counts(Map(clicks[..i], MediumLabel))
      invariant last == Latest(Map(clicks[..i], ClickTime))
    {
      MapSnoc(clicks, i, MediumLabel);
      MapSnoc(clicks, i, ClickTime);
      CountsSnoc(Map(clicks[..i], MediumLabel), MediumLabel(clicks[i]));
      LatestSnoc(Map(clicks[..i], ClickTime), ClickTime(clicks[i]));
      sources := Bump(sources, MediumLabel(clicks[i]));
      last := LatestStep(last, ClickTime(clicks[i]));
      i := i + 1;
    }
    assert clicks[..|clicks|] == clicks;
    s := UrlStats(
      |clicks|,
      |Distinct(Map(clicks, CountryLabel))|,
      |Distinct(Map(clicks, BrowserLabel))|,
      sources,
      last,
      TopKeyOr(sources, "N/A"));
  }

  /** What the statistics of a link say about its clicks: the source counts are
      occurrence counts that add up to the total, the top source is the first
      source of largest count, the distinct counts are bounded by the total, and
      `lastClick` is the moment of one of its clicks and no valid click is
      later, or an Invalid Date only when no click's date parses. */
  lemma UrlStatsFacts(data: seq<Click>, url: string, timeFilter: string, now: int)
    ensures var clicks := ClicksFor(data, url, timeFilter, now);
            var s := UrlStatsOf(data, url, timeFilter, now);
            && s.totalClicks == |clicks|
            && Total(s.sources) == s.totalClicks
            && (forall k :: CountOf(s.sources, k) == multiset(Map(clicks, MediumLabel))[k])
            && (s.totalClicks == 0 ==> s.topSource == "N/A")
            && (s.totalClicks > 0 ==> s.sources != [] && s.topSource == s.sources[FirstMaxIndex(s.sources)].key)
            && s.uniqueCountries <= s.totalClicks && s.uniqueBrowsers <= s.totalClicks
            && (s.totalClicks > 0 ==> s.uniqueCountries >= 1 && s.uniqueBrowsers >= 1)
            && (s.lastClick.None? <==> s.totalClicks == 0)
            && (s.lastClick == Some(Invalid) ==> forall i :: 0 <= i < |clicks| ==> ClickTime(clicks[i]).Invalid?)
            && (s.lastClick.Some? && s.lastClick.value.At? ==>
                  (exists j :: 0 <= j < |clicks| && ClickTime(clicks[j]) == s.lastClick.value)
                  && forall i :: 0 <= i < |clicks| && ClickTime(clicks[i]).At? ==> ClickTime(clicks[i]).ms <= s.lastClick.value.ms)
  {
    UrlStatsCounts(data, url, timeFilter, now);
    UrlStatsLastClick(data, url, timeFilter, now);
  }

  lemma UrlStatsCounts(data: seq<Click>, url: string, timeFilter: string, now: int)
    ensures var clicks := ClicksFor(data, url, timeFilter, now);
            var s := UrlStatsOf(data, url, timeFilter, now);
            && s.totalClicks == |clicks|
            && (forall k :: CountOf(s.sources, k) == multiset(Map(clicks, MediumLabel))[k])
            && (s.totalClicks > 0 ==> s.sources != [] && s.topSource == s.sources[FirstMaxIndex(s.sources)].key)
            && (s.totalClicks > 0 ==> s.uniqueCountries >= 1 && s.uniqueBrowsers >= 1)
  {
    var clicks := ClicksFor(data, url, timeFilter, now);
    var labels := Map(clicks, MediumLabel);
    CountsFacts(labels);
    TopSourceFacts(labels);
    DistinctFacts(Map(clicks, CountryLabel));
    DistinctFacts(Map(clicks, BrowserLabel));
  }

  lemma UrlStatsLastClick(data: seq<Click>, url: string, timeFilter: string, now: int)
    ensures var clicks := ClicksFor(data, url, timeFilter, now);
            var last := UrlStatsOf(data, url, timeFilter, now).lastClick;
            && (last == Some(Invalid) ==> forall i :: 0 <= i < |clicks| ==> ClickTime(clicks[i]).Invalid?)
            && (last.Some? && last.value.At? ==>
                  (exists j :: 0 <= j < |clicks| && ClickTime(clicks[j]) == last.value)
                  && forall i :: 0 <= i < |clicks| && ClickTime(clicks[i]).At? ==> ClickTime(clicks[i]).ms <= last.value.ms)
  {
    LatestOfMap(ClicksFor(data, url, timeFilter, now), ClickTime);
  }

  /** The latest valid moment of a sequence of items' moments is the moment
      of one of them, and an Invalid Date only when none of them is valid. */
  lemma LatestOfMap<T>(xs: seq<T>, f: T -> Time)
    ensures Latest(Map(xs, f)).None? <==> xs == []
    ensures Latest(Map(xs, f)) == Some(Invalid) ==> forall i :: 0 <= i < |xs| ==> f(xs[i]).Invalid?
    ensures var last := Latest(Map(xs, f));
            last.Some? && last.value.At? ==>
              (exists j :: 0 <= j < |xs| && f(xs[j]) == last.value)
              && forall i :: 0 <= i < |xs| && f(xs[i]).At? ==> f(xs[i]).ms <= last.value.ms
  {
    var times := Map(xs, f);
    LatestFacts(times);
    var last := Latest(times);
    if last == Some(Invalid) {
      forall i | 0 <= i < |xs| ensures f(xs[i]).Invalid? {
        assert times[i] == f(xs[i]);
      }
    } else if last.Some? && last.value.At? {
      var j :| 0 <= j < |times| && times[j] == last.value;
      assert f(xs[j]) == last.value;
      forall i | 0 <= i < |xs| && f(xs[i]).At? ensures f(xs[i]).ms <= last.value.ms {
        assert times[i] == f(xs[i]);
      }
    }
  }

  /** The top key of a counter of non-empty labels is the first key of
      largest count, and the fallback only for no labels at all. */
  lemma TopSourceFacts(labels: seq<string>)
    requires forall i :: 0 <= i < |labels| ==> labels[i] != ""
    ensures labels == [] ==> TopKeyOr(Counts(labels), "N/A") == "N/A"
    ensures labels != [] ==> Counts(labels) != []
                             && TopKeyOr(Counts(labels), "N/A") == Counts(labels)[FirstMaxIndex(Counts(labels))].key
  {
    var sources := Counts(labels);
    if labels != [] {
      CountsFacts(labels);
      DistinctFacts(labels);
      assert labels[0] in Distinct(labels);
      assert sources != [];
      MostFrequentIsFirstMax(sources);
      var k := sources[FirstMaxIndex(sources)].key;
      assert k in Keys(sources);
      assert k in labels;
    }
  }

  // ----- The card grid -----

  /** The search test on an already lower-cased term. */
  function MatchesSearch(link: Link, term: string): bool
  {
    term == "" || Contains(Lower(link.name), term) || Contains(Lower(link.shortUrl), term)
  }

  /** The affiliate-type test of the `filter-type` select. */
  function MatchesType(link: Link, filterType: string): bool
  {
    || filterType == "all"
    || (filterType == "affiliate" && IsAffiliate(link.originalUrl))
    || (filterType == "non-affiliate" && !IsAffiliate(link.originalUrl))
  }

  function KeepsLink(term: string, filterType: string): Link -> bool
  {
    (l: Link) => MatchesSearch(l, term) && MatchesType(l, filterType)
  }

  /** The filter step of `renderUrlCards`: the registry rows that match the
      lower-cased search term and the affiliate type, in registry order. */
  function FilterLinks(links: seq<Link>, search: string, filterType: string): (r: seq<Link>)
    ensures IsSubsequence(r, links)
    ensures forall i :: 0 <= i < |r| ==> MatchesSearch(r[i], Lower(search)) && MatchesType(r[i], filterType)
    ensures forall i :: 0 <= i < |links| && MatchesSearch(links[i], Lower(search)) && MatchesType(links[i], filterType)
              ==> links[i] in r
    ensures forall x :: multiset(r)[x] ==
              if MatchesSearch(x, Lower(search)) && MatchesType(x, filterType) then multiset(links)[x] else 0
  {
    FilterCounts(links, KeepsLink(Lower(search), filterType));
    Filter(links, KeepsLink(Lower(search), filterType))
  }

  /** A `filter-type` value other than the three the page offers keeps nothing. */
  lemma {:induction false} UnknownTypeKeepsNothing(links: seq<Link>, search: string, filterType: string)
    requires filterType != "all" && filterType != "affiliate" && filterType != "non-affiliate"
    ensures FilterLinks(links, search, filterType) == []
  {
    if links != [] {
      UnknownTypeKeepsNothing(links[1..], search, filterType);
    }
  }

  /** The search ignores letter case. */
  lemma SearchIgnoresCase(links: seq<Link>, search: string, filterType: string)
    ensures FilterLinks(links, Lower(search), filterType) == FilterLinks(links, search, filterType)
  {
    LowerIdempotent(search);
  }

  /** An empty search with type `all` keeps the whole registry. */
  lemma NoFilterKeepsAll(links: seq<Link>)
    ensures FilterLinks(links, "", "all") == links
  {
    FilterAll(links, KeepsLink(Lower(""), "all"));
  }

  /** `affiliate` and `non-affiliate` split what `all` keeps. */
  lemma TypesPartition(links: seq<Link>, search: string)
    ensures |FilterLinks(links, search, "all")|
            == |FilterLinks(links, search, "affiliate")| + |FilterLinks(links, search, "non-affiliate")|
  {
    var t := Lower(search);
    FilterSplit(links, KeepsLink(t, "all"), KeepsLink(t, "affiliate"), KeepsLink(t, "non-affiliate"));
  }

  /** A registry row together with its statistics. */
  datatype Card = Card(link: Link, stats: UrlStats)

  /** `lastClick?.getTime() || 0`: no click, an invalid date and time 0 all give 0. */
  function RecentMs(last: Option<Time>): int
  {
    match last
    case Some(At(ms)) => ms
    case _ => 0
  }

  /** The comparator of `renderUrlCards` as a sort key; `collate` stands for
      `localeCompare`'s order on names. Any other `sort` value compares all
      cards equal. */
  function CardKey(sortBy: string, collate: string -> int): Card -> SortKey
  {
    (c: Card) =>
      var total: int := c.stats.totalClicks;
      if sortBy == "clicks-desc" then (0, -total)
      else if sortBy == "clicks-asc" then (0, total)
      else if sortBy == "name-asc" then (0, collate(c.link.name))
      else if sortBy == "name-desc" then (0, -collate(c.link.name))
      else if sortBy == "recent" then (0, -RecentMs(c.stats.lastClick))
      else (0, 0)
  }

  function WithStats(data: seq<Click>, timeFilter: string, now: int): Link -> Card
  {
    (l: Link) => Card(l, UrlStatsOf(data, l.shortUrl, timeFilter, now))
  }

  /** The cards `renderUrlCards` shows, in the order it shows them. */
  function RenderUrlCards(links: seq<Link>, data: seq<Click>, search: string, sortBy: string,
                          filterType: string, timeFilter: string, now: int, collate: string -> int): seq<Card>
  {
    var cards := Map(FilterLinks(links, search, filterType), WithStats(data, timeFilter, now));
    SortBy(cards, CardKey(sortBy, collate))
  }

  /** The sort of the card grid: a permutation of the cards, ordered as the
      `sort` select says, stable on ties, and the identity for an unknown value. */
  lemma SortCardsFacts(cards: seq<Card>, sortBy: string, collate: string -> int)
    ensures var r := SortBy(cards, CardKey(sortBy, collate));
            && multiset(r) == multiset(cards)
            && (forall k :: WithKey(r, CardKey(sortBy, collate), k) == WithKey(cards, CardKey(sortBy, collate), k))
            && (sortBy == "clicks-desc" ==>
                  forall i, j :: 0 <= i < j < |r| ==> r[i].stats.totalClicks >= r[j].stats.totalClicks)
            && (sortBy == "clicks-asc" ==>
                  forall i, j :: 0 <= i < j < |r| ==> r[i].stats.totalClicks <= r[j].stats.totalClicks)
            && (sortBy == "name-asc" ==>
                  forall i, j :: 0 <= i < j < |r| ==> collate(r[i].link.name) <= collate(r[j].link.name))
            && (sortBy == "name-desc" ==>
                  forall i, j :: 0 <= i < j < |r| ==> collate(r[i].link.name) >= collate(r[j].link.name))
            && (sortBy == "recent" ==>
                  forall i, j :: 0 <= i < j < |r| ==> RecentMs(r[i].stats.lastClick) >= RecentMs(r[j].stats.lastClick))
            && (sortBy !in {"clicks-desc", "clicks-asc", "name-asc", "name-desc", "recent"} ==> r == cards)
  {
    var key := CardKey(sortBy, collate);
    var r := SortBy(cards, key);
    SortByFacts(cards, key);
    forall i, j | 0 <= i < j < |r| ensures !Below(key(r[j]), key(r[i])) {
    }
    if sortBy !in {"clicks-desc", "clicks-asc", "name-asc", "name-desc", "recent"} {
      SortByConstant(cards, key, (0, 0));
    }
  }

  /** Sorted by `recent`, a link without clicks comes after every link whose
      latest click is after 1970. */
  lemma RecentPutsUnclickedLast(cards: seq<Card>, collate: string -> int, i: nat, j: nat)
    requires var r := SortBy(cards, CardKey("recent", collate));
             i < |r| && j < |r| && r[i].stats.lastClick.None?
             && r[j].stats.lastClick.Some? && r[j].stats.lastClick.value.At? && r[j].stats.lastClick.value.ms > 0
    ensures j < i
  {
    SortCardsFacts(cards, "recent", collate);
  }

  // ----- The detail panel -----

  /** `click['Is human'] === 'true'`. */
  function IsHumanClick(c: Click): bool
  {
    c.isHuman == "true"
  }

  function IsBotClick(c: Click): bool
  {
    c.isHuman != "true"
  }

  /** The figures of `updateDetailStats`, less the human rate. */
  datatype DetailStats = DetailStats(
    totalClicks: nat,
    uniqueIps: nat,
    humanClicks: nat,
    botClicks: nat,
    uniqueCountries: nat,
    uniqueCities: nat,
    affiliate: bool)

  /** `updateDetailStats(clicks, link)`: the human and bot clicks split the
      total, and each distinct count is at most the total. */
  function DetailStatsOf(clicks: seq<Click>, link: Link): (d: DetailStats)
    ensures d.totalClicks == |clicks| && d.humanClicks + d.botClicks == d.totalClicks
    ensures d.botClicks == |Filter(clicks, IsBotClick)|
    ensures d.uniqueIps <= d.totalClicks && d.uniqueCountries <= d.totalClicks && d.uniqueCities <= d.totalClicks
    ensures clicks != [] ==> d.uniqueIps >= 1 && d.uniqueCountries >= 1 && d.uniqueCities >= 1
    ensures d.affiliate <==> IsAffiliate(link.originalUrl)
  {
    var human := |Filter(clicks, IsHumanClick)|;
    DistinctFacts(Map(clicks, IpOf));
    DistinctFacts(Map(clicks, CountryLabel));
    DistinctFacts(Map(clicks, CityLabel));
    HumanBotSplit(clicks);
    DetailStats(
      |clicks|,
      |Distinct(Map(clicks, IpOf))|,
      human,
      |clicks| - human,
      |Distinct(Map(clicks, CountryLabel))|,
      |Distinct(Map(clicks, CityLabel))|,
      IsAffiliate(link.originalUrl))
  }

  /** Every click is either human or a bot, never both. */
  lemma {:induction false} HumanBotSplit(clicks: seq<Click>)
    ensures |Filter(clicks, IsHumanClick)| + |Filter(clicks, IsBotClick)| == |clicks|
  {
    if clicks != [] {
      HumanBotSplit(clicks[1..]);
    }
  }

  /** Timeline order: dates that parse (at noon) in increasing order, the others after. */
  function DateKey(e: Entry): SortKey
  {
    match ParseDate(e.key, "12:00:00 PM")
    case At(ms) => (0, ms)
    case Invalid => (1, 0)
  }

  /** The series of the four detail charts. */
  datatype Charts = Charts(timeline: Counter, sources: Counter, countries: Counter, browsers: Counter)

  /** `updateDetailCharts(clicks)`: clicks per date in date order, the ten
      largest sources and countries, and every browser, largest first. */
  function ChartsOf(clicks: seq<Click>): (ch: Charts)
    ensures |ch.sources| <= 10 && |ch.countries| <= 10
    ensures Total(ch.timeline) == |clicks| && Total(ch.browsers) == |clicks|
    ensures clicks == [] <==> ch.timeline == []
  {
    TopFacts(Counts(Map(clicks, MediumLabel)), 10);
    TopFacts(Counts(Map(clicks, CountryLabel)), 10);
    SortedTotal(Counts(Map(clicks, DateOf)), DateKey);
    SortedTotal(Counts(Map(clicks, BrowserLabel)), ByCountDesc);
    Charts(
      SortBy(Counts(Map(clicks, DateOf)), DateKey),
      Top(Counts(Map(clicks, MediumLabel)), 10),
      Top(Counts(Map(clicks, CountryLabel)), 10),
      SortBy(Counts(Map(clicks, BrowserLabel)), ByCountDesc))
  }

  /** The counting loops of the four chart functions. */
  method UpdateDetailCharts(clicks: seq<Click>) returns (ch: Charts)
    ensures ch == ChartsOf(clicks)
  {
    var byDate := CountEach(Map(clicks, DateOf));
    var sources := CountEach(Map(clicks, MediumLabel));
    var countries := CountEach(Map(clicks, CountryLabel));
    var browsers := CountEach(Map(clicks, BrowserLabel));
    ch := Charts(SortBy(byDate, DateKey), Top(sources, 10), Top(countries, 10), SortBy(browsers, ByCountDesc));
  }

  /** A ranked series of labels: at most `limit` entries, as many as there are
      distinct labels up to that limit, each label at most once, largest count
      first, each count the number of occurrences of its label, and no label
      left out occurring more often than one kept. */
  ghost predicate RankedSeries(t: Counter, xs: seq<string>, limit: nat)
  {
    && |t| == (if limit < |Distinct(xs)| then limit else |Distinct(xs)|)
    && (forall i, j :: 0 <= i < j < |t| ==> t[i].key != t[j].key)
    && (forall i, j :: 0 <= i < j < |t| ==> t[i].n >= t[j].n)
    && (forall i :: 0 <= i < |t| ==> t[i].n == multiset(xs)[t[i].key] && t[i].n >= 1)
    && (forall x, i :: x in xs && x !in Keys(t) && 0 <= i < |t| ==> multiset(xs)[x] <= t[i].n)
  }

  /** `Object.entries(counts).sort(...).slice(0, limit)` is a ranked series. */
  lemma SeriesFacts(xs: seq<string>, limit: nat)
    ensures RankedSeries(Top(Counts(xs), limit), xs, limit)
  {
    var t := Top(Counts(xs), limit);
    SeriesShape(xs, limit);
    SeriesOmitsSmaller(xs, limit);
    CountsProper(xs);
    TopProper(Counts(xs), limit);
    assert forall i, j :: 0 <= i < j < |t| ==> t[i].key != t[j].key;
  }

  /** The size, the order and the counts of a top series. */
  lemma SeriesShape(xs: seq<string>, limit: nat)
    ensures var t := Top(Counts(xs), limit);
            && |t| == (if limit < |Distinct(xs)| then limit else |Distinct(xs)|)
            && (forall i, j :: 0 <= i < j < |t| ==> t[i].n >= t[j].n)
            && (forall i :: 0 <= i < |t| ==> t[i].n == multiset(xs)[t[i].key] && t[i].n >= 1)
  {
    var c := Counts(xs);
    var t := Top(c, limit);
    CountsFacts(xs);
    TopFacts(c, limit);
    SortByFacts(c, ByCountDesc);
    forall i | 0 <= i < |t| ensures t[i].n == multiset(xs)[t[i].key] && t[i].n >= 1 {
      var m :| 0 <= m < |c| && c[m] == t[i];
      CountOfAt(c, m);
    }
  }

  /** A label the top series leaves out occurs no more often than any label it keeps. */
  lemma SeriesOmitsSmaller(xs: seq<string>, limit: nat)
    ensures var t := Top(Counts(xs), limit);
            forall x, i :: x in xs && x !in Keys(t) && 0 <= i < |t| ==> multiset(xs)[x] <= t[i].n
  {
    var t := Top(Counts(xs), limit);
    forall x, i | x in xs && x !in Keys(t) && 0 <= i < |t| ensures multiset(xs)[x] <= t[i].n {
      OmittedLabelSmaller(xs, limit, x, i);
    }
  }

  lemma OmittedLabelSmaller(xs: seq<string>, limit: nat, x: string, i: nat)
    requires x in xs && x !in Keys(Top(Counts(xs), limit)) && i < |Top(Counts(xs), limit)|
    ensures multiset(xs)[x] <= Top(Counts(xs), limit)[i].n
  {
    var c := Counts(xs);
    var t := Top(c, limit);
    CountsFacts(xs);
    DistinctHasAll(xs, x);
    assert x in Keys(c);
    var m :| 0 <= m < |c| && Keys(c)[m] == x;
    CountOfAt(c, m);
    assert forall q :: 0 <= q < |t| ==> Keys(t)[q] != x;
    assert c[m] !in t;
    TopLeavesSmaller(c, limit);
    assert c[m] in multiset(c) - multiset(t);
  }

  /** The source and country charts are ranked series of at most ten labels. */
  lemma ChartsFacts(clicks: seq<Click>)
    ensures RankedSeries(ChartsOf(clicks).sources, Map(clicks, MediumLabel), 10)
    ensures RankedSeries(ChartsOf(clicks).countries, Map(clicks, CountryLabel), 10)
  {
    SeriesFacts(Map(clicks, MediumLabel), 10);
    SeriesFacts(Map(clicks, CountryLabel), 10);
  }

  /** What the browser and timeline charts show: every browser, largest count
      first, and one entry per date with its number of clicks, the dates that
      parse in increasing order and before the others. */
  lemma ChartsOrderFacts(clicks: seq<Click>)
    ensures var ch := ChartsOf(clicks);
            && |ch.browsers| == |Distinct(Map(clicks, BrowserLabel))|
            && (forall i :: 0 <= i < |ch.browsers| ==>
                  ch.browsers[i].n == multiset(Map(clicks, BrowserLabel))[ch.browsers[i].key])
            && (forall i, j :: 0 <= i < j < |ch.browsers| ==> ch.browsers[i].n >= ch.browsers[j].n)
            && (forall i, j :: 0 <= i < j < |ch.browsers| ==> ch.browsers[i].key != ch.browsers[j].key)
            && (forall b :: b in Map(clicks, BrowserLabel) <==> b in Keys(ch.browsers))
            && |ch.timeline| == |Distinct(Map(clicks, DateOf))|
            && (forall i :: 0 <= i < |ch.timeline| ==>
                  ch.timeline[i].n == multiset(Map(clicks, DateOf))[ch.timeline[i].key])
            && (forall i, j :: 0 <= i < j < |ch.timeline| ==> !Below(DateKey(ch.timeline[j]), DateKey(ch.timeline[i])))
            && (forall i, j :: 0 <= i < j < |ch.timeline| ==> ch.timeline[i].key != ch.timeline[j].key)
            && (forall d :: d in Map(clicks, DateOf) <==> d in Keys(ch.timeline))
  {
    var ch := ChartsOf(clicks);
    assert ch.browsers == SortBy(Counts(Map(clicks, BrowserLabel)), ByCountDesc);
    assert ch.timeline == SortBy(Counts(Map(clicks, DateOf)), DateKey);
    RankAllFacts(Map(clicks, BrowserLabel));
    TimelineFacts(Map(clicks, DateOf));
  }

  /** Every label ranked, largest count first. */
  lemma RankAllFacts(xs: seq<string>)
    ensures var t := SortBy(Counts(xs), ByCountDesc);
            && |t| == |Distinct(xs)|
            && (forall i, j :: 0 <= i < j < |t| ==> t[i].n >= t[j].n)
            && (forall i :: 0 <= i < |t| ==> t[i].n == multiset(xs)[t[i].key])
            && (forall i, j :: 0 <= i < j < |t| ==> t[i].key != t[j].key)
            && (forall b :: b in xs <==> b in Keys(t))
  {
    var c := Counts(xs);
    SortedCountsCover(xs, ByCountDesc);
    CountsFacts(xs);
    SeriesFacts(xs, |c|);
    SortedPrefixFacts(c, ByCountDesc, |c|);
  }

  /** One entry per date with its number of clicks, in timeline order. */
  lemma TimelineFacts(xs: seq<string>)
    ensures var t := SortBy(Counts(xs), DateKey);
            && |t| == |Distinct(xs)|
            && (forall i :: 0 <= i < |t| ==> t[i].n == multiset(xs)[t[i].key])
            && (forall i, j :: 0 <= i < j < |t| ==> !Below(DateKey(t[j]), DateKey(t[i])))
            && (forall i, j :: 0 <= i < j < |t| ==> t[i].key != t[j].key)
            && (forall b :: b in xs <==> b in Keys(t))
  {
    var d := Counts(xs);
    SortedCountsCover(xs, DateKey);
    var t := SortBy(d, DateKey);
    CountsFacts(xs);
    SortByFacts(d, DateKey);
    forall i | 0 <= i < |t| ensures t[i].n == multiset(xs)[t[i].key] {
      assert t[i] in multiset(d);
      var m :| 0 <= m < |d| && d[m] == t[i];
      CountOfAt(d, m);
    }
  }

  /** Sorted in any order, the counter of a list of labels names every label
      exactly once. */
  lemma SortedCountsCover(xs: seq<string>, key: Entry -> SortKey)
    ensures var t := SortBy(Counts(xs), key);
            && (forall i, j :: 0 <= i < j < |t| ==> t[i].key != t[j].key)
            && (forall b :: b in xs <==> b in Keys(t))
  {
    var c := Counts(xs);
    var t := SortBy(c, key);
    CountsProper(xs);
    SortedProper(c, key);
    CountsKeys(xs);
    DistinctFacts(xs);
    SortByPermutes(c, key);
    forall b ensures b in Keys(c) <==> b in Keys(t) {
      KeyInPermutation(c, t, b);
      KeyInPermutation(t, c, b);
    }
  }

  /** A key of a counter is a key of any permutation of it. */
  lemma KeyInPermutation(c: Counter, t: Counter, b: string)
    requires multiset(c) == multiset(t)
    ensures b in Keys(c) ==> b in Keys(t)
  {
    if b in Keys(c) {
      var m :| 0 <= m < |c| && Keys(c)[m] == b;
      assert c[m] in multiset(t);
      var q :| 0 <= q < |t| && t[q] == c[m];
      assert Keys(t)[q] == b;
    }
  }

  // ----- The clicks table -----

  /** Most recent first: valid moments in decreasing order, the clicks whose
      date does not parse after them. */
  function RecentKey(c: Click): SortKey
  {
    match ClickTime(c)
    case At(ms) => (0, -ms)
    case Invalid => (1, 0)
  }

  /** The sort of `updateClicksTable`. */
  function SortRecentFirst(clicks: seq<Click>): seq<Click>
  {
    SortBy(clicks, RecentKey)
  }

  /** The table sort is a permutation of the clicks in which a later click comes
      first and an unparsable date never comes before a parsable one. */
  lemma SortRecentFirstFacts(clicks: seq<Click>)
    ensures var r := SortRecentFirst(clicks);
            && multiset(r) == multiset(clicks)
            && (forall i, j :: 0 <= i < j < |r| && ClickTime(r[i]).At? && ClickTime(r[j]).At? ==>
                  ClickTime(r[i]).ms >= ClickTime(r[j]).ms)
            && (forall i, j :: 0 <= i < j < |r| && ClickTime(r[i]).Invalid? ==> ClickTime(r[j]).Invalid?)
  {
    var r := SortRecentFirst(clicks);
    SortByFacts(clicks, RecentKey);
    forall i, j | 0 <= i < j < |r| ensures !Below(RecentKey(r[j]), RecentKey(r[i])) {
    }
  }
}

/** The dashboard (docs/analytics.js, `showData`): the registry of short links
    keyed by `short_url`, the clicks that have a registry entry, per-link
    counters of clicks, countries and sources, the twenty most clicked links,
    and the number of clicks on affiliate links. */
module Dashboard {
  import opened Seqs
  import opened Sorting
  import opened Tally
  import opened Text
  import opened Rows
  import opened Affiliate
  import opened ByUrl

  /** `shortlinkMap`: registry rows by `short_url`. */
  type Registry = map<string, Link>

  /** The map `shortlinksData.forEach(link => map[link.short_url] = link)` builds. */
  function RegistryOf(links: seq<Link>): (reg: Registry)
    ensures forall k :: k in reg ==> reg[k].shortUrl == k
    ensures forall i :: 0 <= i < |links| ==> links[i].shortUrl in reg
  {
    if links == [] then map[]
    else RegistryOf(links[..|links| - 1])[links[|links| - 1].shortUrl := links[|links| - 1]]
  }

  /** Last write wins: a key is in the registry exactly when some row has it,
      and it maps to the last such row. */
  lemma RegistryLastWins(links: seq<Link>, k: string)
    ensures k in RegistryOf(links) <==> exists i :: 0 <= i < |links| && links[i].shortUrl == k
    ensures forall i :: 0 <= i < |links| && links[i].shortUrl == k
                        && (forall j :: i < j < |links| ==> links[j].shortUrl != k)
                        ==> k in RegistryOf(links) && RegistryOf(links)[k] == links[i]
  {
    RegistryKeys(links, k);
    forall i | 0 <= i < |links| && links[i].shortUrl == k && (forall j :: i < j < |links| ==> links[j].shortUrl != k)
      ensures k in RegistryOf(links) && RegistryOf(links)[k] == links[i]
    {
      RegistryLast(links, k, i);
    }
  }

  lemma {:induction false} RegistryKeys(links: seq<Link>, k: string)
    ensures k in RegistryOf(links) <==> exists i :: 0 <= i < |links| && links[i].shortUrl == k
  {
    if links != [] {
      var init := links[..|links| - 1];
      RegistryKeys(init, k);
      if links[|links| - 1].shortUrl != k {
        if exists i :: 0 <= i < |links| && links[i].shortUrl == k {
          var i :| 0 <= i < |links| && links[i].shortUrl == k;
          assert init[i] == links[i];
        }
        if exists i :: 0 <= i < |init| && init[i].shortUrl == k {
          var i :| 0 <= i < |init| && init[i].shortUrl == k;
          assert links[i] == init[i];
        }
      }
    }
  }

  lemma {:induction false} RegistryLast(links: seq<Link>, k: string, i: nat)
    requires i < |links| && links[i].shortUrl == k
    requires forall j :: i < j < |links| ==> links[j].shortUrl != k
    ensures k in RegistryOf(links) && RegistryOf(links)[k] == links[i]
  {
    var init := links[..|links| - 1];
    if i < |links| - 1 {
      assert links[|links| - 1].shortUrl != k;
      assert init[i] == links[i];
      forall j | i < j < |init| ensures init[j].shortUrl != k {
        assert init[j] == links[j];
      }
      RegistryLast(init, k, i);
    }
  }

  /** The `forEach` that fills `shortlinkMap`. */
  method BuildShortlinkMap(links: seq<Link>) returns (m: Registry)
    ensures m == RegistryOf(links)
  {
    m := map[];
    var i := 0;
    while i < |links|
      invariant 0 <= i <= |links|
      invariant m == RegistryOf(links[..i])
    {
      assert links[..i + 1][..i] == links[..i];
      m := m[links[i].shortUrl := links[i]];
      i := i + 1;
    }
    assert links[..|links|] == links;
  }

  /** `shortlinkMap[click['Short link']]` is set. */
  function HasEntry(reg: Registry): Click -> bool
  {
    (c: Click) => c.shortLink in reg
  }

  /** `filteredClicks`: the clicks whose link is registered, in log order. */
  function Joined(clicks: seq<Click>, reg: Registry): (r: seq<Click>)
    ensures IsSubsequence(r, clicks)
    ensures forall i :: 0 <= i < |r| ==> r[i].shortLink in reg
    ensures forall i :: 0 <= i < |clicks| && clicks[i].shortLink in reg ==> clicks[i] in r
    ensures forall x :: multiset(r)[x] == if x.shortLink in reg then multiset(clicks)[x] else 0
  {
    FilterCounts(clicks, HasEntry(reg));
    Filter(clicks, HasEntry(reg))
  }

  // ----- linkStats -----

  /** One value of `linkStats`. */
  datatype LinkStat = LinkStat(clicks: nat, countries: Counter, sources: Counter, name: string)

  /** One `[url, stats]` pair of `Object.entries(linkStats)`. */
  datatype LinkEntry = LinkEntry(url: string, stat: LinkStat)

  /** `linkStats`, as its entries in insertion order. */
  type LinkTable = seq<LinkEntry>

  /** `shortlinkMap[url] ? shortlinkMap[url].name : ''`. */
  function NameIn(reg: Registry, url: string): string
  {
    if url in reg then reg[url].name else ""
  }

  /** The value a new link's entry starts with. */
  function FreshStat(reg: Registry, url: string): LinkStat
  {
    LinkStat(0, [], [], NameIn(reg, url))
  }

  /** `clicks++` and the two counter bumps for one click. */
  function StatStep(s: LinkStat, c: Click): LinkStat
  {
    LinkStat(s.clicks + 1, Bump(s.countries, CountryLabel(c)), Bump(s.sources, DashboardSource(c)), s.name)
  }

  /** One iteration of the accumulation loop: the click's entry is created if
      missing, then counted. */
  function AddClick(t: LinkTable, c: Click, reg: Registry): LinkTable
  {
    if t == [] then [LinkEntry(c.shortLink, StatStep(FreshStat(reg, c.shortLink), c))]
    else if t[0].url == c.shortLink then [LinkEntry(t[0].url, StatStep(t[0].stat, c))] + t[1..]
    else [t[0]] + AddClick(t[1..], c, reg)
  }

  /** `linkStats` after the loop over `clicks`. */
  function LinkStatsOf(clicks: seq<Click>, reg: Registry): (t: LinkTable)
    ensures |t| <= |clicks|
    ensures clicks != [] ==> t != []
  {
    if clicks == [] then []
    else
      var init := LinkStatsOf(clicks[..|clicks| - 1], reg);
      AddClickSize(init, clicks[|clicks| - 1], reg);
      AddClick(init, clicks[|clicks| - 1], reg)
  }

  /** Adding a click adds at most one entry, and the table is no longer empty. */
  lemma {:induction false} AddClickSize(t: LinkTable, c: Click, reg: Registry)
    ensures |t| <= |AddClick(t, c, reg)| <= |t| + 1 && AddClick(t, c, reg) != []
  {
    if t != [] && t[0].url != c.shortLink {
      AddClickSize(t[1..], c, reg);
    }
  }

  function UrlOf(e: LinkEntry): string
  {
    e.url
  }

  /** The reference value of one link's entry: its clicks counted, its
      countries and sources tallied in click order, and its registry name. */
  function StatOf(clicks: seq<Click>, url: string, reg: Registry): LinkStat
  {
    var mine := Filter(clicks, IsFor(url));
    LinkStat(|mine|, Counts(Map(mine, CountryLabel)), Counts(Map(mine, DashboardSource)), NameIn(reg, url))
  }

  /** Adding a click updates the entry of its link, or appends one, and leaves
      every other entry alone. */
  lemma {:induction false} AddClickShape(t: LinkTable, c: Click, reg: Registry)
    requires UniqueUrls(t)
    ensures var a := AddClick(t, c, reg);
            && |a| == (if c.shortLink in Map(t, UrlOf) then |t| else |t| + 1)
            && (forall i :: 0 <= i < |t| ==>
                  a[i] == if t[i].url == c.shortLink then LinkEntry(t[i].url, StatStep(t[i].stat, c)) else t[i])
            && (c.shortLink !in Map(t, UrlOf) ==>
                  a[|t|] == LinkEntry(c.shortLink, StatStep(FreshStat(reg, c.shortLink), c)))
  {
    if t != [] {
      assert Map(t, UrlOf) == [t[0].url] + Map(t[1..], UrlOf);
      if t[0].url == c.shortLink {
        AddClickHit(t, c, reg);
      } else {
        AddClickShape(t[1..], c, reg);
        assert AddClick(t, c, reg) == [t[0]] + AddClick(t[1..], c, reg);
      }
    }
  }

  /** A click on the first entry's link updates that entry only. */
  lemma AddClickHit(t: LinkTable, c: Click, reg: Registry)
    requires UniqueUrls(t)
    requires t != [] && t[0].url == c.shortLink
    ensures AddClick(t, c, reg) == [LinkEntry(t[0].url, StatStep(t[0].stat, c))] + t[1..]
    ensures forall i :: 1 <= i < |t| ==> t[i].url != c.shortLink
  {
  }

  /** Filtering and tallying one more click: the tally of the link's labels is
      bumped when the click is the link's, and unchanged otherwise. */
  lemma TallySnoc(init: seq<Click>, c: Click, url: string, labelOf: Click -> string)
    ensures Counts(Map(Filter(init + [c], IsFor(url)), labelOf))
            == if c.shortLink == url then Bump(Counts(Map(Filter(init, IsFor(url)), labelOf)), labelOf(c))
               else Counts(Map(Filter(init, IsFor(url)), labelOf))
  {
    FilterAppend(init, [c], IsFor(url));
    var mine := Filter(init, IsFor(url));
    if c.shortLink == url {
      assert Filter([c], IsFor(url)) == [c];
      MapAppend(mine, [c], labelOf);
      CountsSnoc(Map(mine, labelOf), labelOf(c));
    } else {
      assert Filter([c], IsFor(url)) == [];
      assert mine + [] == mine;
    }
  }

  lemma StatOfSnoc(init: seq<Click>, c: Click, url: string, reg: Registry)
    ensures StatOf(init + [c], url, reg)
            == if c.shortLink == url then StatStep(StatOf(init, url, reg), c) else StatOf(init, url, reg)
  {
    FilterSnocLength(init, c, url);
    TallySnoc(init, c, url, CountryLabel);
    TallySnoc(init, c, url, DashboardSource);
  }

  lemma FilterSnocLength(init: seq<Click>, c: Click, url: string)
    ensures |Filter(init + [c], IsFor(url))| == |Filter(init, IsFor(url))| + if c.shortLink == url then 1 else 0
  {
    FilterAppend(init, [c], IsFor(url));
    assert |Filter([c], IsFor(url))| == if c.shortLink == url then 1 else 0;
  }

  lemma {:induction false} StatOfAbsent(clicks: seq<Click>, url: string, reg: Registry)
    requires url !in Map(clicks, LinkOf)
    ensures StatOf(clicks, url, reg) == FreshStat(reg, url)
  {
    if clicks != [] {
      assert Map(clicks, LinkOf) == [clicks[0].shortLink] + Map(clicks[1..], LinkOf);
      StatOfAbsent(clicks[1..], url, reg);
    }
  }

  /** No link has two entries. */
  ghost predicate UniqueUrls(t: LinkTable)
  {
    forall i, j :: 0 <= i < j < |t| ==> t[i].url != t[j].url
  }

  lemma UniqueFromDistinct(t: LinkTable, xs: seq<string>)
    requires Map(t, UrlOf) == Distinct(xs)
    ensures UniqueUrls(t)
  {
    DistinctFacts(xs);
    forall i, j | 0 <= i < j < |t| ensures t[i].url != t[j].url {
      assert Map(t, UrlOf)[i] == t[i].url && Map(t, UrlOf)[j] == t[j].url;
    }
  }

  lemma {:induction false} AddClickUrls(t: LinkTable, c: Click, reg: Registry)
    ensures Map(AddClick(t, c, reg), UrlOf)
            == if c.shortLink in Map(t, UrlOf) then Map(t, UrlOf) else Map(t, UrlOf) + [c.shortLink]
  {
    if t != [] {
      assert Map(t, UrlOf) == [t[0].url] + Map(t[1..], UrlOf);
      if t[0].url == c.shortLink {
        assert Map(AddClick(t, c, reg), UrlOf) == [t[0].url] + Map(t[1..], UrlOf);
      } else {
        AddClickUrls(t[1..], c, reg);
        assert Map(AddClick(t, c, reg), UrlOf) == [t[0].url] + Map(AddClick(t[1..], c, reg), UrlOf);
      }
    }
  }

  lemma DistinctSnoc(xs: seq<string>, x: string)
    ensures Distinct(xs + [x]) == if x in xs then Distinct(xs) else Distinct(xs) + [x]
  {
    assert (xs + [x])[..|xs|] == xs;
  }

  /** `linkStats` has one entry per distinct link, in order of first click. */
  lemma {:induction false} LinkStatsUrls(clicks: seq<Click>, reg: Registry)
    ensures Map(LinkStatsOf(clicks, reg), UrlOf) == Distinct(Map(clicks, LinkOf))
    ensures UniqueUrls(LinkStatsOf(clicks, reg))
  {
    if clicks != [] {
      var init, c := clicks[..|clicks| - 1], clicks[|clicks| - 1];
      assert clicks == init + [c];
      LinkStatsUrls(init, reg);
      AddClickUrls(LinkStatsOf(init, reg), c, reg);
      MapAppend(init, [c], LinkOf);
      DistinctSnoc(Map(init, LinkOf), c.shortLink);
      DistinctHasAll(Map(init, LinkOf), c.shortLink);
      UniqueFromDistinct(LinkStatsOf(clicks, reg), Map(clicks, LinkOf));
    }
  }

  /** One click keeps every entry equal to the reference value of its link. */
  lemma AddClickValues(init: seq<Click>, c: Click, reg: Registry, t: LinkTable, i: nat)
    requires UniqueUrls(t)
    requires forall k :: 0 <= k < |t| ==> t[k].stat == StatOf(init, t[k].url, reg)
    requires c.shortLink !in Map(t, UrlOf) ==> c.shortLink !in Map(init, LinkOf)
    requires i < |AddClick(t, c, reg)|
    ensures AddClick(t, c, reg)[i].stat == StatOf(init + [c], AddClick(t, c, reg)[i].url, reg)
  {
    AddClickShape(t, c, reg);
    var a := AddClick(t, c, reg);
    StatOfSnoc(init, c, a[i].url, reg);
    if i == |t| {
      StatOfAbsent(init, c.shortLink, reg);
    } else {
      assert a[i].url == t[i].url;
    }
  }

  /** Each entry of `linkStats` is the reference value for its link. */
  lemma {:induction false} LinkStatsValues(clicks: seq<Click>, reg: Registry)
    ensures forall i :: 0 <= i < |LinkStatsOf(clicks, reg)| ==>
              LinkStatsOf(clicks, reg)[i].stat == StatOf(clicks, LinkStatsOf(clicks, reg)[i].url, reg)
  {
    if clicks != [] {
      var init, c := clicks[..|clicks| - 1], clicks[|clicks| - 1];
      assert clicks == init + [c];
      var t := LinkStatsOf(init, reg);
      LinkStatsValues(init, reg);
      LinkStatsUrls(init, reg);
      DistinctHasAll(Map(init, LinkOf), c.shortLink);
      forall i | 0 <= i < |AddClick(t, c, reg)|
        ensures AddClick(t, c, reg)[i].stat == StatOf(init + [c], AddClick(t, c, reg)[i].url, reg)
      {
        AddClickValues(init, c, reg, t, i);
      }
    }
  }

  /** `filter(click => click['Short link'] === url).length` counts the link's
      occurrences. */
  lemma {:induction false} FilterCount(clicks: seq<Click>, url: string)
    ensures |Filter(clicks, IsFor(url))| == multiset(Map(clicks, LinkOf))[url]
  {
    if clicks != [] {
      FilterCount(clicks[1..], url);
      assert Map(clicks, LinkOf) == [clicks[0].shortLink] + Map(clicks[1..], LinkOf);
    }
  }

  /** One entry of the table: the reference value of a clicked link, whose
      click count is its number of clicks and is the sum of its country counts
      and of its source counts. */
  lemma EntryFacts(clicks: seq<Click>, reg: Registry, i: nat)
    requires i < |LinkStatsOf(clicks, reg)|
    ensures var e := LinkStatsOf(clicks, reg)[i];
            && e.stat == StatOf(clicks, e.url, reg)
            && e.url in Map(clicks, LinkOf)
            && e.stat.clicks == multiset(Map(clicks, LinkOf))[e.url] >= 1
            && Total(e.stat.countries) == e.stat.clicks && Total(e.stat.sources) == e.stat.clicks
            && e.stat.countries != [] && e.stat.sources != []
            && e.stat.name == NameIn(reg, e.url)
  {
    var t := LinkStatsOf(clicks, reg);
    var e := t[i];
    LinkStatsUrls(clicks, reg);
    LinkStatsValues(clicks, reg);
    assert Map(t, UrlOf)[i] == e.url;
    DistinctHasAll(Map(clicks, LinkOf), e.url);
    FilterCount(clicks, e.url);
    var mine := Filter(clicks, IsFor(e.url));
  }

  /** What the table of link counters says: one entry per distinct link, in
      order of first click; each entry's `clicks` is that link's number of
      clicks, which is at least one; the country counts and the source counts
      each add up to it; the name is the registry's; and all entries together
      hold every click once. */
  lemma LinkStatsFacts(clicks: seq<Click>, reg: Registry)
    ensures var t := LinkStatsOf(clicks, reg);
            && Map(t, UrlOf) == Distinct(Map(clicks, LinkOf))
            && (forall i :: 0 <= i < |t| ==>
                  && t[i].stat.clicks == multiset(Map(clicks, LinkOf))[t[i].url] >= 1
                  && Total(t[i].stat.countries) == t[i].stat.clicks
                  && Total(t[i].stat.sources) == t[i].stat.clicks
                  && t[i].stat.countries != [] && t[i].stat.sources != []
                  && t[i].stat.name == NameIn(reg, t[i].url))
            && Total(Project(t)) == |clicks|
  {
    var t := LinkStatsOf(clicks, reg);
    LinkStatsUrls(clicks, reg);
    forall i | 0 <= i < |t|
      ensures t[i].stat.clicks == multiset(Map(clicks, LinkOf))[t[i].url] >= 1
      ensures Total(t[i].stat.countries) == t[i].stat.clicks && Total(t[i].stat.sources) == t[i].stat.clicks
      ensures t[i].stat.countries != [] && t[i].stat.sources != []
      ensures t[i].stat.name == NameIn(reg, t[i].url)
    {
      EntryFacts(clicks, reg, i);
    }
    ProjectIsCounts(clicks, reg);
  }

  /** `[url, stats.clicks]` for every entry. */
  function Project(t: LinkTable): (c: Counter)
    ensures |c| == |t|
    ensures forall i :: 0 <= i < |t| ==> c[i] == Entry(t[i].url, t[i].stat.clicks)
  {
    if t == [] then [] else [Entry(t[0].url, t[0].stat.clicks)] + Project(t[1..])
  }

  /** Reduced to link and click count, the table is the counter of the links. */
  lemma ProjectIsCounts(clicks: seq<Click>, reg: Registry)
    ensures Project(LinkStatsOf(clicks, reg)) == Counts(Map(clicks, LinkOf))
  {
    var t := LinkStatsOf(clicks, reg);
    var c := Counts(Map(clicks, LinkOf));
    LinkStatsUrls(clicks, reg);
    CountsKeys(Map(clicks, LinkOf));
    assert |c| == |t| by {
      assert |Keys(c)| == |Map(t, UrlOf)|;
    }
    forall i | 0 <= i < |t| ensures Project(t)[i] == c[i] {
      ProjectAt(clicks, reg, i);
    }
  }

  lemma ProjectAt(clicks: seq<Click>, reg: Registry, i: nat)
    requires i < |LinkStatsOf(clicks, reg)| && i < |Counts(Map(clicks, LinkOf))|
    requires Keys(Counts(Map(clicks, LinkOf))) == Map(LinkStatsOf(clicks, reg), UrlOf)
    ensures Counts(Map(clicks, LinkOf))[i] == Entry(LinkStatsOf(clicks, reg)[i].url, LinkStatsOf(clicks, reg)[i].stat.clicks)
  {
    var t := LinkStatsOf(clicks, reg);
    var c := Counts(Map(clicks, LinkOf));
    assert Keys(c)[i] == Map(t, UrlOf)[i];
    CountsProper(Map(clicks, LinkOf));
    CountsOccurrences(Map(clicks, LinkOf));
    CountOfAt(c, i);
    EntryFacts(clicks, reg, i);
  }

  // ----- The table -----

  /** The ranking comparator `b[1].clicks - a[1].clicks` as a key. */
  function ByClicksDesc(e: LinkEntry): SortKey
  {
    var n: int := e.stat.clicks;
    (0, -n)
  }

  /** The number of rows in the links table. */
  const TABLE_ROWS: nat := 20

  /** `Object.entries(linkStats).sort(...).slice(0, 20)`. */
  function Ranked(t: LinkTable): (r: LinkTable)
    ensures |r| <= TABLE_ROWS && |r| <= |t|
    ensures t != [] ==> r != []
    ensures forall i :: 0 <= i < |r| ==> r[i] in t
  {
    SortByPermutes(t, ByClicksDesc);
    assert forall i :: 0 <= i < |Take(SortBy(t, ByClicksDesc), TABLE_ROWS)| ==> Take(SortBy(t, ByClicksDesc), TABLE_ROWS)[i] in multiset(t);
    Take(SortBy(t, ByClicksDesc), TABLE_ROWS)
  }

  /** The ranking holds at most twenty entries of the table, the most clicked
      first, and links with equal clicks keep their order of first click; an
      entry left out has no more clicks than any ranked one, and a table with
      one entry per link gives a ranking with one entry per link. */
  lemma RankedFacts(t: LinkTable)
    ensures |Ranked(t)| == if |t| < TABLE_ROWS then |t| else TABLE_ROWS
    ensures forall i :: 0 <= i < |Ranked(t)| ==> Ranked(t)[i] in t
    ensures forall i, j :: 0 <= i < j < |Ranked(t)| ==> Ranked(t)[i].stat.clicks >= Ranked(t)[j].stat.clicks
    ensures forall k :: WithKey(Ranked(t), ByClicksDesc, k) <= WithKey(t, ByClicksDesc, k)
    ensures forall e, i :: e in multiset(t) - multiset(Ranked(t)) && 0 <= i < |Ranked(t)|
              ==> e.stat.clicks <= Ranked(t)[i].stat.clicks
    ensures UniqueUrls(t) ==> UniqueUrls(Ranked(t))
  {
    RankedLeavesSmaller(t);
    if UniqueUrls(t) {
      RankedUnique(t);
    }
    SortedPrefixFacts(t, ByClicksDesc, TABLE_ROWS);
    SortByPermutes(t, ByClicksDesc);
    var r := Ranked(t);
    forall i, j | 0 <= i < j < |r| ensures r[i].stat.clicks >= r[j].stat.clicks {
      assert !Below(ByClicksDesc(r[j]), ByClicksDesc(r[i]));
    }
  }

  lemma RankedLeavesSmaller(t: LinkTable)
    ensures forall e, i :: e in multiset(t) - multiset(Ranked(t)) && 0 <= i < |Ranked(t)|
              ==> e.stat.clicks <= Ranked(t)[i].stat.clicks
  {
    SortedPrefixTop(t, ByClicksDesc, TABLE_ROWS);
    forall e, i | e in multiset(t) - multiset(Ranked(t)) && 0 <= i < |Ranked(t)|
      ensures e.stat.clicks <= Ranked(t)[i].stat.clicks
    {
      assert !Below(ByClicksDesc(e), ByClicksDesc(Ranked(t)[i]));
    }
  }

  lemma RankedUnique(t: LinkTable)
    requires UniqueUrls(t)
    ensures UniqueUrls(Ranked(t))
  {
    var r := SortBy(t, ByClicksDesc);
    assert UniqueBy(t, UrlOf);
    SortByUnique(t, ByClicksDesc, UrlOf);
    assert forall i :: 0 <= i < |Ranked(t)| ==> Ranked(t)[i] == r[i];
  }

  /** A link with strictly more clicks than every other heads the ranking. */
  lemma RankedLeader(t: LinkTable, i: nat)
    requires i < |t|
    requires forall j :: 0 <= j < |t| && j != i ==> t[j].stat.clicks < t[i].stat.clicks
    ensures Ranked(t) != [] && Ranked(t)[0] == t[i]
  {
    var s := SortBy(t, ByClicksDesc);
    SortByPermutes(t, ByClicksDesc);
    SortBySorted(t, ByClicksDesc);
    assert s[0] in multiset(t);
    var q :| 0 <= q < |t| && t[q] == s[0];
    assert t[i] in multiset(s);
    var p :| 0 <= p < |s| && s[p] == t[i];
    assert s[0].stat.clicks >= s[p].stat.clicks by {
      if p > 0 {
        assert !Below(ByClicksDesc(s[p]), ByClicksDesc(s[0]));
      }
    }
    assert q == i;
  }

  /** `stats.name || url.split('/').pop()`. */
  function DisplayName(name: string, url: string): (r: string)
    ensures name != "" ==> r == name
    ensures name == "" ==> '/' !in r && exists head :: url == head + r && (head == [] || head[|head| - 1] == '/')
  {
    LastSegmentFacts(url);
    if name != "" then name else LastSegment(url)
  }

  /** One row of `#links-table`. */
  datatype TableRow = TableRow(
    url: string,
    name: string,
    clicks: nat,
    affiliate: bool,
    topSource: string,
    topCountry: string)

  /** An entry with a country and a source to report: every entry of
      `linkStats` is one, having at least one click. */
  predicate Reportable(e: LinkEntry)
  {
    e.stat.countries != [] && e.stat.sources != []
  }

  /** The row for one ranked entry. The source reads the first sorted entry of
      each counter. */
  function RowOf(e: LinkEntry, reg: Registry): (row: TableRow)
    requires Reportable(e)
    ensures row.topCountry == e.stat.countries[FirstMaxIndex(e.stat.countries)].key
    ensures row.topSource == e.stat.sources[FirstMaxIndex(e.stat.sources)].key
    ensures e.stat.name != "" ==> row.name == e.stat.name
  {
    MostFrequentIsFirstMax(e.stat.countries);
    MostFrequentIsFirstMax(e.stat.sources);
    TableRow(
      e.url,
      DisplayName(e.stat.name, e.url),
      e.stat.clicks,
      DashboardAffiliate(if e.url in reg then reg[e.url].originalUrl else ""),
      MostFrequent(e.stat.sources).value,
      MostFrequent(e.stat.countries).value)
  }

  function RowsOf(entries: LinkTable, reg: Registry): (rows: seq<TableRow>)
    requires forall i :: 0 <= i < |entries| ==> Reportable(entries[i])
    ensures |rows| == |entries|
    ensures forall i :: 0 <= i < |entries| ==> rows[i] == RowOf(entries[i], reg)
  {
    seq(|entries|, i requires 0 <= i < |entries| => RowOf(entries[i], reg))
  }

  /** Every ranked entry has a country and a source to report. */
  lemma RankedReady(joined: seq<Click>, reg: Registry)
    ensures forall i :: 0 <= i < |Ranked(LinkStatsOf(joined, reg))| ==> Reportable(Ranked(LinkStatsOf(joined, reg))[i])
  {
    var t := LinkStatsOf(joined, reg);
    RankedIn(t);
    forall i | 0 <= i < |Ranked(t)| ensures Reportable(Ranked(t)[i]) {
      var k :| 0 <= k < |t| && t[k] == Ranked(t)[i];
      EntryFacts(joined, reg, k);
    }
  }

  lemma RankedIn(t: LinkTable)
    ensures forall i :: 0 <= i < |Ranked(t)| ==> Ranked(t)[i] in t
  {
    RankedFacts(t);
  }

  /** `isAffiliate` in `showData`'s affiliate count: the click's registry
      row has an affiliate `original_url`. */
  function IsAffiliateClick(reg: Registry): Click -> bool
  {
    (c: Click) => c.shortLink in reg && DashboardAffiliate(reg[c.shortLink].originalUrl)
  }

  /** What `showData` puts on screen. */
  datatype Summary = Summary(totalClicks: nat, uniqueLinks: nat, affiliateClicks: nat, rows: seq<TableRow>)

  /** `showData()` on the loaded tables. */
  function DashboardOf(clicks: seq<Click>, links: seq<Link>): (s: Summary)
    ensures s.affiliateClicks <= s.totalClicks <= |clicks|
    ensures s.uniqueLinks <= s.totalClicks
    ensures |s.rows| <= TABLE_ROWS && |s.rows| <= s.uniqueLinks
    ensures s.totalClicks != 0 ==> s.rows != []
  {
    var reg := RegistryOf(links);
    var joined := Joined(clicks, reg);
    var table := LinkStatsOf(joined, reg);
    RankedReady(joined, reg);
    Summary(|joined|, |table|, |Filter(joined, IsAffiliateClick(reg))|, RowsOf(Ranked(table), reg))
  }

  /** The `forEach` over the joined clicks that fills `linkStats`. */
  method AccumulateLinkStats(joined: seq<Click>, reg: Registry) returns (table: LinkTable)
    ensures table == LinkStatsOf(joined, reg)
  {
    table := [];
    var i := 0;
    while i < |joined|
      invariant 0 <= i <= |joined|
      invariant table == LinkStatsOf(joined[..i], reg)
    {
      assert joined[..i + 1][..i] == joined[..i];
      table := AddClick(table, joined[i], reg);
      i := i + 1;
    }
    assert joined[..|joined|] == joined;
  }

  /** `showData()`: the map, the join, the accumulation loop, the ranking and
      the affiliate count. */
  method ShowData(clicks: seq<Click>, links: seq<Link>) returns (s: Summary)
    ensures s == DashboardOf(clicks, links)
  {
    var reg := BuildShortlinkMap(links);
    var joined := Joined(clicks, reg);
    var table := AccumulateLinkStats(joined, reg);
    RankedReady(joined, reg);
    s := Summary(|joined|, |table|, |Filter(joined, IsAffiliateClick(reg))|, RowsOf(Ranked(table), reg));
  }

  /** The dashboard's totals: the clicks that have a registry entry, the
      distinct links among them, the affiliate clicks among them, and at most
      twenty rows in decreasing order of clicks. */
  lemma DashboardTotals(clicks: seq<Click>, links: seq<Link>)
    ensures var reg := RegistryOf(links);
            var joined := Joined(clicks, reg);
            var s := DashboardOf(clicks, links);
            && s.totalClicks == |joined| <= |clicks|
            && s.uniqueLinks == |Distinct(Map(joined, LinkOf))| <= s.totalClicks
            && s.affiliateClicks <= s.totalClicks
            && |s.rows| == (if s.uniqueLinks < TABLE_ROWS then s.uniqueLinks else TABLE_ROWS)
            && (forall i, j :: 0 <= i < j < |s.rows| ==> s.rows[i].clicks >= s.rows[j].clicks)
  {
    var reg := RegistryOf(links);
    var joined := Joined(clicks, reg);
    var table := LinkStatsOf(joined, reg);
    LinkStatsUrls(joined, reg);
    RankedFacts(table);
    DistinctFacts(Map(joined, LinkOf));
    assert |table| == |Map(table, UrlOf)|;
  }

  /** The rows report the most clicked registered links: a registered link
      that was clicked but has no row has no more clicks than any row shows. */
  lemma DashboardTopLinks(clicks: seq<Click>, links: seq<Link>)
    ensures var reg := RegistryOf(links);
            var joined := Joined(clicks, reg);
            var s := DashboardOf(clicks, links);
            forall u, i :: u in Map(joined, LinkOf) && 0 <= i < |s.rows|
                           && (forall j :: 0 <= j < |s.rows| ==> s.rows[j].url != u)
                           ==> multiset(Map(joined, LinkOf))[u] <= s.rows[i].clicks
  {
    var reg := RegistryOf(links);
    var joined := Joined(clicks, reg);
    var s := DashboardOf(clicks, links);
    RowsShowRanked(clicks, links);
    forall u, i | u in Map(joined, LinkOf) && 0 <= i < |s.rows|
                  && (forall j :: 0 <= j < |s.rows| ==> s.rows[j].url != u)
      ensures multiset(Map(joined, LinkOf))[u] <= s.rows[i].clicks
    {
      RowsTopLinks(joined, reg, s.rows, u, i);
    }
  }

  /** Rows that show the ranked entries' links and click counts leave out no
      link clicked more often than one they show. */
  lemma RowsTopLinks(joined: seq<Click>, reg: Registry, rows: seq<TableRow>, u: string, i: nat)
    requires |rows| == |Ranked(LinkStatsOf(joined, reg))|
    requires forall q :: 0 <= q < |rows| ==> rows[q].url == Ranked(LinkStatsOf(joined, reg))[q].url
    requires forall q :: 0 <= q < |rows| ==> rows[q].clicks == Ranked(LinkStatsOf(joined, reg))[q].stat.clicks
    requires u in Map(joined, LinkOf) && i < |rows|
    requires forall j :: 0 <= j < |rows| ==> rows[j].url != u
    ensures multiset(Map(joined, LinkOf))[u] <= rows[i].clicks
  {
    OmittedLinkBelow(joined, reg, u, i);
  }

  /** Each row shows the link and the click count of its ranked entry. */
  lemma RowsShowRanked(clicks: seq<Click>, links: seq<Link>)
    ensures var reg := RegistryOf(links);
            var ranked := Ranked(LinkStatsOf(Joined(clicks, reg), reg));
            var rows := DashboardOf(clicks, links).rows;
            && |rows| == |ranked|
            && (forall q :: 0 <= q < |rows| ==> rows[q].url == ranked[q].url)
            && (forall q :: 0 <= q < |rows| ==> rows[q].clicks == ranked[q].stat.clicks)
  {
    var reg := RegistryOf(links);
    var joined := Joined(clicks, reg);
    var ranked := Ranked(LinkStatsOf(joined, reg));
    RankedReady(joined, reg);
    assert DashboardOf(clicks, links).rows == RowsOf(ranked, reg);
  }

  /** A clicked link none of whose entries is ranked has no more clicks than
      any ranked entry. */
  lemma OmittedLinkBelow(joined: seq<Click>, reg: Registry, u: string, i: nat)
    requires u in Map(joined, LinkOf)
    requires forall q :: 0 <= q < |Ranked(LinkStatsOf(joined, reg))| ==> Ranked(LinkStatsOf(joined, reg))[q].url != u
    requires i < |Ranked(LinkStatsOf(joined, reg))|
    ensures multiset(Map(joined, LinkOf))[u] <= Ranked(LinkStatsOf(joined, reg))[i].stat.clicks
  {
    var table := LinkStatsOf(joined, reg);
    var ranked := Ranked(table);
    var k := EntryOfLink(joined, reg, u);
    var e := table[k];
    assert e !in multiset(ranked);
    assert e in multiset(table) - multiset(ranked);
    RankedLeavesSmaller(table);
  }

  /** A clicked link has an entry, holding its number of clicks. */
  lemma EntryOfLink(joined: seq<Click>, reg: Registry, u: string) returns (k: nat)
    requires u in Map(joined, LinkOf)
    ensures k < |LinkStatsOf(joined, reg)| && LinkStatsOf(joined, reg)[k].url == u
    ensures LinkStatsOf(joined, reg)[k].stat.clicks == multiset(Map(joined, LinkOf))[u]
  {
    var table := LinkStatsOf(joined, reg);
    LinkStatsUrls(joined, reg);
    DistinctHasAll(Map(joined, LinkOf), u);
    k :| 0 <= k < |table| && Map(table, UrlOf)[k] == u;
    EntryFacts(joined, reg, k);
  }

  /** An entry of `linkStats` built from joined clicks belongs to a
      registered link. */
  lemma JoinedEntry(joined: seq<Click>, reg: Registry, k: nat)
    requires forall i :: 0 <= i < |joined| ==> joined[i].shortLink in reg
    requires k < |LinkStatsOf(joined, reg)|
    ensures LinkStatsOf(joined, reg)[k].url in reg
  {
    EntryFacts(joined, reg, k);
    var m :| 0 <= m < |joined| && Map(joined, LinkOf)[m] == LinkStatsOf(joined, reg)[k].url;
  }

  /** Each row shows a registered link: its click count, its registry name or
      else the last segment of its URL, the dashboard's affiliate test on its
      `original_url`, and as top source and top country the first label of
      largest count among its clicks. */
  lemma DashboardRows(clicks: seq<Click>, links: seq<Link>)
    ensures var reg := RegistryOf(links);
            var joined := Joined(clicks, reg);
            var s := DashboardOf(clicks, links);
            forall i :: 0 <= i < |s.rows| ==>
              var st := StatOf(joined, s.rows[i].url, reg);
              && s.rows[i].url in reg
              && s.rows[i].clicks == multiset(Map(joined, LinkOf))[s.rows[i].url] >= 1
              && s.rows[i].name == DisplayName(reg[s.rows[i].url].name, s.rows[i].url)
              && s.rows[i].affiliate == DashboardAffiliate(reg[s.rows[i].url].originalUrl)
              && st.countries != [] && st.sources != []
              && s.rows[i].topCountry == st.countries[FirstMaxIndex(st.countries)].key
              && s.rows[i].topSource == st.sources[FirstMaxIndex(st.sources)].key
  {
    var reg := RegistryOf(links);
    var joined := Joined(clicks, reg);
    var table := LinkStatsOf(joined, reg);
    var s := DashboardOf(clicks, links);
    var ranked := Ranked(table);
    RankedIn(table);
    RankedReady(joined, reg);
    forall i | 0 <= i < |s.rows|
      ensures var st := StatOf(joined, s.rows[i].url, reg);
              && s.rows[i].url in reg
              && s.rows[i].clicks == multiset(Map(joined, LinkOf))[s.rows[i].url] >= 1
              && s.rows[i].name == DisplayName(reg[s.rows[i].url].name, s.rows[i].url)
              && s.rows[i].affiliate == DashboardAffiliate(reg[s.rows[i].url].originalUrl)
              && st.countries != [] && st.sources != []
              && s.rows[i].topCountry == st.countries[FirstMaxIndex(st.countries)].key
              && s.rows[i].topSource == st.sources[FirstMaxIndex(st.sources)].key
    {
      var e := ranked[i];
      assert s.rows[i] == RowOf(e, reg);
      var k :| 0 <= k < |table| && table[k] == e;
      EntryFacts(joined, reg, k);
      JoinedEntry(joined, reg, k);
      MostFrequentIsFirstMax(e.stat.countries);
      MostFrequentIsFirstMax(e.stat.sources);
    }
  }

  /** Clicks on unregistered links never reach the join, wherever they
      appear in the log, so they change nothing on the dashboard. */
  lemma UnmatchedClicksIgnored(before: seq<Click>, extra: seq<Click>, after: seq<Click>, links: seq<Link>)
    requires forall i :: 0 <= i < |extra| ==> extra[i].shortLink !in RegistryOf(links)
    ensures DashboardOf(before + extra + after, links) == DashboardOf(before + after, links)
  {
    JoinSkips(before, extra, after, RegistryOf(links));
  }

  lemma JoinSkips(before: seq<Click>, extra: seq<Click>, after: seq<Click>, reg: Registry)
    requires forall i :: 0 <= i < |extra| ==> extra[i].shortLink !in reg
    ensures Joined(before + extra + after, reg) == Joined(before + after, reg)
  {
    FilterAppend(before + extra, after, HasEntry(reg));
    FilterAppend(before, extra, HasEntry(reg));
    FilterAppend(before, after, HasEntry(reg));
    FilterNone(extra, HasEntry(reg));
    assert Filter(before, HasEntry(reg)) + [] == Filter(before, HasEntry(reg));
  }

  /** The page's state: the two loaded tables and what `showData` last drew.
      Either table may arrive first; each arrival redraws when there are clicks. */
  class DashboardPage {
    /** `clickstreamData`. */
    var clickstream: seq<Click>
    /** `shortlinksData`. */
    var shortlinks: seq<Link>
    /** The dashboard on screen, if `showData` has run. */
    var shown: Option<Summary>

    constructor()
      ensures clickstream == [] && shortlinks == [] && shown == None
    {
      clickstream := [];
      shortlinks := [];
      shown := None;
    }

    /** The click log arrived: keep the rows with a link, draw if there are any. */
    method ClickstreamLoaded(rows: seq<Click>)
      modifies this
      ensures clickstream == LoadClicks(rows) && shortlinks == old(shortlinks)
      ensures shown == if clickstream != [] then Some(DashboardOf(clickstream, shortlinks)) else old(shown)
    {
      clickstream := LoadClicks(rows);
      if |clickstream| > 0 {
        var s := ShowData(clickstream, shortlinks);
        shown := Some(s);
      }
    }

    /** The registry arrived: keep the rows with a `short_url`, redraw if there
        are clicks. */
    method ShortlinksLoaded(rows: seq<Link>)
      modifies this
      ensures shortlinks == LoadLinks(rows) && clickstream == old(clickstream)
      ensures shown == if clickstream != [] then Some(DashboardOf(clickstream, shortlinks)) else old(shown)
    {
      shortlinks := LoadLinks(rows);
      if |clickstream| > 0 {
        var s := ShowData(clickstream, shortlinks);
        shown := Some(s);
      }
    }
  }
}

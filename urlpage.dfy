/** The state of the per-link page (docs/by-url.js): the loaded tables, the
    selected link, the page cursor of the click table, and what the detail
    panel currently shows. Handlers that the page attaches to its cards and
    buttons are the methods of `UrlPage`. */
module UrlPage {
  import opened Seqs
  import opened Sorting
  import opened Clock
  import opened Rows
  import opened ByUrl
  import opened Pagination

  class UrlPage {
    /** `clickstreamData`. */
    var clickstream: seq<Click>
    /** `shortlinksData`. */
    var shortlinks: seq<Link>
    /** `selectedUrl`; `None` is `null`. */
    var selectedUrl: Option<string>
    /** `currentPage`. */
    var currentPage: int
    /** The rows of `#clicks-table` on screen. */
    var tableRows: seq<Click>
    /** The page count the strip on screen was drawn for. */
    var totalPages: nat
    /** The buttons of `#pagination` on screen. */
    var controls: seq<Control>

    /** The cursor is a page number and the strip on screen is the one drawn
        for it, with a table page of at most ten rows. */
    ghost predicate Valid()
      reads this
    {
      && currentPage >= 1
      && controls == Controls(totalPages, currentPage)
      && |tableRows| <= CLICKS_PER_PAGE
    }

    /** The page before its tables arrive. */
    constructor()
      ensures Valid()
      ensures clickstream == [] && shortlinks == [] && selectedUrl == None
      ensures currentPage == 1 && tableRows == [] && controls == []
    {
      clickstream := [];
      shortlinks := [];
      selectedUrl := None;
      currentPage := 1;
      tableRows := [];
      totalPages := 0;
      controls := [];
    }

    /** Both tables parsed: the rows without their key column are dropped. */
    method Load(clickRows: seq<Click>, linkRows: seq<Link>)
      requires Valid()
      modifies this
      ensures Valid()
      ensures clickstream == LoadClicks(clickRows) && shortlinks == LoadLinks(linkRows)
      ensures selectedUrl == old(selectedUrl) && currentPage == old(currentPage)
      ensures tableRows == old(tableRows) && controls == old(controls) && totalPages == old(totalPages)
    {
      clickstream := LoadClicks(clickRows);
      shortlinks := LoadLinks(linkRows);
    }

    /** `renderUrlCards()`: one `getUrlStats` per filtered link, then the sort. */
    method RenderUrlCards(search: string, sortBy: string, filterType: string, timeFilter: string,
                          now: int, collate: string -> int) returns (cards: seq<Card>)
      ensures cards == ByUrl.RenderUrlCards(shortlinks, clickstream, search, sortBy, filterType, timeFilter, now, collate)
    {
      var links := FilterLinks(shortlinks, search, filterType);
      var annotated: seq<Card> := [];
      var i := 0;
      while i < |links|
        invariant 0 <= i <= |links|
        invariant annotated == Map(links[..i], WithStats(clickstream, timeFilter, now))
      {
        var stats := GetUrlStats(clickstream, links[i].shortUrl, timeFilter, now);
        MapSnoc(links, i, WithStats(clickstream, timeFilter, now));
        annotated := annotated + [Card(links[i], stats)];
        i := i + 1;
      }
      assert links[..|links|] == links;
      cards := SortBy(annotated, CardKey(sortBy, collate));
    }

    /** The clicks the Previous, Next and numbered buttons reload: those of the
        selected link in the window (none when no link is selected). */
    function SelectedClicks(timeFilter: string, now: int): seq<Click>
      reads this
    {
      match selectedUrl
      case None => []
      case Some(url) => ClicksFor(clickstream, url, timeFilter, now)
    }

    /** `updateClicksTable(clicks)`: the cursor's page of the most-recent-first
        order, and the strip for the new page count. */
    method UpdateClicksTable(clicks: seq<Click>)
      requires currentPage >= 1
      modifies this
      ensures Valid()
      ensures tableRows == PageOf(SortRecentFirst(clicks), currentPage)
      ensures totalPages == TotalPages(|clicks|)
      ensures controls == Controls(TotalPages(|clicks|), currentPage)
      ensures currentPage == old(currentPage) && selectedUrl == old(selectedUrl)
      ensures clickstream == old(clickstream) && shortlinks == old(shortlinks)
    {
      var sorted := SortRecentFirst(clicks);
      SortRecentFirstFacts(clicks);
      assert |sorted| == |multiset(sorted)| == |multiset(clicks)| == |clicks|;
      tableRows := PageOf(sorted, currentPage);
      totalPages := TotalPages(|sorted|);
      controls := UpdatePagination(|sorted|, currentPage);
    }

    /** `showUrlDetail(link)`: select the link, go back to page 1, and fill the
        panel from the link's clicks in the window. */
    method ShowUrlDetail(link: Link, timeFilter: string, now: int) returns (detail: DetailStats, charts: Charts)
      requires Valid()
      modifies this
      ensures Valid()
      ensures selectedUrl == Some(link.shortUrl) && currentPage == 1
      ensures detail == DetailStatsOf(ClicksFor(clickstream, link.shortUrl, timeFilter, now), link)
      ensures charts == ChartsOf(ClicksFor(clickstream, link.shortUrl, timeFilter, now))
      ensures tableRows == PageOf(SortRecentFirst(ClicksFor(clickstream, link.shortUrl, timeFilter, now)), 1)
      ensures totalPages == TotalPages(|ClicksFor(clickstream, link.shortUrl, timeFilter, now)|)
      ensures controls == Controls(totalPages, 1)
      ensures clickstream == old(clickstream) && shortlinks == old(shortlinks)
    {
      selectedUrl := Some(link.shortUrl);
      currentPage := 1;
      var clicks := ClicksFor(clickstream, link.shortUrl, timeFilter, now);
      detail := DetailStatsOf(clicks, link);
      charts := UpdateDetailCharts(clicks);
      UpdateClicksTable(clicks);
    }

    /** `closeDetail()`: deselect; the cursor and the hidden table stay. */
    method CloseDetail()
      requires Valid()
      modifies this
      ensures Valid()
      ensures selectedUrl == None
      ensures currentPage == old(currentPage) && tableRows == old(tableRows) && controls == old(controls)
      ensures totalPages == old(totalPages)
      ensures clickstream == old(clickstream) && shortlinks == old(shortlinks)
    {
      selectedUrl := None;
    }

    /** A click on one of the strip's buttons: move the cursor (`currentPage--`,
        `currentPage = i`, `currentPage++`) and reload the selected link's
        clicks. The cursor stays a page number, and stays within the pages the
        strip was drawn for when it was within them. */
    method Press(c: Control, timeFilter: string, now: int)
      requires Valid() && c in controls
      modifies this
      ensures Valid()
      ensures currentPage == Target(old(currentPage), c)
      ensures old(currentPage) <= old(totalPages) ==> 1 <= currentPage <= old(totalPages)
      ensures tableRows == PageOf(SortRecentFirst(SelectedClicks(timeFilter, now)), currentPage)
      ensures totalPages == TotalPages(|SelectedClicks(timeFilter, now)|)
      ensures controls == Controls(totalPages, currentPage)
      ensures selectedUrl == old(selectedUrl)
      ensures clickstream == old(clickstream) && shortlinks == old(shortlinks)
    {
      ControlsFacts(totalPages, currentPage);
      if currentPage <= totalPages {
        PressStaysInRange(totalPages, currentPage, c);
      }
      currentPage := Target(currentPage, c);
      UpdateClicksTable(SelectedClicks(timeFilter, now));
    }
  }
}

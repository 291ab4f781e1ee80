/** The two CSV tables as the pages hold them after parsing: the click log
    (`data/clickstream.csv`) and the registry of short links
    (`data/shortlinks.csv`). A cell that is missing or empty is the empty
    string: every `||` fallback in the pages treats the two alike. */
module Rows {
  import opened Seqs

  /** One row of the click log. */
  datatype Click = Click(
    shortLink: string,  // `Short link`
    date: string,       // `Date`, M/D/YYYY
    time: string,       // `Time`, h:mm:ss AM|PM
    country: string,    // `Country`
    city: string,       // `City`
    browser: string,    // `Browser`
    medium: string,     // `UTM medium`
    referrer: string,   // `Referrer`
    ip: string,         // `IP`
    isHuman: string     // `Is human`
  )

  /** One row of the short-link registry. */
  datatype Link = Link(
    shortUrl: string,     // `short_url`
    name: string,         // `name`
    originalUrl: string   // `original_url`
  )

  /** `v || fallback` on a cell value. */
  function OrElse(v: string, fallback: string): (r: string)
    ensures r == v || r == fallback
    ensures r == "" <==> v == "" && fallback == ""
  {
    if v == "" then fallback else v
  }

  function CountryLabel(c: Click): string { OrElse(c.country, "Unknown") }
  function CityLabel(c: Click): string { OrElse(c.city, "Unknown") }
  function BrowserLabel(c: Click): string { OrElse(c.browser, "Unknown") }
  /** The source label of the per-link page. */
  function MediumLabel(c: Click): string { OrElse(c.medium, "Direct/Unknown") }
  /** The source label of the dashboard. */
  function DashboardSource(c: Click): string { OrElse(c.medium, "Direct") }
  function LinkOf(c: Click): string { c.shortLink }
  function DateOf(c: Click): string { c.date }
  function IpOf(c: Click): string { c.ip }

  /** The rows kept after parsing the click log: those with a `Short link`.
      They are the parsed rows in their order, less exactly the rows without one. */
  function LoadClicks(rows: seq<Click>): (r: seq<Click>)
    ensures IsSubsequence(r, rows)
    ensures forall i :: 0 <= i < |r| ==> r[i].shortLink != ""
    ensures forall i :: 0 <= i < |rows| && rows[i].shortLink != "" ==> rows[i] in r
    ensures forall x :: multiset(r)[x] == if x.shortLink != "" then multiset(rows)[x] else 0
  {
    var complete := (c: Click) => c.shortLink != "";
    FilterCounts(rows, complete);
    Filter(rows, complete)
  }

  /** The rows kept after parsing the registry: those with a `short_url`. */
  function LoadLinks(rows: seq<Link>): (r: seq<Link>)
    ensures IsSubsequence(r, rows)
    ensures forall i :: 0 <= i < |r| ==> r[i].shortUrl != ""
    ensures forall i :: 0 <= i < |rows| && rows[i].shortUrl != "" ==> rows[i] in r
    ensures forall x :: multiset(r)[x] == if x.shortUrl != "" then multiset(rows)[x] else 0
  {
    var complete := (l: Link) => l.shortUrl != "";
    FilterCounts(rows, complete);
    Filter(rows, complete)
  }

  /** Loading a table that has no incomplete row keeps it whole, so loading is
      idempotent. */
  lemma LoadKeepsComplete(clicks: seq<Click>, links: seq<Link>)
    ensures LoadClicks(LoadClicks(clicks)) == LoadClicks(clicks)
    ensures LoadLinks(LoadLinks(links)) == LoadLinks(links)
  {
    FilterAll(LoadClicks(clicks), (c: Click) => c.shortLink != "");
    FilterAll(LoadLinks(links), (l: Link) => l.shortUrl != "");
  }
}

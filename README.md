# Short-link analytics, modelled in Dafny

This project models two browser pages of a short-link analytics site. Both
pages read a click log (`data/clickstream.csv`) and a registry of short links
(`data/shortlinks.csv`).

- **The per-link page** (`docs/by-url.js`):
  - a grid of link cards, filtered by a search term and an affiliate type and
    sorted by clicks, name or most recent click;
  - per-link statistics over a trailing time window (`getUrlStats`);
  - a detail panel with figures, four charts and a paged, most-recent-first
    click table driven by the `currentPage` cursor.
- **The dashboard** (`docs/analytics.js`, `showData`):
  - a registry map in which the last row wins;
  - the join of clicks to registered links;
  - per-link counters;
  - the twenty most-clicked links, each with its display name, top country,
    top source and affiliate badge;
  - the totals.

Modules:

| module | what it holds |
|---|---|
| Seqs | filter, map and slice on sequences |
| Sorting | the stable sort that `Array.prototype.sort` performs |
| Tally | counter objects built with `c[k] = (c[k] \|\| 0) + 1`, read back through `Object.entries` |
| Text | `includes`, `split`, `toLowerCase`, `Number` and `parseInt` |
| Clock | `parseDate` and the `Date` constructor's ECMAScript arithmetic |
| Rows | the two CSV tables |
| Affiliate | the two affiliate tests |
| ByUrl | the per-link page's pure computations |
| Pagination | the click table's paging |
| UrlPage | the per-link page's state, as a class whose methods are the page's handlers |
| Dashboard | `showData` and the dashboard page's load handlers |

Each loop of the source is a method proved equal to a specification function. The properties are proved as lemmas about those functions:

- **Parsing:** what the log's date format writes, `parseDate` reads back.
- **Counters:** they hold occurrence counts.
- **Sorting:** every sort is a stable permutation in the promised order.
- **Paging:** the pages cover the sorted clicks exactly once.
- **The strip of page buttons:** it keeps the cursor inside the pages.
- **The dashboard:**
  - its rows report the most-clicked registered links;
  - the registry name, or the URL's last segment, is the display name;
  - the first key of largest count is each row's top country and top source.

## Model

| member | source | states |
|---|---|---|
| Affiliate.IsAffiliate | docs/by-url.js:57-70 | a URL is affiliate exactly when it is non-empty and contains one of the eight markers |
| Affiliate.DashboardAffiliate | docs/analytics.js:94-103 | the dashboard's affiliate test holds exactly when one of its five markers occurs in the target URL |
| Affiliate.DashboardImpliesAffiliate | docs/analytics.js:124-128 | every link the dashboard badges as affiliate is also affiliate on the per-link page |
| Affiliate.DashboardMissesIrgwc | docs/analytics.js:124-128 | the converse fails: an `irgwc=` link is affiliate on the per-link page but regular on the dashboard |
| Text.LastSegmentFacts | docs/analytics.js:114 | `url.split('/').pop()` has no slash and is the suffix of the URL after its last slash |
| Text.ShowReadsBack | docs/by-url.js:77 | a printed natural number reads back unchanged through both `Number` and `parseInt` |
| Clock.ParseDate | docs/by-url.js:72-82 | `parseDate`: a valid result lies within the `Date` range of ±8.64e15 ms, and a date without a `/` gives an Invalid Date |
| Clock.HourRoundTrip | docs/by-url.js:77-79 | the 12-hour AM/PM rule is a bijection between clock-face hours with a period and the hours 0..23 |
| Clock.WallClockOrder | docs/by-url.js:81 | for valid dates, the field order (year, then month, down to second) is exactly the order of the constructed time values |
| Clock.ParseFormatted | docs/by-url.js:72-82 | parsing a date and time written in the log's `M/D/YYYY` and `h:mm:ss AM/PM` format gives the moment they name |
| Rows.LoadClicks | docs/by-url.js:28 | the loaded click log is the parsed rows in order, less exactly the rows without a short link; each row with a short link is kept as many times as it occurs |
| Rows.LoadLinks | docs/analytics.js:35 | the loaded registry is the parsed rows in order, less exactly the rows without a `short_url`; each row with one is kept as many times as it occurs |
| Rows.LoadKeepsComplete | docs/by-url.js:28-35 | loading is idempotent: a table with no incomplete row is kept whole |
| Sorting.SortByFacts | docs/by-url.js:157-174 | the comparator sort returns a permutation of its input, sorted by key, and it is stable (each key's elements keep their order) |
| Sorting.SortByConstant | docs/by-url.js:157-174 | a comparator that always answers 0 leaves the order unchanged |
| Sorting.SortedPrefixFacts | docs/by-url.js:414-416 | `sort(...).slice(0, limit)` keeps at most `limit` input elements, in sorted order, and each key's elements form a prefix of that key's elements in the input; no element left out sorts before a kept one |
| Tally.Counts | docs/by-url.js:112-114 | the counter that the `forEach` leaves: its counts add up to the number of values counted |
| Tally.BumpFacts | docs/by-url.js:113 | `c[k] = (c[k] \|\| 0) + 1` adds one to key k and to no other key, appends k if it is new, and keeps keys unique |
| Tally.CountsFacts | docs/by-url.js:112-114 | the counting loop yields one entry per distinct value, in order of first occurrence, each count the value's occurrences, the counts summing to the input length |
| Tally.DistinctFacts | docs/by-url.js:106-107 | `new Set(xs)` holds exactly the elements of xs, each once, so its size is at most \|xs\| and at least 1 when xs is non-empty |
| Tally.MostFrequentIsFirstMax | docs/analytics.js:116-119 | the first key after sorting by descending count is the first key of largest count |
| Tally.TopFacts | docs/by-url.js:414-416 | the top-n series has at most n entries from the counter, by non-increasing count, ties kept in insertion order; an entry left out has a count no larger than any kept one; a counter with unique keys gives a series with unique keys |
| Tally.CountEach | docs/by-url.js:407-411 | the counting loop builds a counter of unique keys whose counts are the occurrence counts and sum to the input length |
| ByUrl.FilterDataByTime | docs/by-url.js:84-94 | `'all'` keeps everything; otherwise the result is exactly the rows, in order, whose moment is valid and not before the cutoff, each kept as many times as it occurs |
| ByUrl.WindowsNest | docs/by-url.js:84-94 | applying a long window and then a shorter one equals applying the shorter one alone |
| ByUrl.ClicksFor | docs/by-url.js:97-102 | a link's clicks are clicks of the log, all for that link, and with `'all'` they are every click for it |
| ByUrl.LatestFacts | docs/by-url.js:116-119 | corrected: no latest click without clicks; otherwise it is the largest valid moment, and Invalid Date only when no click date parses |
| ByUrl.LatestAsWrittenSticks | docs/by-url.js:116-119 | as written: once the first click's date is invalid, `lastClick` stays Invalid Date |
| ByUrl.LatestAsWrittenAgrees | docs/by-url.js:116-119 | when the first click's date parses, the scan as written and the corrected scan agree |
| ByUrl.LatestAsWrittenMissesValidClick | docs/by-url.js:116-119 | an empty first date followed by a well-formed second click: as written gives Invalid Date, corrected gives the second click's moment |
| ByUrl.UrlStatsOf | docs/by-url.js:96-126 | a link's statistics: its distinct countries and browsers never outnumber its clicks; its source counts add up to its clicks; `lastClick` is absent exactly when it has no clicks, and then the top source is `'N/A'` |
| ByUrl.GetUrlStats | docs/by-url.js:96-126 | the one pass over the link's windowed clicks computes the link's statistics |
| ByUrl.UrlStatsFacts | docs/by-url.js:104-126 | totals equal the clicks in the window; source counts are occurrence counts that sum to the total; the top source is the first source of largest count; distinct country and browser counts are at most the total and at least 1 when there are clicks; `lastClick` is absent exactly when there are no clicks, is otherwise the moment of one of the clicks with no valid click later, and is an Invalid Date only when no click's date parses |
| ByUrl.TopSourceFacts | docs/by-url.js:122-123 | the top source is `'N/A'` for a link with no clicks, and otherwise the first source of largest count |
| ByUrl.FilterLinks | docs/by-url.js:135-148 | the cards shown are exactly the registry rows, in order, that match the lower-cased search in name or short URL and match the affiliate type, each kept as many times as it occurs |
| ByUrl.UnknownTypeKeepsNothing | docs/by-url.js:141-147 | a filter type other than all, affiliate and non-affiliate keeps no card |
| ByUrl.SearchIgnoresCase | docs/by-url.js:136-140 | the search does not depend on the letter case of the term |
| ByUrl.NoFilterKeepsAll | docs/by-url.js:135-148 | an empty search with type `all` shows every registry row |
| ByUrl.TypesPartition | docs/by-url.js:141-147 | the affiliate and non-affiliate grids split the `all` grid |
| ByUrl.SortCardsFacts | docs/by-url.js:157-174 | the card sort is a stable permutation, ordered as each of the five `sort` values says, and an unknown value keeps registry order |
| ByUrl.RecentPutsUnclickedLast | docs/by-url.js:168-170 | sorted by `recent`, a link without clicks comes after every link clicked after 1970 |
| ByUrl.DetailStatsOf | docs/by-url.js:282-291 | human and bot clicks split the total; the distinct IP, country and city counts lie between 1 and the total; the badge is `isAffiliate` of the target |
| ByUrl.HumanBotSplit | docs/by-url.js:285-286 | every click is human or bot, never both |
| ByUrl.ChartsOf | docs/by-url.js:333-473 | the four chart series: at most ten sources and ten countries; the dates' counts and the browsers' counts each add up to the number of clicks; no timeline without clicks |
| ByUrl.UpdateDetailCharts | docs/by-url.js:333-345 | the four counting loops compute the four chart series |
| ByUrl.SeriesFacts | docs/by-url.js:414-416 | a top-n series has min(n, distinct labels) entries, each label once, largest first, each count the label's occurrences and at least 1, and a label left out occurs no more often than any label kept |
| ByUrl.ChartsFacts | docs/by-url.js:403-473 | the source and country charts are the ten most frequent labels (fewer when there are fewer), each once, with their occurrence counts, largest first |
| ByUrl.ChartsOrderFacts | docs/by-url.js:347-364 | the browser chart has each browser of the clicks exactly once, with its count, largest first; the timeline has each date of the clicks exactly once with its click count, parsable dates in increasing order |
| ByUrl.SortRecentFirstFacts | docs/by-url.js:574-578 | the clicks table is a permutation of the clicks with later moments first and unparsable dates after all parsable ones |
| Pagination.TotalPages | docs/by-url.js:606 | `Math.ceil(n / 10)`: the fewest ten-click pages that hold every click, and zero exactly when there are no clicks |
| Pagination.PageOf | docs/by-url.js:581-583 | a page has at most ten rows, those at the page's positions, and it is empty exactly past the last page; up to the last page it has ten rows, or the remaining rows on the last page |
| Pagination.PagesCover | docs/by-url.js:581-583 | pages 1, 2, ... read in turn give back the whole sorted table, each click once |
| Pagination.Controls | docs/by-url.js:605-662 | the control strip: none for at most one page, and otherwise at most five numbered buttons plus Previous and Next |
| Pagination.UpdatePagination | docs/by-url.js:605-662 | the control strip built for a click count and cursor |
| Pagination.AppendPageButtons | docs/by-url.js:630-645 | the loop appends buttons 1..last, marking the cursor's button active |
| Pagination.ControlsFacts | docs/by-url.js:610-662 | no strip for one page; Previous exactly when the cursor is past page 1; Next exactly when it is before the last page; at most five numbered buttons, only the cursor's active |
| Pagination.PressStaysInRange | docs/by-url.js:617-660 | pressing any button of the strip keeps a cursor that was inside the pages inside them |
| Pagination.TwentyThreeClicks | docs/by-url.js:605-662 | 23 clicks make pages of 10, 10 and 3, and page 1's strip reads 1 (active), 2, 3, Next |
| UrlPage.UrlPage.constructor | docs/by-url.js:1-6 | the page starts with empty tables, no selection, page 1 and no strip |
| UrlPage.UrlPage.Load | docs/by-url.js:28-35 | loading keeps the rows that have their key column and changes nothing else |
| UrlPage.UrlPage.RenderUrlCards | docs/by-url.js:128-188 | the cards are the filtered registry rows, each with its statistics, in the order the `sort` select asks |
| UrlPage.UrlPage.UpdateClicksTable | docs/by-url.js:572-603 | the table shows the cursor's page of the most-recent-first clicks, and the strip is the one for the new page count |
| UrlPage.UrlPage.ShowUrlDetail | docs/by-url.js:231-272 | opening a link selects it, returns to page 1, fills figures, charts and table from that link's windowed clicks, and sets the page count and strip for those clicks |
| UrlPage.UrlPage.CloseDetail | docs/by-url.js:274-280 | closing deselects and leaves the cursor, the page count and the table as they were |
| UrlPage.UrlPage.Press | docs/by-url.js:613-662 | a button moves the cursor to its target, keeps it inside the pages, the table shows that page of the selected link's clicks, and the page count and strip are redrawn for them |
| Dashboard.RegistryOf | docs/analytics.js:51-54 | `shortlinkMap`: every row's `short_url` is a key, and each key maps to a row with that `short_url` |
| Dashboard.RegistryLastWins | docs/analytics.js:51-54 | a short URL is in the map exactly when some registry row has it, and it maps to the last such row |
| Dashboard.BuildShortlinkMap | docs/analytics.js:51-54 | the `forEach` builds that last-write-wins map |
| Dashboard.Joined | docs/analytics.js:57-59 | the joined clicks are exactly the clicks, in log order, whose link is in the registry, each kept as many times as it occurs |
| Dashboard.LinkStatsOf | docs/analytics.js:64-82 | `linkStats` after the loop: no more entries than clicks, and at least one when there is a click |
| Dashboard.LinkStatsUrls | docs/analytics.js:64-82 | `linkStats` has one entry per distinct joined link, in order of first click |
| Dashboard.LinkStatsValues | docs/analytics.js:64-82 | each entry equals its reference value: the link's clicks counted, its countries and sources tallied, its registry name |
| Dashboard.LinkStatsFacts | docs/analytics.js:64-82 | each entry's click count is the link's occurrences (at least 1); its country and source counts sum to that count; its name is the registry name; all counts sum to the joined clicks |
| Dashboard.ProjectIsCounts | docs/analytics.js:64-75 | reduced to link and click count, `linkStats` is the counter of the joined links |
| Dashboard.FilterCount | docs/analytics.js:75 | the clicks counted for a link are exactly its occurrences in the joined clicks |
| Dashboard.AccumulateLinkStats | docs/analytics.js:65-82 | the accumulation loop builds `linkStats` |
| Dashboard.Ranked | docs/analytics.js:85-87 | `sorted`: at most twenty entries, all from `linkStats`, and at least one when `linkStats` has one |
| Dashboard.RankedFacts | docs/analytics.js:85-87 | the table holds min(links, 20) entries of `linkStats` by non-increasing clicks, ties in first-click order; an entry left out has no more clicks than any ranked one; one entry per link stays one row per link |
| Dashboard.RankedLeader | docs/analytics.js:85-87 | a link with strictly more clicks than every other heads the table |
| Dashboard.DisplayName | docs/analytics.js:114 | a row shows the registry name, or, when that is empty, the URL's text after its last slash |
| Dashboard.RowOf | docs/analytics.js:112-119 | a row's top country and top source are the first keys of largest count, and a non-empty registry name is its display name |
| Dashboard.RankedReady | docs/analytics.js:116-119 | every ranked entry has a country and a source, so `[0][0]` is always defined |
| Dashboard.DashboardOf | docs/analytics.js:47-103 | the dashboard's figures: affiliate clicks at most the total, which is at most the log's length; unique links at most the total; at most twenty rows, and at least one when any click is joined |
| Dashboard.ShowData | docs/analytics.js:47-148 | `showData` computes the dashboard from the two loaded tables |
| Dashboard.DashboardTotals | docs/analytics.js:90-103 | total clicks are the joined clicks; unique links are their distinct links; affiliate clicks never exceed the total; the table has min(unique links, 20) rows by non-increasing clicks |
| Dashboard.DashboardTopLinks | docs/analytics.js:85-87 | the rows show the most-clicked links: a clicked registered link without a row has no more clicks than any row shows |
| Dashboard.DashboardRows | docs/analytics.js:112-141 | each row is a registered link with its click count (at least 1), its display name, its dashboard affiliate badge, and the first country and first source of largest count among its clicks |
| Dashboard.UnmatchedClicksIgnored | docs/analytics.js:57-59 | inserting clicks on unregistered links anywhere in the log leaves the dashboard unchanged |
| Dashboard.DashboardPage.constructor | docs/analytics.js:1-2 | the dashboard starts with empty tables and nothing drawn |
| Dashboard.DashboardPage.ClickstreamLoaded | docs/analytics.js:16-22 | loading the log keeps the rows with a link and redraws exactly when any remain |
| Dashboard.DashboardPage.ShortlinksLoaded | docs/analytics.js:35-40 | loading the registry keeps the rows with a `short_url` and redraws exactly when clicks are loaded |

## Left out

- Fetching the CSV files, `Papa.parse` and error logging are left out. The loaded rows are parameters.
- Rows are records with one string per column. A cell that is missing or empty is `""`. The `||` fallbacks treat the two alike, but four uses do not:
  - `parseDate` calls `dateStr.split('/')` and `timeStr.split(' ')` (docs/by-url.js:73-74), which throw on an undefined `Date` or `Time` cell. It is reached from `filterDataByTime` (docs/by-url.js:91), from `getUrlStats` for every click of every card (docs/by-url.js:116) and from the clicks-table comparator (docs/by-url.js:575-576), so such a row stops the whole card grid from rendering. The model parses `""` to an Invalid Date and goes on.
  - `link.name.toLowerCase()` (docs/by-url.js:138) and `localeCompare` (docs/by-url.js:164) throw on an undefined name.
  - `new Set(clicks.map(c => c.IP))` (docs/by-url.js:289) counts an undefined IP apart from an empty one.
  
  The model gives `""` in all four.
- Chart.js charts and the DOM are left out: card and row markup, `createUrlCard`, scrolling, CSS classes and the empty-table message (docs/analytics.js:143-145). The model stops at the values they display.
- The human rate (docs/by-url.js:286) and the conversion rate (docs/analytics.js:105-106) are floating-point percentages and are not modelled.
- `new Date()` is the parameter `now`. The local time zone is taken as UTC, so the DST and offset behaviour of the `Date` constructor is not modelled.
- `parseInt` is the value of the leading decimal digits, as in JS, so `"12.5"` reads as 12 and `"1e3"` as 1. It differs from JS where the text starts with something else: a sign or leading whitespace gives NaN, where JS skips the whitespace and applies the sign, and a `0x` prefix gives 0, where JS reads a hexadecimal number.
- `Number` accepts only digit strings, `""` and `undefined`. Signs, surrounding whitespace, decimals, exponents and `0x`/`0o`/`0b` prefixes give NaN, where JS reads them as numbers.
- `toLowerCase` folds ASCII letters only.
- `localeCompare` is the parameter `collate`, which maps a name to its rank.
- `Object.entries` lists keys in insertion order. JS lists integer-like keys first, and inherited keys such as `__proto__` behave differently. Neither is modelled.
- The comparators of the clicks table (docs/by-url.js:574-578) and the timeline (docs/by-url.js:358-362) return NaN for an unparsable date, which makes the JS sort order depend on the engine. The model puts those dates after all parsable ones.
- ByUrl.GetUrlStats: `lastClick` is the corrected scan (see Findings), the latest valid click moment. For a link whose first click's date does not parse, the source keeps an Invalid Date instead; `ByUrl.LatestAsWrittenSticks` models that scan.
- UrlPage.UrlPage.RenderUrlCards: the cards carry the corrected `lastClick`, so under the `recent` sort a link whose first click's date does not parse sorts by its latest valid click. The source sorts it as 0, with the links never clicked.
- ByUrl.UrlStatsFacts: `'N/A'` as top source is tied to "no clicks" in one direction only, because a click's `UTM medium` may itself be the text `N/A`.
- UrlPage.UrlPage.Press: keeps the cursor in range only when it was in range when the strip was drawn. A time-filter change re-renders the cards but not the open table, so the page count behind the strip can go stale.
- Dashboard.RowOf requires an entry with a country and a source. The source indexes `[0][0]` and would throw otherwise; `Dashboard.RankedReady` proves this never happens.
- The dashboard's `time-filter`, `medium-filter` and `affiliate-filter` listeners (docs/analytics.js:151-158) re-run `showData`, which ignores the filters. They are the same computation and are not modelled separately.
- An undefined `original_url` column, on which `originalUrl.includes` (docs/analytics.js:123) would throw, is not modelled: an absent cell is `""`.
- docs/navigation.js and navigation.js are not part of this model.

## Findings

| source | as written | input that shows it | evidently intended | confidence | as-written member | corrected member |
|---|---|---|---|---|---|---|
| docs/by-url.js:116-119 | `if (!stats.lastClick \|\| clickDate > stats.lastClick)` keeps the first click's date even when it is an Invalid Date. An Invalid Date is truthy and loses every comparison, so `lastClick` stays invalid. | A link whose first click has an empty `Date`, followed by a click on 1/5/2024 at 11:30:00 PM | `lastClick` is the latest valid click moment | not executed | `ByUrl.LatestAsWrittenMissesValidClick` | `ByUrl.LatestFacts` |

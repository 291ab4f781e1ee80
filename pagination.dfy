/** Paging of the detail panel's click table (docs/by-url.js): ten clicks per
    page, a strip of controls with a Previous button, at most five numbered
    buttons and a Next button, and the page cursor they move. */
module Pagination {
  import opened Seqs

  /** `clicksPerPage`. */
  const CLICKS_PER_PAGE: nat := 10
  /** The number of numbered buttons never exceeds this. */
  const MAX_PAGE_BUTTONS: nat := 5

  /** `Math.ceil(totalClicks / clicksPerPage)`: just enough pages to hold
      every click, and no page for no clicks. */
  function TotalPages(n: nat): (pages: nat)
    ensures pages * CLICKS_PER_PAGE >= n
    ensures pages >= 1 ==> (pages - 1) * CLICKS_PER_PAGE < n
    ensures pages == 0 <==> n == 0
  {
    (n + CLICKS_PER_PAGE - 1) / CLICKS_PER_PAGE
  }

  /** `sorted.slice((page - 1) * 10, (page - 1) * 10 + 10)`: at most ten
      rows, the ones at the page's positions, and none past the last page. */
  function PageOf<T>(sorted: seq<T>, page: int): (r: seq<T>)
    requires page >= 1
    ensures |r| <= CLICKS_PER_PAGE
    ensures r == [] <==> page > TotalPages(|sorted|)
    ensures page <= TotalPages(|sorted|) ==>
              |r| == if |sorted| - (page - 1) * CLICKS_PER_PAGE < CLICKS_PER_PAGE
                     then |sorted| - (page - 1) * CLICKS_PER_PAGE else CLICKS_PER_PAGE
    ensures forall j :: 0 <= j < |r| ==>
              (page - 1) * CLICKS_PER_PAGE + j < |sorted| && r[j] == sorted[(page - 1) * CLICKS_PER_PAGE + j]
  {
    Slice(sorted, (page - 1) * CLICKS_PER_PAGE, (page - 1) * CLICKS_PER_PAGE + CLICKS_PER_PAGE)
  }

  /** Pages `page`, `page + 1`, ... up to the last one, one after the other. */
  function PagesFrom<T>(sorted: seq<T>, page: nat): seq<T>
    requires page >= 1
    decreases TotalPages(|sorted|) + 1 - page
  {
    if page > TotalPages(|sorted|) then [] else PageOf(sorted, page) + PagesFrom(sorted, page + 1)
  }

  lemma {:induction false} PagesFromRest<T>(sorted: seq<T>, page: nat)
    requires page >= 1 && (page - 1) * CLICKS_PER_PAGE <= |sorted|
    ensures PagesFrom(sorted, page) == sorted[(page - 1) * CLICKS_PER_PAGE..]
    decreases TotalPages(|sorted|) + 1 - page
  {
    var start := (page - 1) * CLICKS_PER_PAGE;
    if page <= TotalPages(|sorted|) {
      var p := PageOf(sorted, page);
      if start + CLICKS_PER_PAGE <= |sorted| {
        assert p == sorted[start..start + CLICKS_PER_PAGE];
        PagesFromRest(sorted, page + 1);
        assert sorted[start..] == sorted[start..start + CLICKS_PER_PAGE] + sorted[start + CLICKS_PER_PAGE..];
      } else {
        assert p == sorted[start..];
        assert PagesFrom(sorted, page + 1) == [];
      }
    } else {
      assert start == |sorted|;
    }
  }

  /** Read page after page, the table shows every click exactly once, in order. */
  lemma PagesCover<T>(sorted: seq<T>)
    ensures PagesFrom(sorted, 1) == sorted
  {
    PagesFromRest(sorted, 1);
  }

  /** One button of the pagination strip. */
  datatype Control = Prev | PageButton(page: nat, active: bool) | Next

  function Min(a: nat, b: nat): nat
  {
    if a < b then a else b
  }

  /** The numbered buttons 1 to `last`, the current page's one marked active. */
  function PageButtons(last: nat, current: int): seq<Control>
  {
    if last == 0 then [] else PageButtons(last - 1, current) + [PageButton(last, last == current)]
  }

  lemma {:induction false} PageButtonsFacts(last: nat, current: int)
    ensures |PageButtons(last, current)| == last
    ensures forall i :: 0 <= i < last ==> PageButtons(last, current)[i] == PageButton(i + 1, i + 1 == current)
  {
    if last > 0 {
      PageButtonsFacts(last - 1, current);
    }
  }

  /** The strip `updatePagination` builds for a page count and cursor: none
      for a single page, otherwise at most five numbered buttons between an
      optional Previous and an optional Next. */
  function Controls(totalPages: nat, current: int): (r: seq<Control>)
    ensures r == [] <==> totalPages <= 1
    ensures |r| <= MAX_PAGE_BUTTONS + 2
  {
    if totalPages <= 1 then []
    else
      PageButtonsFacts(Min(totalPages, MAX_PAGE_BUTTONS), current);
      (if current > 1 then [Prev] else [])
      + PageButtons(Min(totalPages, MAX_PAGE_BUTTONS), current)
      + (if current < totalPages then [Next] else [])
  }

  /** `updatePagination(totalClicks)` with its `for` loop over the numbered buttons. */
  method UpdatePagination(totalClicks: nat, current: int) returns (controls: seq<Control>)
    ensures controls == Controls(TotalPages(totalClicks), current)
  {
    var totalPages := TotalPages(totalClicks);
    controls := [];
    if totalPages <= 1 {
      return;
    }
    if current > 1 {
      controls := controls + [Prev];
    }
    controls := AppendPageButtons(controls, Min(totalPages, MAX_PAGE_BUTTONS), current);
    if current < totalPages {
      controls := controls + [Next];
    }
  }

  /** The `for` loop that appends the numbered buttons 1 to `last`. */
  method AppendPageButtons(head: seq<Control>, last: nat, current: int) returns (controls: seq<Control>)
    ensures controls == head + PageButtons(last, current)
  {
    controls := head;
    var i := 1;
    while i <= last
      invariant 1 <= i <= last + 1
      invariant controls == head + PageButtons(i - 1, current)
    {
      assert PageButtons(i, current) == PageButtons(i - 1, current) + [PageButton(i, i == current)];
      controls := controls + [PageButton(i, i == current)];
      i := i + 1;
    }
  }

  /** No strip for a single page; otherwise Previous exactly when there is a
      page before the cursor, Next exactly when there is one after it, and
      numbered buttons for the first pages, at most five, the cursor's one
      active. */
  lemma ControlsFacts(totalPages: nat, current: int)
    ensures totalPages <= 1 ==> Controls(totalPages, current) == []
    ensures Prev in Controls(totalPages, current) <==> totalPages > 1 && current > 1
    ensures Next in Controls(totalPages, current) <==> totalPages > 1 && current < totalPages
    ensures forall c :: c in Controls(totalPages, current) && c.PageButton? ==>
              1 <= c.page <= Min(totalPages, MAX_PAGE_BUTTONS) && (c.active <==> c.page == current)
    ensures totalPages > 1 ==>
              |Controls(totalPages, current)|
              == Min(totalPages, MAX_PAGE_BUTTONS) + (if current > 1 then 1 else 0) + (if current < totalPages then 1 else 0)
  {
    var last := Min(totalPages, MAX_PAGE_BUTTONS);
    PageButtonsFacts(last, current);
    var bs := PageButtons(last, current);
    assert Prev !in bs && Next !in bs by {
      forall i | 0 <= i < |bs| ensures bs[i].PageButton? {
      }
    }
  }

  /** The page a control moves the cursor to. */
  function Target(current: int, c: Control): int
  {
    match c
    case Prev => current - 1
    case PageButton(p, _) => p
    case Next => current + 1
  }

  /** Pressing any button of the strip drawn for a cursor within the pages
      keeps the cursor within the pages. */
  lemma PressStaysInRange(totalPages: nat, current: int, c: Control)
    requires 1 <= current <= totalPages
    requires c in Controls(totalPages, current)
    ensures 1 <= Target(current, c) <= totalPages
  {
    ControlsFacts(totalPages, current);
  }

  /** Twenty-three clicks make three pages of 10, 10 and 3 clicks, and on the first of
      them the strip reads 1 (active), 2, 3, Next. */
  lemma TwentyThreeClicks(sorted: seq<int>)
    requires |sorted| == 23
    ensures TotalPages(|sorted|) == 3
    ensures |PageOf(sorted, 1)| == 10 && |PageOf(sorted, 2)| == 10 && |PageOf(sorted, 3)| == 3
    ensures PageOf(sorted, 4) == []
    ensures Controls(3, 1) == [PageButton(1, true), PageButton(2, false), PageButton(3, false), Next]
  {
    PageButtonsFacts(3, 1);
  }
}

/** The pagination bar and the "Showing X to Y of Z jobs" line of the admin
    job list: which page buttons are shown, which is highlighted, where the
    ellipses go, and where Previous and Next lead. */
module Pagination {

  const ItemsPerPage: int := 10
  const MaxVisiblePages: int := 5

  function Max(a: int, b: int): int { if a >= b then a else b }
  function Min(a: int, b: int): int { if a <= b then a else b }

  /** `Math.ceil(total / itemsPerPage)` for the job count the API reports. */
  function TotalPages(total: nat): (t: nat)
    ensures t * ItemsPerPage >= total
    ensures t > 0 ==> (t - 1) * ItemsPerPage < total
    ensures t == 0 <==> total == 0
  {
    (total + ItemsPerPage - 1) / ItemsPerPage
  }

  // ---------------------------------------------------------------------
  // The window of numbered buttons

  /** The first and last numbered button: centred on the current page where
      possible, shifted left near the end, and never before page 1. */
  function Window(current: int, totalPages: int): (w: (int, int))
    ensures totalPages >= 1 ==> 1 <= w.0 <= w.1 <= totalPages
    ensures totalPages >= 1 ==> w.1 - w.0 + 1 == Min(MaxVisiblePages, totalPages)
    ensures 1 <= current <= totalPages ==> w.0 <= current <= w.1
    ensures 3 <= current <= totalPages - 2 ==> w == (current - 2, current + 2)
    ensures totalPages >= MaxVisiblePages && current <= 3 ==> w == (1, MaxVisiblePages)
    ensures totalPages >= MaxVisiblePages && current >= totalPages - 2 ==>
              w == (totalPages - MaxVisiblePages + 1, totalPages)
  {
    var start := Max(1, current - MaxVisiblePages / 2);
    var end := Min(totalPages, start + MaxVisiblePages - 1);
    if end - start + 1 < MaxVisiblePages then (Max(1, end - MaxVisiblePages + 1), end)
    else (start, end)
  }

  // ---------------------------------------------------------------------
  // The bar

  /** A page button (the highlighted one is styled `bg-blue-500`) or an
      ellipsis. */
  datatype PageItem = Button(page: int, highlighted: bool) | Ellipsis

  /** The button to page 1, and an ellipsis when page 2 is hidden too. */
  function Head(start: int): seq<PageItem> {
    if start > 1 then [Button(1, false)] + (if start > 2 then [Ellipsis] else []) else []
  }

  /** The numbered buttons `start..end`, the current page highlighted. */
  function Numbered(start: int, end: int, current: int): (r: seq<PageItem>)
    ensures |r| == Max(0, end - start + 1)
    ensures forall k :: 0 <= k < |r| ==> r[k] == Button(start + k, start + k == current)
  {
    seq(Max(0, end - start + 1), k => Button(start + k, start + k == current))
  }

  /** An ellipsis when the page before the last is hidden too, and the
      button to the last page. */
  function Tail(end: int, totalPages: int): seq<PageItem> {
    if end < totalPages then (if end < totalPages - 1 then [Ellipsis] else []) + [Button(totalPages, false)]
    else []
  }

  /** `renderPagination()` */
  function Render(current: int, totalPages: int): seq<PageItem> {
    var (start, end) := Window(current, totalPages);
    Head(start) + Numbered(start, end, current) + Tail(end, totalPages)
  }

  /** `items` is a bar for pages `lo..hi`: it starts with the button to
      `lo` and ends with the button to `hi`; two buttons in a row are to
      adjacent pages, and an ellipsis stands between two buttons exactly
      where pages are skipped. */
  predicate Covers(items: seq<PageItem>, lo: int, hi: int)
    decreases |items|
  {
    && |items| >= 1
    && items[0].Button? && items[0].page == lo
    && if |items| == 1 then lo == hi
       else if items[1].Button? then items[1].page == lo + 1 && Covers(items[1..], lo + 1, hi)
       else |items| >= 3 && items[2].Button? && items[2].page > lo + 1 && Covers(items[2..], items[2].page, hi)
  }

  lemma {:induction false} NumberedTailCovers(start: int, end: int, current: int, totalPages: int)
    requires start <= end <= totalPages
    ensures Covers(Numbered(start, end, current) + Tail(end, totalPages), start, totalPages)
    decreases end - start
  {
    var items := Numbered(start, end, current) + Tail(end, totalPages);
    if start == end {
      assert items == [Button(end, end == current)] + Tail(end, totalPages);
      if end < totalPages - 1 {
        assert items[2..] == [Button(totalPages, false)];
      } else if end == totalPages - 1 {
        assert items[1..] == [Button(totalPages, false)];
      }
    } else {
      NumberedTailCovers(start + 1, end, current, totalPages);
      assert items[1..] == Numbered(start + 1, end, current) + Tail(end, totalPages);
    }
  }

  /** The bar runs from page 1 to the last page, consecutive buttons being
      adjacent pages and each ellipsis standing for a run of hidden pages:
      every page is either shown or inside an ellipsis. */
  lemma RenderCoversAllPages(current: int, totalPages: int)
    requires totalPages >= 1
    ensures Covers(Render(current, totalPages), 1, totalPages)
  {
    var (start, end) := Window(current, totalPages);
    var rest := Numbered(start, end, current) + Tail(end, totalPages);
    NumberedTailCovers(start, end, current, totalPages);
    var items := Head(start) + rest;
    assert Render(current, totalPages) == items;
    if start == 2 {
      assert items[1..] == rest;
    } else if start > 2 {
      assert items == [Button(1, false), Ellipsis] + rest;
      assert items[1] == Ellipsis && items[2] == rest[0];
      assert items[2..] == rest;
    } else {
      assert items == rest;
    }
  }

  /** In a bar for `lo..hi` the buttons' pages rise strictly from `lo` to
      `hi`. */
  lemma {:induction false} CoversAscending(items: seq<PageItem>, lo: int, hi: int)
    requires Covers(items, lo, hi)
    ensures lo <= hi
    ensures items[|items| - 1].Button? && items[|items| - 1].page == hi
    ensures forall k :: 0 <= k < |items| && items[k].Button? ==> lo <= items[k].page <= hi
    ensures forall k, l :: 0 <= k < l < |items| && items[k].Button? && items[l].Button? ==>
              items[k].page < items[l].page
    decreases |items|
  {
    if |items| > 1 {
      var skip := if items[1].Button? then 1 else 2;
      var rest := items[skip..];
      CoversAscending(rest, items[skip].page, hi);
      forall k | skip <= k < |items|
        ensures items[k] == rest[k - skip]
      {
      }
      forall k, l | 0 <= k < l < |items| && items[k].Button? && items[l].Button?
        ensures items[k].page < items[l].page
      {
        if k == 0 {
          assert l >= skip;
          assert rest[l - skip].page >= items[skip].page > lo;
        } else {
          assert k >= skip;
          assert rest[k - skip].page < rest[l - skip].page;
        }
      }
    }
  }

  /** The page numbers of the bar, read left to right, rise strictly from 1
      to the last page: no page has two buttons. */
  lemma RenderAscending(current: int, totalPages: int)
    requires totalPages >= 1
    ensures var items := Render(current, totalPages);
            && items[0] == Button(1, items[0].highlighted)
            && items[|items| - 1] == Button(totalPages, items[|items| - 1].highlighted)
            && forall k, l :: 0 <= k < l < |items| && items[k].Button? && items[l].Button? ==>
                 items[k].page < items[l].page
  {
    RenderCoversAllPages(current, totalPages);
    CoversAscending(Render(current, totalPages), 1, totalPages);
  }

  /** Only the button to the current page is highlighted, and it is shown
      whenever the current page is a page of the list; the buttons to the
      first and last page are never highlighted. */
  lemma HighlightIsCurrentPage(current: int, totalPages: int)
    requires totalPages >= 1
    ensures var items := Render(current, totalPages);
            && (forall k :: 0 <= k < |items| && items[k].Button? && items[k].highlighted ==>
                  items[k].page == current)
            && (1 <= current <= totalPages ==>
                  exists k :: 0 <= k < |items| && items[k] == Button(current, true))
  {
    var (start, end) := Window(current, totalPages);
    var h := Head(start);
    var m := Numbered(start, end, current);
    var items := Render(current, totalPages);
    assert items == h + m + Tail(end, totalPages);
    if 1 <= current <= totalPages {
      assert items[|h| + (current - start)] == m[current - start];
    }
  }

  /** A separate button to page 1 comes before the window exactly when the
      window starts after page 1, and an ellipsis follows it exactly when the
      window starts after page 2; symmetrically at the end. The first and
      last buttons are highlighted only as numbered buttons of the window. */
  lemma BoundaryItems(current: int, totalPages: int)
    requires totalPages >= 2
    ensures var (start, end) := Window(current, totalPages);
            var items := Render(current, totalPages);
            && |items| >= 2
            && (items[0] != Button(start, start == current) <==> start > 1)
            && (items[|items| - 1] != Button(end, end == current) <==> end < totalPages)
            && (items[1] == Ellipsis <==> start > 2)
            && (items[|items| - 2] == Ellipsis <==> end < totalPages - 1)
            && items[0] == Button(1, start == 1 && current == 1)
            && items[|items| - 1] == Button(totalPages, end == totalPages && current == totalPages)
  {
    var (start, end) := Window(current, totalPages);
    var h := Head(start);
    var m := Numbered(start, end, current);
    var t := Tail(end, totalPages);
    var items := Render(current, totalPages);
    assert items == h + m + t;
    assert |m| >= 2;
    assert items[|h|] == m[0] && items[|h| + 1] == m[1];
    assert items[|h| + |m| - 1] == m[|m| - 1] && items[|h| + |m| - 2] == m[|m| - 2];
    if end < totalPages {
      assert items[|items| - 1] == t[|t| - 1];
      assert items[|items| - 2] == if |t| == 2 then t[0] else m[|m| - 1];
    }
  }

  /** The bar never holds more than nine items: five numbered buttons, the
      two end buttons and two ellipses. */
  lemma RenderIsShort(current: int, totalPages: int)
    ensures |Render(current, totalPages)| <= 9
  {
  }

  // ---------------------------------------------------------------------
  // Previous and Next

  /** The page Previous leads to; it is disabled on page 1. */
  function PreviousTarget(current: int): int {
    Max(1, current - 1)
  }

  function NextTarget(current: int, totalPages: int): int {
    Min(totalPages, current + 1)
  }

  predicate PreviousDisabled(current: int) { current == 1 }
  predicate NextDisabled(current: int, totalPages: int) { current == totalPages }

  /** On a page of the list, Previous and Next are disabled exactly when
      they would not move, and otherwise move by one page and stay within
      the list. */
  lemma PreviousNextStep(current: int, totalPages: int)
    requires 1 <= current <= totalPages
    ensures PreviousDisabled(current) <==> PreviousTarget(current) == current
    ensures !PreviousDisabled(current) ==> PreviousTarget(current) == current - 1 >= 1
    ensures NextDisabled(current, totalPages) <==> NextTarget(current, totalPages) == current
    ensures !NextDisabled(current, totalPages) ==>
              NextTarget(current, totalPages) == current + 1 <= totalPages
  {
  }

  // ---------------------------------------------------------------------
  // "Showing X to Y of Z jobs"

  /** The `X` and `Y` of the line under the table. On any page from 1 on,
      including an empty list and a page beyond the last: `X` is the first
      job number of the page, `Y` never exceeds the total, the run holds at
      most ten jobs, and it is empty (`Y < X`, as in "Showing 1 to 0 of 0
      jobs") exactly when the page starts beyond the last job. */
  function ShownRange(current: int, total: nat): (r: (int, int))
    ensures current >= 1 ==> r.0 >= 1 && (r.0 - 1) % ItemsPerPage == 0
    ensures current >= 1 ==> (r.0 - 1) / ItemsPerPage + 1 == current
    ensures current >= 1 && r.1 < total ==> r.1 - r.0 + 1 == ItemsPerPage
    ensures r.1 <= total
    ensures r.1 - r.0 + 1 <= ItemsPerPage
    ensures current >= 1 ==> (r.1 < r.0 <==> (current - 1) * ItemsPerPage >= total)
  {
    ((current - 1) * ItemsPerPage + 1, Min(current * ItemsPerPage, total))
  }

  /** On a page of the list, the line names a non-empty run of at most ten
      jobs within the total; and each job number is named on exactly one
      page, the `(n - 1) / 10 + 1`-th. */
  lemma ShownRangeOnPage(current: int, total: nat, n: int)
    requires 1 <= current <= TotalPages(total)
    ensures var (x, y) := ShownRange(current, total);
            1 <= x <= y <= total && y - x + 1 <= ItemsPerPage
    ensures 1 <= n <= total ==>
              (var (x, y) := ShownRange(current, total);
               x <= n <= y <==> current == (n - 1) / ItemsPerPage + 1)
  {
    if 1 <= n <= total {
      var q := (n - 1) / ItemsPerPage;
      assert q * ItemsPerPage <= n - 1 < (q + 1) * ItemsPerPage;
    }
  }
}

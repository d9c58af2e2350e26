/**
 * Fixed-size paging of the browse list (`totalPages`, `visiblePosts`,
 * `handlePageChange`) and the page-number window of
 * `LandingPaginationControls`: at most six consecutive page buttons,
 * re-centred on the current page when it or the page count changes, and
 * shifted a whole window at a time by the ellipsis buttons.
 */
module Paging {
  import opened Options
  import opened Seqs

  const LANDING_PAGE_SIZE := 18
  const MAX_VISIBLE := 6

  // ---------------------------------------------------------------- pages

  /** `Math.max(1, Math.ceil(n / LANDING_PAGE_SIZE) || 1)`: the fewest pages, and at least one,
      that hold `n` posts. */
  function TotalPages(n: nat): (t: nat)
    ensures t >= 1
    ensures n <= t * LANDING_PAGE_SIZE
    ensures t == 1 || (t - 1) * LANDING_PAGE_SIZE < n
  {
    var c := (n + LANDING_PAGE_SIZE - 1) / LANDING_PAGE_SIZE;
    if c == 0 then 1 else Max(1, c)
  }

  /** `Array.prototype.slice`'s reading of an index: negative counts from the end, then clamped to the length. */
  function SliceIndex(i: int, len: nat): (r: nat)
    ensures r <= len
    ensures 0 <= i <= len ==> r == i
  {
    if i < 0 then Max(0, len + i) else Min(i, len)
  }

  /** `s.slice(start, end)`. */
  function JsSlice<T>(s: seq<T>, start: int, end: int): seq<T>
  {
    var a, b := SliceIndex(start, |s|), SliceIndex(end, |s|);
    if a < b then s[a..b] else []
  }

  /** `visiblePosts`: the slice of page `page` (counted from 1). */
  function VisiblePosts<T>(xs: seq<T>, page: int): seq<T>
  {
    var start := (page - 1) * LANDING_PAGE_SIZE;
    JsSlice(xs, start, start + LANDING_PAGE_SIZE)
  }

  /** Where page `page` starts and ends in the list. */
  function PageStart(n: nat, page: nat): nat
    requires page >= 1
  {
    Min((page - 1) * LANDING_PAGE_SIZE, n)
  }

  function PageEnd(n: nat, page: nat): nat
    requires page >= 1
  {
    PageStart(n, page + 1)
  }

  /** Page `page` is the contiguous run of at most eighteen posts starting at
      `(page - 1) * 18`; it is empty exactly when the page is beyond the last one. */
  lemma VisiblePostsSpec<T>(xs: seq<T>, page: int)
    requires page >= 1
    ensures PageStart(|xs|, page) <= PageEnd(|xs|, page)
    ensures VisiblePosts(xs, page) == xs[PageStart(|xs|, page)..PageEnd(|xs|, page)]
    ensures |VisiblePosts(xs, page)| <= LANDING_PAGE_SIZE
    ensures VisiblePosts(xs, page) == [] <==> page > TotalPages(|xs|) || xs == []
  {
    var t := TotalPages(|xs|);
    if page > t {
      assert (page - 1) * LANDING_PAGE_SIZE >= t * LANDING_PAGE_SIZE;
    } else if xs != [] {
      assert t == 1 || (t - 1) * LANDING_PAGE_SIZE < |xs|;
      assert (page - 1) * LANDING_PAGE_SIZE <= (t - 1) * LANDING_PAGE_SIZE;
    }
  }

  /** Pages `first` through `last` laid end to end. */
  function PagesFrom<T>(xs: seq<T>, first: nat, last: nat): seq<T>
    requires first >= 1
    decreases last + 1 - first
  {
    if first > last then [] else VisiblePosts(xs, first) + PagesFrom(xs, first + 1, last)
  }

  lemma {:induction false} PagesFromSuffix<T>(xs: seq<T>, first: nat)
    requires 1 <= first <= TotalPages(|xs|) + 1
    ensures PagesFrom(xs, first, TotalPages(|xs|)) == xs[PageStart(|xs|, first)..]
    decreases TotalPages(|xs|) + 1 - first
  {
    var t := TotalPages(|xs|);
    if first > t {
      assert PageStart(|xs|, first) == |xs| by {
        assert (first - 1) * LANDING_PAGE_SIZE >= t * LANDING_PAGE_SIZE;
      }
    } else {
      PagesFromSuffix(xs, first + 1);
      VisiblePostsSpec(xs, first);
      var a, b := PageStart(|xs|, first), PageStart(|xs|, first + 1);
      assert xs[a..] == xs[a..b] + xs[b..];
    }
  }

  /** Pages 1 to `totalPages` are consecutive, non-overlapping slices that
      together give back the whole list. */
  lemma PagesPartition<T>(xs: seq<T>)
    ensures PagesFrom(xs, 1, TotalPages(|xs|)) == xs
    ensures forall p, q :: 1 <= p < q ==> PageEnd(|xs|, p) <= PageStart(|xs|, q)
  {
    PagesFromSuffix(xs, 1);
    assert PageStart(|xs|, 1) == 0;
    forall p, q | 1 <= p < q ensures PageEnd(|xs|, p) <= PageStart(|xs|, q) {
      assert p * LANDING_PAGE_SIZE <= (q - 1) * LANDING_PAGE_SIZE;
    }
  }

  /** `handlePageChange`: `Math.min(Math.max(1, page), totalPages)`. */
  function ClampPage(page: int, total: int): (r: int)
    ensures total >= 1 ==> 1 <= r <= total
    ensures 1 <= page <= total ==> r == page
    ensures page < 1 && total >= 1 ==> r == 1
    ensures page > total ==> r == total
  {
    Min(Max(1, page), total)
  }

  // ---------------------------------------------------------------- the page-number window

  /** `maxWindowStart`: the start of the last full window. */
  function MaxWindowStart(total: int): int
  {
    Max(1, total - MAX_VISIBLE + 1)
  }

  /** `windowEnd`: six pages from the start, cut at the last page. */
  function WindowEnd(ws: int, total: int): (we: int)
    ensures we - ws + 1 <= MAX_VISIBLE
    ensures ws <= total ==> ws <= we
  {
    Min(total, ws + MAX_VISIBLE - 1)
  }

  /** `v` limited to `[lo, hi]`. */
  function Clamp(v: int, lo: int, hi: int): int
    requires lo <= hi
  {
    if v < lo then lo else if v > hi then hi else v
  }

  /** The effect's recomputation: start three pages before the current page,
      stop six pages later or at the last page, and pull the start back so
      that the window is full. */
  function RecomputedStart(current: int, total: int): (ws: int)
    ensures 1 <= ws <= MaxWindowStart(total)
    ensures ws == Clamp(current - MAX_VISIBLE / 2, 1, MaxWindowStart(total))
    ensures 1 <= current <= total ==> ws <= current <= WindowEnd(ws, total)
  {
    var nextStart := Max(1, current - MAX_VISIBLE / 2);
    var nextEnd := Min(total, nextStart + MAX_VISIBLE - 1);
    Max(1, nextEnd - MAX_VISIBLE + 1)
  }

  datatype Direction = Prev | Next

  /** `shiftWindow`: one window back or forward, clamped to the first and last window. */
  function ShiftedStart(ws: int, dir: Direction, total: int): (r: int)
    ensures 1 <= ws <= MaxWindowStart(total) ==> 1 <= r <= MaxWindowStart(total)
    ensures dir == Prev ==> r <= ws || ws < 1
    ensures dir == Next && ws <= MaxWindowStart(total) ==> ws <= r
  {
    if dir == Prev then Max(1, ws - MAX_VISIBLE) else Min(MaxWindowStart(total), ws + MAX_VISIBLE)
  }

  /** The integers `lo` to `hi`. */
  function Range(lo: int, hi: int): (r: seq<int>)
    ensures |r| == if lo <= hi then hi - lo + 1 else 0
    ensures forall k :: 0 <= k < |r| ==> r[k] == lo + k
    decreases hi - lo
  {
    if lo > hi then [] else [lo] + Range(lo + 1, hi)
  }

  /** What the pagination bar shows. */
  datatype Controls = Controls(
    pages: seq<int>,        // pageRange
    leadingFirst: bool,     // showLeadingFirst
    leftEllipsis: bool,     // showLeftEllipsis
    rightEllipsis: bool,    // showRightEllipsis
    trailingLast: bool,     // showTrailingLast
    prevDisabled: bool,
    nextDisabled: bool)

  /** The rendered bar, or nothing (`null`) for a single page. */
  function RenderControls(current: int, total: int, ws: int): Option<Controls>
  {
    if total <= 1 then None
    else
      var we := WindowEnd(ws, total);
      Some(Controls(Range(ws, we), ws > 1, ws > 2, we < total - 1, we < total, current <= 1, current >= total))
  }

  /** With more than one page and a window start in range, the bar shows one
      to six consecutive page buttons inside `[1, total]`; the extra "1" and
      "last" buttons appear only when the window does not already show those
      pages, and an ellipsis only where pages are skipped. */
  lemma RenderControlsSpec(current: int, total: int, ws: int)
    requires 1 <= ws <= MaxWindowStart(total)
    ensures total <= 1 <==> RenderControls(current, total, ws).None?
    ensures total > 1 ==>
      var c := RenderControls(current, total, ws).value;
      && 1 <= |c.pages| <= MAX_VISIBLE
      && (forall k :: 0 <= k < |c.pages| ==> 1 <= c.pages[k] <= total && c.pages[k] == ws + k)
      && (c.leadingFirst <==> 1 !in c.pages)
      && (c.trailingLast <==> total !in c.pages)
      && (c.leftEllipsis ==> c.leadingFirst && c.pages[0] > 2)
      && (c.rightEllipsis ==> c.trailingLast && c.pages[|c.pages| - 1] < total - 1)
  {
    if total > 1 {
      var c := RenderControls(current, total, ws).value;
      if 1 in c.pages {
        var k :| 0 <= k < |c.pages| && c.pages[k] == 1;
      }
      if total in c.pages {
        var k :| 0 <= k < |c.pages| && c.pages[k] == total;
      }
      if !c.trailingLast {
        assert c.pages[|c.pages| - 1] == total;
      }
    }
  }

  /** The target of the arrow buttons: one page back or forward, kept in `[1, total]`. */
  function ArrowTarget(current: int, dir: Direction, total: int): (r: int)
    ensures total >= 1 ==> 1 <= r <= total
    ensures dir == Prev && 1 < current <= total ==> r == current - 1
    ensures dir == Next && 1 <= current < total ==> r == current + 1
  {
    Min(total, Max(1, if dir == Prev then current - 1 else current + 1))
  }

  /** `LandingPaginationControls`: the page props it was last rendered with
      and its `windowStart` state. A render with new props keeps the old
      start; the recomputing effect, keyed on the two props, runs after that
      render is committed (`RunEffects`), and React runs it before the next
      event. Until then the start can lie past the last full window. */
  class PageWindow {
    var currentPage: int
    var totalPages: int
    var windowStart: int
    /** The last render changed a prop, or was the first one, and the
        recomputing effect has not run yet. */
    var effectsPending: bool

    ghost predicate Valid()
      reads this
    {
      1 <= windowStart && (!effectsPending ==> windowStart <= MaxWindowStart(totalPages))
    }

    /** The first render: `windowStart` starts at 1, and the mount effect is due. */
    constructor(current: int, total: int)
      ensures Valid()
      ensures currentPage == current && totalPages == total
      ensures windowStart == 1 && effectsPending
    {
      currentPage, totalPages := current, total;
      windowStart := 1;
      effectsPending := true;
    }

    /** The effect after a committed render that changed a prop: the start is
        re-centred on the current page. */
    method RunEffects()
      requires Valid()
      modifies this
      ensures Valid()
      ensures currentPage == old(currentPage) && totalPages == old(totalPages) && !effectsPending
      ensures windowStart == if old(effectsPending) then RecomputedStart(currentPage, totalPages) else old(windowStart)
    {
      if effectsPending {
        windowStart := RecomputedStart(currentPage, totalPages);
        effectsPending := false;
      }
    }

    /** A render with new props, after the effect still due: the start is
        kept, and the effect becomes due exactly when a prop changed. */
    method SetProps(current: int, total: int)
      requires Valid()
      modifies this
      ensures Valid()
      ensures currentPage == current && totalPages == total
      ensures windowStart == if old(effectsPending) then RecomputedStart(old(currentPage), old(totalPages)) else old(windowStart)
      ensures effectsPending <==> (current, total) != old((currentPage, totalPages))
    {
      RunEffects();
      effectsPending := current != currentPage || total != totalPages;
      currentPage, totalPages := current, total;
    }

    /** An ellipsis click, after the effect still due. */
    method ShiftWindow(dir: Direction)
      requires Valid()
      modifies this
      ensures Valid()
      ensures currentPage == old(currentPage) && totalPages == old(totalPages) && !effectsPending
      ensures var start := if old(effectsPending) then RecomputedStart(currentPage, totalPages) else old(windowStart);
        windowStart == ShiftedStart(start, dir, totalPages)
    {
      RunEffects();
      windowStart := ShiftedStart(windowStart, dir, totalPages);
    }

    /** The bar as this render shows it. Once the effects have run it has one
        to six page buttons whenever there is more than one page. */
    function Render(): (r: Option<Controls>)
      requires Valid()
      reads this
      ensures r.None? <==> totalPages <= 1
      ensures r.Some? && !effectsPending ==> 1 <= |r.value.pages| <= MAX_VISIBLE
    {
      if effectsPending then RenderControls(currentPage, totalPages, windowStart)
      else
        RenderControlsSpec(currentPage, totalPages, windowStart);
        RenderControls(currentPage, totalPages, windowStart)
    }
  }

  /** On page 12 of 20 the window starts at 9. A search that leaves three
      pages renders once with that start: no page buttons, the leading "1"
      and the left ellipsis. After the effect the window shows pages 1 to 3. */
  method StaleWindowScenario() returns (before: Option<Controls>, after: Option<Controls>)
    ensures before == Some(Controls([], true, true, false, false, false, true))
    ensures after == Some(Controls([1, 2, 3], false, false, false, false, false, true))
  {
    var w := new PageWindow(12, 20);
    w.RunEffects();
    assert w.windowStart == 9;
    w.SetProps(12, 3);
    before := w.Render();
    w.RunEffects();
    assert w.windowStart == 1;
    after := w.Render();
    assert Range(1, 3) == [1, 2, 3];
  }
}

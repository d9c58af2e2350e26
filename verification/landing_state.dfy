/**
 * The browse section's component state on the landing page: the five filter
 * controls, the view mode and the current page. A state change is a render
 * with the page as it stands; the `setCurrentPage(1)` effect, keyed on the
 * five filter values, runs only after a render in which one of them differs
 * from the previous render has been committed (`RunEffects`), and React runs
 * it before it starts the next render. So the render right after a filter
 * change still shows the old page of the new result list.
 */
module LandingState {
  import Text
  import opened Posts
  import opened LandingFeed
  import opened Paging

  datatype ViewMode = Grid | List | Featured | Compact

  class LandingPage {
    /** `allCategorizedPosts`. */
    const feed: seq<CategorizedPost>
    var filters: Filters
    var viewMode: ViewMode
    var currentPage: int
    /** The last render changed a filter value and its reset effect has not run yet. */
    var effectsPending: bool

    ghost predicate Valid()
      reads this
    {
      currentPage >= 1
    }

    /** First render: default filters, the highlight view, page 1; the mount
        effect sets the page it already has. */
    constructor(tech: seq<Post>, comm: seq<Post>)
      ensures Valid()
      ensures feed == AllPosts(tech, comm)
      ensures filters == DEFAULT_FILTERS && viewMode == Featured && currentPage == 1 && !effectsPending
    {
      var merged := Categorize(tech, Technology) + Categorize(comm, Community);
      var deduped := DedupePosts(merged);
      feed := deduped;
      filters := DEFAULT_FILTERS;
      viewMode := Featured;
      currentPage := 1;
      effectsPending := false;
    }

    /** `filteredPosts` for the current controls, at time `now`, with `localeCompare` as `titleLe`. */
    function Filtered(now: int, titleLe: (string, string) -> bool): seq<CategorizedPost>
      reads this
    {
      FilteredPosts(feed, filters, now, titleLe)
    }

    /** `totalPages`. */
    function Pages(now: int, titleLe: (string, string) -> bool): nat
      reads this
    {
      TotalPages(|Filtered(now, titleLe)|)
    }

    /** `visiblePosts`. */
    function Visible(now: int, titleLe: (string, string) -> bool): seq<CategorizedPost>
      reads this
    {
      VisiblePosts(Filtered(now, titleLe), currentPage)
    }

    /** The effect after a committed render that changed a filter value:
        `setCurrentPage(1)`. */
    method RunEffects()
      requires Valid()
      modifies this
      ensures Valid()
      ensures filters == old(filters) && viewMode == old(viewMode) && !effectsPending
      ensures currentPage == if old(effectsPending) then 1 else old(currentPage)
    {
      if effectsPending {
        currentPage := 1;
        effectsPending := false;
      }
    }

    /** A render with new filter values, after the effect still due: the page
        is kept, and the reset becomes due when a value changed. */
    method ApplyFilters(f: Filters)
      requires Valid()
      modifies this
      ensures Valid()
      ensures filters == f && viewMode == old(viewMode)
      ensures currentPage == if old(effectsPending) then 1 else old(currentPage)
      ensures effectsPending <==> f != old(filters)
    {
      RunEffects();
      effectsPending := f != filters;
      filters := f;
    }

    method SetSearchTerm(term: string)
      requires Valid()
      modifies this
      ensures Valid()
      ensures filters == old(filters).(search := term) && viewMode == old(viewMode)
      ensures currentPage == if old(effectsPending) then 1 else old(currentPage)
      ensures effectsPending <==> term != old(filters.search)
    {
      ApplyFilters(filters.(search := term));
    }

    method SetSelectedAuthor(author: string)
      requires Valid()
      modifies this
      ensures Valid()
      ensures filters == old(filters).(author := author) && viewMode == old(viewMode)
      ensures currentPage == if old(effectsPending) then 1 else old(currentPage)
      ensures effectsPending <==> author != old(filters.author)
    {
      ApplyFilters(filters.(author := author));
    }

    method SetDateFilter(date: DateFilter)
      requires Valid()
      modifies this
      ensures Valid()
      ensures filters == old(filters).(date := date) && viewMode == old(viewMode)
      ensures currentPage == if old(effectsPending) then 1 else old(currentPage)
      ensures effectsPending <==> date != old(filters.date)
    {
      ApplyFilters(filters.(date := date));
    }

    method SetSortOption(sort: SortOption)
      requires Valid()
      modifies this
      ensures Valid()
      ensures filters == old(filters).(sort := sort) && viewMode == old(viewMode)
      ensures currentPage == if old(effectsPending) then 1 else old(currentPage)
      ensures effectsPending <==> sort != old(filters.sort)
    {
      ApplyFilters(filters.(sort := sort));
    }

    method SetCollectionFilter(collection: CollectionFilter)
      requires Valid()
      modifies this
      ensures Valid()
      ensures filters == old(filters).(collection := collection) && viewMode == old(viewMode)
      ensures currentPage == if old(effectsPending) then 1 else old(currentPage)
      ensures effectsPending <==> collection != old(filters.collection)
    {
      ApplyFilters(filters.(collection := collection));
    }

    /** The view mode is not among the effect's dependencies: no reset becomes due. */
    method SetViewMode(mode: ViewMode)
      requires Valid()
      modifies this
      ensures Valid()
      ensures viewMode == mode && filters == old(filters) && !effectsPending
      ensures currentPage == if old(effectsPending) then 1 else old(currentPage)
    {
      RunEffects();
      viewMode := mode;
    }

    /** `resetFilters`: every control back to its default and the detailed
        (grid) view in one render; the reset to page 1 becomes due only if a
        filter value changed. */
    method ResetFilters()
      requires Valid()
      modifies this
      ensures Valid()
      ensures filters == DEFAULT_FILTERS && !FiltersActive(filters) && viewMode == Grid
      ensures currentPage == if old(effectsPending) then 1 else old(currentPage)
      ensures effectsPending <==> old(filters) != DEFAULT_FILTERS
    {
      ApplyFilters(DEFAULT_FILTERS);
      viewMode := Grid;
      assert Text.Trim("") == "";
    }

    /** `handlePageChange`: the requested page clamped to `[1, totalPages]`, so
        a non-empty result list never shows an empty page. */
    method HandlePageChange(page: int, now: int, titleLe: (string, string) -> bool)
      requires Valid()
      modifies this
      ensures Valid()
      ensures filters == old(filters) && viewMode == old(viewMode) && !effectsPending
      ensures currentPage == ClampPage(page, Pages(now, titleLe))
      ensures 1 <= currentPage <= Pages(now, titleLe)
      ensures Visible(now, titleLe) == [] <==> Filtered(now, titleLe) == []
    {
      RunEffects();
      currentPage := ClampPage(page, Pages(now, titleLe));
      VisiblePostsSpec(Filtered(now, titleLe), currentPage);
    }
  }
}

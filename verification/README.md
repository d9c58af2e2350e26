# A verified model of the Keploy blog landing logic

The blog is a Next.js front end. Most of it is markup, but its components hold
a set of small list and string operations, and those are modelled here:

- the landing page's post pipeline: slug deduplication, the technology or
  community collection of a post, the four ANDed browse filters and the sort,
  fixed-size paging with clamping, the six-button page window and the filter
  heading;
- its curated lists: the 40 curated tags, the six featured authors, the six
  latest posts and the cover-image URLs;
- its two index state machines: the latest-posts carousel and the rotating
  cover image of a collection card;
- the query parameters of the community-posts API route and its "all" mode;
- the string helpers: author-name normalisation and the author table lookup,
  author initials and avatar checks, tag slugs and the tag colour palette;
- the `@keploy` highlighting and the two rows of the testimonials strip.

Some conventions hold throughout:

- An optional string field (a slug, an author name, an image URL) is `""` when
  it is missing, because the source tests every one of them by truthiness.
- Dates are integer millisecond timestamps, and the current time `now` is a
  parameter.
- `localeCompare` is a parameter `titleLe`. The ordering lemmas require it to
  be a total preorder.
- `Array.prototype.sort` is the stable insertion sort `Sorting.SortBy`, proved
  to be a permutation, ordered and stable.
- Characters are ASCII, for case mapping and for `\s`, `\w` and `\b`.

Loops that build a list step by step (the two `dedupePosts`, the
`curatedTags` and `featuredAuthors` loops, the testimonial `reduce`) are
methods, each proved equal to a specification function. The properties are
proved about those functions. Component state is modelled as classes whose
methods are the events. `LatestCarousel` and `ImageRotator` receive timer
firings as `Tick`/`Settle` events. `LandingPage` receives setter calls, and
`PageWindow` receives prop changes and ellipsis clicks. In `LandingPage`,
`PageWindow` and `ImageRotator` a state or prop change is one render, and the `useEffect`
resets that follow it are a separate `RunEffects` step. React runs effects
still due before the next render, so every event method runs them first. A
render between the two steps shows the old page, the old window start or
the old image index.

Modules, one per file: `Options` and `Seqs` (seqs.dfy), `Text`, `Sorting`,
`Posts`, `LandingFeed`, `LandingState`, `Paging`, `Carousel`, `Curation`,
`Featured`, `AuthorDisplay`, `AuthorData` and `Authors` (author_data.dfy),
`AuthorTable`, `AuthorCard`, `TagsCard`, `Testimonials`, `CollectionCard`,
`CommunityApi`.

## Model

| member | source | states |
|---|---|---|
| `Posts.DedupeBySlug` | pages/index.tsx:107-115 | The `seen`-set loop returns exactly the specification list `Deduped`: slug-less items dropped, then the first item for each slug kept |
| `Posts.DedupedSpec` | pages/index.tsx:107-115 | The deduplicated list is an in-order subsequence of the input with no empty slug and pairwise distinct slugs. Its slugs are all non-empty input slugs, and each kept item is the first input item with its slug |
| `Posts.DedupeStep` | pages/index.tsx:109-113 | One filter step appends a post whose slug is non-empty and unseen, and skips any other |
| `Posts.DedupedIdempotent` | pages/index.tsx:107-115 | Deduplicating a deduplicated list changes nothing |
| `LandingFeed.DedupePosts` | pages/index.tsx:107-115 | The landing page's `dedupePosts` on categorized posts: subsequence, non-empty and unique slugs, every slug kept, first occurrence kept |
| `LandingFeed.Categorize` | pages/index.tsx:258-274 | Each post is tagged with the collection of the list it came from, in order |
| `LandingFeed.TechnologyWinsDuplicates` | pages/index.tsx:276-279 | In the merged feed a community post appears only when no technology post has its slug |
| `LandingFeed.HasCommunityCategory` | pages/index.tsx:119-121 | True exactly when some category name lower-cases to "community" |
| `LandingFeed.CollectionOf` | pages/index.tsx:117-123 | A post is community exactly when it exists and has a "community" category in any letter case; otherwise it is technology |
| `LandingFeed.CombinedLatestSpec` | pages/index.tsx:160-168 | The latest list holds min(6, n) of the n slugged posts, all from the inputs, none more often than among the slugged posts, newest first. No slugged post left out is newer than one shown |
| `LandingFeed.LeftOutIsOlder` | pages/index.tsx:163-167 | In a newest-first list, a post past the first six is not newer than any of the six |
| `LandingFeed.ImageUrls` | pages/index.tsx:240-256 | At most ten URLs, a prefix of the non-empty cover URLs in post order, each the cover of some post |
| `LandingFeed.AuthorLabel` | pages/index.tsx:336 | The author label is never empty: "Anonymous" stands in for a missing name |
| `LandingFeed.AuthorOptions` | pages/index.tsx:334-339 | The menu is "all" followed by the distinct author labels in first-appearance order |
| `LandingFeed.AuthorOptionsSpec` | pages/index.tsx:334-339 | The menu after "all" lists no label twice, every post's label is in it, and every entry is some post's label |
| `LandingFeed.FilterChain` | pages/index.tsx:366-381 | The four chained filters keep exactly the posts that pass all four, in input order |
| `LandingFeed.SortLeTotal` | pages/index.tsx:383-394 | Each of the four sort comparators is a total preorder when the title order is one |
| `LandingFeed.FilteredPostsSpec` | pages/index.tsx:351-397 | `filteredPosts` is a permutation of the posts passing all four filters. A post is listed iff it is in the feed and matches. The list is ordered by the selected comparator, and equal posts keep their feed order |
| `LandingFeed.FilteredMembers` | pages/index.tsx:351-397 | A post is listed exactly when it is in the feed and passes the search, author, date-window and collection filters |
| `LandingFeed.FilteredOrder` | pages/index.tsx:383-394 | Adjacent listed posts are newest first, oldest first, or in title order in either direction, as the sort option says |
| `LandingFeed.FilterPartsSpec` | pages/index.tsx:422-446 | Each active control's phrase is listed (author, collection, the date label lower-cased, the sort label lower-cased), one phrase per active control and nothing else |
| `LandingFeed.FilterPartsOrder` | pages/index.tsx:422-446 | The phrases come in the order author, collection, date, sort |
| `LandingFeed.PhraseControls` | pages/index.tsx:422-446 | Each phrase's prefix identifies its control: "author: ", "collection: ", "date: ", "sorted " |
| `LandingFeed.RunsInOrder` | pages/index.tsx:422-446 | Four runs of at most one phrase, each of its own control, concatenated list the controls in increasing order |
| `LandingFeed.HeadingContainsPart` | pages/index.tsx:448-459 | The heading contains every phrase of the list it is built from |
| `LandingFeed.HeadingListsParts` | pages/index.tsx:420-459 | The browse heading contains the phrase of every active author, collection, date and sort control |
| `LandingFeed.BrowseHeadingSpec` | pages/index.tsx:420-459 | The heading is "All technology & community blogs" exactly when no filter is active. A non-blank search names the trimmed term, and otherwise active filters give the "Filtered blogs (...)" form |
| `LandingFeed.FilterPartsEmpty` | pages/index.tsx:422-446 | No heading phrase is listed exactly when author, collection, date and sort are at their defaults |
| `LandingFeed.HeadingForms` | pages/index.tsx:448-459 | A non-empty term gives the "Search results for" form naming it. No term and some phrases give the "Filtered blogs (" form |
| `Paging.TotalPages` | pages/index.tsx:399-402 | The page count is at least 1 and is the fewest 18-post pages that hold all posts |
| `Paging.SliceIndex` | pages/index.tsx:406 | A slice index is clamped into the list and is left as it is when already inside |
| `Paging.VisiblePostsSpec` | pages/index.tsx:404-407 | Page p is the contiguous run of at most 18 posts from (p-1)*18. It is empty exactly when the list is empty or p is past the last page |
| `Paging.PagesFromSuffix` | pages/index.tsx:404-407 | Pages from `first` to the last, laid end to end, are the list from page `first`'s start |
| `Paging.PagesPartition` | pages/index.tsx:399-407 | Pages 1 to `totalPages` are disjoint and concatenate to the whole list |
| `Paging.ClampPage` | pages/index.tsx:474-476 | `handlePageChange` always lands in [1, totalPages]. It keeps an in-range page and otherwise picks the nearer end |
| `Paging.WindowEnd` | pages/index.tsx:1001 | The window spans at most six pages and is never empty when its start is a page |
| `Paging.RecomputedStart` | pages/index.tsx:989-995 | After recomputation 1 <= windowStart <= max(1, totalPages-5), and the window contains the current page whenever that page exists |
| `Paging.ShiftedStart` | pages/index.tsx:1008-1015 | Shifting keeps the start in [1, maxWindowStart]. "prev" never moves it forward and "next" never moves it back |
| `Paging.Range` | pages/index.tsx:1002 | The page buttons are the consecutive integers from the window start to its end |
| `Paging.RenderControlsSpec` | pages/index.tsx:997-1006 | Nothing is rendered for at most one page. Otherwise one to six consecutive page buttons in [1, total] are shown, the first and last buttons only when the window misses those pages, and an ellipsis only over a gap |
| `Paging.ArrowTarget` | pages/index.tsx:1050-1053 | An arrow's target stays in [1, total] and is the neighbouring page when that page exists |
| `Paging.PageWindow.constructor` | pages/index.tsx:985-995 | The first render has the window start at 1, with the recomputing mount effect due |
| `Paging.PageWindow.RunEffects` | pages/index.tsx:989-995 | After a render that changed a prop (or the first one), the start becomes the recomputed start, back in range; otherwise nothing changes |
| `Paging.PageWindow.SetProps` | pages/index.tsx:989-995 | A render with new props runs the effect still due, then keeps the start. The effect becomes due exactly when the current page or the page count changed |
| `Paging.PageWindow.ShiftWindow` | pages/index.tsx:1008-1015 | An ellipsis click, after the effect still due, moves the start by one window, clamped, and leaves the props alone |
| `Paging.PageWindow.Render` | pages/index.tsx:997-1006 | Nothing is rendered exactly for at most one page. With no effect due, the bar shows one to six page buttons |
| `Paging.StaleWindowScenario` | pages/index.tsx:989-1006 | On page 12 of 20, shrinking to three pages first renders no page buttons, with the leading "1" and the left ellipsis. After the effect the bar shows pages 1 to 3 |
| `LandingState.LandingPage.constructor` | pages/index.tsx:326-332 | First render: default filters, the featured view, page 1, over the deduplicated feed |
| `LandingState.LandingPage.RunEffects` | pages/index.tsx:470-472 | After a render that changed a filter value the page goes back to 1; otherwise nothing changes |
| `LandingState.LandingPage.ApplyFilters` | pages/index.tsx:470-472 | A render with new filter values runs the reset still due, then stores the values and keeps the page. The reset becomes due exactly when some filter value changed |
| `LandingState.LandingPage.SetSearchTerm` | pages/index.tsx:470-472 | A new search term keeps the page for this render and makes the reset due; the same term makes nothing due |
| `LandingState.LandingPage.SetSelectedAuthor` | pages/index.tsx:470-472 | A new author keeps the page for this render and makes the reset due; the same author makes nothing due |
| `LandingState.LandingPage.SetDateFilter` | pages/index.tsx:470-472 | A new date filter keeps the page for this render and makes the reset due; the same filter makes nothing due |
| `LandingState.LandingPage.SetSortOption` | pages/index.tsx:470-472 | A new sort keeps the page for this render and makes the reset due; the same sort makes nothing due |
| `LandingState.LandingPage.SetCollectionFilter` | pages/index.tsx:470-472 | A new collection keeps the page for this render and makes the reset due; the same collection makes nothing due |
| `LandingState.LandingPage.SetViewMode` | pages/index.tsx:330 | The view mode is not a dependency of the reset effect: the filters stay and no reset becomes due |
| `LandingState.LandingPage.ResetFilters` | pages/index.tsx:461-468 | Every filter is back at its default, no filter is active and the view is the grid. The reset to page 1 becomes due only if some filter had changed |
| `LandingState.LandingPage.HandlePageChange` | pages/index.tsx:474-476 | The new page is the request clamped to [1, totalPages], so a non-empty result list never shows an empty page |
| `Carousel.LatestCarousel.constructor` | pages/index.tsx:211-212 | The carousel starts at index 0, not animating, with nothing pending |
| `Carousel.LatestCarousel.LengthChanged` | pages/index.tsx:214-216 | A change of length resets the index to 0. Timeouts already scheduled stay pending |
| `Carousel.LatestCarousel.Tick` | pages/index.tsx:218-229 | With two or more posts an interval firing starts the animation and schedules one step. With at most one post nothing happens |
| `Carousel.LatestCarousel.Select` | pages/index.tsx:231-238 | An in-range index schedules a jump to it. An out-of-range index changes nothing |
| `Carousel.LatestCarousel.Settle` | pages/index.tsx:222-225 | A firing step sets the index to (i+1) mod the length it was scheduled with, or jumps to the chosen index, and ends the animation. The index stays in range while no stale step is pending |
| `Carousel.LatestCarousel.Displayed` | pages/index.tsx:478 | The shown index is in range for a non-empty list, and is the active index when that one is in range |
| `Carousel.LatestCarousel.ActivePost` | pages/index.tsx:478 | There is no active post exactly when the list is empty. Otherwise it is one of the listed posts |
| `Carousel.StaleStepScenario` | pages/index.tsx:214-229 | A step scheduled for five posts that fires after the list dropped to one post leaves index 1, outside the list, and the fallback shows post 0 |
| `CollectionCard.ValidImages` | components/landing/landing-collection-card.tsx:52-55 | Every kept URL is non-empty |
| `CollectionCard.ValidImagesSpec` | components/landing/landing-collection-card.tsx:52-55 | `validImages` is the in-order subsequence of exactly the non-empty URLs, and keeps a list with no empty URL unchanged |
| `CollectionCard.ImageRotator.constructor` | components/landing/landing-collection-card.tsx:52-56 | The rotator starts on the first valid image |
| `CollectionCard.ImageRotator.RunEffects` | components/landing/landing-collection-card.tsx:58-68 | After a render that changed the number of valid images, the index goes back to 0 and the interval restarts over the new count; otherwise nothing changes |
| `CollectionCard.ImageRotator.SetImageUrls` | components/landing/landing-collection-card.tsx:52-60 | A render with new URLs runs the effects still due, then keeps the index and the running interval. The reset becomes due exactly when the number of valid images changed |
| `CollectionCard.ImageRotator.Tick` | components/landing/landing-collection-card.tsx:62-68 | A rotation step sets the index to (prev+1) mod the interval's count, so it stays below that count. Nothing moves with at most one image |
| `CollectionCard.ImageRotator.Shown` | components/landing/landing-collection-card.tsx:77-88 | The gradient is shown exactly when there are no valid images. A valid image is shown exactly when the index is in range. Otherwise the `src` is missing, which happens only while a reset is due after the list shrank |
| `CollectionCard.ShrinkScenario` | components/landing/landing-collection-card.tsx:58-79 | On the third of three images, shrinking the list to one image first renders with no `src`; after the effects the one image is shown |
| `Curation.Rank` | pages/index.tsx:199-203 | A tag's rank is its index in the prioritized list, and -1 exactly when it is not prioritized |
| `Curation.ByPriorityTotal` | pages/index.tsx:199-203 | The priority comparator is a total preorder |
| `Curation.CollectTags` | pages/index.tsx:183-196 | The loop keeps the first tag per normalised name and splits the kept tags into prioritized and other, in input order |
| `Curation.CuratedTags` | pages/index.tsx:170-209 | The method computes the curated list: kept tags, prioritized sorted by list position, others after them, cut to 40 |
| `Curation.CuratedOrderPermutes` | pages/index.tsx:199-206 | Before the cap the curated list is a reordering of the kept tags |
| `Curation.CuratedFromInput` | pages/index.tsx:170-196 | Every curated tag is a non-blank input tag and the first non-blank input tag with its normalised name |
| `Curation.CuratedOrderCounted` | pages/index.tsx:183-196 | Before the cap there is exactly one tag per distinct non-blank normalised name |
| `Curation.CuratedUniqueAndCounted` | pages/index.tsx:170-209 | Curated tags have distinct normalised names, and there are min(40, distinct non-blank names) of them |
| `Curation.CuratedComplete` | pages/index.tsx:170-209 | Below the cap no normalised name is lost |
| `Curation.PrioritizedPartSpec` | pages/index.tsx:199-203 | The sorted prioritized part holds only prioritized tags, in list order |
| `Curation.RankInjective` | pages/index.tsx:182 | Prioritized tags with different normalised names have different ranks |
| `Curation.CuratedOrderPair` | pages/index.tsx:206 | Anything before a prioritized tag is prioritized and ranked lower |
| `Curation.CuratedRanked` | pages/index.tsx:199-206 | Every prioritized tag comes before every other tag, and prioritized tags follow the list order |
| `Curation.OthersOfCuratedOrder` | pages/index.tsx:192-206 | The other tags of the curated list, before the cap, are the other part |
| `Curation.CuratedOthersInOrder` | pages/index.tsx:192-206 | The other tags keep input order |
| `Featured.Candidates` | pages/index.tsx:285-292 | Each post contributes its formatted author name and resolved avatar |
| `Featured.CollectAuthors` | pages/index.tsx:282-296 | The first loop, with its break at nine, computes the first nine authors with distinct formatted names |
| `Featured.FirstAuthorsAtBreak` | pages/index.tsx:294 | Once nine distinct names are found, later posts change nothing |
| `Featured.FirstAuthorsAtEnd` | pages/index.tsx:285-295 | With fewer than nine distinct names, all of them are collected |
| `Featured.FirstAuthorsSpec` | pages/index.tsx:282-296 | The first loop keeps, in post order, the first card for each of the first nine distinct formatted names |
| `Featured.NameKey` | pages/index.tsx:299 | A lookup key is lower-case and has no whitespace |
| `Featured.MapSet` | pages/index.tsx:301-304 | `Map.set` adds one entry for a new key and none for a key already present |
| `Featured.MapSetMembers` | pages/index.tsx:301-304 | Setting a new key appends its entry at the end. The keys afterwards are the old keys plus `key`, and the only entry that can appear is `key` with the new author |
| `Featured.MapSetInPlace` | pages/index.tsx:301-304 | Setting a key keeps every entry with another key at its position, and the first entry with the key now holds the new author |
| `Featured.MapSetUnique` | pages/index.tsx:301-304 | Setting a key keeps each key listed once |
| `Featured.BuildLookup` | pages/index.tsx:301-304 | The loop builds the specification lookup |
| `Featured.LookupUnique` | pages/index.tsx:300-303 | The lookup holds each key once |
| `Featured.LookupEntries` | pages/index.tsx:300-303 | Every lookup entry holds a collected author under that author's own name key |
| `Featured.LookupHasKeys` | pages/index.tsx:300-303 | Every collected author's name key is in the lookup |
| `Featured.FirstMatch` | pages/index.tsx:308 | A match is the author of the first entry, in map insertion order, whose key contains the preferred name: that key contains it and no earlier key does. No match means no key contains it |
| `Featured.AddMatchSpec` | pages/index.tsx:309-311 | Adding a match only appends, never lists a name twice, and lists the match's name afterwards |
| `Featured.PlacePreferred` | pages/index.tsx:306-312 | The loop over the preferred names computes the specification preferred part |
| `Featured.PreferredOfSpec` | pages/index.tsx:306-312 | The preferred part lists distinct names, at most one per preferred name, all taken from lookup values |
| `Featured.MatchesSpec` | pages/index.tsx:306-308 | Each listed match is the first match of some preferred name, and every preferred name that has a match contributes it |
| `Featured.PreferredMatches` | pages/index.tsx:306-312 | The loop lists the preferred names' first matches in the order of the names, leaving out a name already listed |
| `Featured.AppendRemaining` | pages/index.tsx:314-319 | The loop appends exactly the specification rest |
| `Featured.AppendRestSpec` | pages/index.tsx:314-319 | The preferred part stays in front, each name is listed once, and both parts' names are all listed |
| `Featured.AppendRestOrder` | pages/index.tsx:314-319 | The appended authors follow the order of the collected authors |
| `Featured.PreferredFromFirst` | pages/index.tsx:298-312 | The preferred part lists distinct collected authors |
| `Featured.PreferredSound` | pages/index.tsx:298-312 | Each preferred author is a collected author whose name key contains one of the preferred names |
| `Featured.PreferredHasMatch` | pages/index.tsx:306-312 | When some lookup key contains a preferred name, an author whose key contains that name is placed |
| `Featured.PreferredComplete` | pages/index.tsx:298-312 | For every preferred name that some collected author's name key contains, an author whose key contains it is placed |
| `Featured.PreferredAuthorsSpec` | pages/index.tsx:297-312 | The preferred authors are the first matches of `neha`, `shubham`, ... in that order without repeats, at most six. Each has a key containing a preferred name, and every preferred name some collected author's key contains is matched by one of them |
| `Featured.OrderedAuthorsSpec` | pages/index.tsx:298-319 | Before the cap, every collected author is listed exactly once: the preferred authors (as in `PreferredAuthorsSpec`) first, then the others in collection order |
| `Featured.ComputeFeaturedAuthors` | pages/index.tsx:281-324 | The memo's steps compute the specification list `FeaturedAuthors` |
| `Featured.FeaturedAuthorsSpec` | pages/index.tsx:281-324 | At most six authors with distinct names, each among the first nine distinct formatted names in post order, min(6, that count) of them. Every preferred author is shown, in front |
| `AuthorDisplay.Capitalize` | pages/index.tsx:130 | A capitalised word has the same letters up to case, an upper first letter and lower-case rest |
| `AuthorDisplay.FormatAuthorNameSpec` | pages/index.tsx:125-132 | An empty name gives "Anonymous". Otherwise the result is the whitespace-separated words capitalised and joined by single spaces |
| `AuthorDisplay.FormatBlankName` | pages/index.tsx:125-132 | A non-empty whitespace-only name gives "" and not "Anonymous" |
| `AuthorDisplay.CapitalizeCapitalized` | pages/index.tsx:130 | Capitalising a capitalised word changes nothing |
| `AuthorDisplay.FormatAuthorNameIdempotent` | pages/index.tsx:125-132 | Formatting a formatted non-empty name changes nothing |
| `AuthorDisplay.FormatJoinOfCapitalized` | pages/index.tsx:125-132 | Capitalised space-free words joined by single spaces are already formatted |
| `AuthorDisplay.ResolveAuthorImage` | pages/index.tsx:134-139 | A missing or placeholder image becomes the default picture, any other is kept, and the result is never a placeholder |
| `Text.ContainsInfix` | pages/index.tsx:448-459 | A string contains every infix of it |
| `Text.JoinInfix` | pages/index.tsx:448-459 | Each joined piece is an infix of the joined string |
| `Text.JoinSplit` | components/testimonials.tsx:19-27 | Splitting at a non-empty separator and joining with it gives the string back |
| `Text.SplitJoin` | components/AuthorCard.tsx:13 | Joining pieces that avoid a one-character separator and splitting again gives the pieces back |
| `Text.TrimBlank` | components/AuthorCard.tsx:31 | `trim()` gives "" exactly when the string is all whitespace |
| `Text.ReplaceSpaceRunsSingle` | lib/authorData.ts:77 | After `.replace(/\s+/g, " ")` no two spaces are adjacent and no other whitespace is left |
| `Text.UpperWordStartsIdempotent` | lib/authorData.ts:78 | Capitalising word starts twice is the same as once |
| `Text.StripTagsLeavesNoTag` | pages/index.tsx:352-353 | Removing `<...>` runs leaves no complete tag |
| `AuthorData.CommaSplitJoin` | lib/authorData.ts:74-75 | `split(",").join(" ")` replaces each comma by a space and changes nothing else |
| `AuthorData.NormalizeNameShape` | lib/authorData.ts:71-79 | A normalised name has no comma, no whitespace at either end and no doubled space. It is empty exactly when the name is all separators |
| `AuthorData.NormalizeNameCase` | lib/authorData.ts:78 | In a normalised name a letter is upper-case exactly when it starts a word |
| `AuthorData.LowerOfNormalized` | lib/authorData.ts:72-78 | Lower-casing a normalised name gives the string before capitalisation |
| `AuthorData.NormalizeNameIdempotent` | lib/authorData.ts:71-79 | Normalising twice is normalising once |
| `AuthorData.NormalizeNameIgnoresCaseAndSeparators` | lib/authorData.ts:72-77 | Names that differ only in letter case and in which separator, whitespace or comma, stands at each place normalise alike |
| `AuthorData.NormalizeNamePrefix` | lib/authorData.ts:71-79 | A name starting with a capital and a small letter keeps both at the front |
| `Authors.EntriesMap` | lib/authorData.ts:81-83 | Every stored value is an entry filed under its own normalised name |
| `Authors.EntriesMapLastWins` | lib/authorData.ts:81-83 | An entry that no later entry shares a key with is the value under its key |
| `Authors.EntriesMapKeys` | lib/authorData.ts:81-83 | The map's keys are exactly the entries' normalised names |
| `Authors.LookupSpec` | lib/authorData.ts:85-87 | A found entry's name normalises like the query. The lookup fails exactly when no entry does, and cannot tell apart names differing only in case or separators |
| `Authors.LookupOwnEntry` | lib/authorData.ts:81-87 | With distinct keys, looking up an entry's own name finds that entry |
| `AuthorTable.AuthorNameShape` | lib/authorData.ts:8-69 | Every table name starts with a capital letter followed by a small one |
| `AuthorTable.AuthorNamesStart` | lib/authorData.ts:8-69 | No two table names start with the same two characters |
| `AuthorTable.AuthorNameKeysDiffer` | lib/authorData.ts:8-69 | Any two table names normalise differently |
| `AuthorTable.AuthorKeysUnique` | lib/authorData.ts:8-69 | The table's normalised names are pairwise distinct |
| `AuthorTable.LookupOwnName` | lib/authorData.ts:81-87 | For every table entry, `getAuthorInfoByName(entry.name)` returns that entry |
| `AuthorCard.SpaceWords` | components/AuthorCard.tsx:12-14 | The words between single spaces, without the empty ones |
| `AuthorCard.UpperFirstLetters` | components/AuthorCard.tsx:15-16 | One letter per word, the upper-cased first character of that word |
| `AuthorCard.GetInitials` | components/AuthorCard.tsx:11-18 | At most two characters: the upper-cased first characters of the first two space-separated words, in order |
| `AuthorCard.InitialsOfBlank` | components/AuthorCard.tsx:11-18 | An empty or spaces-only name has no initials |
| `AuthorCard.InitialsOfWords` | components/AuthorCard.tsx:11-18 | For words joined by single spaces, the initials are the first letters of the first two words |
| `AuthorCard.HasAvatarSpec` | components/AuthorCard.tsx:27-31 | An avatar is shown iff the URL is none of "", "imag1", "image" and is not all whitespace. A shown avatar is also what the landing page keeps |
| `AuthorCard.DisplayBio` | components/AuthorCard.tsx:26 | A non-empty bio is kept. Otherwise the default sentence starts with "Articles by " and has the name's length plus the fixed text |
| `AuthorCard.DefaultBioNamesAuthor` | components/AuthorCard.tsx:26 | The default sentence is "Articles by ", the name, then " on testing, DevTools and more." |
| `TagsCard.GetTagSlug` | components/landing/landing-tags-card.tsx:24-27 | The slug is "" exactly for a missing name, and has no whitespace and no upper-case letter |
| `TagsCard.TagSlugOfRun` | components/landing/landing-tags-card.tsx:26 | A maximal whitespace run becomes exactly one "-" |
| `TagsCard.TagSlugOfChar` | components/landing/landing-tags-card.tsx:26 | Every other character is kept, in order, lower-cased |
| `TagsCard.TagSlugIdempotent` | components/landing/landing-tags-card.tsx:24-27 | A slug is its own slug |
| `TagsCard.ColorClass` | components/landing/landing-tags-card.tsx:49 | With a non-empty palette the colour is the palette entry at `index % length`, always in range; an empty palette gives none |
| `Testimonials.Interleave` | components/testimonials.tsx:21-27 | The `reduce` puts part k at position 2k and the k-th mention after it, with no mention after the last part |
| `Testimonials.InterleavingReadsBack` | components/testimonials.tsx:19-27 | Interleaved nodes read as the parts joined by "@keploy", with exactly parts-1 mentions |
| `Testimonials.ToTestimonial` | components/testimonials.tsx:18-37 | The id, name, avatar and post link are copied. Text with "@keploy" becomes the interleaving of its split, and other text passes through unchanged |
| `Testimonials.ToTestimonials` | components/testimonials.tsx:18-37 | One testimonial per tweet, in order, each made from its tweet |
| `Testimonials.FromTweetKeepsText` | components/testimonials.tsx:19-28 | The rendered card text is exactly the tweet text: mentions are highlighted, never added or lost |
| `Testimonials.SplitIndex` | components/testimonials.tsx:39 | The split index is ceil(n/2) |
| `Testimonials.RowsSplit` | components/testimonials.tsx:39-41 | The top row followed by the bottom row is the whole list, and the top row has ceil(n/2) cards, equal to the bottom row or one more |
| `Testimonials.ResolvedAvatar` | components/testimonials.tsx:46 | The default picture exactly for an empty, "imag1" or "image" avatar, and the avatar otherwise |
| `Sorting.SortByPermutes` | pages/index.tsx:383-394 | Sorting only reorders |
| `Sorting.SortBySorted` | pages/index.tsx:383-394 | With a total preorder the sorted list is in comparator order |
| `Sorting.SortByStable` | pages/index.tsx:383-394 | Posts the comparator ties keep their input order |
| `CommunityApi.PageSpec` | pages/api/community-posts.ts:16-19 | The page is always at least 1 and never NaN. A value of at least 1 (or +Infinity) is kept, and every other value (absent, unparsable, zero, negative, below 1) gives 1 |
| `CommunityApi.PageSizeSpec` | pages/api/community-posts.ts:17-20 | The page size is always finite and in [1, 50]. An absent, unparsable or zero value gives 18, and any other value is clamped into [1, 50] |
| `CommunityApi.Handle` | pages/api/community-posts.ts:15-30 | Mode "all" answers with the deduplicated posts and their count. Otherwise it asks for the normalised page and page size |
| `CommunityApi.AllModeSpec` | pages/api/community-posts.ts:5-13 | The "all" posts are an in-order subsequence with distinct non-empty slugs, one per slug, each the first occurrence. The total is the number of distinct non-empty slugs |

## Left out

- Markup and styling: every JSX tree, CSS class, `LandingFeaturedBlogCard`,
  `LandingCompactBlogCard` and the `LandingFilterSelect` drop-down with its
  document listener. `landing-latest-card.tsx` and `writer-program-card.tsx`
  are not part of this model.
- Network and CMS I/O: `getStaticProps`, `getAllCommunityPosts`,
  `getCommunityPostsByPage` and the JSON responses. The "all" request's posts
  are a parameter of `CommunityApi.Handle`, and the paged request is
  described by its page and page size.
- The API route's 500 response on a failed fetch. It depends on the fetch
  only.
- `CommunityApi.Handle`: `allPosts` is a sequence, standing for a list or
  `undefined`. The default `posts = []` in `dedupePosts` covers only
  `undefined`: a `null` list makes `posts.filter` throw, and the handler
  then answers 500. That answer is not modelled.
- `CommunityApi.ToNumber`: `Number()` on a query string is a parameter
  `parse`, so the page properties hold for every conversion. A fractional
  page such as 2.5 passes through, as in the source.
- `CommunityApi.JsNumber`: the sign of zero is not modelled, because `-0` and
  `0` are both falsy.
- Timers: the 4800, 350, 250 and 4500 ms intervals and timeouts are
  events. The carousel's pending timeouts are a list that fires in any order.
- Wall-clock time and date parsing: `now` is a parameter and post dates are
  integer timestamps. The day window compares `now - date` with
  `days * 86400000`, which is exact for integers.
- `localeCompare`: the collation order is the parameter `titleLe`.
  `LandingFeed.FilteredPostsSpec` and `LandingFeed.FilteredOrder` require it
  to be a total preorder.
- `LandingFeed.BrowseHeadingSpec` requires the date filter to be one the
  menu offers. A day count missing from `DATE_FILTERS` adds no phrase, so the
  heading could then read "All technology & community blogs" while a filter
  is active.
- Unicode: characters are ASCII, so `toLowerCase`, `toUpperCase`, `\s`, `\w`
  and `\b` use the ASCII tables.
- `calculateReadingTime`, `getExcerpt`, `sanitizeAuthorSlug`,
  `services/Tweets` and `lib/api` are not part of this model. The tweets are
  a parameter of `Testimonials.ToTestimonials`.
- The testimonial marquee: the rows are doubled for scrolling, and the pause
  flags are presentation only.
- React keys: the mention's key is kept as its position only.
- `TagsCard.ColorClass`: the default palette's entries are not proved
  pairwise distinct.
- `AuthorTable.GetAuthorInfoByName`: the source looks names up in a plain
  object. `__proto__` normalises to itself, because `\b\w` upper-cases
  only its first `_`. So the source returns `Object.prototype` for it,
  while the model returns `None`, as for every other name without an entry.

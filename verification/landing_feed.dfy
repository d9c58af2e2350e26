/**
 * The derived lists of the landing page (`pages/index.tsx`): the merged and
 * deduplicated feed, the "latest blogs" list, the cover-image lists, the
 * author options, the four ANDed browse filters with the selected sort, and
 * the heading that summarises the active filters.
 */
module LandingFeed {
  import opened Options
  import opened Seqs
  import opened Sorting
  import opened Text
  import opened Posts
  import opened AuthorDisplay

  datatype Collection = Technology | Community

  /** `Post & { __collection }`: a post tagged with the list it was fetched from. */
  datatype CategorizedPost = CategorizedPost(post: Post, collection: Collection)

  function Slug(p: CategorizedPost): string { p.post.slug }

  function Categorize(posts: seq<Post>, c: Collection): (r: seq<CategorizedPost>)
    ensures |r| == |posts|
    ensures forall i :: 0 <= i < |r| ==> r[i] == CategorizedPost(posts[i], c)
  {
    seq(|posts|, i requires 0 <= i < |posts| => CategorizedPost(posts[i], c))
  }

  // ---------------------------------------------------------------- the merged feed

  /** `dedupePosts` of the landing page. */
  method DedupePosts(posts: seq<CategorizedPost>) returns (r: seq<CategorizedPost>)
    ensures r == Deduped(posts, Slug)
    ensures IsSubseq(r, posts)
    ensures forall i :: 0 <= i < |r| ==> Slug(r[i]) != ""
    ensures UniqueKeys(r, Slug)
    ensures Keys(r, Slug) == Keys(posts, Slug) - {""}
    ensures forall i :: 0 <= i < |r| ==> FirstWithKey(posts, Slug(r[i]), Slug) == Some(r[i])
  {
    r := DedupeBySlug(posts, Slug);
    DedupedSpec(posts, Slug);
  }

  /** `allCategorizedPosts`: technology posts, then community posts, deduplicated by slug. */
  function AllPosts(tech: seq<Post>, comm: seq<Post>): seq<CategorizedPost>
  {
    Deduped(Categorize(tech, Technology) + Categorize(comm, Community), Slug)
  }

  /** A slug published in both lists stays a technology post: the feed holds a
      community post only when no technology post has its slug. */
  lemma TechnologyWinsDuplicates(tech: seq<Post>, comm: seq<Post>)
    ensures var r := AllPosts(tech, comm);
      forall i, j :: 0 <= i < |r| && 0 <= j < |tech| && r[i].collection == Community ==>
        r[i].post.slug != tech[j].slug
  {
    var t, c := Categorize(tech, Technology), Categorize(comm, Community);
    var r := AllPosts(tech, comm);
    DedupedSpec(t + c, Slug);
    forall i, j | 0 <= i < |r| && 0 <= j < |tech| && r[i].collection == Community
      ensures r[i].post.slug != tech[j].slug
    {
      if r[i].post.slug == tech[j].slug {
        FirstWithKeyPrefix(t, c, Slug(r[i]), Slug, j);
      }
    }
  }

  /** With a witness in `a`, the first element of `a + b` with key `k` comes from `a`. */
  lemma {:induction false} FirstWithKeyPrefix<T, K>(a: seq<T>, b: seq<T>, k: K, key: T -> K, j: nat)
    requires j < |a| && key(a[j]) == k
    ensures FirstWithKey(a + b, k, key) == FirstWithKey(a, k, key)
    ensures FirstWithKey(a, k, key).Some? && FirstWithKey(a, k, key).value in a
    decreases |b|
  {
    FirstWithKeyFound(a, k, key);
    if b == [] {
      assert a + b == a;
    } else {
      var b' := b[..|b| - 1];
      assert (a + b)[..|a + b| - 1] == a + b';
      FirstWithKeyPrefix(a, b', k, key, j);
    }
  }

  // ---------------------------------------------------------------- getCollectionFromPost

  /** Some category name lower-cases to "community". */
  function HasCommunityCategory(names: seq<string>): (b: bool)
    ensures b <==> exists i :: 0 <= i < |names| && ToLower(names[i]) == "community"
  {
    if names == [] then false
    else ToLower(names[0]) == "community" || HasCommunityCategory(names[1..])
  }

  /** `getCollectionFromPost(post)`: community exactly when the post exists and
      has a category named "community" in any letter case. */
  function CollectionOf(post: Option<Post>): (c: Collection)
    ensures c == Community <==>
      post.Some? && exists i :: 0 <= i < |post.value.categoryNames| && ToLower(post.value.categoryNames[i]) == "community"
  {
    if post.Some? && HasCommunityCategory(post.value.categoryNames) then Community else Technology
  }

  // ---------------------------------------------------------------- combinedLatest

  function PostHasSlug(p: Post): bool { p.slug != "" }

  /** The comparator `date(b) - date(a)`: `a` may precede `b` when it is not older. */
  function NewestFirst(a: Post, b: Post): bool { a.date >= b.date }

  /** `combinedLatest`: the six newest posts with a slug, from both lists. */
  function CombinedLatest(tech: seq<Post>, comm: seq<Post>): seq<Post>
  {
    var s := SortBy(Filter(tech + comm, PostHasSlug), NewestFirst);
    s[..Min(6, |s|)]
  }

  /** The latest list holds min(6, n) of the n slugged posts, each at most as
      often as it occurs among them, newest first, and no slugged post it
      leaves out is newer than one it shows. */
  lemma CombinedLatestSpec(tech: seq<Post>, comm: seq<Post>)
    ensures var r := CombinedLatest(tech, comm);
      var merged := tech + comm;
      && |r| == Min(6, |Filter(merged, PostHasSlug)|)
      && multiset(r) <= multiset(Filter(merged, PostHasSlug))
      && (forall i :: 0 <= i < |r| ==> r[i].slug != "" && r[i] in merged)
      && (forall i, j :: 0 <= i < j < |r| ==> r[i].date >= r[j].date)
      && (forall i, j :: 0 <= i < |merged| && 0 <= j < |r| && merged[i].slug != "" && merged[i] !in r ==>
            r[j].date >= merged[i].date)
  {
    var merged := tech + comm;
    var f := Filter(merged, PostHasSlug);
    var s := SortBy(f, NewestFirst);
    SortByPermutes(f, NewestFirst);
    assert TotalPreorder(NewestFirst);
    SortBySorted(f, NewestFirst);
    TopLength(f, s);
    TopSubMultiset(f, s);
    TopMembers(merged, f, s);
    TopLeftOut(merged, f, s);
  }

  // The four facts about the first six of a newest-first permutation `s` of
  // the slugged posts `f`, one lemma each to keep every proof small.

  lemma TopLength(f: seq<Post>, s: seq<Post>)
    requires multiset(s) == multiset(f)
    ensures |s[..Min(6, |s|)]| == Min(6, |f|)
  {
    assert |s| == |f| by {
      assert |multiset(s)| == |multiset(f)|;
    }
  }

  lemma TopSubMultiset(f: seq<Post>, s: seq<Post>)
    requires multiset(s) == multiset(f)
    ensures multiset(s[..Min(6, |s|)]) <= multiset(f)
  {
    var k := Min(6, |s|);
    assert s == s[..k] + s[k..];
    assert multiset(s) == multiset(s[..k]) + multiset(s[k..]);
  }

  lemma TopMembers(merged: seq<Post>, f: seq<Post>, s: seq<Post>)
    requires f == Filter(merged, PostHasSlug) && multiset(s) == multiset(f)
    ensures var r := s[..Min(6, |s|)];
      forall i :: 0 <= i < |r| ==> r[i].slug != "" && r[i] in merged
  {
    var r := s[..Min(6, |s|)];
    forall i | 0 <= i < |r| ensures r[i].slug != "" && r[i] in merged {
      FilterMembers(merged, PostHasSlug);
      PermutationMember(s, f, i);
    }
  }

  lemma TopLeftOut(merged: seq<Post>, f: seq<Post>, s: seq<Post>)
    requires f == Filter(merged, PostHasSlug)
    requires multiset(s) == multiset(f) && Sorted(s, NewestFirst)
    ensures var r := s[..Min(6, |s|)];
      forall i, j :: 0 <= i < |merged| && 0 <= j < |r| && merged[i].slug != "" && merged[i] !in r ==>
        r[j].date >= merged[i].date
  {
    var r := s[..Min(6, |s|)];
    forall i, j | 0 <= i < |merged| && 0 <= j < |r| && merged[i].slug != "" && merged[i] !in r
      ensures r[j].date >= merged[i].date
    {
      MergedLeftOutIsOlder(merged, f, s, merged[i], j);
    }
  }

  /** One post with a slug that did not make the first six. */
  lemma MergedLeftOutIsOlder(merged: seq<Post>, f: seq<Post>, s: seq<Post>, x: Post, j: nat)
    requires f == Filter(merged, PostHasSlug)
    requires multiset(s) == multiset(f) && Sorted(s, NewestFirst)
    requires x in merged && x.slug != "" && j < Min(6, |s|) && x !in s[..Min(6, |s|)]
    ensures s[j].date >= x.date
  {
    FilterMembers(merged, PostHasSlug);
    PermutationHas(s, f, x);
    LeftOutIsOlder(x, s, j);
  }

  lemma PermutationMember<T>(s: seq<T>, f: seq<T>, i: nat)
    requires multiset(s) == multiset(f) && i < |s|
    ensures s[i] in f
  {
    assert s[i] in multiset(s);
  }

  lemma PermutationHas<T>(s: seq<T>, f: seq<T>, x: T)
    requires multiset(s) == multiset(f) && x in f
    ensures x in s
  {
    assert x in multiset(f);
  }

  /** In a newest-first list, an element past the first six is not newer than any of them. */
  lemma LeftOutIsOlder(x: Post, s: seq<Post>, j: nat)
    requires Sorted(s, NewestFirst)
    requires x in s && j < Min(6, |s|) && x !in s[..Min(6, |s|)]
    ensures s[j].date >= x.date
  {
    var k :| 0 <= k < |s| && s[k] == x;
    assert k >= Min(6, |s|);
    assert NewestFirst(s[j], s[k]);
  }

  // ---------------------------------------------------------------- cover images

  function CoverImages(posts: seq<Post>): (r: seq<string>)
    ensures |r| == |posts| && forall i :: 0 <= i < |r| ==> r[i] == posts[i].coverImage
  {
    seq(|posts|, i requires 0 <= i < |posts| => posts[i].coverImage)
  }

  function NonEmpty(s: string): bool { s != "" }

  /** `technologyImageUrls` / `communityImageUrls`: the first ten non-empty cover-image URLs, in post order. */
  function ImageUrls(posts: seq<Post>): (r: seq<string>)
    ensures |r| == Min(10, |Filter(CoverImages(posts), NonEmpty)|)
    ensures r <= Filter(CoverImages(posts), NonEmpty)
    ensures forall i :: 0 <= i < |r| ==> r[i] != "" && exists j :: 0 <= j < |posts| && posts[j].coverImage == r[i]
  {
    var u := Filter(CoverImages(posts), NonEmpty);
    FilterMembers(CoverImages(posts), NonEmpty);
    u[..Min(10, |u|)]
  }

  // ---------------------------------------------------------------- author options

  /** `post.ppmaAuthorName || "Anonymous"`. */
  function AuthorLabel(p: Post): (r: string)
    ensures r != ""
  {
    if p.authorName == "" then ANONYMOUS else p.authorName
  }

  function Identity(s: string): string { s }

  function AuthorLabels(posts: seq<CategorizedPost>): (r: seq<string>)
    ensures |r| == |posts| && forall i :: 0 <= i < |r| ==> r[i] == AuthorLabel(posts[i].post)
  {
    seq(|posts|, i requires 0 <= i < |posts| => AuthorLabel(posts[i].post))
  }

  /** `authors`: "all" followed by each author label once, in order of first appearance. */
  function AuthorOptions(posts: seq<CategorizedPost>): (r: seq<string>)
    ensures |r| >= 1 && r[0] == "all" && r[1..] == Distinct(AuthorLabels(posts), Identity)
  {
    ["all"] + Distinct(AuthorLabels(posts), Identity)
  }

  /** The author menu lists no label twice and offers exactly the labels of the posts. */
  lemma AuthorOptionsSpec(posts: seq<CategorizedPost>)
    ensures UniqueKeys(AuthorOptions(posts)[1..], Identity)
    ensures forall i :: 0 <= i < |posts| ==> AuthorLabel(posts[i].post) in AuthorOptions(posts)[1..]
    ensures forall k :: 1 <= k < |AuthorOptions(posts)| ==>
      exists i :: 0 <= i < |posts| && AuthorLabel(posts[i].post) == AuthorOptions(posts)[k]
  {
    DistinctSpec(AuthorLabels(posts), Identity);
    AuthorOptionsComplete(posts);
    AuthorOptionsSound(posts);
  }

  lemma AuthorOptionsComplete(posts: seq<CategorizedPost>)
    ensures forall i :: 0 <= i < |posts| ==> AuthorLabel(posts[i].post) in AuthorOptions(posts)[1..]
  {
    var labels := AuthorLabels(posts);
    var d := Distinct(labels, Identity);
    DistinctSpec(labels, Identity);
    forall i | 0 <= i < |posts| ensures AuthorLabel(posts[i].post) in d {
      assert Identity(labels[i]) in Keys(labels, Identity);
      var j :| 0 <= j < |d| && Identity(d[j]) == Identity(labels[i]);
    }
  }

  lemma AuthorOptionsSound(posts: seq<CategorizedPost>)
    ensures forall k :: 1 <= k < |AuthorOptions(posts)| ==>
      exists i :: 0 <= i < |posts| && AuthorLabel(posts[i].post) == AuthorOptions(posts)[k]
  {
    var labels := AuthorLabels(posts);
    var d := Distinct(labels, Identity);
    var r := AuthorOptions(posts);
    DistinctSpec(labels, Identity);
    forall k | 1 <= k < |r| ensures exists i :: 0 <= i < |posts| && AuthorLabel(posts[i].post) == r[k] {
      assert r[k] == d[k - 1];
      assert Identity(d[k - 1]) in Keys(d, Identity);
      var i :| 0 <= i < |labels| && Identity(labels[i]) == Identity(d[k - 1]);
    }
  }

  // ---------------------------------------------------------------- filters and sort

  const MS_PER_DAY := 86400000

  datatype DateFilter = AnyDate | WithinDays(days: nat)
  datatype CollectionFilter = AllCollections | OnlyCollection(collection: Collection)
  datatype SortOption = Newest | Oldest | TitleAsc | TitleDesc

  /** The five browse controls. */
  datatype Filters = Filters(
    search: string,          // searchTerm
    author: string,          // selectedAuthor, "all" for every author
    date: DateFilter,        // dateFilter
    sort: SortOption,        // sortOption
    collection: CollectionFilter)

  const DEFAULT_FILTERS := Filters("", "all", AnyDate, Newest, AllCollections)

  /** `normalize(value)`: markup removed, then lower-cased. */
  function NormalizeMarkup(v: string): string
  {
    ToLower(StripTags(v))
  }

  predicate MatchesSearch(p: CategorizedPost, term: string)
  {
    var q := ToLower(term);
    q == "" || Contains(NormalizeMarkup(p.post.title), q) || Contains(NormalizeMarkup(p.post.excerpt), q)
  }

  predicate MatchesAuthor(p: CategorizedPost, author: string)
  {
    author == "all" || AuthorLabel(p.post) == author
  }

  /** The day window, on integer milliseconds: `(now - date) / day <= days`. */
  predicate MatchesDate(p: CategorizedPost, f: DateFilter, now: int)
  {
    f.AnyDate? || now - p.post.date <= f.days * MS_PER_DAY
  }

  predicate MatchesCollection(p: CategorizedPost, f: CollectionFilter)
  {
    f.AllCollections? || p.collection == f.collection
  }

  function SearchFilter(term: string): CategorizedPost -> bool { p => MatchesSearch(p, term) }
  function AuthorFilter(author: string): CategorizedPost -> bool { p => MatchesAuthor(p, author) }
  function DateWindow(f: DateFilter, now: int): CategorizedPost -> bool { p => MatchesDate(p, f, now) }
  function CollectionOnly(f: CollectionFilter): CategorizedPost -> bool { p => MatchesCollection(p, f) }

  /** The four filters ANDed. */
  function Matches(f: Filters, now: int): CategorizedPost -> bool
  {
    And(And(And(SearchFilter(f.search), AuthorFilter(f.author)), DateWindow(f.date, now)), CollectionOnly(f.collection))
  }

  /** The sort comparator read as "`a` may precede `b`"; `titleLe` is `localeCompare(a, b) <= 0`. */
  function SortLe(opt: SortOption, titleLe: (string, string) -> bool): (CategorizedPost, CategorizedPost) -> bool
  {
    match opt
    case Newest => (a: CategorizedPost, b: CategorizedPost) => a.post.date >= b.post.date
    case Oldest => (a: CategorizedPost, b: CategorizedPost) => a.post.date <= b.post.date
    case TitleAsc => (a: CategorizedPost, b: CategorizedPost) => titleLe(a.post.title, b.post.title)
    case TitleDesc => (a: CategorizedPost, b: CategorizedPost) => titleLe(b.post.title, a.post.title)
  }

  /** `filteredPosts`: the four filters applied one after the other, then the stable sort. */
  function FilteredPosts(posts: seq<CategorizedPost>, f: Filters, now: int, titleLe: (string, string) -> bool): seq<CategorizedPost>
  {
    var searched := Filter(posts, SearchFilter(f.search));
    var byAuthor := Filter(searched, AuthorFilter(f.author));
    var byDate := Filter(byAuthor, DateWindow(f.date, now));
    var byCollection := Filter(byDate, CollectionOnly(f.collection));
    SortBy(byCollection, SortLe(f.sort, titleLe))
  }

  /** The filter chain keeps exactly the posts that pass all four filters, in input order. */
  lemma FilterChain(posts: seq<CategorizedPost>, f: Filters, now: int)
    ensures Filter(Filter(Filter(Filter(posts, SearchFilter(f.search)), AuthorFilter(f.author)),
                          DateWindow(f.date, now)), CollectionOnly(f.collection))
         == Filter(posts, Matches(f, now))
  {
    var s, a, d, c := SearchFilter(f.search), AuthorFilter(f.author), DateWindow(f.date, now), CollectionOnly(f.collection);
    FilterFilter(posts, s, a);
    FilterFilter(posts, And(s, a), d);
    FilterFilter(posts, And(And(s, a), d), c);
  }

  lemma SortLeTotal(opt: SortOption, titleLe: (string, string) -> bool)
    requires TotalPreorder(titleLe)
    ensures TotalPreorder(SortLe(opt, titleLe))
  {
    var le := SortLe(opt, titleLe);
    forall a: CategorizedPost, b: CategorizedPost ensures le(a, b) || le(b, a) {
      assert titleLe(a.post.title, b.post.title) || titleLe(b.post.title, a.post.title);
    }
    forall a: CategorizedPost, b: CategorizedPost, c: CategorizedPost | le(a, b) && le(b, c) ensures le(a, c) {
      if opt == TitleAsc {
        assert titleLe(a.post.title, b.post.title) && titleLe(b.post.title, c.post.title);
      } else if opt == TitleDesc {
        assert titleLe(c.post.title, b.post.title) && titleLe(b.post.title, a.post.title);
      }
    }
  }

  /** What `filteredPosts` promises: a post is listed exactly when it is in the
      feed and passes all four filters, each as often as in the matching
      sub-list (a permutation of it), in the order of the selected sort, with
      posts the comparator ties keeping their feed order. */
  lemma FilteredPostsSpec(posts: seq<CategorizedPost>, f: Filters, now: int, titleLe: (string, string) -> bool)
    requires TotalPreorder(titleLe)
    ensures multiset(FilteredPosts(posts, f, now, titleLe)) == multiset(Filter(posts, Matches(f, now)))
    ensures forall x :: x in FilteredPosts(posts, f, now, titleLe) <==>
      (x in posts && MatchesSearch(x, f.search) && MatchesAuthor(x, f.author)
       && MatchesDate(x, f.date, now) && MatchesCollection(x, f.collection))
    ensures Sorted(FilteredPosts(posts, f, now, titleLe), SortLe(f.sort, titleLe))
    ensures forall y :: Filter(FilteredPosts(posts, f, now, titleLe), EquivTo(SortLe(f.sort, titleLe), y))
                     == Filter(Filter(posts, Matches(f, now)), EquivTo(SortLe(f.sort, titleLe), y))
  {
    var le := SortLe(f.sort, titleLe);
    var m := Filter(posts, Matches(f, now));
    FilterChain(posts, f, now);
    SortByPermutes(m, le);
    SortLeTotal(f.sort, titleLe);
    SortBySorted(m, le);
    FilteredMembers(posts, f, now, titleLe);
    forall y ensures Filter(SortBy(m, le), EquivTo(le, y)) == Filter(m, EquivTo(le, y)) {
      SortByStable(m, le, y);
    }
  }

  lemma FilteredMembers(posts: seq<CategorizedPost>, f: Filters, now: int, titleLe: (string, string) -> bool)
    ensures forall x :: x in FilteredPosts(posts, f, now, titleLe) <==>
      (x in posts && MatchesSearch(x, f.search) && MatchesAuthor(x, f.author)
       && MatchesDate(x, f.date, now) && MatchesCollection(x, f.collection))
  {
    var p := Matches(f, now);
    var m := Filter(posts, p);
    var r := FilteredPosts(posts, f, now, titleLe);
    FilteredIsSortedMatches(posts, f, now, titleLe);
    SortByPermutes(m, SortLe(f.sort, titleLe));
    SameMembers(r, m);
    FilterMembers(posts, p);
    forall x ensures x in r <==> (x in posts && MatchesSearch(x, f.search) && MatchesAuthor(x, f.author)
                                  && MatchesDate(x, f.date, now) && MatchesCollection(x, f.collection)) {
      MatchesHolds(f, now, x);
    }
  }

  lemma FilteredIsSortedMatches(posts: seq<CategorizedPost>, f: Filters, now: int, titleLe: (string, string) -> bool)
    ensures FilteredPosts(posts, f, now, titleLe) == SortBy(Filter(posts, Matches(f, now)), SortLe(f.sort, titleLe))
  {
    FilterChain(posts, f, now);
  }

  lemma MatchesHolds(f: Filters, now: int, x: CategorizedPost)
    ensures Matches(f, now)(x) <==> MatchesSearch(x, f.search) && MatchesAuthor(x, f.author)
                                    && MatchesDate(x, f.date, now) && MatchesCollection(x, f.collection)
  {
  }

  lemma SameMembers<T>(a: seq<T>, b: seq<T>)
    requires multiset(a) == multiset(b)
    ensures forall x :: x in a <==> x in b
  {
    forall x ensures x in a <==> x in b {
      assert x in a <==> x in multiset(a);
      assert x in b <==> x in multiset(b);
    }
  }

  /** The selected sort, spelled out: newest or oldest date first, or title order either way. */
  lemma FilteredOrder(posts: seq<CategorizedPost>, f: Filters, now: int, titleLe: (string, string) -> bool)
    requires TotalPreorder(titleLe)
    ensures var r := FilteredPosts(posts, f, now, titleLe);
      && (f.sort == Newest ==> forall i, j :: 0 <= i < j < |r| ==> r[i].post.date >= r[j].post.date)
      && (f.sort == Oldest ==> forall i, j :: 0 <= i < j < |r| ==> r[i].post.date <= r[j].post.date)
      && (f.sort == TitleAsc ==> forall i, j :: 0 <= i < j < |r| ==> titleLe(r[i].post.title, r[j].post.title))
      && (f.sort == TitleDesc ==> forall i, j :: 0 <= i < j < |r| ==> titleLe(r[j].post.title, r[i].post.title))
  {
    var le := SortLe(f.sort, titleLe);
    SortLeTotal(f.sort, titleLe);
    SortBySorted(Filter(Filter(Filter(Filter(posts, SearchFilter(f.search)), AuthorFilter(f.author)),
                          DateWindow(f.date, now)), CollectionOnly(f.collection)), le);
  }

  // ---------------------------------------------------------------- heading

  /** `filtersActive`. */
  predicate FiltersActive(f: Filters)
  {
    Trim(f.search) != "" || f.author != "all" || !f.date.AnyDate? || f.sort != Newest || !f.collection.AllCollections?
  }

  /** `DATE_FILTERS.find(...)?.label` for a day count. */
  function DateLabel(days: nat): Option<string>
  {
    if days == 7 then Some("Last 7 days")
    else if days == 30 then Some("Last 30 days")
    else if days == 365 then Some("Last year")
    else None
  }

  function SortLabel(opt: SortOption): string
  {
    match opt
    case Newest => "Newest first"
    case Oldest => "Oldest first"
    case TitleAsc => "Title A → Z"
    case TitleDesc => "Title Z → A"
  }

  function CollectionName(c: Collection): string
  {
    if c == Technology then "technology" else "community"
  }

  function AuthorPhrase(author: string): string { "author: " + author }
  function CollectionPhrase(c: Collection): string { "collection: " + CollectionName(c) }
  function DatePhrase(dateLabel: string): string { "date: " + ToLower(dateLabel) }
  function SortPhrase(opt: SortOption): string { "sorted " + ToLower(SortLabel(opt)) }

  /** `filterParts`: one phrase per non-default control, in the order author, collection, date, sort. */
  function FilterParts(f: Filters): seq<string>
  {
    AuthorRun(f) + CollectionRun(f) + DateRun(f) + SortRun(f)
  }

  function AuthorRun(f: Filters): seq<string>
  {
    if f.author != "all" then [AuthorPhrase(f.author)] else []
  }

  function CollectionRun(f: Filters): seq<string>
  {
    if !f.collection.AllCollections? then [CollectionPhrase(f.collection.collection)] else []
  }

  function DateRun(f: Filters): seq<string>
  {
    if !f.date.AnyDate? && DateLabel(f.date.days).Some? then [DatePhrase(DateLabel(f.date.days).value)] else []
  }

  function SortRun(f: Filters): seq<string>
  {
    if f.sort != Newest then [SortPhrase(f.sort)] else []
  }

  const ALL_BLOGS_HEADING := "All technology & community blogs"

  /** `browseHeading`. */
  function BrowseHeading(f: Filters): string
  {
    Heading(Trim(f.search), FilterParts(f))
  }

  /** The heading for a trimmed search term `t` and the active filters' phrases. */
  function Heading(t: string, parts: seq<string>): string
  {
    if t != "" then
      if parts != [] then "Search results for “" + t + "” (" + Join(parts, ", ") + ")"
      else "Search results for “" + t + "”"
    else if parts != [] then "Filtered blogs (" + Join(parts, ", ") + ")"
    else ALL_BLOGS_HEADING
  }

  /** A date filter the menu offers. */
  predicate OfferedDate(d: DateFilter)
  {
    d.AnyDate? || d.days == 7 || d.days == 30 || d.days == 365
  }

  /** The heading reads "All technology & community blogs" exactly when no
      filter is active; with a search term it names the trimmed term, and
      otherwise an active filter gives the "Filtered blogs (...)" form. */
  lemma BrowseHeadingSpec(f: Filters)
    requires OfferedDate(f.date)
    ensures BrowseHeading(f) == ALL_BLOGS_HEADING <==> !FiltersActive(f)
    ensures Trim(f.search) != "" ==> "Search results for “" + Trim(f.search) + "”" <= BrowseHeading(f)
    ensures (Trim(f.search) == "" && FiltersActive(f)) ==> "Filtered blogs (" <= BrowseHeading(f)
  {
    FilterPartsEmpty(f);
    HeadingForms(Trim(f.search), FilterParts(f));
    var h := BrowseHeading(f);
    if Trim(f.search) != "" {
      assert h[0] == 'S';
    } else if FiltersActive(f) {
      assert h[0] == 'F';
    }
  }

  /** The control a heading phrase describes, read off its opening words:
      0 author, 1 collection, 2 date, 3 sort. */
  function PhraseControl(p: string): nat
  {
    if "author: " <= p then 0
    else if "collection: " <= p then 1
    else if "date: " <= p then 2
    else 3
  }

  /** Each phrase names its own control. */
  lemma PhraseControls(author: string, c: Collection, dateLabel: string, opt: SortOption)
    ensures PhraseControl(AuthorPhrase(author)) == 0
    ensures PhraseControl(CollectionPhrase(c)) == 1
    ensures PhraseControl(DatePhrase(dateLabel)) == 2
    ensures PhraseControl(SortPhrase(opt)) == 3
  {
    assert "author: " <= AuthorPhrase(author);
    var cp, dp, sp := CollectionPhrase(c), DatePhrase(dateLabel), SortPhrase(opt);
    assert cp[0] == 'c' && "collection: " <= cp;
    assert dp[0] == 'd' && "date: " <= dp;
    assert sp[0] == 's';
  }

  /** Four runs of at most one phrase each, for the controls 0, 1, 2 and 3,
      list their controls in increasing order. */
  lemma RunsInOrder(a: seq<string>, c: seq<string>, d: seq<string>, s: seq<string>)
    requires |a| <= 1 && |c| <= 1 && |d| <= 1 && |s| <= 1
    requires (forall p :: p in a ==> PhraseControl(p) == 0) && (forall p :: p in c ==> PhraseControl(p) == 1)
    requires (forall p :: p in d ==> PhraseControl(p) == 2) && (forall p :: p in s ==> PhraseControl(p) == 3)
    ensures var parts := a + c + d + s;
      forall i, j :: 0 <= i < j < |parts| ==> PhraseControl(parts[i]) < PhraseControl(parts[j])
  {
    var parts := a + c + d + s;
    forall i | 0 <= i < |parts|
      ensures PhraseControl(parts[i]) == (if i < |a| then 0 else if i < |a| + |c| then 1 else if i < |a| + |c| + |d| then 2 else 3)
    {
      if i < |a| { assert parts[i] == a[i]; }
      else if i < |a| + |c| { assert parts[i] == c[i - |a|]; }
      else if i < |a| + |c| + |d| { assert parts[i] == d[i - |a| - |c|]; }
      else { assert parts[i] == s[i - |a| - |c| - |d|]; }
    }
  }

  /** Each non-default control contributes its own phrase, one phrase per
      control and nothing else, in the order author, collection, date, sort. */
  lemma FilterPartsSpec(f: Filters)
    requires OfferedDate(f.date)
    ensures var parts := FilterParts(f);
      && (f.author != "all" ==> AuthorPhrase(f.author) in parts)
      && (f.collection.OnlyCollection? ==> CollectionPhrase(f.collection.collection) in parts)
      && (f.date.WithinDays? ==> DatePhrase(DateLabel(f.date.days).value) in parts)
      && (f.sort != Newest ==> SortPhrase(f.sort) in parts)
      && |parts| == (if f.author != "all" then 1 else 0) + (if f.collection.OnlyCollection? then 1 else 0)
                    + (if f.date.WithinDays? then 1 else 0) + (if f.sort != Newest then 1 else 0)
      && forall i, j :: 0 <= i < j < |parts| ==> PhraseControl(parts[i]) < PhraseControl(parts[j])
  {
    FilterPartsOrder(f);
  }

  lemma FilterPartsOrder(f: Filters)
    ensures var parts := FilterParts(f);
      forall i, j :: 0 <= i < j < |parts| ==> PhraseControl(parts[i]) < PhraseControl(parts[j])
  {
    var a, c, d, s := AuthorRun(f), CollectionRun(f), DateRun(f), SortRun(f);
    PhraseControls(f.author, if c == [] then Technology else f.collection.collection,
      if d == [] then "" else DateLabel(f.date.days).value, f.sort);
    RunsInOrder(a, c, d, s);
  }

  /** The heading for a term `t` and a phrase list includes every phrase. */
  lemma HeadingContainsPart(t: string, parts: seq<string>, k: int)
    requires 0 <= k < |parts|
    ensures Contains(Heading(t, parts), parts[k])
  {
    var pre, post := JoinInfix(parts, ", ", k);
    var lead := if t != "" then "Search results for “" + t + "” (" else "Filtered blogs (";
    var j := Join(parts, ", ");
    assert Heading(t, parts) == lead + j + ")";
    assert lead + j + ")" == (lead + pre) + parts[k] + (post + ")");
    ContainsInfix(lead + pre, parts[k], post + ")");
  }

  /** Every active filter's phrase appears in the heading. */
  lemma HeadingListsParts(f: Filters)
    ensures forall p :: p in FilterParts(f) ==> Contains(BrowseHeading(f), p)
  {
    var parts := FilterParts(f);
    forall p | p in parts ensures Contains(BrowseHeading(f), p) {
      var k :| 0 <= k < |parts| && parts[k] == p;
      HeadingContainsPart(Trim(f.search), parts, k);
    }
  }

  /** No phrase is listed exactly when every control but the search box is at its default. */
  lemma FilterPartsEmpty(f: Filters)
    requires OfferedDate(f.date)
    ensures FilterParts(f) == [] <==>
      (f.author == "all" && f.collection.AllCollections? && f.date.AnyDate? && f.sort == Newest)
  {
  }

  lemma HeadingForms(t: string, parts: seq<string>)
    ensures t != "" ==> "Search results for “" + t + "”" <= Heading(t, parts)
    ensures (t == "" && parts != []) ==> "Filtered blogs (" <= Heading(t, parts)
  {
    if t != "" && parts != [] {
      var lead := "Search results for “" + t + "”";
      assert Heading(t, parts) == lead + (" (" + Join(parts, ", ") + ")");
    } else if t == "" && parts != [] {
      assert Heading(t, parts) == "Filtered blogs (" + (Join(parts, ", ") + ")");
    }
  }
}

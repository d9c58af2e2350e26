/**
 * The community-posts API route (`pages/api/community-posts.ts`): reading the
 * `page`, `first` and `mode` query parameters, and the "all" mode that returns
 * every community post once per slug together with their count.
 *
 * The CMS requests are outside the model: the posts the "all" request returns
 * are a parameter, and the paged request is described by the page and page
 * size it would be made with.
 */
module CommunityApi {
  import opened Options
  import opened Seqs
  import opened Posts

  /** A query parameter: absent, given once, or given several times (an array). */
  datatype QueryValue = Missing | Single(value: string) | Repeated(values: seq<string>)

  datatype Query = Query(page: QueryValue, first: QueryValue, mode: QueryValue)

  /** `Array.isArray(q) ? q[0] : q`: an empty array gives `undefined` (`None`). */
  function FirstValue(q: QueryValue): Option<string>
  {
    match q
    case Missing => None
    case Single(v) => Some(v)
    case Repeated(vs) => if vs == [] then None else Some(vs[0])
  }

  // ---------------------------------------------------------------- JavaScript numbers

  /** A JavaScript number, without the sign of zero. */
  datatype JsNumber = NaN | Finite(value: real) | Infinite(positive: bool)

  /** `NaN` and zero are falsy; every other number is truthy. */
  predicate Truthy(n: JsNumber)
  {
    !n.NaN? && n != Finite(0.0)
  }

  /** `a <= b` on numbers that are not `NaN`. */
  predicate AtMost(a: JsNumber, b: JsNumber)
    requires !a.NaN? && !b.NaN?
  {
    match (a, b)
    case (Infinite(p), Infinite(q)) => !p || q
    case (Infinite(p), _) => !p
    case (_, Infinite(q)) => q
    case (Finite(x), Finite(y)) => x <= y
  }

  /** `Math.max(a, b)`. */
  function Max(a: JsNumber, b: JsNumber): JsNumber
  {
    if a.NaN? || b.NaN? then NaN else if AtMost(a, b) then b else a
  }

  /** `Math.min(a, b)`. */
  function Min(a: JsNumber, b: JsNumber): JsNumber
  {
    if a.NaN? || b.NaN? then NaN else if AtMost(a, b) then a else b
  }

  /** `Number(v)`. The string conversion is the platform's and is a parameter;
      `Number(undefined)` is `NaN`. */
  function ToNumber(v: Option<string>, parse: string -> JsNumber): JsNumber
  {
    if v.None? then NaN else parse(v.value)
  }

  /** `n || d` for a number `n` and a default `d`. */
  function OrDefault(n: JsNumber, d: real): JsNumber
  {
    if Truthy(n) then n else Finite(d)
  }

  // ---------------------------------------------------------------- page and page size

  const DEFAULT_PAGE_SIZE: real := 18.0
  const MAX_PAGE_SIZE: real := 50.0

  /** `Math.max(1, Number(pageParam) || 1)`. */
  function Page(q: QueryValue, parse: string -> JsNumber): JsNumber
  {
    Max(Finite(1.0), OrDefault(ToNumber(FirstValue(q), parse), 1.0))
  }

  /** `Math.max(1, Math.min(Number(firstParam) || 18, 50))`. */
  function PageSize(q: QueryValue, parse: string -> JsNumber): JsNumber
  {
    Max(Finite(1.0), Min(OrDefault(ToNumber(FirstValue(q), parse), DEFAULT_PAGE_SIZE), Finite(MAX_PAGE_SIZE)))
  }

  /** Whatever the query holds, the page is a number of at least 1; a value of
      at least 1 is taken as it is, and every other value (absent, unparsable,
      zero, negative or below 1) gives page 1. */
  lemma PageSpec(q: QueryValue, parse: string -> JsNumber)
    ensures var page := Page(q, parse);
      page == Infinite(true) || (page.Finite? && page.value >= 1.0)
    ensures var n := ToNumber(FirstValue(q), parse);
      !Truthy(n) ==> Page(q, parse) == Finite(1.0)
    ensures var n := ToNumber(FirstValue(q), parse);
      (n == Infinite(true) || (n.Finite? && n.value >= 1.0)) ==> Page(q, parse) == n
    ensures var n := ToNumber(FirstValue(q), parse);
      Truthy(n) && !(n == Infinite(true) || (n.Finite? && n.value >= 1.0)) ==> Page(q, parse) == Finite(1.0)
  {
  }

  /** Whatever the query holds, the page size is a finite number from 1 to 50;
      an absent, unparsable or zero value gives 18, and any other value is
      clamped into that range. */
  lemma PageSizeSpec(q: QueryValue, parse: string -> JsNumber)
    ensures var size := PageSize(q, parse);
      size.Finite? && 1.0 <= size.value <= MAX_PAGE_SIZE
    ensures var n := ToNumber(FirstValue(q), parse);
      !Truthy(n) ==> PageSize(q, parse) == Finite(DEFAULT_PAGE_SIZE)
    ensures var n := ToNumber(FirstValue(q), parse);
      n.Finite? && n.value != 0.0 ==>
        PageSize(q, parse) == Finite(if n.value < 1.0 then 1.0 else if n.value > MAX_PAGE_SIZE then MAX_PAGE_SIZE else n.value)
    ensures var n := ToNumber(FirstValue(q), parse);
      n.Infinite? ==> PageSize(q, parse) == Finite(if n.positive then MAX_PAGE_SIZE else 1.0)
  {
  }

  // ---------------------------------------------------------------- the handler

  function PostSlug(p: Post): string { p.slug }

  /** The answer: every post in "all" mode, otherwise the page the CMS is asked for. */
  datatype Response =
    | AllPosts(posts: seq<Post>, total: nat)
    | PageRequest(page: JsNumber, pageSize: JsNumber)

  /** `handler` without the CMS calls and the error path: `allPosts` is what
      `getAllCommunityPosts` returns. */
  method Handle(query: Query, allPosts: seq<Post>, parse: string -> JsNumber) returns (r: Response)
    ensures r.AllPosts? <==> FirstValue(query.mode) == Some("all")
    ensures r.AllPosts? ==> r.posts == Deduped(allPosts, PostSlug) && r.total == |r.posts|
    ensures r.PageRequest? ==> r.page == Page(query.page, parse) && r.pageSize == PageSize(query.first, parse)
  {
    var page := Page(query.page, parse);
    var pageSize := PageSize(query.first, parse);
    if FirstValue(query.mode) == Some("all") {
      var unique := DedupeBySlug(allPosts, PostSlug);
      return AllPosts(unique, |unique|);
    }
    r := PageRequest(page, pageSize);
  }

  /** In "all" mode the posts are an in-order selection of the fetched posts
      with distinct, non-empty slugs, one for every slug that occurs, each the
      first post with its slug; the total counts them. */
  lemma AllModeSpec(allPosts: seq<Post>, posts: seq<Post>, total: nat)
    requires posts == Deduped(allPosts, PostSlug) && total == |posts|
    ensures IsSubseq(posts, allPosts) && UniqueKeys(posts, PostSlug)
    ensures forall i :: 0 <= i < |posts| ==> posts[i].slug != ""
    ensures Keys(posts, PostSlug) == Keys(allPosts, PostSlug) - {""}
    ensures forall i :: 0 <= i < |posts| ==> FirstWithKey(allPosts, posts[i].slug, PostSlug) == Some(posts[i])
    ensures total == |Keys(allPosts, PostSlug) - {""}|
  {
    DedupedSpec(allPosts, PostSlug);
    KeysCount(posts, PostSlug);
  }
}

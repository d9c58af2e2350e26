/**
 * The CMS post record as the landing page and the community-posts API read
 * it, and the deduplication both of them apply (`dedupePosts`): drop posts
 * without a slug, then keep the first post for each slug.
 */
module Posts {
  import opened Options
  import opened Seqs

  /** A post. Every optional text field holds "" for "absent": the source tests
      all of them with JavaScript truthiness, which treats `undefined`, `null`
      and "" alike. */
  datatype Post = Post(
    slug: string,
    title: string,              // may contain HTML markup
    excerpt: string,            // may contain HTML markup
    date: int,                  // publication time in milliseconds since the epoch
    authorName: string,         // ppmaAuthorName
    authorImage: string,        // ppmaAuthorImage
    categoryNames: seq<string>, // categories.edges[].node.name
    coverImage: string)         // featuredImage.node.sourceUrl

  /** `!post?.slug` fails for this item. */
  function HasSlug<T>(slug: T -> string): T -> bool
  {
    x => slug(x) != ""
  }

  /** What `dedupePosts` returns, as a specification: slug-less items dropped,
      then only the first item for each slug kept. */
  function Deduped<T>(items: seq<T>, slug: T -> string): seq<T>
  {
    Distinct(Filter(items, HasSlug(slug)), slug)
  }

  /** The `seen`-set filter shared by both `dedupePosts` helpers. */
  method DedupeBySlug<T>(items: seq<T>, slug: T -> string) returns (kept: seq<T>)
    ensures kept == Deduped(items, slug)
  {
    var seen: set<string> := {};
    kept := [];
    for i := 0 to |items|
      invariant kept == Deduped(items[..i], slug)
      invariant seen == Keys(kept, slug)
    {
      var x := items[i];
      DedupeStep(items[..i], x, slug);
      assert items[..i + 1] == items[..i] + [x];
      if slug(x) != "" && slug(x) !in seen {
        seen := seen + {slug(x)};
        KeysSnoc(kept + [x], slug);
        assert (kept + [x])[..|kept|] == kept;
        kept := kept + [x];
      }
    }
    assert items[..|items|] == items;
  }

  /** One step of the `seen`-set loop: a post with a fresh slug is appended, any other is skipped. */
  lemma DedupeStep<T>(done: seq<T>, x: T, slug: T -> string)
    ensures Deduped(done + [x], slug) ==
      Deduped(done, slug) + (if slug(x) != "" && slug(x) !in Keys(Deduped(done, slug), slug) then [x] else [])
  {
    var f := Filter(done, HasSlug(slug));
    FilterAppend(done, [x], HasSlug(slug));
    FilterSingle(x, HasSlug(slug));
    DistinctSpec(f, slug);
    if slug(x) != "" {
      assert (f + [x])[..|f|] == f;
    } else {
      assert f + [] == f;
    }
  }

  /** The properties both `dedupePosts` helpers promise: an in-order
      subsequence of the input without slug-less items, with pairwise distinct
      slugs, losing no slug, and keeping the first item for each slug. */
  lemma DedupedSpec<T>(items: seq<T>, slug: T -> string)
    ensures var r := Deduped(items, slug);
      && IsSubseq(r, items)
      && (forall i :: 0 <= i < |r| ==> slug(r[i]) != "")
      && UniqueKeys(r, slug)
      && Keys(r, slug) == Keys(items, slug) - {""}
      && (forall i :: 0 <= i < |r| ==> FirstWithKey(items, slug(r[i]), slug) == Some(r[i]))
  {
    var f := Filter(items, HasSlug(slug));
    var r := Distinct(f, slug);
    DistinctSpec(f, slug);
    FilterIsSubseq(items, HasSlug(slug));
    SubseqTrans(r, f, items);
    SubseqMembers(r, f);
    forall i | 0 <= i < |r| ensures slug(r[i]) != "" && FirstWithKey(items, slug(r[i]), slug) == Some(r[i]) {
      assert r[i] in f;
      FirstWithKeyFilter(items, slug(r[i]), slug, HasSlug(slug));
    }
    KeysOfFilteredSlugs(items, slug);
  }

  lemma KeysOfFilteredSlugs<T>(items: seq<T>, slug: T -> string)
    ensures Keys(Filter(items, HasSlug(slug)), slug) == Keys(items, slug) - {""}
  {
    var f := Filter(items, HasSlug(slug));
    FilterMembers(items, HasSlug(slug));
    forall k | k in Keys(items, slug) - {""} ensures k in Keys(f, slug) {
      var i :| 0 <= i < |items| && slug(items[i]) == k;
      assert items[i] in f;
      var j :| 0 <= j < |f| && f[j] == items[i];
    }
    forall k | k in Keys(f, slug) ensures k in Keys(items, slug) - {""} {
      var j :| 0 <= j < |f| && slug(f[j]) == k;
      assert f[j] in items;
      var i :| 0 <= i < |items| && items[i] == f[j];
    }
  }

  /** Deduplicating an already deduplicated list changes nothing. */
  lemma DedupedIdempotent<T>(items: seq<T>, slug: T -> string)
    ensures Deduped(Deduped(items, slug), slug) == Deduped(items, slug)
  {
    var r := Deduped(items, slug);
    DedupedSpec(items, slug);
    FilterKeepsAll(r, HasSlug(slug));
    DistinctOfUnique(r, slug);
  }
}

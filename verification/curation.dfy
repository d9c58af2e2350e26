/**
 * The topic tags the landing page shows in its tags card (`curatedTags` in
 * `pages/index.tsx`): the CMS tags without blank names, one per normalised
 * name, with a fixed list of topics moved to the front in the list's order,
 * at most 40.
 */
module Curation {
  import opened Options
  import opened Seqs
  import opened Sorting
  import opened Text

  /** A tag as the CMS returns it; a missing `slug` is "". */
  datatype TagNode = TagNode(name: string, slug: string)

  const PRIORITIZED_TAGS: seq<string> := [
    "testing", "api", "devops", "kubernetes", "docker", "microservices",
    "automation", "ci/cd", "open source", "backend", "go", "python",
    "javascript", "typescript", "graphql", "rest", "observability",
    "monitoring", "performance", "security"
  ]

  const MAX_CURATED_TAGS: nat := 40

  /** `name.toLowerCase().trim()`. */
  function NormalizeTagName(name: string): string
  {
    Trim(ToLower(name))
  }

  function TagKey(t: TagNode): string { NormalizeTagName(t.name) }

  /** A tag whose name is not blank. */
  function HasName(t: TagNode): bool { Trim(t.name) != "" }

  /** `prioritizedLower`. */
  function PrioritizedLower(): seq<string>
  {
    seq(|PRIORITIZED_TAGS|, i requires 0 <= i < |PRIORITIZED_TAGS| => NormalizeTagName(PRIORITIZED_TAGS[i]))
  }

  function IsPrioritized(t: TagNode): bool { TagKey(t) in PrioritizedLower() }

  function IsOther(t: TagNode): bool { !IsPrioritized(t) }

  /** The tag's position in the prioritized list, -1 for any other tag. */
  function Rank(t: TagNode): (r: int)
    ensures -1 <= r < |PrioritizedLower()|
    ensures r == -1 <==> !IsPrioritized(t)
    ensures r >= 0 ==> PrioritizedLower()[r] == TagKey(t)
  {
    IndexIn(PrioritizedLower(), TagKey(t))
  }

  /** The comparator `aIndex - bIndex`, as "may come first". */
  function ByPriority(a: TagNode, b: TagNode): bool
  {
    Rank(a) <= Rank(b)
  }

  lemma ByPriorityTotal()
    ensures TotalPreorder(ByPriority)
  {
  }

  function Take<T>(xs: seq<T>, n: nat): (r: seq<T>)
    ensures r <= xs && |r| == if |xs| <= n then |xs| else n
  {
    if |xs| <= n then xs else xs[..n]
  }

  /** The non-blank tags, one per normalised name (the first seen). */
  function KeptTags(tags: seq<TagNode>): seq<TagNode>
  {
    Distinct(Filter(tags, HasName), TagKey)
  }

  /** The kept prioritized tags, sorted by their position in the list. */
  function PrioritizedPart(tags: seq<TagNode>): seq<TagNode>
  {
    SortBy(Filter(KeptTags(tags), IsPrioritized), ByPriority)
  }

  /** The kept other tags, in input order. */
  function OtherPart(tags: seq<TagNode>): seq<TagNode>
  {
    Filter(KeptTags(tags), IsOther)
  }

  /** The prioritized tags in list order, then the others in input order, before the cap. */
  function CuratedOrder(tags: seq<TagNode>): seq<TagNode>
  {
    PrioritizedPart(tags) + OtherPart(tags)
  }

  /** `curatedTags`. */
  function Curated(tags: seq<TagNode>): seq<TagNode>
  {
    Take(CuratedOrder(tags), MAX_CURATED_TAGS)
  }

  /** The loop of the `curatedTags` memo: keeps the first tag per normalised
      name (a `seen` set of names) and sends it to the prioritized or the
      other list. */
  method CollectTags(allTags: seq<TagNode>) returns (prioritized: seq<TagNode>, others: seq<TagNode>)
    ensures prioritized == Filter(Distinct(allTags, TagKey), IsPrioritized)
    ensures others == Filter(Distinct(allTags, TagKey), IsOther)
  {
    prioritized, others := [], [];
    var seen: set<string> := {};
    assert allTags[..0] == [];
    for i := 0 to |allTags|
      invariant prioritized == Filter(Distinct(allTags[..i], TagKey), IsPrioritized)
      invariant others == Filter(Distinct(allTags[..i], TagKey), IsOther)
      invariant seen == Keys(Distinct(allTags[..i], TagKey), TagKey)
    {
      var tag := allTags[i];
      var normalized := TagKey(tag);
      DistinctStep(allTags, i, TagKey);
      DistinctFilterStep(allTags, i, TagKey, IsPrioritized);
      DistinctFilterStep(allTags, i, TagKey, IsOther);
      if normalized in seen {
        continue;
      }
      seen := seen + {normalized};
      if normalized in PrioritizedLower() {
        prioritized := prioritized + [tag];
      } else {
        others := others + [tag];
      }
    }
    assert allTags[..|allTags|] == allTags;
  }

  /** `curatedTags`: the non-blank tags collected, the prioritized ones sorted
      by their position in the list (a stable sort), the others after them,
      and the whole cut to 40. */
  method CuratedTags(tags: seq<TagNode>) returns (r: seq<TagNode>)
    ensures r == Curated(tags)
  {
    var allTags := Filter(tags, HasName);
    var prioritized, others := CollectTags(allTags);
    prioritized := SortBy(prioritized, ByPriority);
    var combined := prioritized + others;
    r := if |combined| <= MAX_CURATED_TAGS then combined else combined[..MAX_CURATED_TAGS];
  }

  /** Before the cap, the curated list is a reordering of the kept tags. */
  lemma CuratedOrderPermutes(tags: seq<TagNode>)
    ensures multiset(CuratedOrder(tags)) == multiset(KeptTags(tags))
  {
    var kept := KeptTags(tags);
    SortByPermutes(Filter(kept, IsPrioritized), ByPriority);
    FilterSplit(kept, IsPrioritized, IsOther);
    assert multiset(CuratedOrder(tags)) == multiset(PrioritizedPart(tags)) + multiset(OtherPart(tags));
  }

  /** Every curated tag is a non-blank input tag, and the first input tag with its normalised name. */
  lemma CuratedFromInput(tags: seq<TagNode>)
    ensures forall t :: t in Curated(tags) ==>
      && t in tags && HasName(t)
      && FirstWithKey(Filter(tags, HasName), TagKey(t), TagKey) == Some(t)
  {
    forall t | t in Curated(tags)
      ensures t in tags && HasName(t)
      ensures FirstWithKey(Filter(tags, HasName), TagKey(t), TagKey) == Some(t)
    {
      CuratedMember(tags, t);
      DistinctMember(Filter(tags, HasName), TagKey, t);
      FilterMember(tags, HasName, t);
    }
  }

  lemma CuratedMember(tags: seq<TagNode>, t: TagNode)
    requires t in Curated(tags)
    ensures t in KeptTags(tags)
  {
    CuratedOrderPermutes(tags);
    assert t in CuratedOrder(tags);
    assert t in multiset(KeptTags(tags));
  }

  /** Before the cap, one tag per distinct non-blank normalised name. */
  lemma CuratedOrderCounted(tags: seq<TagNode>)
    ensures UniqueKeys(CuratedOrder(tags), TagKey)
    ensures Keys(CuratedOrder(tags), TagKey) == Keys(Filter(tags, HasName), TagKey)
    ensures |CuratedOrder(tags)| == |Keys(Filter(tags, HasName), TagKey)|
  {
    CuratedOrderPermutes(tags);
    DistinctCount(Filter(tags, HasName), TagKey);
    PermutationCount(CuratedOrder(tags), KeptTags(tags), TagKey);
  }

  /** No two curated tags share a normalised name, and there are as many as
      there are distinct non-blank names, up to 40. */
  lemma CuratedUniqueAndCounted(tags: seq<TagNode>)
    ensures UniqueKeys(Curated(tags), TagKey)
    ensures |Curated(tags)| ==
      if |Keys(Filter(tags, HasName), TagKey)| <= MAX_CURATED_TAGS
      then |Keys(Filter(tags, HasName), TagKey)| else MAX_CURATED_TAGS
  {
    var c := CuratedOrder(tags);
    CuratedOrderCounted(tags);
    PrefixUniqueKeys(c, |Curated(tags)|, TagKey);
    assert Curated(tags) == c[..|Curated(tags)|];
  }

  /** Below the cap no normalised name is lost. */
  lemma CuratedComplete(tags: seq<TagNode>)
    requires |Curated(tags)| < MAX_CURATED_TAGS
    ensures Keys(Curated(tags), TagKey) == Keys(Filter(tags, HasName), TagKey)
  {
    CuratedOrderCounted(tags);
  }

  /** The sorted prioritized part holds prioritized tags only, in list order. */
  lemma PrioritizedPartSpec(tags: seq<TagNode>)
    ensures forall i :: 0 <= i < |PrioritizedPart(tags)| ==> IsPrioritized(PrioritizedPart(tags)[i])
    ensures Sorted(PrioritizedPart(tags), ByPriority)
  {
    var p := Filter(KeptTags(tags), IsPrioritized);
    var s := PrioritizedPart(tags);
    SortByPermutes(p, ByPriority);
    ByPriorityTotal();
    SortBySorted(p, ByPriority);
    forall i | 0 <= i < |s| ensures IsPrioritized(s[i]) {
      assert s[i] in multiset(p);
    }
  }

  /** Two prioritized tags with different names have different ranks. */
  lemma RankInjective(a: TagNode, b: TagNode)
    requires IsPrioritized(a) && IsPrioritized(b) && TagKey(a) != TagKey(b)
    ensures Rank(a) != Rank(b)
  {
  }

  /** A pair of positions in the curated list, before the cap. */
  lemma CuratedOrderPair(tags: seq<TagNode>, i: nat, j: nat)
    requires i < j < |CuratedOrder(tags)| && IsPrioritized(CuratedOrder(tags)[j])
    ensures IsPrioritized(CuratedOrder(tags)[i])
    ensures Rank(CuratedOrder(tags)[i]) < Rank(CuratedOrder(tags)[j])
  {
    var s, c := PrioritizedPart(tags), CuratedOrder(tags);
    PrioritizedPartSpec(tags);
    if j >= |s| {
      assert false;
    }
    assert c[i] == s[i] && c[j] == s[j];
    CuratedOrderCounted(tags);
    RankInjective(c[i], c[j]);
  }

  /** Prioritized tags come first, in the order of the prioritized list. */
  lemma CuratedRanked(tags: seq<TagNode>)
    ensures var r := Curated(tags);
      forall i, j :: 0 <= i < j < |r| && IsPrioritized(r[j]) ==>
        IsPrioritized(r[i]) && Rank(r[i]) < Rank(r[j])
  {
    var c, r := CuratedOrder(tags), Curated(tags);
    forall i, j | 0 <= i < j < |r| && IsPrioritized(r[j])
      ensures IsPrioritized(r[i]) && Rank(r[i]) < Rank(r[j])
    {
      assert r[i] == c[i] && r[j] == c[j];
      CuratedOrderPair(tags, i, j);
    }
  }

  /** Filtering the curated list, before the cap, for other tags gives the other part. */
  lemma OthersOfCuratedOrder(tags: seq<TagNode>)
    ensures Filter(CuratedOrder(tags), IsOther) == OtherPart(tags)
  {
    var s, o := PrioritizedPart(tags), OtherPart(tags);
    PrioritizedPartSpec(tags);
    FilterAppend(s, o, IsOther);
    assert Filter(s, IsOther) == [] by {
      if Filter(s, IsOther) != [] {
        FilterMember(s, IsOther, Filter(s, IsOther)[0]);
      }
    }
    FilterKeepsAll(o, IsOther);
  }

  /** The other part is a subsequence of the input. */
  lemma OtherPartInOrder(tags: seq<TagNode>)
    ensures IsSubseq(OtherPart(tags), tags)
  {
    var all, kept := Filter(tags, HasName), KeptTags(tags);
    FilterIsSubseq(kept, IsOther);
    DistinctSpec(all, TagKey);
    FilterIsSubseq(tags, HasName);
    SubseqTrans(OtherPart(tags), kept, all);
    SubseqTrans(OtherPart(tags), all, tags);
  }

  /** The other tags keep the order in which they came. */
  lemma CuratedOthersInOrder(tags: seq<TagNode>)
    ensures IsSubseq(Filter(Curated(tags), IsOther), tags)
  {
    var c, r, o := CuratedOrder(tags), Curated(tags), OtherPart(tags);
    var f := Filter(r, IsOther);
    OthersOfCuratedOrder(tags);
    assert r == c[..|r|];
    FilterPrefix(c, |r|, IsOther);
    PrefixIsSubseq(o, |f|);
    assert o[..|f|] == f;
    OtherPartInOrder(tags);
    SubseqTrans(f, o, tags);
  }
}

/**
 * The authors shown under "Meet our authors" on the landing page
 * (`featuredAuthors` in `pages/index.tsx`): the first nine distinct formatted
 * author names in post order, then reordered so that the authors matching a
 * fixed list of preferred names come first, cut to the length of that list.
 *
 * The lookup table is a JavaScript `Map`, whose iteration follows the order
 * in which keys were first set; it is modelled as a list of entries in that
 * order, where setting an existing key replaces the value in place.
 */
module Featured {
  import opened Options
  import opened Seqs
  import opened Text
  import opened Posts
  import opened LandingFeed
  import opened AuthorDisplay

  datatype FeaturedAuthor = FeaturedAuthor(name: string, avatarUrl: string)

  function AuthorName(a: FeaturedAuthor): string { a.name }

  const MAX_CANDIDATES: nat := 9

  const DESIRED_ORDER: seq<string> := ["neha", "shubham", "achananadi", "amaan", "charan", "gaurav"]

  /** `cap`: the length of the preferred list, or 9 if it were empty. */
  const FEATURED_CAP: nat := if |DESIRED_ORDER| > 0 then |DESIRED_ORDER| else MAX_CANDIDATES

  /** The author card a post contributes. */
  function Candidate(p: CategorizedPost): FeaturedAuthor
  {
    FeaturedAuthor(FormatAuthorName(AuthorLabel(p.post)), ResolveAuthorImage(p.post.authorImage))
  }

  function Candidates(posts: seq<CategorizedPost>): (r: seq<FeaturedAuthor>)
    ensures |r| == |posts| && forall i :: 0 <= i < |r| ==> r[i] == Candidate(posts[i])
  {
    seq(|posts|, i requires 0 <= i < |posts| => Candidate(posts[i]))
  }

  /** `result` after the first loop: the first nine authors with distinct formatted names. */
  function FirstAuthors(posts: seq<CategorizedPost>): seq<FeaturedAuthor>
  {
    var d := Distinct(Candidates(posts), AuthorName);
    if |d| <= MAX_CANDIDATES then d else d[..MAX_CANDIDATES]
  }

  /** The first loop: formats each post's author, skips names already seen,
      and stops once nine authors are collected. */
  method CollectAuthors(posts: seq<CategorizedPost>) returns (result: seq<FeaturedAuthor>)
    ensures result == FirstAuthors(posts)
  {
    ghost var cands := Candidates(posts);
    var seen: set<string> := {};
    result := [];
    assert cands[..0] == [];
    var i := 0;
    while i < |posts|
      invariant 0 <= i <= |posts|
      invariant result == Distinct(cands[..i], AuthorName)
      invariant |result| < MAX_CANDIDATES
      invariant seen == Keys(result, AuthorName)
    {
      var post := posts[i];
      var name := FormatAuthorName(AuthorLabel(post.post));
      DistinctStep(cands, i, AuthorName);
      assert cands[i] == Candidate(post);
      if name in seen {
        i := i + 1;
        continue;
      }
      seen := seen + {name};
      var avatarUrl := ResolveAuthorImage(post.post.authorImage);
      result := result + [FeaturedAuthor(name, avatarUrl)];
      if |result| >= MAX_CANDIDATES {
        FirstAuthorsAtBreak(posts, i + 1);
        return;
      }
      i := i + 1;
    }
    FirstAuthorsAtEnd(posts);
  }

  /** Once the ninth author is found the rest of the posts cannot change the result. */
  lemma FirstAuthorsAtBreak(posts: seq<CategorizedPost>, n: nat)
    requires n <= |posts| && |Distinct(Candidates(posts)[..n], AuthorName)| == MAX_CANDIDATES
    ensures FirstAuthors(posts) == Distinct(Candidates(posts)[..n], AuthorName)
  {
    DistinctPrefix(Candidates(posts), n, AuthorName);
  }

  /** With fewer than nine distinct names, every one of them is collected. */
  lemma FirstAuthorsAtEnd(posts: seq<CategorizedPost>)
    requires |Distinct(Candidates(posts)[..|posts|], AuthorName)| < MAX_CANDIDATES
    ensures FirstAuthors(posts) == Distinct(Candidates(posts)[..|posts|], AuthorName)
  {
    assert Candidates(posts)[..|posts|] == Candidates(posts);
  }

  // ---------------------------------------------------------------- the lookup map

  /** `value.toLowerCase().replace(/\s+/g, "")`. */
  function NameKey(value: string): (r: string)
    ensures NoSpace(r) && IsLowerCase(r)
  {
    RemoveSpace(ToLower(value))
  }

  function RemoveSpace(s: string): (r: string)
    ensures NoSpace(r) && |r| <= |s|
    ensures IsLowerCase(s) ==> IsLowerCase(r)
  {
    if s == [] then []
    else (if IsSpace(s[0]) then [] else [s[0]]) + RemoveSpace(s[1..])
  }

  datatype Entry = Entry(key: string, author: FeaturedAuthor)

  function EntryKey(e: Entry): string { e.key }

  /** `map.set(key, author)`: replaces the value of an existing key where it
      stands, otherwise appends a new entry. */
  function MapSet(entries: seq<Entry>, key: string, author: FeaturedAuthor): (r: seq<Entry>)
    ensures |r| == if key in Keys(entries, EntryKey) then |entries| else |entries| + 1
  {
    if entries == [] then [Entry(key, author)]
    else if entries[0].key == key then [Entry(key, author)] + entries[1..]
    else
      assert Keys(entries, EntryKey) == {entries[0].key} + Keys(entries[1..], EntryKey) by {
        KeysCons(entries, EntryKey);
      }
      [entries[0]] + MapSet(entries[1..], key, author)
  }

  /** The lookup after setting each author of `authors` in turn. */
  function LookupOf(authors: seq<FeaturedAuthor>): seq<Entry>
  {
    if authors == [] then []
    else
      var last := authors[|authors| - 1];
      MapSet(LookupOf(authors[..|authors| - 1]), NameKey(last.name), last)
  }

  /** The loop that fills the lookup. */
  method BuildLookup(authors: seq<FeaturedAuthor>) returns (lookup: seq<Entry>)
    ensures lookup == LookupOf(authors)
  {
    lookup := [];
    for i := 0 to |authors|
      invariant lookup == LookupOf(authors[..i])
    {
      var author := authors[i];
      assert authors[..i + 1][..i] == authors[..i];
      lookup := MapSet(lookup, NameKey(author.name), author);
    }
    assert authors[..|authors|] == authors;
  }

  /** The entry at `i` is the first, in map order, whose key contains `desired`. */
  predicate FirstMatchAt(entries: seq<Entry>, desired: string, i: int)
  {
    && 0 <= i < |entries|
    && Contains(entries[i].key, desired)
    && forall j :: 0 <= j < i ==> !Contains(entries[j].key, desired)
  }

  /** `Array.from(lookup.entries()).find(([key]) => key.includes(desired))`. */
  function FirstMatch(entries: seq<Entry>, desired: string): (r: Option<FeaturedAuthor>)
    ensures r.Some? ==> exists i :: FirstMatchAt(entries, desired, i) && entries[i].author == r.value
    ensures r.None? ==> forall e :: e in entries ==> !Contains(e.key, desired)
  {
    if entries == [] then None
    else if Contains(entries[0].key, desired) then
      assert FirstMatchAt(entries, desired, 0);
      Some(entries[0].author)
    else
      var r := FirstMatch(entries[1..], desired);
      assert forall e :: e in entries ==> e == entries[0] || e in entries[1..];
      assert forall i :: FirstMatchAt(entries[1..], desired, i) ==>
        FirstMatchAt(entries, desired, i + 1) && entries[i + 1] == entries[1..][i];
      r
  }

  // ---------------------------------------------------------------- the preferred order

  /** Pushes a match unless an author of that name is already listed. */
  function AddMatch(ordered: seq<FeaturedAuthor>, m: Option<FeaturedAuthor>): seq<FeaturedAuthor>
  {
    if m.Some? && m.value.name !in Keys(ordered, AuthorName) then ordered + [m.value] else ordered
  }

  /** `ordered` after the loop over the preferred names `desired`. */
  function PreferredOf(lookup: seq<Entry>, desired: seq<string>): seq<FeaturedAuthor>
  {
    if desired == [] then []
    else AddMatch(PreferredOf(lookup, desired[..|desired| - 1]), FirstMatch(lookup, desired[|desired| - 1]))
  }

  /** `ordered` after the loop that appends the authors not yet listed. */
  function AppendRest(ordered: seq<FeaturedAuthor>, authors: seq<FeaturedAuthor>): seq<FeaturedAuthor>
  {
    if authors == [] then ordered
    else AddMatch(AppendRest(ordered, authors[..|authors| - 1]), Some(authors[|authors| - 1]))
  }

  /** The authors the loop over `DESIRED_ORDER` places first. */
  function PreferredAuthors(posts: seq<CategorizedPost>): seq<FeaturedAuthor>
  {
    PreferredOf(LookupOf(FirstAuthors(posts)), DESIRED_ORDER)
  }

  /** All authors of the first loop, the preferred ones first, before the cap. */
  function OrderedAuthors(posts: seq<CategorizedPost>): seq<FeaturedAuthor>
  {
    AppendRest(PreferredAuthors(posts), FirstAuthors(posts))
  }

  /** `featuredAuthors`. */
  function FeaturedAuthors(posts: seq<CategorizedPost>): seq<FeaturedAuthor>
  {
    var ordered := OrderedAuthors(posts);
    if |ordered| <= FEATURED_CAP then ordered else ordered[..FEATURED_CAP]
  }

  /** The loop over the preferred names: the first lookup entry whose key
      contains the name, unless that author is already listed. */
  method PlacePreferred(lookup: seq<Entry>) returns (ordered: seq<FeaturedAuthor>)
    ensures ordered == PreferredOf(lookup, DESIRED_ORDER)
  {
    ordered := [];
    for k := 0 to |DESIRED_ORDER|
      invariant ordered == PreferredOf(lookup, DESIRED_ORDER[..k])
    {
      assert DESIRED_ORDER[..k + 1][..k] == DESIRED_ORDER[..k];
      var m := FirstMatch(lookup, DESIRED_ORDER[k]);
      if m.Some? && m.value.name !in Keys(ordered, AuthorName) {
        ordered := ordered + [m.value];
      }
    }
    assert DESIRED_ORDER[..|DESIRED_ORDER|] == DESIRED_ORDER;
  }

  /** The loop that appends every author whose name is not listed yet. */
  method AppendRemaining(preferred: seq<FeaturedAuthor>, result: seq<FeaturedAuthor>)
    returns (ordered: seq<FeaturedAuthor>)
    ensures ordered == AppendRest(preferred, result)
  {
    ordered := preferred;
    for i := 0 to |result|
      invariant ordered == AppendRest(preferred, result[..i])
    {
      assert result[..i + 1][..i] == result[..i];
      var author := result[i];
      if author.name !in Keys(ordered, AuthorName) {
        ordered := ordered + [author];
      }
    }
    assert result[..|result|] == result;
  }

  /** The `featuredAuthors` memo: collect, build the lookup, place the
      preferred authors, append the rest, cut to the cap. */
  method ComputeFeaturedAuthors(posts: seq<CategorizedPost>) returns (featured: seq<FeaturedAuthor>)
    ensures featured == FeaturedAuthors(posts)
  {
    var result := CollectAuthors(posts);
    var lookup := BuildLookup(result);
    var ordered := PlacePreferred(lookup);
    ordered := AppendRemaining(ordered, result);
    featured := if |ordered| <= FEATURED_CAP then ordered else ordered[..FEATURED_CAP];
  }

  // ---------------------------------------------------------------- properties

  /** The first loop keeps, in post order, the first author card for each of
      the first nine distinct formatted names. */
  lemma FirstAuthorsSpec(posts: seq<CategorizedPost>)
    ensures var first, cands := FirstAuthors(posts), Candidates(posts);
      && first <= Distinct(cands, AuthorName)
      && IsSubseq(first, cands)
      && UniqueKeys(first, AuthorName)
      && |first| == (if |Keys(cands, AuthorName)| <= MAX_CANDIDATES then |Keys(cands, AuthorName)| else MAX_CANDIDATES)
      && forall i :: 0 <= i < |first| ==> FirstWithKey(cands, first[i].name, AuthorName) == Some(first[i])
  {
    var first, cands := FirstAuthors(posts), Candidates(posts);
    var d := Distinct(cands, AuthorName);
    DistinctCount(cands, AuthorName);
    DistinctSpec(cands, AuthorName);
    PrefixUniqueKeys(d, |first|, AuthorName);
    assert first == d[..|first|];
    PrefixIsSubseq(d, |first|);
    SubseqTrans(first, d, cands);
  }

  /** Setting a key keeps every entry with another key where it stands and
      gives the first entry with the key the value `author`. */
  lemma {:induction false} MapSetInPlace(entries: seq<Entry>, key: string, author: FeaturedAuthor)
    ensures var r := MapSet(entries, key, author);
      && (forall i :: 0 <= i < |entries| && entries[i].key != key ==> r[i] == entries[i])
      && (forall i :: 0 <= i < |entries| && entries[i].key == key && (forall j :: 0 <= j < i ==> entries[j].key != key) ==>
            r[i] == Entry(key, author))
    decreases |entries|
  {
    if entries != [] && entries[0].key != key {
      var r, rest := MapSet(entries, key, author), MapSet(entries[1..], key, author);
      MapSetInPlace(entries[1..], key, author);
      assert r == [entries[0]] + rest;
      forall i | 0 < i < |entries| ensures r[i] == rest[i - 1] && entries[i] == entries[1..][i - 1] {
      }
    }
  }

  /** Setting a key: a new key is appended at the end, the keys gain `key`,
      and the only entry that can appear is `key` with `author`. */
  lemma {:induction false} MapSetMembers(entries: seq<Entry>, key: string, author: FeaturedAuthor)
    ensures var r := MapSet(entries, key, author);
      && (key !in Keys(entries, EntryKey) ==> r == entries + [Entry(key, author)])
      && Keys(r, EntryKey) == Keys(entries, EntryKey) + {key}
      && forall e :: e in r ==> e in entries || e == Entry(key, author)
    decreases |entries|
  {
    var r := MapSet(entries, key, author);
    if entries == [] {
    } else if entries[0].key == key {
      KeysCons(entries, EntryKey);
      KeysCons(r, EntryKey);
      assert r[1..] == entries[1..];
    } else {
      var rest := MapSet(entries[1..], key, author);
      MapSetMembers(entries[1..], key, author);
      KeysCons(entries, EntryKey);
      assert r == [entries[0]] + rest;
      KeysCons(r, EntryKey);
      assert r[1..] == rest;
    }
  }

  /** Setting a key keeps every key listed once. */
  lemma MapSetUnique(entries: seq<Entry>, key: string, author: FeaturedAuthor)
    requires UniqueKeys(entries, EntryKey)
    ensures UniqueKeys(MapSet(entries, key, author), EntryKey)
  {
    var r := MapSet(entries, key, author);
    MapSetMembers(entries, key, author);
    MapSetInPlace(entries, key, author);
    forall i, j | 0 <= i < j < |r| ensures r[i].key != r[j].key {
      if j >= |entries| {
        assert entries[i].key in Keys(entries, EntryKey);
      } else if entries[i].key == key {
        assert entries[j].key != key;
      } else if entries[j].key == key {
        assert forall m :: 0 <= m < j ==> entries[m].key != key;
      }
    }
  }

  /** The lookup holds each key once. */
  lemma {:induction false} LookupUnique(authors: seq<FeaturedAuthor>)
    ensures UniqueKeys(LookupOf(authors), EntryKey)
    decreases |authors|
  {
    if authors != [] {
      var init, last := authors[..|authors| - 1], authors[|authors| - 1];
      LookupUnique(init);
      MapSetUnique(LookupOf(init), NameKey(last.name), last);
    }
  }

  /** Every lookup entry holds one of the authors it was built from, under
      that author's own key. */
  lemma {:induction false} LookupEntries(authors: seq<FeaturedAuthor>)
    ensures forall e :: e in LookupOf(authors) ==> e.key == NameKey(e.author.name) && e.author in authors
    decreases |authors|
  {
    if authors != [] {
      var init, last := authors[..|authors| - 1], authors[|authors| - 1];
      LookupEntries(init);
      MapSetMembers(LookupOf(init), NameKey(last.name), last);
      assert forall a :: a in init ==> a in authors;
    }
  }

  /** The lookup has a key for every author it was built from. */
  lemma {:induction false} LookupHasKeys(authors: seq<FeaturedAuthor>)
    ensures forall a :: a in authors ==> NameKey(a.name) in Keys(LookupOf(authors), EntryKey)
    decreases |authors|
  {
    if authors != [] {
      var init, last := authors[..|authors| - 1], authors[|authors| - 1];
      LookupHasKeys(init);
      MapSetMembers(LookupOf(init), NameKey(last.name), last);
      assert forall a :: a in authors ==> a in init || a == last;
    }
  }

  /** `AddMatch` only appends, never lists a name twice, and lists the match's name. */
  lemma AddMatchSpec(ordered: seq<FeaturedAuthor>, m: Option<FeaturedAuthor>)
    requires UniqueKeys(ordered, AuthorName)
    ensures var r := AddMatch(ordered, m);
      && ordered <= r
      && UniqueKeys(r, AuthorName)
      && Keys(r, AuthorName) == Keys(ordered, AuthorName) + (if m.Some? then {m.value.name} else {})
      && forall a :: a in r ==> a in ordered || (m.Some? && a == m.value)
  {
    var r := AddMatch(ordered, m);
    if m.Some? {
      if m.value.name !in Keys(ordered, AuthorName) {
        KeysSnoc(r, AuthorName);
        assert r[..|ordered|] == ordered;
        forall i, j | 0 <= i < j < |r| ensures r[i].name != r[j].name {
          if j == |ordered| {
            assert r[i].name in Keys(ordered, AuthorName);
          }
        }
      } else {
        assert Keys(ordered, AuthorName) + {m.value.name} == Keys(ordered, AuthorName);
      }
    }
  }

  /** The preferred part lists distinct names, no more than there are
      preferred names, all taken from the lookup's values. */
  lemma {:induction false} PreferredOfSpec(lookup: seq<Entry>, desired: seq<string>)
    ensures var p := PreferredOf(lookup, desired);
      && UniqueKeys(p, AuthorName)
      && |p| <= |desired|
      && forall a :: a in p ==> exists e :: e in lookup && e.author == a
    decreases |desired|
  {
    if desired != [] {
      var init := desired[..|desired| - 1];
      PreferredOfSpec(lookup, init);
      AddMatchSpec(PreferredOf(lookup, init), FirstMatch(lookup, desired[|desired| - 1]));
      var m := FirstMatch(lookup, desired[|desired| - 1]);
      if m.Some? {
        var i :| FirstMatchAt(lookup, desired[|desired| - 1], i) && lookup[i].author == m.value;
        assert lookup[i] in lookup;
      }
    }
  }

  /** The first match of each preferred name, in the order of the names; a
      name without a match contributes nothing. */
  function Matches(lookup: seq<Entry>, desired: seq<string>): seq<FeaturedAuthor>
  {
    if desired == [] then []
    else
      var m := FirstMatch(lookup, desired[|desired| - 1]);
      Matches(lookup, desired[..|desired| - 1]) + (if m.Some? then [m.value] else [])
  }

  /** Each listed match is the first match of one of the names, and every
      name that has a match contributes it. */
  lemma {:induction false} MatchesSpec(lookup: seq<Entry>, desired: seq<string>)
    ensures forall a :: a in Matches(lookup, desired) ==>
      exists k :: 0 <= k < |desired| && FirstMatch(lookup, desired[k]) == Some(a)
    ensures forall k :: 0 <= k < |desired| && FirstMatch(lookup, desired[k]).Some? ==>
      FirstMatch(lookup, desired[k]).value in Matches(lookup, desired)
    decreases |desired|
  {
    if desired != [] {
      var init := desired[..|desired| - 1];
      MatchesSpec(lookup, init);
      assert forall k :: 0 <= k < |init| ==> init[k] == desired[k];
    }
  }

  /** The loop over the preferred names lists their first matches in the
      order of the names, leaving out a name already listed. */
  lemma {:induction false} PreferredMatches(lookup: seq<Entry>, desired: seq<string>)
    ensures PreferredOf(lookup, desired) == Distinct(Matches(lookup, desired), AuthorName)
    decreases |desired|
  {
    if desired != [] {
      var init := desired[..|desired| - 1];
      var m := FirstMatch(lookup, desired[|desired| - 1]);
      var ms := Matches(lookup, init);
      PreferredMatches(lookup, init);
      DistinctKeys(ms, AuthorName);
      if m.Some? {
        var xs := ms + [m.value];
        assert xs[..|xs| - 1] == ms;
      } else {
        assert Matches(lookup, desired) == ms;
      }
    }
  }

  /** Appending the rest keeps the preferred part in front, lists each name
      once, and lists exactly the names of both parts. */
  lemma {:induction false} AppendRestSpec(ordered: seq<FeaturedAuthor>, authors: seq<FeaturedAuthor>)
    requires UniqueKeys(ordered, AuthorName)
    ensures var r := AppendRest(ordered, authors);
      && ordered <= r
      && UniqueKeys(r, AuthorName)
      && Keys(r, AuthorName) == Keys(ordered, AuthorName) + Keys(authors, AuthorName)
      && forall a :: a in r ==> a in ordered || a in authors
    decreases |authors|
  {
    if authors != [] {
      var init, last := authors[..|authors| - 1], authors[|authors| - 1];
      AppendRestSpec(ordered, init);
      AddMatchSpec(AppendRest(ordered, init), Some(last));
      KeysSnoc(authors, AuthorName);
      assert forall a :: a in init ==> a in authors;
    }
  }

  /** The appended authors follow the order of `authors`. */
  lemma {:induction false} AppendRestOrder(ordered: seq<FeaturedAuthor>, authors: seq<FeaturedAuthor>)
    ensures |ordered| <= |AppendRest(ordered, authors)|
    ensures IsSubseq(AppendRest(ordered, authors)[|ordered|..], authors)
    decreases |authors|
  {
    if authors != [] {
      var init, last := authors[..|authors| - 1], authors[|authors| - 1];
      AppendRestOrder(ordered, init);
      var before := AppendRest(ordered, init);
      var r := AppendRest(ordered, authors);
      var t := before[|ordered|..];
      if r == before {
        assert IsSubseq(t, authors) by {
          assert authors[..|authors| - 1] == init;
        }
      } else {
        assert r == before + [last];
        var u := r[|ordered|..];
        assert u == t + [last] && u[..|u| - 1] == t;
        assert authors[..|authors| - 1] == init;
      }
    }
  }

  /** The preferred part lists distinct collected authors. */
  lemma PreferredFromFirst(posts: seq<CategorizedPost>)
    ensures var first, preferred := FirstAuthors(posts), PreferredAuthors(posts);
      && UniqueKeys(preferred, AuthorName)
      && (forall a :: a in preferred ==> a in first)
      && Keys(preferred, AuthorName) <= Keys(first, AuthorName)
  {
    var first := FirstAuthors(posts);
    var lookup := LookupOf(first);
    var preferred := PreferredAuthors(posts);
    PreferredOfSpec(lookup, DESIRED_ORDER);
    LookupEntries(first);
    forall a | a in preferred ensures a in first {
      var e :| e in lookup && e.author == a;
    }
    forall k | k in Keys(preferred, AuthorName) ensures k in Keys(first, AuthorName) {
      var i :| 0 <= i < |preferred| && preferred[i].name == k;
      assert preferred[i] in first;
      var j :| 0 <= j < |first| && first[j] == preferred[i];
    }
  }

  /** Each author the loop over `desired` lists is one of `authors`, and its
      lookup key contains one of the names. */
  lemma PreferredSound(authors: seq<FeaturedAuthor>, desired: seq<string>)
    ensures forall a :: a in PreferredOf(LookupOf(authors), desired) ==>
      a in authors && exists k :: 0 <= k < |desired| && Contains(NameKey(a.name), desired[k])
  {
    var lookup := LookupOf(authors);
    var ms := Matches(lookup, desired);
    LookupEntries(authors);
    MatchesSpec(lookup, desired);
    PreferredMatches(lookup, desired);
    forall a | a in PreferredOf(lookup, desired)
      ensures a in authors && exists k :: 0 <= k < |desired| && Contains(NameKey(a.name), desired[k])
    {
      DistinctMember(ms, AuthorName, a);
      var k :| 0 <= k < |desired| && FirstMatch(lookup, desired[k]) == Some(a);
      var i :| FirstMatchAt(lookup, desired[k], i) && lookup[i].author == a;
      assert lookup[i] in lookup;
    }
  }

  /** When some lookup key contains the name `desired[k]`, the loop over
      `desired` lists an author whose key contains it. */
  lemma PreferredHasMatch(lookup: seq<Entry>, desired: seq<string>, k: int, e: Entry)
    requires 0 <= k < |desired| && e in lookup && Contains(e.key, desired[k])
    requires forall e :: e in lookup ==> e.key == NameKey(e.author.name)
    ensures exists b :: b in PreferredOf(lookup, desired) && Contains(NameKey(b.name), desired[k])
  {
    var ms := Matches(lookup, desired);
    var preferred := PreferredOf(lookup, desired);
    MatchesSpec(lookup, desired);
    PreferredMatches(lookup, desired);
    DistinctKeys(ms, AuthorName);
    var m := FirstMatch(lookup, desired[k]).value;
    var j :| FirstMatchAt(lookup, desired[k], j) && lookup[j].author == m;
    assert lookup[j] in lookup;
    assert m.name in Keys(ms, AuthorName) by {
      var n :| 0 <= n < |ms| && ms[n] == m;
    }
    var n :| 0 <= n < |preferred| && preferred[n].name == m.name;
    assert preferred[n] in preferred;
  }

  /** For every name of `desired` that the lookup key of one of `authors`
      contains, the loop lists an author whose key contains it. */
  lemma PreferredComplete(authors: seq<FeaturedAuthor>, desired: seq<string>)
    ensures forall k, a :: 0 <= k < |desired| && a in authors && Contains(NameKey(a.name), desired[k]) ==>
      exists b :: b in PreferredOf(LookupOf(authors), desired) && Contains(NameKey(b.name), desired[k])
  {
    var lookup := LookupOf(authors);
    LookupEntries(authors);
    LookupHasKeys(authors);
    forall k, a | 0 <= k < |desired| && a in authors && Contains(NameKey(a.name), desired[k])
      ensures exists b :: b in PreferredOf(lookup, desired) && Contains(NameKey(b.name), desired[k])
    {
      var i :| 0 <= i < |lookup| && lookup[i].key == NameKey(a.name);
      PreferredHasMatch(lookup, desired, k, lookup[i]);
    }
  }

  /** The preferred authors are the first matches of the preferred names in
      the order of the names, without repeats, so at most six of them. Each is
      a collected author whose lookup key contains a preferred name, and for
      every preferred name that some collected author's key contains, an
      author whose key contains it is listed. */
  lemma PreferredAuthorsSpec(posts: seq<CategorizedPost>)
    ensures var first, preferred := FirstAuthors(posts), PreferredAuthors(posts);
      && preferred == Distinct(Matches(LookupOf(first), DESIRED_ORDER), AuthorName)
      && |preferred| <= |DESIRED_ORDER|
      && (forall a :: a in preferred ==>
            a in first && exists k :: 0 <= k < |DESIRED_ORDER| && Contains(NameKey(a.name), DESIRED_ORDER[k]))
      && (forall k, a :: 0 <= k < |DESIRED_ORDER| && a in first && Contains(NameKey(a.name), DESIRED_ORDER[k]) ==>
            exists b :: b in preferred && Contains(NameKey(b.name), DESIRED_ORDER[k]))
  {
    var first := FirstAuthors(posts);
    PreferredOfSpec(LookupOf(first), DESIRED_ORDER);
    PreferredMatches(LookupOf(first), DESIRED_ORDER);
    PreferredSound(first, DESIRED_ORDER);
    PreferredComplete(first, DESIRED_ORDER);
  }

  /** Before the cap: every collected author exactly once, the preferred
      authors first, then the others in the order they were collected. */
  lemma OrderedAuthorsSpec(posts: seq<CategorizedPost>)
    ensures var first, preferred, ordered := FirstAuthors(posts), PreferredAuthors(posts), OrderedAuthors(posts);
      && preferred <= ordered
      && IsSubseq(ordered[|preferred|..], first)
      && UniqueKeys(ordered, AuthorName)
      && (forall a :: a in ordered ==> a in first)
      && Keys(ordered, AuthorName) == Keys(first, AuthorName)
      && |ordered| == |first|
  {
    var first := FirstAuthors(posts);
    var preferred := PreferredAuthors(posts);
    var ordered := OrderedAuthors(posts);
    PreferredFromFirst(posts);
    AppendRestSpec(preferred, first);
    AppendRestOrder(preferred, first);
    FirstAuthorsSpec(posts);
    KeysCount(ordered, AuthorName);
    KeysCount(first, AuthorName);
  }

  /** `featuredAuthors`: at most six authors, no name twice, every one among
      the first nine distinct formatted names in post order, as many as there
      are of those up to six, and every preferred author, in front. */
  lemma FeaturedAuthorsSpec(posts: seq<CategorizedPost>)
    ensures var r, first := FeaturedAuthors(posts), FirstAuthors(posts);
      && |r| <= FEATURED_CAP
      && |r| == (if |first| <= FEATURED_CAP then |first| else FEATURED_CAP)
      && UniqueKeys(r, AuthorName)
      && (forall a :: a in r ==> a in first)
      && PreferredAuthors(posts) <= r
      && r <= OrderedAuthors(posts)
  {
    var r, ordered := FeaturedAuthors(posts), OrderedAuthors(posts);
    var preferred := PreferredAuthors(posts);
    OrderedAuthorsSpec(posts);
    PreferredOfSpec(LookupOf(FirstAuthors(posts)), DESIRED_ORDER);
    assert r == ordered[..|r|];
    assert preferred == ordered[..|preferred|];
    PrefixUniqueKeys(ordered, |r|, AuthorName);
    forall a | a in r ensures a in ordered {
      var i :| 0 <= i < |r| && r[i] == a;
      assert ordered[i] == a;
    }
  }
}

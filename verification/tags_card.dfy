/**
 * The trending-tags card of the landing page
 * (`components/landing/landing-tags-card.tsx`): the URL slug of a tag and the
 * colour each chip gets from the palette.
 */
module TagsCard {
  import opened Options
  import opened Text

  // ---------------------------------------------------------------- slugs

  /** `getTagSlug(name)`: "" for a missing name; otherwise every whitespace
      run becomes one "-" and the result is lower-cased. */
  function GetTagSlug(name: string): (slug: string)
    ensures name == "" <==> slug == ""
    ensures NoSpace(slug) && IsLowerCase(slug)
  {
    if name == "" then ""
    else
      ReplaceSpaceRunsEmpty(name, '-');
      ReplaceSpaceRunsNoSpaceLeft(name, '-');
      ToLower(ReplaceSpaceRuns(name, '-'))
  }

  /** A whitespace run followed by a non-whitespace character, or by nothing,
      turns into one "-". With `TagSlugOfChar` and the empty case, these
      equations determine the slug of every name. */
  lemma TagSlugOfRun(run: string, rest: string)
    requires run != [] && forall i :: 0 <= i < |run| ==> IsSpace(run[i])
    requires rest == [] || !IsSpace(rest[0])
    ensures GetTagSlug(run + rest) == "-" + GetTagSlug(rest)
  {
    var s := run + rest;
    TrimStartOfRun(s, |run|);
    assert s[|run|..] == rest;
    assert s[0] == run[0];
    ToLowerCons('-', ReplaceSpaceRuns(rest, '-'));
  }

  /** Any character other than whitespace is kept, lower-cased. */
  lemma TagSlugOfChar(c: char, rest: string)
    requires !IsSpace(c)
    ensures GetTagSlug([c] + rest) == [ToLowerChar(c)] + GetTagSlug(rest)
  {
    var s := [c] + rest;
    assert s[1..] == rest;
    ToLowerCons(c, ReplaceSpaceRuns(rest, '-'));
  }

  lemma ToLowerCons(c: char, s: string)
    ensures ToLower([c] + s) == [ToLowerChar(c)] + ToLower(s)
  {
  }

  /** Trimming the start of a string whose first `n` characters are whitespace
      and whose next one is not drops exactly those `n`. */
  lemma {:induction false} TrimStartOfRun(s: string, n: nat)
    requires n <= |s| && forall i :: 0 <= i < n ==> IsSpace(s[i])
    requires n == |s| || !IsSpace(s[n])
    ensures TrimStart(s) == s[n..]
    decreases n
  {
    if n > 0 {
      TrimStartOfRun(s[1..], n - 1);
      assert s[1..][n - 1..] == s[n..];
    }
  }

  /** A slug is its own slug. */
  lemma TagSlugIdempotent(name: string)
    ensures GetTagSlug(GetTagSlug(name)) == GetTagSlug(name)
  {
    var slug := GetTagSlug(name);
    if slug != "" {
      ReplaceSpaceRunsNoSpace(slug, '-');
      ToLowerOfLowerCase(slug);
    }
  }

  // ---------------------------------------------------------------- palette

  const DEFAULT_COLORS: seq<string> := [
    "bg-orange-50 text-orange-700 border-orange-200",
    "bg-amber-50 text-amber-800 border-amber-200",
    "bg-emerald-50 text-emerald-700 border-emerald-200",
    "bg-sky-50 text-sky-700 border-sky-200",
    "bg-indigo-50 text-indigo-700 border-indigo-200",
    "bg-rose-50 text-rose-700 border-rose-200",
    "bg-lime-50 text-lime-700 border-lime-200"
  ]

  /** `colorPalette[index % colorPalette.length]`; an empty palette yields `undefined`. */
  function ColorClass(palette: seq<string>, index: nat): (r: Option<string>)
    ensures r.None? <==> palette == []
    ensures r.Some? ==> r.value in palette && r.value == palette[index % |palette|]
  {
    if palette == [] then None else Some(palette[index % |palette|])
  }
}

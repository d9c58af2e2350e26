/**
 * How the landing page shows an author: `formatAuthorName` re-capitalises
 * every whitespace-separated word, and `resolveAuthorImage` replaces a
 * missing or placeholder avatar with the bundled default picture.
 */
module AuthorDisplay {
  import opened Text

  const ANONYMOUS := "Anonymous"
  const DEFAULT_AUTHOR_IMAGE := "/blog/images/author.png"

  /** `part.charAt(0).toUpperCase() + part.slice(1).toLowerCase()`. */
  function Capitalize(w: string): (r: string)
    ensures |r| == |w| && ToLower(r) == ToLower(w)
    ensures w != [] ==> !IsLower(r[0]) && IsLowerCase(r[1..])
    ensures NoSpace(w) ==> NoSpace(r)
  {
    if w == [] then [] else [ToUpperChar(w[0])] + ToLower(w[1..])
  }

  /** A word as `formatAuthorName` leaves it: no lower-case first letter, no upper-case letter after it. */
  predicate Capitalized(w: string)
  {
    w != [] && !IsLower(w[0]) && IsLowerCase(w[1..])
  }

  function CapitalizeAll(ws: seq<string>): (rs: seq<string>)
    ensures |rs| == |ws|
  {
    seq(|ws|, k requires 0 <= k < |ws| => Capitalize(ws[k]))
  }

  /** `formatAuthorName(name)`: "Anonymous" for a missing or empty name,
      otherwise its words (`split(/\s+/).filter(Boolean)`) each capitalised
      and joined by one space. */
  function FormatAuthorName(name: string): string
  {
    if name == "" then ANONYMOUS
    else Join(CapitalizeAll(Words(name)), " ")
  }

  /** What `formatAuthorName` promises: a missing name becomes "Anonymous";
      otherwise the result is exactly its words, in order, separated by single
      spaces, each with an upper-cased first letter and lower-cased rest and
      equal to the original word up to letter case. */
  lemma FormatAuthorNameSpec(name: string)
    ensures name == "" ==> FormatAuthorName(name) == ANONYMOUS
    ensures name != "" ==>
      var r := FormatAuthorName(name);
      var ws := Words(r);
      && r == Join(ws, " ")
      && |ws| == |Words(name)|
      && forall k :: 0 <= k < |ws| ==>
           Capitalized(ws[k]) && ToLower(ws[k]) == ToLower(Words(name)[k])
  {
    if name != "" {
      CapitalizedWords(name);
      WordsOfJoin(CapitalizeAll(Words(name)));
    }
  }

  /** The capitalised words of a name are non-empty, capitalised and free of whitespace. */
  lemma CapitalizedWords(name: string)
    ensures forall k :: 0 <= k < |Words(name)| ==>
      CapitalizeAll(Words(name))[k] != [] && Capitalized(CapitalizeAll(Words(name))[k])
      && NoSpace(CapitalizeAll(Words(name))[k])
  {
    WordsShape(name);
  }

  /** A name made only of whitespace gives "", not "Anonymous". */
  lemma FormatBlankName(name: string)
    requires name != "" && forall i :: 0 <= i < |name| ==> IsSpace(name[i])
    ensures FormatAuthorName(name) == ""
  {
    WordsOfBlank(name);
  }

  lemma CapitalizeCapitalized(w: string)
    requires Capitalized(w)
    ensures Capitalize(w) == w
  {
    ToLowerOfLowerCase(w[1..]);
    assert w == [w[0]] + w[1..];
  }

  /** Formatting an already formatted (non-empty) name changes nothing. */
  lemma FormatAuthorNameIdempotent(name: string)
    requires FormatAuthorName(name) != ""
    ensures FormatAuthorName(FormatAuthorName(name)) == FormatAuthorName(name)
  {
    if name != "" {
      var cs := CapitalizeAll(Words(name));
      CapitalizedWords(name);
      assert cs != [];
      FormatJoinOfCapitalized(cs);
    } else {
      FormatJoinOfCapitalized([ANONYMOUS]);
      JoinSingle(ANONYMOUS, " ");
    }
  }

  /** Words that are already capitalised, joined by single spaces, format to themselves. */
  lemma FormatJoinOfCapitalized(cs: seq<string>)
    requires cs != [] && forall k :: 0 <= k < |cs| ==> Capitalized(cs[k]) && NoSpace(cs[k])
    ensures FormatAuthorName(Join(cs, " ")) == Join(cs, " ")
  {
    WordsOfJoin(cs);
    forall k | 0 <= k < |cs| ensures Capitalize(cs[k]) == cs[k] {
      CapitalizeCapitalized(cs[k]);
    }
    assert CapitalizeAll(cs) == cs;
    assert Join(cs, " ") != "" by {
      WordsOfBlank("");
    }
  }

  /** The avatar values the CMS uses for "no picture". */
  predicate IsPlaceholderImage(image: string)
  {
    image == "" || image == "imag1" || image == "image"
  }

  /** `resolveAuthorImage(image)`. */
  function ResolveAuthorImage(image: string): (r: string)
    ensures IsPlaceholderImage(image) ==> r == DEFAULT_AUTHOR_IMAGE
    ensures !IsPlaceholderImage(image) ==> r == image
    ensures !IsPlaceholderImage(r)
  {
    if IsPlaceholderImage(image) then DEFAULT_AUTHOR_IMAGE else image
  }
}

/**
 * The author card (`components/AuthorCard.tsx`): the two-letter initials
 * shown when there is no avatar, the test for a usable avatar URL, and the
 * default biography.
 */
module AuthorCard {
  import opened Text
  import opened Seqs
  import AuthorDisplay

  // ---------------------------------------------------------------- initials

  function NonEmptyWord(w: string): bool { w != "" }

  /** `name.split(" ").filter(Boolean)`: the pieces between single spaces that are not empty. */
  function SpaceWords(name: string): (ws: seq<string>)
    ensures forall k :: 0 <= k < |ws| ==> ws[k] != ""
  {
    Filter(Split(name, " "), NonEmptyWord)
  }

  /** `.map((word) => word.charAt(0).toUpperCase()).join("")`. */
  function UpperFirstLetters(ws: seq<string>): (r: string)
    requires forall k :: 0 <= k < |ws| ==> ws[k] != ""
    ensures |r| == |ws|
    ensures forall k :: 0 <= k < |ws| ==> r[k] == ToUpperChar(ws[k][0])
    decreases |ws|
  {
    if ws == [] then [] else [ToUpperChar(ws[0][0])] + UpperFirstLetters(ws[1..])
  }

  /** `getInitials(name)`: the upper-cased first characters of the first two
      space-separated words, in order. */
  function GetInitials(name: string): (r: string)
    ensures |r| <= 2 && |r| == Min(2, |SpaceWords(name)|)
    ensures forall k :: 0 <= k < |r| ==> r[k] == ToUpperChar(SpaceWords(name)[k][0]) && !IsLower(r[k])
  {
    var letters := UpperFirstLetters(SpaceWords(name));
    letters[..Min(2, |letters|)]
  }

  /** An empty name, or one made only of spaces, has no initials. */
  lemma InitialsOfBlank(name: string)
    requires forall i :: 0 <= i < |name| ==> name[i] == ' '
    ensures GetInitials(name) == ""
  {
    var parts := Split(name, " ");
    SplitOfSeparators(name, " ");
    FilterMembers(parts, NonEmptyWord);
  }

  /** Words without spaces, joined by single spaces: the initials are the
      upper-cased first letters of the first two of them. */
  lemma InitialsOfWords(ws: seq<string>)
    requires ws != [] && forall k :: 0 <= k < |ws| ==> ws[k] != "" && ' ' !in ws[k]
    ensures var r := GetInitials(Join(ws, " "));
      |r| == Min(2, |ws|) && forall k :: 0 <= k < |r| ==> r[k] == ToUpperChar(ws[k][0])
  {
    SplitJoin(ws, " ");
    FilterKeepsAll(ws, NonEmptyWord);
  }

  // ---------------------------------------------------------------- avatar

  /** `hasAvatar`: the URL is present, is neither placeholder value and is not blank once trimmed. */
  function HasAvatar(avatarUrl: string): bool
  {
    avatarUrl != "" && avatarUrl != "imag1" && avatarUrl != "image" && Trim(avatarUrl) != ""
  }

  /** An avatar is shown exactly when the URL is not one of the placeholder
      values and is not made only of whitespace; a shown avatar is the URL the
      landing page would also keep. */
  lemma HasAvatarSpec(avatarUrl: string)
    ensures HasAvatar(avatarUrl) <==>
      !AuthorDisplay.IsPlaceholderImage(avatarUrl) && !(forall i :: 0 <= i < |avatarUrl| ==> IsSpace(avatarUrl[i]))
    ensures HasAvatar(avatarUrl) ==> AuthorDisplay.ResolveAuthorImage(avatarUrl) == avatarUrl
  {
    TrimBlank(avatarUrl);
  }

  // ---------------------------------------------------------------- biography

  const BIO_PREFIX := "Articles by "
  const BIO_SUFFIX := " on testing, DevTools and more."

  /** `displayBio`: the biography, or a sentence naming the author when it is empty. */
  function DisplayBio(bio: string, name: string): (r: string)
    ensures r != ""
    ensures bio != "" ==> r == bio
    ensures bio == "" ==> BIO_PREFIX <= r && |r| == |BIO_PREFIX| + |name| + |BIO_SUFFIX|
  {
    if bio != "" then bio else BIO_PREFIX + name + BIO_SUFFIX
  }

  /** The default biography names the author: removing its fixed opening and
      ending gives the name back. */
  lemma DefaultBioNamesAuthor(name: string)
    ensures var r := DisplayBio("", name);
      r[|BIO_PREFIX|..|r| - |BIO_SUFFIX|] == name && r[|r| - |BIO_SUFFIX|..] == BIO_SUFFIX
  {
  }
}

/**
 * The community testimonials strip (`components/testimonials.tsx`): each tweet
 * becomes a testimonial whose text has every "@keploy" replaced by a
 * highlighted mention, the list is cut into a top and a bottom row, and a card
 * falls back to the default picture for a placeholder avatar.
 */
module Testimonials {
  import opened Text
  import AuthorDisplay

  const MENTION := "@keploy"

  /** A tweet as the `Tweets` service lists it; `post` is "" when there is no link. */
  datatype Tweet = Tweet(id: string, name: string, avatar: string, content: string, post: string)

  /** One node of the rendered text: plain text, or the mention element with the
      position it was inserted after (its React key is the tweet id and that position). */
  datatype Piece = Plain(text: string) | Mention(index: nat)

  /** The card text: the tweet's own string when it has no mention, the interleaved nodes otherwise. */
  datatype Content = Verbatim(text: string) | Nodes(pieces: seq<Piece>)

  datatype Testimonial = Testimonial(avatar: string, name: string, handle: string, content: Content, link: string)

  // ---------------------------------------------------------------- the mention interleave

  /** The nodes alternate between the parts and mentions: part `k` at position
      `2k`, the `k`-th mention right after it, and nothing after the last part. */
  predicate Interleaves(pieces: seq<Piece>, parts: seq<string>)
  {
    && |parts| >= 1
    && |pieces| == 2 * |parts| - 1
    && (forall k :: 0 <= k < |parts| ==> pieces[2 * k] == Plain(parts[k]))
    && (forall k :: 0 <= k < |parts| - 1 ==> pieces[2 * k + 1] == Mention(k))
  }

  /** The `reduce` over the parts: push each part, then a mention unless it was the last part. */
  method Interleave(parts: seq<string>) returns (acc: seq<Piece>)
    requires parts != []
    ensures Interleaves(acc, parts)
  {
    acc := [];
    for idx := 0 to |parts|
      invariant |acc| == if idx == |parts| then 2 * idx - 1 else 2 * idx
      invariant forall k :: 0 <= k < idx ==> acc[2 * k] == Plain(parts[k])
      invariant forall k :: 0 <= k < idx && k < |parts| - 1 ==> acc[2 * k + 1] == Mention(k)
    {
      acc := acc + [Plain(parts[idx])];
      if idx != |parts| - 1 {
        acc := acc + [Mention(idx)];
      }
    }
  }

  /** The text a reader sees: plain nodes as they are, each mention as "@keploy". */
  function Rendered(pieces: seq<Piece>): string
    decreases |pieces|
  {
    if pieces == [] then ""
    else
      Rendered(pieces[..|pieces| - 1]) + PieceText(pieces[|pieces| - 1])
  }

  function RenderedContent(c: Content): string
  {
    match c
    case Verbatim(text) => text
    case Nodes(pieces) => Rendered(pieces)
  }

  /** The number of mention nodes. */
  function MentionCount(pieces: seq<Piece>): nat
    decreases |pieces|
  {
    if pieces == [] then 0
    else MentionCount(pieces[..|pieces| - 1]) + (if pieces[|pieces| - 1].Mention? then 1 else 0)
  }

  function PieceText(p: Piece): string
  {
    if p.Plain? then p.text else MENTION
  }

  /** Reading the last two nodes off the end. */
  lemma RenderedLastTwo(ps: seq<Piece>)
    requires |ps| >= 2
    ensures var n := |ps|;
      Rendered(ps) == Rendered(ps[..n - 2]) + PieceText(ps[n - 2]) + PieceText(ps[n - 1])
    ensures var n := |ps|;
      MentionCount(ps) == MentionCount(ps[..n - 2])
        + (if ps[n - 2].Mention? then 1 else 0) + (if ps[n - 1].Mention? then 1 else 0)
  {
    assert ps[..|ps| - 1][..|ps| - 2] == ps[..|ps| - 2];
  }

  /** Nodes that interleave the parts read as the parts joined by "@keploy",
      and hold one mention fewer than there are parts. */
  lemma {:induction false} InterleavingReadsBack(pieces: seq<Piece>, parts: seq<string>)
    requires Interleaves(pieces, parts)
    ensures Rendered(pieces) == Join(parts, MENTION)
    ensures MentionCount(pieces) == |parts| - 1
    decreases |parts|
  {
    var n := |parts|;
    if n > 1 {
      var init, front := parts[..n - 1], pieces[..2 * n - 3];
      InterleavesInit(pieces, parts);
      InterleavingReadsBack(front, init);
      RenderedLastTwo(pieces);
      JoinLast(parts, MENTION);
    } else {
      assert pieces[..0] == [];
    }
  }

  /** Without the last part, its mention and itself, the nodes interleave the other parts. */
  lemma InterleavesInit(pieces: seq<Piece>, parts: seq<string>)
    requires Interleaves(pieces, parts) && |parts| > 1
    ensures var n := |parts|;
      && Interleaves(pieces[..2 * n - 3], parts[..n - 1])
      && pieces[2 * n - 3] == Mention(n - 2) && pieces[2 * n - 2] == Plain(parts[n - 1])
  {
    var n := |parts|;
    var init, front := parts[..n - 1], pieces[..2 * n - 3];
    forall k | 0 <= k < n - 1 ensures front[2 * k] == Plain(init[k]) {
      assert pieces[2 * k] == Plain(parts[k]);
    }
    forall k | 0 <= k < n - 2 ensures front[2 * k + 1] == Mention(k) {
      assert pieces[2 * k + 1] == Mention(k);
    }
    assert pieces[2 * (n - 2) + 1] == Mention(n - 2);
    assert pieces[2 * (n - 1)] == Plain(parts[n - 1]);
  }

  /** Joining with one more piece at the end. */
  lemma {:induction false} JoinSnoc(ws: seq<string>, w: string, sep: string)
    requires ws != []
    ensures Join(ws + [w], sep) == Join(ws, sep) + sep + w
    decreases |ws|
  {
    if |ws| == 1 {
      assert ([ws[0]] + [w])[1..] == [w];
    } else {
      JoinSnoc(ws[1..], w, sep);
      assert (ws + [w])[1..] == ws[1..] + [w];
    }
  }

  /** Reading the last piece off the end of a join. */
  lemma JoinLast(ws: seq<string>, sep: string)
    requires |ws| >= 2
    ensures Join(ws, sep) == Join(ws[..|ws| - 1], sep) + sep + ws[|ws| - 1]
  {
    JoinSnoc(ws[..|ws| - 1], ws[|ws| - 1], sep);
    assert ws[..|ws| - 1] + [ws[|ws| - 1]] == ws;
  }

  // ---------------------------------------------------------------- tweets to testimonials

  /** What the mapping promises for one tweet: the fields copied across (`handle`
      from the id, `link` from the post URL), and the text split at every
      "@keploy" with a mention put back between consecutive parts, or kept as it
      is when it has no "@keploy". */
  predicate FromTweet(t: Tweet, r: Testimonial)
  {
    && r.avatar == t.avatar && r.name == t.name && r.handle == t.id && r.link == t.post
    && (Contains(t.content, MENTION) ==>
          r.content.Nodes? && Interleaves(r.content.pieces, Split(t.content, MENTION)))
    && (!Contains(t.content, MENTION) ==> r.content == Verbatim(t.content))
  }

  /** The callback of `Tweets.map`. */
  method ToTestimonial(t: Tweet) returns (r: Testimonial)
    ensures FromTweet(t, r)
  {
    var parts := Split(t.content, MENTION);
    var content: Content;
    if Contains(t.content, MENTION) {
      var pieces := Interleave(parts);
      content := Nodes(pieces);
    } else {
      content := Verbatim(t.content);
    }
    r := Testimonial(t.avatar, t.name, t.id, content, t.post);
  }

  /** `Tweets.map(...)`. */
  method ToTestimonials(tweets: seq<Tweet>) returns (rs: seq<Testimonial>)
    ensures |rs| == |tweets|
    ensures forall i :: 0 <= i < |tweets| ==> FromTweet(tweets[i], rs[i])
  {
    rs := [];
    for i := 0 to |tweets|
      invariant |rs| == i
      invariant forall j :: 0 <= j < i ==> FromTweet(tweets[j], rs[j])
    {
      var r := ToTestimonial(tweets[i]);
      rs := rs + [r];
    }
  }

  /** The card shows exactly the tweet's text: mentions are only highlighted,
      never added or lost, and a text with no "@keploy" passes through as it is. */
  lemma FromTweetKeepsText(t: Tweet, r: Testimonial)
    requires FromTweet(t, r)
    ensures RenderedContent(r.content) == t.content
  {
    if Contains(t.content, MENTION) {
      InterleavingReadsBack(r.content.pieces, Split(t.content, MENTION));
      JoinSplit(t.content, MENTION);
    }
  }

  // ---------------------------------------------------------------- the two rows

  /** `Math.ceil(n / 2)`. */
  function SplitIndex(n: nat): (s: nat)
    ensures 2 * s - 1 <= n <= 2 * s
  {
    (n + 1) / 2
  }

  function TopRow<T>(ts: seq<T>): seq<T> { ts[..SplitIndex(|ts|)] }

  function BottomRow<T>(ts: seq<T>): seq<T> { ts[SplitIndex(|ts|)..] }

  /** The rows together are the whole list in order, and the top row has
      the same number of cards as the bottom one or one more. */
  lemma RowsSplit<T>(ts: seq<T>)
    ensures TopRow(ts) + BottomRow(ts) == ts
    ensures |TopRow(ts)| == SplitIndex(|ts|)
    ensures 0 <= |TopRow(ts)| - |BottomRow(ts)| <= 1
  {
    assert ts[..SplitIndex(|ts|)] + ts[SplitIndex(|ts|)..] == ts;
  }

  // ---------------------------------------------------------------- avatar

  /** `resolvedAvatar`: the avatar, or the default picture for a missing or placeholder one. */
  function ResolvedAvatar(t: Testimonial): (src: string)
    ensures AuthorDisplay.IsPlaceholderImage(t.avatar) ==> src == AuthorDisplay.DEFAULT_AUTHOR_IMAGE
    ensures !AuthorDisplay.IsPlaceholderImage(t.avatar) ==> src == t.avatar
    ensures src != ""
  {
    AuthorDisplay.ResolveAuthorImage(t.avatar)
  }
}

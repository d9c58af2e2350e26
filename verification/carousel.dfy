/**
 * The "Latest blogs" carousel of the landing page. Its timers become events:
 * `Tick` is one firing of the 4.8-second interval (which exists only while
 * the list has more than one post), `Select` is a click on a dot, `Settle`
 * is the firing of one of the short timeouts those two schedule, and
 * `LengthChanged` is a render in which `combinedLatest.length` differs,
 * which runs the effect that puts the index back to 0.
 *
 * A timeout's callback sees the list length of the render that scheduled it,
 * so a step still pending across a length change divides by the old length;
 * `Pending.Advance` records that captured length.
 */
module Carousel {
  import opened Options
  import opened Posts
  import LandingFeed

  /** A short timeout that was scheduled and has not fired yet. */
  datatype Pending =
    | Advance(capturedLength: nat)   // the automatic step, `(prev + 1) % length`
    | JumpTo(index: nat)             // a dot click, `setActiveIndex(index)`

  class LatestCarousel {
    var length: nat          // combinedLatest.length
    var activeIndex: nat
    var isAnimating: bool
    var pending: seq<Pending>

    /** Automatic steps are scheduled only for lists of two or more posts. */
    ghost predicate Valid()
      reads this
    {
      forall k :: 0 <= k < |pending| ==> pending[k].Advance? ==> pending[k].capturedLength >= 2
    }

    /** A pending timeout that was scheduled for a list of the current length. */
    predicate Current(p: Pending)
      reads this
    {
      match p
      case Advance(n) => n == length
      case JumpTo(i) => i < length
    }

    /** The index is inside the list (or 0 for an empty list), and every
        pending step was scheduled for a list of the current length. */
    ghost predicate InRange()
      reads this
    {
      && (if length == 0 then activeIndex == 0 else activeIndex < length)
      && forall k :: 0 <= k < |pending| ==> Current(pending[k])
    }

    constructor(n: nat)
      ensures Valid() && InRange()
      ensures length == n && activeIndex == 0 && !isAnimating && pending == []
    {
      length, activeIndex, isAnimating, pending := n, 0, false, [];
    }

    /** The effect on `combinedLatest.length`. Pending timeouts are not cancelled. */
    method LengthChanged(n: nat)
      requires Valid()
      modifies this
      ensures Valid()
      ensures length == n && isAnimating == old(isAnimating) && pending == old(pending)
      ensures activeIndex == if n != old(length) then 0 else old(activeIndex)
      ensures old(InRange()) && n == old(length) ==> InRange()
      ensures n != old(length) && pending == [] ==> InRange()
    {
      if n != length {
        length := n;
        activeIndex := 0;
      }
    }

    /** One firing of the interval: start the animation and schedule a step.
        With at most one post there is no interval, so nothing happens. */
    method Tick()
      requires Valid()
      modifies this
      ensures Valid()
      ensures length == old(length) && activeIndex == old(activeIndex)
      ensures old(length) > 1 ==> isAnimating && pending == old(pending) + [Advance(length)]
      ensures old(length) <= 1 ==> isAnimating == old(isAnimating) && pending == old(pending)
      ensures old(InRange()) ==> InRange()
    {
      if length > 1 {
        isAnimating := true;
        pending := pending + [Advance(length)];
      }
    }

    /** `handleManualSelection(index)`: an index outside the list changes nothing. */
    method Select(index: int)
      requires Valid()
      modifies this
      ensures Valid()
      ensures length == old(length) && activeIndex == old(activeIndex)
      ensures 0 <= index < length ==> isAnimating && pending == old(pending) + [JumpTo(index)]
      ensures !(0 <= index < length) ==> isAnimating == old(isAnimating) && pending == old(pending)
      ensures old(InRange()) ==> InRange()
    {
      if 0 <= index < length {
        isAnimating := true;
        pending := pending + [JumpTo(index)];
      }
    }

    /** The `k`-th pending timeout fires: it moves the index and ends the animation. */
    method Settle(k: nat)
      requires Valid() && k < |pending|
      modifies this
      ensures Valid()
      ensures length == old(length) && !isAnimating
      ensures pending == old(pending[..k] + pending[k + 1..])
      ensures old(pending[k]).Advance? ==>
        activeIndex == (old(activeIndex) + 1) % old(pending[k]).capturedLength
      ensures old(pending[k]).JumpTo? ==> activeIndex == old(pending[k]).index
      ensures old(InRange()) ==> InRange()
    {
      match pending[k] {
        case Advance(n) => activeIndex := (activeIndex + 1) % n;
        case JumpTo(i) => activeIndex := i;
      }
      isAnimating := false;
      pending := pending[..k] + pending[k + 1..];
    }

    /** The index actually shown: `combinedLatest[activeIndex] || combinedLatest[0]`. */
    function Displayed(): (i: nat)
      reads this
      ensures length > 0 ==> i < length
      ensures activeIndex < length ==> i == activeIndex
    {
      if activeIndex < length then activeIndex else 0
    }

    /** `activePost`: none for an empty list. */
    function ActivePost(latest: seq<Post>): (r: Option<Post>)
      requires |latest| == length
      reads this
      ensures r.None? <==> latest == []
      ensures r.Some? ==> r.value in latest
    {
      if latest == [] then None else Some(latest[Displayed()])
    }

    /** `activeCollection`: where the active post's link points. */
    function ActiveCollection(latest: seq<Post>): LandingFeed.Collection
      requires |latest| == length
      reads this
    {
      LandingFeed.CollectionOf(ActivePost(latest))
    }
  }

  /** A step still pending when the list shrinks divides by the old length:
      five posts, an automatic step scheduled, the list drops to one post
      (index reset to 0), then the step fires and moves the index to 1,
      outside the one-post list. Only the fallback to the first post keeps the
      card showing a post. */
  method StaleStepScenario() returns (c: LatestCarousel)
    ensures c.Valid()
    ensures c.length == 1 && c.activeIndex == 1 && !c.InRange()
    ensures c.Displayed() == 0
  {
    c := new LatestCarousel(5);
    c.Tick();
    c.LengthChanged(1);
    assert c.pending == [Advance(5)];
    c.Settle(0);
  }
}

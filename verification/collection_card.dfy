/**
 * The rotating cover image of a landing collection card
 * (`components/landing/landing-collection-card.tsx`). The interval callback
 * becomes a `Tick` event, a change of the `imageUrls` prop is the render
 * `SetImageUrls`, and the effects that React runs after such a render are
 * `RunEffects`.
 */
module CollectionCard {
  import opened Options
  import opened Seqs

  function NonEmpty(url: string): bool { url != "" }

  /** `validImages`: the URLs that are present and non-empty, in their original order. */
  function ValidImages(urls: seq<string>): (r: seq<string>)
    ensures forall i :: 0 <= i < |r| ==> r[i] != ""
  {
    Filter(urls, NonEmpty)
  }

  /** `validImages` keeps exactly the non-empty URLs, in order, and keeps all of them. */
  lemma ValidImagesSpec(urls: seq<string>)
    ensures IsSubseq(ValidImages(urls), urls)
    ensures forall u :: u in ValidImages(urls) <==> u in urls && u != ""
    ensures (forall i :: 0 <= i < |urls| ==> urls[i] != "") ==> ValidImages(urls) == urls
  {
    FilterIsSubseq(urls, NonEmpty);
    FilterMembers(urls, NonEmpty);
    if forall i :: 0 <= i < |urls| ==> urls[i] != "" {
      FilterKeepsAll(urls, NonEmpty);
    }
  }

  /** What the image area renders. */
  datatype Picture =
    | Gradient             // no valid image: the accent's fallback gradient
    | Image(src: string)   // `<Image src={validImages[activeIndex]}>`
    | MissingSource        // `validImages[activeIndex]` is `undefined`

  /** The card's state between events. A render uses the index as it stands;
      the two effects keyed on `validImages.length` (the reset to 0 and the
      interval) run only after a render that changed that length has been
      committed, which `RunEffects` models. React runs those pending effects
      before it starts the next render. */
  class ImageRotator {
    var images: seq<string>       // validImages of the last render
    var activeIndex: nat
    var effectsPending: bool      // the last render changed validImages.length
    var intervalLength: nat       // validImages.length the running interval captured

    /** Every image is a usable URL; the index is 0 or within the length the
        effects last saw, which is the current length once they have run. */
    ghost predicate Valid()
      reads this
    {
      && (forall i :: 0 <= i < |images| ==> images[i] != "")
      && (activeIndex == 0 || activeIndex < intervalLength)
      && (!effectsPending ==> intervalLength == |images|)
    }

    /** Mount: the first render at index 0, then the effects on that length. */
    constructor(urls: seq<string>)
      ensures Valid()
      ensures images == ValidImages(urls) && activeIndex == 0
      ensures !effectsPending && intervalLength == |images|
    {
      var valid := ValidImages(urls);
      images := valid;
      activeIndex := 0;
      effectsPending := false;
      intervalLength := |valid|;
    }

    /** The effects after a committed render: when `validImages.length`
        changed, `setActiveIndex(0)` and a new interval for the new length. */
    method RunEffects()
      requires Valid()
      modifies this
      ensures Valid()
      ensures images == old(images) && !effectsPending && intervalLength == |images|
      ensures activeIndex == if old(effectsPending) then 0 else old(activeIndex)
    {
      if effectsPending {
        activeIndex := 0;
        intervalLength := |images|;
        effectsPending := false;
      }
    }

    /** A render with new `imageUrls`, after the effects still due: the index
        is kept, and the effects become due when the number of valid images
        changed. */
    method SetImageUrls(urls: seq<string>)
      requires Valid()
      modifies this
      ensures Valid()
      ensures images == ValidImages(urls)
      ensures activeIndex == if old(effectsPending) then 0 else old(activeIndex)
      ensures intervalLength == old(|images|)
      ensures effectsPending <==> |images| != old(|images|)
    {
      RunEffects();
      var next := ValidImages(urls);
      effectsPending := |next| != |images|;
      images := next;
    }

    /** The interval callback `(prev + 1) % validImages.length`, with the
        length the running interval captured; no interval runs for fewer than
        two images. */
    method Tick()
      requires Valid()
      modifies this
      ensures Valid()
      ensures images == old(images) && effectsPending == old(effectsPending) && intervalLength == old(intervalLength)
      ensures activeIndex == if intervalLength > 1 then (old(activeIndex) + 1) % intervalLength else old(activeIndex)
    {
      if intervalLength > 1 {
        activeIndex := (activeIndex + 1) % intervalLength;
      }
    }

    /** The picture rendered: the gradient when there is no image, the active
        image when the index is in range, and no source otherwise, which can
        happen only before the effects of a render that shrank the list. */
    function Shown(): (r: Picture)
      requires Valid()
      reads this
      ensures r == Gradient <==> images == []
      ensures r.Image? <==> images != [] && activeIndex < |images|
      ensures r.Image? ==> activeIndex < |images| && r.src == images[activeIndex] && r.src != ""
      ensures r == MissingSource <==> images != [] && activeIndex >= |images|
      ensures r == MissingSource ==> effectsPending && |images| < intervalLength
    {
      if images == [] then Gradient
      else if activeIndex < |images| then Image(images[activeIndex])
      else MissingSource
    }
  }

  /** Three images, two interval steps (index 2), then `imageUrls` shrinks to
      one image: the render before the reset effect asks for
      `validImages[2]`, which does not exist; once the effects have run, the
      first image is shown. */
  method ShrinkScenario() returns (before: Picture, after: Picture)
    ensures before == MissingSource && after == Image("a")
  {
    ValidImagesSpec(["a", "b", "c"]);
    ValidImagesSpec(["a"]);
    var card := new ImageRotator(["a", "b", "c"]);
    card.Tick();
    card.Tick();
    card.SetImageUrls(["a"]);
    before := card.Shown();
    card.RunEffects();
    after := card.Shown();
  }
}

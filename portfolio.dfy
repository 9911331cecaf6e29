/**
 * The home page: the hero carousel with its wrap-around navigation, the
 * featured strip of the first six catalog items with the short blurb on
 * each card's back, and the auto-flip cycle over cards 2 and 4.
 */
module Portfolio {
  import opened JsArray
  import opened JsString
  import Modular
  import Catalog
  import Attention

  /**
   * JavaScript's `%` for a positive divisor: the remainder of division
   * truncated toward zero, so it takes the sign of the dividend (Dafny's
   * `%` never goes negative).
   */
  function JsRem(a: int, b: int): (r: int)
    requires b > 0
    ensures a >= 0 ==> 0 <= r < b
    ensures a < 0 ==> -b < r <= 0
    ensures (a - r) % b == 0
  {
    if a >= 0 then
      Modular.ModUnique(a - a % b, b, a / b, 0); a % b
    else
      Modular.ModUnique(a + (-a) % b, b, -((-a) / b), 0); -((-a) % b)
  }

  /** The number of carousel slides. */
  function MaxSlides(): nat
  {
    |Catalog.CarouselSlides()|
  }

  /** The slide after `p` among `n`. */
  function NextSlide(p: int, n: int): int
    requires n > 0
  {
    JsRem(p + 1, n)
  }

  /** The slide before `p` among `n`. */
  function PrevSlide(p: int, n: int): int
    requires n > 0
  {
    JsRem(p - 1 + n, n)
  }

  /** From a slide in range, next and previous stay in range and wrap at the ends. */
  lemma SlideStepsWrap(p: int, n: int)
    requires 0 <= p < n
    ensures NextSlide(p, n) == (if p + 1 == n then 0 else p + 1)
    ensures PrevSlide(p, n) == (if p == 0 then n - 1 else p - 1)
  {
    if p + 1 == n {
      Modular.ModUnique(p + 1, n, 1, 0);
    } else {
      Modular.ModUnique(p + 1, n, 0, p + 1);
    }
    if p == 0 {
      Modular.ModUnique(p - 1 + n, n, 0, n - 1);
    } else {
      Modular.ModUnique(p - 1 + n, n, 1, p - 1);
    }
  }

  /** Previous undoes next and next undoes previous. */
  lemma PrevUndoesNext(p: int, n: int)
    requires 0 <= p < n
    ensures PrevSlide(NextSlide(p, n), n) == p
    ensures NextSlide(PrevSlide(p, n), n) == p
  {
    SlideStepsWrap(p, n);
    SlideStepsWrap(NextSlide(p, n), n);
    SlideStepsWrap(PrevSlide(p, n), n);
  }

  /** The slide after `k` forward steps from `p`. */
  function Advance(p: int, n: int, k: nat): int
    requires n > 0
    decreases k
  {
    if k == 0 then p else Advance(NextSlide(p, n), n, k - 1)
  }

  /** `k` forward steps land on slide `(p + k) % n`. */
  lemma {:induction false} AdvanceWraps(p: nat, n: nat, k: nat)
    requires p < n
    ensures Advance(p, n, k) == (p + k) % n
    decreases k
  {
    if k == 0 {
      Modular.ModUnique(p, n, 0, p);
    } else {
      var q := NextSlide(p, n);
      assert q == (p + 1) % n;
      AdvanceWraps(q, n, k - 1);
      Modular.ModSucc(p, k - 1, n);
    }
  }

  /** Three steps of auto-rotation bring the three-slide carousel back to where it was. */
  lemma AutoRotationCycles(p: nat)
    requires p < MaxSlides()
    ensures MaxSlides() == 3
    ensures Advance(p, MaxSlides(), MaxSlides()) == p
  {
    AdvanceWraps(p, MaxSlides(), MaxSlides());
    Modular.ModUnique(p + 3, 3, 1, p);
  }

  /** The carousel: the index of the slide on show among `maxSlides`. */
  class Carousel {
    const maxSlides: int
    var currentSlide: int

    ghost predicate Valid()
      reads this
    {
      maxSlides == MaxSlides() && 0 <= currentSlide < maxSlides
    }

    constructor ()
      ensures Valid() && currentSlide == 0
    {
      maxSlides := MaxSlides();
      currentSlide := 0;
    }

    /** The slide on show. */
    function Current(): Catalog.CarouselSlide
      reads this
      requires Valid()
    {
      Catalog.CarouselSlides()[currentSlide]
    }

    /**
     * `nextSlide`: each five-second auto-rotation step. The next button that
     * would also call it is commented out of the page.
     */
    method Next()
      requires Valid()
      modifies this
      ensures Valid()
      ensures currentSlide == (if old(currentSlide) + 1 == maxSlides then 0 else old(currentSlide) + 1)
      ensures currentSlide == NextSlide(old(currentSlide), maxSlides)
    {
      SlideStepsWrap(currentSlide, maxSlides);
      currentSlide := (currentSlide + 1) % maxSlides;
    }

    /**
     * `prevSlide`: the handler of the previous button, which is commented out
     * of the page, so nothing on the page calls it.
     */
    method Prev()
      requires Valid()
      modifies this
      ensures Valid()
      ensures currentSlide == (if old(currentSlide) == 0 then maxSlides - 1 else old(currentSlide) - 1)
      ensures currentSlide == PrevSlide(old(currentSlide), maxSlides)
    {
      SlideStepsWrap(currentSlide, maxSlides);
      currentSlide := JsRem(currentSlide - 1 + maxSlides, maxSlides);
    }

    /** An indicator dot: jump straight to slide `index`. */
    method SetSlide(index: int)
      requires Valid() && 0 <= index < maxSlides
      modifies this
      ensures Valid() && currentSlide == index
    {
      currentSlide := index;
    }
  }

  /** The featured strip: the first six items. */
  function FeaturedItems(items: seq<Catalog.GalleryItem>): seq<Catalog.GalleryItem>
  {
    Slice(items, 6)
  }

  /** The strip is the first `min(6, |items|)` items, in catalog order. */
  lemma FeaturedIsPrefix(items: seq<Catalog.GalleryItem>)
    ensures FeaturedItems(items) == items[..Min(6, |items|)]
  {
  }

  /** On the catalog the strip shows items 1 to 6. */
  lemma FeaturedOfCatalog()
    ensures |FeaturedItems(Catalog.GalleryItems())| == 6
    ensures forall i :: 0 <= i < 6 ==> FeaturedItems(Catalog.GalleryItems())[i].id == i + 1
  {
    Catalog.GalleryItemIds();
  }

  /** The blurb on a featured card's back: the description up to its first "\n\n". */
  function Blurb(item: Catalog.GalleryItem): string
  {
    Split(item.description, "\n\n")[0]
  }

  /**
   * The blurb is the text before the first "\n\n": it opens the description,
   * holds no "\n\n", no occurrence starts inside it, one starts right after
   * it when the description has any, and it is the whole description when
   * the description has none.
   */
  lemma BlurbIsOpening(item: Catalog.GalleryItem)
    ensures Blurb(item) <= item.description
    ensures !Contains(Blurb(item), "\n\n")
    ensures forall i :: 0 <= i < |Blurb(item)| ==> !OccursAt(item.description, "\n\n", i)
    ensures Contains(item.description, "\n\n") ==> OccursAt(item.description, "\n\n", |Blurb(item)|)
    ensures (forall i :: !OccursAt(item.description, "\n\n", i)) ==> Blurb(item) == item.description
  {
    SplitPiecesAvoidSeparator(item.description, "\n\n");
    SplitFirstPiece(item.description, "\n\n");
    if forall i :: !OccursAt(item.description, "\n\n", i) {
      SplitWithoutSeparator(item.description, "\n\n");
    }
  }


  /** The cards cycled by the auto-flip. */
  function AutoFlipTargets(): seq<int>
  {
    [2, 4]
  }

  /** Both targets are featured cards: card `t` is at position `t - 1` of the strip. */
  lemma AutoFlipTargetsAreFeatured()
    ensures forall j :: 0 <= j < |AutoFlipTargets()| ==>
      1 <= AutoFlipTargets()[j] <= |FeaturedItems(Catalog.GalleryItems())| &&
      FeaturedItems(Catalog.GalleryItems())[AutoFlipTargets()[j] - 1].id == AutoFlipTargets()[j]
  {
    FeaturedOfCatalog();
    var featured := FeaturedItems(Catalog.GalleryItems());
    assert featured[1].id == 2 && featured[3].id == 4;
  }

  /**
   * The ticks of one interval that is never restarted: with nothing flipped
   * when it starts and no hover, the ticks alternate, and after `k` ticks
   * card 2 is the one flipped for odd `k`, card 4 for even `k`. On the page
   * the effect runs again after every flip and starts its cursor at card 2
   * again, so the page does not show this alternation
   * (`PageTicksStayOnCardTwo`).
   */
  lemma AutoFlipAlternates(flipped: map<int, bool>, k: nat)
    requires Attention.NoneFlipped(flipped, AutoFlipTargets()) && k >= 1
    ensures Attention.OnlyFlipped(Attention.Ticks(flipped, AutoFlipTargets(), 0, k), AutoFlipTargets(), (k - 1) % 2)
  {
    Attention.RoundRobin(flipped, AutoFlipTargets(), 0, k);
  }

  /**
   * When the effect runs again before every tick, as it does on the page,
   * card 4 is never flipped after a tick: every tick is at card 2.
   */
  lemma PageTicksStayOnCardTwo(flipped: map<int, bool>, k: nat)
    requires k >= 1
    ensures !Attention.Flag(Attention.RestartedTicks(flipped, AutoFlipTargets(), k), 4)
  {
    Attention.RestartedTicksStayOnFirst(flipped, AutoFlipTargets(), k);
    assert AutoFlipTargets()[1] == 4;
  }
}

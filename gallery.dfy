/**
 * The gallery page: its own category list and item list, the category
 * filter, the category label on each card, the empty state, and the
 * auto-flip cycle over cards 2, 8 and 12.
 */
module Gallery {
  import opened Wrappers
  import opened JsArray
  import Catalog
  import Attention

  /** A gallery card; the description is optional. */
  datatype GalleryItem = GalleryItem(
    id: int,
    title: string,
    category: string,
    image: string,
    alt: string,
    description: Option<string>)

  /** The filter buttons, in display order ("all" first). */
  function Categories(): seq<Catalog.Category>
  {
    [ Catalog.Category("all", "All Works"),
      Catalog.Category("street", "Street"),
      Catalog.Category("portrait", "Portraits"),
      Catalog.Category("urban", "Urban"),
      Catalog.Category("video", "Video"),
      Catalog.Category("abstract", "Abstract") ]
  }

  /** The page's cards, in display order. */
  function GalleryItems(): seq<GalleryItem>
  {
    [
      GalleryItem(1, "Urban Reflections", "street", "/placeholder-image.jpg", "Urban scene with reflections in puddles",
        Some("")),
      GalleryItem(2, "Neon Nights", "urban", "/placeholder-image.jpg", "City at night with neon lights",
        Some("")),
      GalleryItem(3, "Portrait Series I", "portrait", "/placeholder-image.jpg", "Dramatic portrait of a person",
        Some("")),
      GalleryItem(4, "Time-lapse: NYC", "video", "/placeholder-image.jpg", "New York City time-lapse preview",
        Some("")),
      GalleryItem(5, "Abandoned Spaces", "urban", "/placeholder-image.jpg", "Abandoned building interior",
        Some("")),
      GalleryItem(6, "Motion Study", "abstract", "/placeholder-image.jpg", "Abstract motion blur photography",
        Some("")),
      GalleryItem(7, "Street Life", "street", "/placeholder-image.jpg", "People on city streets",
        Some("")),
      GalleryItem(8, "Architectural Forms", "urban", "/placeholder-image.jpg", "Modern architecture",
        Some("")),
      GalleryItem(9, "Portrait Series II", "portrait", "/placeholder-image.jpg", "Studio portrait",
        Some("")),
      GalleryItem(10, "Urban Geometry", "abstract", "/placeholder-image.jpg", "Geometric patterns in urban environment",
        Some("")),
      GalleryItem(11, "Street Musicians", "street", "/placeholder-image.jpg", "Musicians performing on the street",
        Some("")),
      GalleryItem(12, "Documentary: NYC", "video", "/placeholder-image.jpg", "Documentary film preview",
        Some("")),
      GalleryItem(13, "Light Studies", "abstract", "/placeholder-image.jpg", "Experiments with light",
        Some("")),
      GalleryItem(14, "Skyline", "urban", "/placeholder-image.jpg", "City skyline view",
        Some("")),
      GalleryItem(15, "Portrait Series III", "portrait", "/placeholder-image.jpg", "Environmental portrait",
        Some(""))
    ]
  }

  function InCategory(category: string): GalleryItem -> bool
  {
    (item: GalleryItem) => item.category == category
  }

  /** The cards of any category other than `category`. */
  function OutsideCategory(category: string): GalleryItem -> bool
  {
    (item: GalleryItem) => item.category != category
  }

  /** The cards shown for the active filter: all of them for "all", else those of that category. */
  function FilteredItems(items: seq<GalleryItem>, activeCategory: string): seq<GalleryItem>
  {
    if activeCategory == "all" then items
    else Filter(items, InCategory(activeCategory))
  }

  /** The empty-state message shows when the active filter leaves no card. */
  predicate ShowsEmptyState(items: seq<GalleryItem>, activeCategory: string)
  {
    |FilteredItems(items, activeCategory)| == 0
  }

  /**
   * The filter keeps every card under "all"; under any other category it
   * keeps exactly the cards of that category, in their original order and
   * with every copy of a repeated card.
   */
  lemma FilteredItemsSpec(items: seq<GalleryItem>, activeCategory: string)
    ensures activeCategory == "all" ==> FilteredItems(items, activeCategory) == items
    ensures activeCategory != "all" ==>
      (forall x :: x in FilteredItems(items, activeCategory) <==> x in items && x.category == activeCategory) &&
      IsSubsequence(FilteredItems(items, activeCategory), items)
    ensures activeCategory != "all" ==>
      forall x: GalleryItem :: x.category == activeCategory ==>
        multiset(FilteredItems(items, activeCategory))[x] == multiset(items)[x]
  {
    if activeCategory != "all" {
      var others := OutsideCategory(activeCategory);
      FilterMembers(items, InCategory(activeCategory));
      FilterIsSubsequence(items, InCategory(activeCategory));
      FilterPartition(items, InCategory(activeCategory), others);
      FilterMembers(items, others);
      forall x: GalleryItem | x.category == activeCategory
        ensures multiset(FilteredItems(items, activeCategory))[x] == multiset(items)[x]
      {
        assert x !in Filter(items, others);
      }
    }
  }

  /** The empty state shows exactly when no card matches; under "all", only when there are no cards. */
  lemma EmptyStateIff(items: seq<GalleryItem>, activeCategory: string)
    ensures activeCategory == "all" ==> (ShowsEmptyState(items, activeCategory) <==> items == [])
    ensures activeCategory != "all" ==>
      (ShowsEmptyState(items, activeCategory) <==> forall i :: 0 <= i < |items| ==> items[i].category != activeCategory)
  {
    if activeCategory != "all" {
      FilterMembers(items, InCategory(activeCategory));
      if !ShowsEmptyState(items, activeCategory) {
        var r := FilteredItems(items, activeCategory);
        assert r[0] in r;
      } else {
        assert forall i :: 0 <= i < |items| ==> items[i] in items;
      }
    }
  }

  /**
   * The label a card shows for its category: the name of the first category
   * with that id, or nothing when no category has it.
   */
  function CategoryLabel(categories: seq<Catalog.Category>, categoryId: string): (shown: Option<string>)
    ensures shown.None? <==> forall i :: 0 <= i < |categories| ==> categories[i].id != categoryId
    ensures forall i :: 0 <= i < |categories| && categories[i].id == categoryId && Catalog.NoEarlierId(categories, categoryId, i) ==>
      shown == Some(categories[i].name)
  {
    match Find(categories, Catalog.HasId(categoryId))
    case Some(category) => Some(category.name)
    case None => None
  }

  /**
   * The card label agrees with the shared name lookup: the lookup's
   * fallback to the id is exactly the case where the card shows no label.
   */
  lemma LabelAgreesWithCategoryName(categories: seq<Catalog.Category>, categoryId: string)
    ensures Catalog.CategoryNameById(categories, categoryId) == CategoryLabel(categories, categoryId).GetOr(categoryId)
  {
  }

  /** The page keeps the same category list as the shared catalog. */
  lemma SameCategoriesAsCatalog()
    ensures Categories() == Catalog.Categories()
  {
  }

  /** The cards have ids 1 to 15 in display order. */
  lemma GalleryItemIds()
    ensures |GalleryItems()| == 15
    ensures forall i :: 0 <= i < |GalleryItems()| ==> GalleryItems()[i].id == i + 1
  {
  }

  /** The cards cycled by the auto-flip. */
  function AutoFlipTargets(): seq<int>
  {
    [2, 8, 12]
  }

  /** Every auto-flip target is the id of a card on the page: card `t` sits at position `t - 1`. */
  lemma AutoFlipTargetsAreCards()
    ensures forall j :: 0 <= j < |AutoFlipTargets()| ==>
      1 <= AutoFlipTargets()[j] <= |GalleryItems()| &&
      GalleryItems()[AutoFlipTargets()[j] - 1].id == AutoFlipTargets()[j]
  {
    GalleryItemIds();
    var items := GalleryItems();
    assert items[1].id == 2 && items[7].id == 8 && items[11].id == 12;
  }

  /**
   * The ticks of one interval that is never restarted: with nothing flipped
   * when it starts and no hover, after `k` ticks card 2, 8 or 12 (in that
   * rotation) is the only target flipped. On the page the effect runs again
   * after every flip and starts its cursor at card 2 again, so the page does
   * not show this rotation (`PageTicksStayOnCardTwo`).
   */
  lemma AutoFlipRotation(flipped: map<int, bool>, k: nat)
    requires Attention.NoneFlipped(flipped, AutoFlipTargets()) && k >= 1
    ensures Attention.OnlyFlipped(Attention.Ticks(flipped, AutoFlipTargets(), 0, k), AutoFlipTargets(), (k - 1) % 3)
  {
    Attention.RoundRobin(flipped, AutoFlipTargets(), 0, k);
  }

  /**
   * When the effect runs again before every tick, as it does on the page,
   * cards 8 and 12 are never flipped after a tick: every tick is at card 2.
   */
  lemma PageTicksStayOnCardTwo(flipped: map<int, bool>, k: nat)
    requires k >= 1
    ensures !Attention.Flag(Attention.RestartedTicks(flipped, AutoFlipTargets(), k), 8)
    ensures !Attention.Flag(Attention.RestartedTicks(flipped, AutoFlipTargets(), k), 12)
  {
    Attention.RestartedTicksStayOnFirst(flipped, AutoFlipTargets(), k);
    assert AutoFlipTargets()[1] == 8 && AutoFlipTargets()[2] == 12;
  }
}

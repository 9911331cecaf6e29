/**
 * The site's data module: the category list, the gallery items, the home-page
 * carousel slides, and the two helper queries over them, the category-name
 * lookup and the related-works selection.
 */
module Catalog {
  import opened Wrappers
  import opened JsArray

  datatype Category = Category(id: string, name: string)

  datatype GalleryItem = GalleryItem(
    id: int,
    title: string,
    category: string,
    image: string,
    alt: string,
    description: string,
    date: string,
    location: string,
    tags: seq<string>)

  datatype CarouselSlide = CarouselSlide(image: string, title: string, subtitle: string)

  /** The filter categories, in button order; "all" is the sentinel that matches every item. */
  function Categories(): seq<Category>
  {
    [ Category("all", "All Works"),
      Category("street", "Street"),
      Category("portrait", "Portraits"),
      Category("urban", "Urban"),
      Category("video", "Video"),
      Category("abstract", "Abstract") ]
  }

  /** The home-page carousel. */
  function CarouselSlides(): seq<CarouselSlide>
  {
    [ CarouselSlide("/banner.jpg", "Street Photography", "Capturing authentic moments in urban environments"),
      CarouselSlide("/banner2.jpg", "Portrait Sessions", "Revealing the essence of unique individuals"),
      CarouselSlide("/banner.jpg", "Cinematic Stories", "Visual narratives that evoke emotion") ]
  }

  /** The portfolio works, in canonical display order. */
  function GalleryItems(): seq<GalleryItem>
  {
    [
      GalleryItem(1, "Urban Reflections", "street", "/placeholder-image.jpg", "Urban scene with reflections in puddles",
        "", "February 2025", "New York City, NY", ["Reflection", "Urban", "Street Photography", "New York"]),
      GalleryItem(2, "Neon Nights", "urban", "/placeholder-image.jpg", "City at night with neon lights",
        "", "January 2025", "Tokyo, Japan", ["Night Photography", "Neon", "Urban", "Tokyo"]),
      GalleryItem(3, "Portrait Series", "portrait", "/placeholder-image.jpg", "Dramatic portrait of a person",
        "", "March 2025", "Studio, Brooklyn", ["Portrait", "People", "Studio", "Black and White"]),
      GalleryItem(4, "Time-lapse: NYC", "video", "/placeholder-image.jpg", "New York City time-lapse preview",
        "", "April 2025", "New York City, NY", ["Time-lapse", "Video", "Urban", "New York"]),
      GalleryItem(5, "Abandoned Spaces", "urban", "/placeholder-image.jpg", "Abandoned building interior",
        "", "May 2025", "Various Locations", ["Urban Exploration", "Abandoned", "Decay", "Architecture"]),
      GalleryItem(6, "Motion Study", "abstract", "/placeholder-image.jpg", "Abstract motion blur photography",
        "", "June 2025", "Studio Work", ["Abstract", "Long Exposure", "Motion", "Experimental"]),
      GalleryItem(7, "Street Life", "street", "/placeholder-image.jpg", "People on city streets",
        "", "July 2025", "Various Cities", ["Street", "Documentary", "People", "Urban Life"]),
      GalleryItem(8, "Architectural Forms", "urban", "/placeholder-image.jpg", "Modern architecture",
        "", "August 2025", "Various Cities", ["Architecture", "Geometry", "Design", "Urban"]),
      GalleryItem(9, "Portrait Series II", "portrait", "/placeholder-image.jpg", "Studio portrait",
        "", "September 2025", "Studio, Brooklyn", ["Portrait", "Studio", "Lighting", "Character Study"]),
      GalleryItem(10, "Urban Geometry", "abstract", "/placeholder-image.jpg", "Geometric patterns in urban environment",
        "", "October 2025", "Various Cities", ["Abstract", "Geometry", "Urban", "Patterns"]),
      GalleryItem(11, "Street Musicians", "street", "/placeholder-image.jpg", "Musicians performing on the street",
        "", "November 2025", "Various Cities", ["Music", "Performance", "Street", "Artists"]),
      GalleryItem(12, "Documentary: NYC", "video", "/placeholder-image.jpg", "Documentary film preview",
        "", "December 2025", "New York City, NY", ["Documentary", "Film", "New York", "Urban Stories"]),
      GalleryItem(13, "Light Studies", "abstract", "/placeholder-image.jpg", "Experiments with light",
        "", "January 2026", "Various Locations", ["Light", "Experimental", "Abstract", "Long Exposure"]),
      GalleryItem(14, "Skyline", "urban", "/placeholder-image.jpg", "City skyline view",
        "", "February 2026", "Various Cities", ["Cityscape", "Urban", "Architecture", "Skyline"]),
      GalleryItem(15, "Portrait Series III", "portrait", "/placeholder-image.jpg", "Environmental portrait",
        "", "March 2026", "Various Locations", ["Portrait", "Environmental", "Identity", "Storytelling"])
    ]
  }

  /** The ids of `items`, in order. */
  function Ids(items: seq<GalleryItem>): (ids: seq<int>)
    ensures |ids| == |items| && forall i :: 0 <= i < |items| ==> ids[i] == items[i].id
    decreases |items|
  {
    if items == [] then [] else [items[0].id] + Ids(items[1..])
  }

  /** No two items share an id. */
  ghost predicate DistinctIds(items: seq<GalleryItem>)
  {
    forall i, j :: 0 <= i < j < |items| ==> items[i].id != items[j].id
  }

  // ---------------------------------------------------------------------------
  // getCategoryNameById

  /** No category before position `i` has id `categoryId`. */
  predicate NoEarlierId(categories: seq<Category>, categoryId: string, i: int)
  {
    forall j :: 0 <= j < i && j < |categories| ==> categories[j].id != categoryId
  }

  function HasId(categoryId: string): Category -> bool
  {
    (c: Category) => c.id == categoryId
  }

  /**
   * `getCategoryNameById`: the name of the first category whose id is
   * `categoryId`; an id that matches no category is returned unchanged.
   */
  function CategoryNameById(categories: seq<Category>, categoryId: string): (name: string)
    ensures (forall i :: 0 <= i < |categories| ==> categories[i].id != categoryId) ==> name == categoryId
    ensures forall i :: 0 <= i < |categories| && categories[i].id == categoryId && NoEarlierId(categories, categoryId, i) ==>
      name == categories[i].name
  {
    match Find(categories, HasId(categoryId))
    case Some(category) => category.name
    case None => categoryId
  }

  // ---------------------------------------------------------------------------
  // getRelatedWorks

  function NotId(excludeId: int): GalleryItem -> bool
  {
    (item: GalleryItem) => item.id != excludeId
  }

  function InCategory(category: string): GalleryItem -> bool
  {
    (item: GalleryItem) => item.category == category
  }

  function OutsideCategory(category: string): GalleryItem -> bool
  {
    (item: GalleryItem) => item.category != category
  }

  /** JavaScript truthiness of an optional string: present and not empty. */
  predicate Truthy(s: Option<string>)
  {
    s.Some? && s.value != ""
  }

  /** The works of `category` first, then all the others, each part in its original order. */
  function CategoryFirst(works: seq<GalleryItem>, category: string): seq<GalleryItem>
  {
    Filter(works, InCategory(category)) + Filter(works, OutsideCategory(category))
  }

  /**
   * `getRelatedWorks` over an injected item list: every item but `excludeId`,
   * reordered category-first when `sameCategory` is truthy, cut to `count`.
   */
  function RelatedWorks(items: seq<GalleryItem>, excludeId: int, count: int, sameCategory: Option<string>): (r: seq<GalleryItem>)
    ensures forall i :: 0 <= i < |r| ==> r[i].id != excludeId && r[i] in items
  {
    var filteredWorks := Filter(items, NotId(excludeId));
    var ordered := if Truthy(sameCategory) then CategoryFirst(filteredWorks, sameCategory.value) else filteredWorks;
    FilterMembers(items, NotId(excludeId));
    if Truthy(sameCategory) then
      CategoryFirstMembers(filteredWorks, sameCategory.value);
      Slice(ordered, count)
    else
      Slice(ordered, count)
  }

  /** `db.getRelatedWorks(excludeId, count?, sameCategory?)`: an omitted `count` is 3. */
  function GetRelatedWorks(excludeId: int, count: Option<int>, sameCategory: Option<string>): seq<GalleryItem>
  {
    RelatedWorks(GalleryItems(), excludeId, count.GetOr(3), sameCategory)
  }

  /** Reordering category-first keeps only works that were there. */
  lemma CategoryFirstMembers(works: seq<GalleryItem>, category: string)
    ensures forall i :: 0 <= i < |CategoryFirst(works, category)| ==> CategoryFirst(works, category)[i] in works
  {
    FilterMembers(works, InCategory(category));
    FilterMembers(works, OutsideCategory(category));
  }

  /** Reordering category-first is a permutation. */
  lemma CategoryFirstIsPermutation(works: seq<GalleryItem>, category: string)
    ensures multiset(CategoryFirst(works, category)) == multiset(works)
    ensures |CategoryFirst(works, category)| == |works|
  {
    FilterPartition(works, InCategory(category), OutsideCategory(category));
  }

  /** In any prefix of the category-first reordering, no work of another category comes before a work of `category`. */
  lemma CategoryFirstPrefixOrder(works: seq<GalleryItem>, category: string, n: nat)
    requires n <= |CategoryFirst(works, category)|
    ensures var r := CategoryFirst(works, category)[..n];
      forall i, j :: 0 <= i < j < |r| && r[j].category == category ==> r[i].category == category
  {
    var a := Filter(works, InCategory(category));
    var b := Filter(works, OutsideCategory(category));
    var r: seq<GalleryItem> := (a + b)[..n];
    FilterMembers(works, InCategory(category));
    FilterMembers(works, OutsideCategory(category));
    forall k | |a| <= k < |r|
      ensures r[k].category != category
    {
      assert r[k] == b[k - |a|];
      assert OutsideCategory(category)(b[k - |a|]);
    }
    forall k | 0 <= k < |a| && k < |r|
      ensures r[k].category == category
    {
      assert r[k] == a[k];
      assert InCategory(category)(a[k]);
    }
  }

  /** Each category group of a prefix of the category-first reordering is a prefix of that group of `works`. */
  lemma CategoryFirstPrefixGroups(works: seq<GalleryItem>, category: string, n: nat)
    requires n <= |CategoryFirst(works, category)|
    ensures var r := CategoryFirst(works, category)[..n];
      && Filter(r, InCategory(category)) <= Filter(works, InCategory(category))
      && Filter(r, OutsideCategory(category)) <= Filter(works, OutsideCategory(category))
  {
    var a := Filter(works, InCategory(category));
    var b := Filter(works, OutsideCategory(category));
    var r: seq<GalleryItem> := (a + b)[..n];
    FilterMembers(works, InCategory(category));
    FilterMembers(works, OutsideCategory(category));
    if n <= |a| {
      assert r == a[..n];
      FilterKeepsAll(r, InCategory(category));
      FilterDropsAll(r, OutsideCategory(category));
      assert Filter(r, InCategory(category)) == a[..n];
      assert Filter(r, OutsideCategory(category)) == [];
    } else {
      var rb := b[..n - |a|];
      assert r == a + rb;
      FilterConcat(a, rb, InCategory(category));
      FilterKeepsAll(a, InCategory(category));
      FilterDropsAll(rb, InCategory(category));
      assert Filter(r, InCategory(category)) == a;
      FilterConcat(a, rb, OutsideCategory(category));
      FilterDropsAll(a, OutsideCategory(category));
      FilterKeepsAll(rb, OutsideCategory(category));
      assert Filter(r, OutsideCategory(category)) == rb;
    }
  }

  /** Result length: for `count >= 0`, `count` or all the remaining works, whichever is fewer. */
  lemma RelatedWorksLength(items: seq<GalleryItem>, excludeId: int, count: int, sameCategory: Option<string>)
    requires count >= 0
    ensures |RelatedWorks(items, excludeId, count, sameCategory)| == Min(count, |Filter(items, NotId(excludeId))|)
  {
    if Truthy(sameCategory) {
      CategoryFirstIsPermutation(Filter(items, NotId(excludeId)), sameCategory.value);
    }
  }

  /** Without a truthy `sameCategory`, the result is a prefix of the items minus `excludeId`, in catalog order. */
  lemma RelatedWorksUnordered(items: seq<GalleryItem>, excludeId: int, count: int, sameCategory: Option<string>)
    requires !Truthy(sameCategory)
    ensures var r := RelatedWorks(items, excludeId, count, sameCategory);
      r <= Filter(items, NotId(excludeId)) && IsSubsequence(r, items)
  {
    var f := Filter(items, NotId(excludeId));
    var r := RelatedWorks(items, excludeId, count, sameCategory);
    assert r == f[..|r|];
    FilterIsSubsequence(items, NotId(excludeId));
    PrefixOfSubsequence(f, items, |r|);
  }

  /**
   * With a truthy `sameCategory`, the result is a prefix of the category-first
   * reordering of the remaining works, so no other-category work precedes a
   * same-category one; and each group of the result is a prefix of that group
   * of the remaining works in catalog order.
   */
  lemma RelatedWorksCategoryFirst(items: seq<GalleryItem>, excludeId: int, count: int, sameCategory: Option<string>)
    requires Truthy(sameCategory)
    ensures var r := RelatedWorks(items, excludeId, count, sameCategory);
      var c := sameCategory.value;
      var f := Filter(items, NotId(excludeId));
      && r <= CategoryFirst(f, c)
      && (forall i, j :: 0 <= i < j < |r| && r[j].category == c ==> r[i].category == c)
      && Filter(r, InCategory(c)) <= Filter(f, InCategory(c))
      && Filter(r, OutsideCategory(c)) <= Filter(f, OutsideCategory(c))
  {
    var f := Filter(items, NotId(excludeId));
    var r := RelatedWorks(items, excludeId, count, sameCategory);
    CategoryFirstPrefixOrder(f, sameCategory.value, |r|);
    CategoryFirstPrefixGroups(f, sameCategory.value, |r|);
  }

  /** Dropping the first item keeps the ids distinct. */
  lemma DistinctIdsTail(items: seq<GalleryItem>)
    requires items != [] && DistinctIds(items)
    ensures DistinctIds(items[1..])
  {
    var rest := items[1..];
    forall i, j | 0 <= i < j < |rest|
      ensures rest[i].id != rest[j].id
    {
      assert rest[i] == items[i + 1] && rest[j] == items[j + 1];
    }
  }

  /** With distinct ids, the first item's id does not occur again. */
  lemma HeadIdNotInTail(items: seq<GalleryItem>)
    requires items != [] && DistinctIds(items)
    ensures items[0].id !in Ids(items[1..])
  {
    var rest := items[1..];
    forall k | 0 <= k < |rest|
      ensures Ids(rest)[k] != items[0].id
    {
      assert rest[k] == items[k + 1];
    }
  }

  /** Excluding an id drops at most one item when ids are distinct, and exactly one when the id is present. */
  lemma {:induction false} ExcludeDropsOne(items: seq<GalleryItem>, excludeId: int)
    requires DistinctIds(items)
    ensures excludeId in Ids(items) ==> |Filter(items, NotId(excludeId))| == |items| - 1
    ensures excludeId !in Ids(items) ==> Filter(items, NotId(excludeId)) == items
    decreases |items|
  {
    if items != [] {
      var rest := items[1..];
      var p := NotId(excludeId);
      DistinctIdsTail(items);
      ExcludeDropsOne(rest, excludeId);
      if items[0].id == excludeId {
        HeadIdNotInTail(items);
        assert Filter(items, p) == Filter(rest, p);
      } else {
        assert Filter(items, p) == [items[0]] + Filter(rest, p);
        assert Ids(items) == [items[0].id] + Ids(rest);
        assert (excludeId in Ids(items)) == (excludeId in Ids(rest));
        assert [items[0]] + rest == items;
      }
    }
  }

  // ---------------------------------------------------------------------------
  // Facts about the catalog data

  /** The gallery items have ids 1 to 15 in display order, so ids are distinct. */
  lemma GalleryItemIds()
    ensures |GalleryItems()| == 15
    ensures forall i :: 0 <= i < |GalleryItems()| ==> GalleryItems()[i].id == i + 1
    ensures DistinctIds(GalleryItems())
  {
  }


  /** `categoryId` is the id of some category in `categories`. */
  ghost predicate KnownCategory(categories: seq<Category>, categoryId: string)
  {
    exists j :: 0 <= j < |categories| && categories[j].id == categoryId
  }

  /** Every gallery item's category is one of the listed categories other than the "all" sentinel. */
  lemma ItemCategoriesKnown()
    ensures forall i :: 0 <= i < |GalleryItems()| ==>
      KnownCategory(Categories()[1..], GalleryItems()[i].category)
  {
    var items, cats := GalleryItems(), Categories()[1..];
    forall i | 0 <= i < |items|
      ensures KnownCategory(cats, items[i].category)
    {
      var c := items[i].category;
      if c == "street" {
        assert cats[0].id == c;
      } else if c == "portrait" {
        assert cats[1].id == c;
      } else if c == "urban" {
        assert cats[2].id == c;
      } else if c == "video" {
        assert cats[3].id == c;
      } else {
        assert cats[4].id == c;
      }
    }
  }

  /** A listed category id resolves to its display name. */
  lemma CategoryNameOfListedId()
    ensures CategoryNameById(Categories(), "portrait") == "Portraits"
  {
    assert NoEarlierId(Categories(), "portrait", 2);
  }

  /** An id that names no category is echoed back as its own display name. */
  lemma CategoryNameOfUnknownId()
    ensures CategoryNameById(Categories(), "unknown-id") == "unknown-id"
  {
  }

  /** Over items with distinct ids, `count` works are returned whenever more than `count` items exist. */
  lemma RelatedWorksOfDistinct(items: seq<GalleryItem>, excludeId: int, count: nat, sameCategory: Option<string>)
    requires DistinctIds(items) && count < |items|
    ensures |RelatedWorks(items, excludeId, count, sameCategory)| == count
  {
    ExcludeDropsOne(items, excludeId);
    RelatedWorksLength(items, excludeId, count, sameCategory);
  }

  /**
   * With the default count, the related works of any item are exactly three
   * items, none of them the excluded one (the catalog has fifteen items with
   * distinct ids, so at least fourteen remain).
   */
  lemma DefaultRelatedWorksHasThree(excludeId: int, sameCategory: Option<string>)
    ensures var r := GetRelatedWorks(excludeId, None, sameCategory);
      |r| == 3 && forall i :: 0 <= i < |r| ==> r[i].id != excludeId
  {
    GalleryItemIds();
    RelatedWorksOfDistinct(GalleryItems(), excludeId, 3, sameCategory);
  }

  /** A work that carries only an id and a category, for small example catalogs. */
  function Work(id: int, category: string): GalleryItem
  {
    GalleryItem(id, "", category, "", "", "", "", "", [])
  }

  /** Excluding work 2 from the five example works keeps the other four in order. */
  lemma ExampleExcludesTwo()
    ensures Filter([Work(1, "street"), Work(2, "portrait"), Work(3, "street"), Work(4, "portrait"), Work(5, "portrait")], NotId(2))
      == [Work(1, "street"), Work(3, "street"), Work(4, "portrait"), Work(5, "portrait")]
  {
    var w1, w2, w3, w4, w5 := Work(1, "street"), Work(2, "portrait"), Work(3, "street"), Work(4, "portrait"), Work(5, "portrait");
    var notTwo := NotId(2);
    assert Filter([w5], notTwo) == [w5];
    assert Filter([w4, w5], notTwo) == [w4, w5];
    assert Filter([w3, w4, w5], notTwo) == [w3, w4, w5];
    assert Filter([w2, w3, w4, w5], notTwo) == [w3, w4, w5];
  }

  /** The four remaining example works, portrait first: 4, 5, then 1, 3. */
  lemma ExamplePortraitFirst()
    ensures CategoryFirst([Work(1, "street"), Work(3, "street"), Work(4, "portrait"), Work(5, "portrait")], "portrait")
      == [Work(4, "portrait"), Work(5, "portrait"), Work(1, "street"), Work(3, "street")]
  {
    var w1, w3, w4, w5 := Work(1, "street"), Work(3, "street"), Work(4, "portrait"), Work(5, "portrait");
    assert "street" != "portrait" by { assert "street"[0] != "portrait"[0]; }
    var inP, outP := InCategory("portrait"), OutsideCategory("portrait");
    assert Filter([w5], inP) == [w5];
    assert Filter([w4, w5], inP) == [w4, w5];
    assert Filter([w3, w4, w5], inP) == [w4, w5];
    assert Filter([w1, w3, w4, w5], inP) == [w4, w5];
    assert Filter([w5], outP) == [];
    assert Filter([w4, w5], outP) == [];
    assert Filter([w3, w4, w5], outP) == [w3];
    assert Filter([w1, w3, w4, w5], outP) == [w1, w3];
  }

  /**
   * Five works, street = {1, 3} and portrait = {2, 4, 5}: the three works
   * related to work 2 with its category preferred are 4, 5, then 1.
   */
  lemma RelatedWorksExample()
    ensures var items := [Work(1, "street"), Work(2, "portrait"), Work(3, "street"), Work(4, "portrait"), Work(5, "portrait")];
      Ids(RelatedWorks(items, 2, 3, Some("portrait"))) == [4, 5, 1]
  {
    var w1, w2, w3, w4, w5 := Work(1, "street"), Work(2, "portrait"), Work(3, "street"), Work(4, "portrait"), Work(5, "portrait");
    ExampleExcludesTwo();
    ExamplePortraitFirst();
    assert RelatedWorks([w1, w2, w3, w4, w5], 2, 3, Some("portrait")) == [w4, w5, w1];
  }
}

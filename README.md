# Photography portfolio site — a Dafny model of its data and page logic

This project models the logic of a small photography portfolio site and
proves properties about it. The site is written in TypeScript with Next.js
and React. The model covers:

- the shared catalog in `src/db.ts`: categories, carousel slides, gallery
  items, the category-name lookup and the related-works query;
- the logic of three pages:
  - the home page (`portfolio.tsx`): a hero carousel, a featured strip and
    cards that flip automatically;
  - the gallery page (`gallery.tsx`): a category filter, category labels,
    an empty state and its own card cycle that flips automatically;
  - the work detail page (`work_detail.tsx`): the lookup, the
    loading / not-found / detail states, description paragraphs and the
    "More Works" strip.

Modules:

- `Wrappers`: `Option`.
- `JsArray`: the JavaScript array built-ins the code relies on.
  - `filter` and `find` are modelled as recursive functions.
  - `slice(0, end)` follows the JavaScript rule for a negative `end`.
- `JsString`: `split` with a non-empty separator, and `join`.
- `Modular`: two facts about `%` with a variable modulus.
- `Catalog`: `db.ts`.
  - The related-works query takes the item list as a parameter.
  - `GetRelatedWorks` applies it to the catalog's own items, and an omitted
    `count` becomes 3.
- `Attention`: the auto-flip cycle that the home page and the gallery share.
  - The pure functions `Ticked`/`Ticks` describe one tick and several ticks.
  - The class `FlipCycle` holds the flip map, the cursor and the hovered
    card.
  - Its `Tick` method runs the reset loop of the source and is proved equal
    to `Ticked`.
- `Gallery`, `WorkDetail`, `Portfolio`: one module per page.
  - Page state that React holds in `useState` becomes a class:
    - `WorkDetail.WorkView` for the work and loading flag;
    - `Portfolio.Carousel` for the current slide;
    - `Attention.FlipCycle` for the flip map and hover.
  - Derived values become functions.

A reader of the pages might expect some of them to behave otherwise; the
model follows the code:

- A reader might expect each tick to set the current target; it toggles it
  (`gallery.tsx:92`, `portfolio.tsx:57`). So the cycle keeps **at most one**
  target flipped, not exactly one. A tick leaves none flipped when the
  current target was already flipped (`Attention.TickedExactlyOneIff`).
  - In particular, the delayed initial flip followed by a first tick at the
    first target leaves no card flipped
    (`Attention.InitialFlipThenTickClears`).
  - Ticks of one interval that is never restarted take turns over the
    targets (`Attention.RoundRobin`). On the page that does not happen. The
    effect depends on the flip map (`gallery.tsx:118`, `portfolio.tsx:83`),
    so every flip runs it again, and each run starts its cursor at 0
    (`gallery.tsx:77`, `FlipCycle.Restart`). Every tick is therefore at the
    first target, and cards 8 and 12 (on the home page, card 4) are never
    flipped by a tick (`Attention.RestartedTicksStayOnFirst`,
    `Gallery.PageTicksStayOnCardTwo`, `Portfolio.PageTicksStayOnCardTwo`).
    Read from the code, with its timing left out of the model, this may say
    little: every run of the effect arms the 1.5-second initial flip again
    (`gallery.tsx:104-111`, `portfolio.tsx:69-76`). Each firing stores a new
    flip map and so runs the effect again, which clears the three-second
    interval before it fires. On the page probably no tick fires at all, and
    card 2 stays flipped.
- The carousel's previous and next buttons are commented out of the page
  (`portfolio.tsx:205-218`). `Carousel.Next` runs only from the five-second
  rotation, and `Carousel.Prev` models a handler the page no longer
  connects.
- The lookup effect of the work page keeps a previously stored work when a
  later id is not found (`work_detail.tsx:218-220`). `WorkView.Load` states
  this.
- Every work description on the detail page is a template literal. Its
  paragraph break is a newline, four spaces, a newline and four spaces. So
  `split('\n\n')` returns a single paragraph (see Findings).

## Model

| member | source | states |
|---|---|---|
| JsArray.Filter | src/db.ts:287 | `Array.prototype.filter` result is never longer than its input |
| JsArray.FilterMembers | src/db.ts:287 | an element is kept exactly when it is in the input and satisfies the predicate |
| JsArray.FilterIsSubsequence | src/db.ts:287 | filter keeps the input order (the result is a subsequence) |
| JsArray.FilterKeepsAll | src/db.ts:291-292 | filtering with a predicate every element satisfies returns the input |
| JsArray.FilterDropsAll | src/db.ts:291-292 | filtering with a predicate no element satisfies returns the empty list |
| JsArray.FilterConcat | src/db.ts:291-295 | filter distributes over concatenation |
| JsArray.FilterPartition | src/db.ts:291-295 | filtering by a predicate and by its negation splits the list into two parts whose multisets and lengths add up to those of the list |
| JsArray.FindIndex | src/db.ts:282 | the index found is the first match; no index exactly when nothing matches |
| JsArray.Find | src/db.ts:282 | `find` returns the first matching element, and returns nothing exactly when no element matches |
| JsArray.Slice | src/db.ts:299 | `slice(0, end)` is a prefix of length `min(end, n)` for `end >= 0` and `max(n + end, 0)` for negative `end` |
| JsArray.PrefixOfSubsequence | src/db.ts:299 | a prefix of a subsequence is a subsequence |
| JsString.Split | src/components/work_detail.tsx:367 | `split(sep)` yields at least one piece, and the first piece is a prefix of the string |
| JsString.JoinSplit | src/components/work_detail.tsx:367 | joining the pieces with the separator gives back the string |
| JsString.SplitPiecesAvoidSeparator | src/components/work_detail.tsx:367 | no piece contains the separator |
| JsString.SplitWithoutSeparator | src/components/work_detail.tsx:367 | a string in which the separator never occurs splits into itself alone |
| JsString.SplitAvoiding | src/components/work_detail.tsx:367 | a string free of the separator's first character splits into itself alone |
| JsString.SplitAfterPiece | src/components/work_detail.tsx:367 | a first piece free of the separator's first character ends at the separator after it |
| JsString.SplitJoinAvoiding | src/components/work_detail.tsx:367 | splitting undoes joining when no piece holds the separator's first character |
| JsString.SplitFirstPiece | src/components/portfolio.tsx:371 | the first piece ends at the first occurrence of the separator: no occurrence starts inside it, and when the separator occurs it occurs right after it |
| Catalog.CategoryNameById | src/db.ts:281-284 | the name of the first category with the id; the id itself when no category has it |
| Catalog.CategoryNameOfListedId | src/db.ts:281-284 | on the catalog, "portrait" names "Portraits" |
| Catalog.CategoryNameOfUnknownId | src/db.ts:281-284 | on the catalog, an unknown id is returned unchanged |
| Catalog.Categories | src/db.ts:59-66 | the six filter categories in button order, "all" first |
| Catalog.CarouselSlides | src/db.ts:93-109 | the three carousel slides in order |
| Catalog.GalleryItems | src/db.ts:112-278 | the fifteen gallery items in display order; their ids and categories are stated by `Catalog.GalleryItemIds` and `Catalog.ItemCategoriesKnown` |
| Catalog.Truthy | src/db.ts:290 | an optional category is truthy when it is present and not the empty string |
| Catalog.CategoryFirst | src/db.ts:291-295 | the same-category works then the others; `Catalog.CategoryFirstIsPermutation` and `Catalog.CategoryFirstPrefixGroups` state what it is |
| Catalog.GetRelatedWorks | src/db.ts:286 | the query on the catalog's own items with an omitted `count` read as 3; `Catalog.DefaultRelatedWorksHasThree` states its result |
| Catalog.RelatedWorks | src/db.ts:286-300 | no related work has the excluded id, and every one comes from the item list |
| Catalog.RelatedWorksLength | src/db.ts:286-300 | for `count >= 0` the result has `min(count, remaining)` works |
| Catalog.RelatedWorksUnordered | src/db.ts:287-299 | without a truthy `sameCategory` the result is a prefix of the remaining works in catalog order |
| Catalog.RelatedWorksCategoryFirst | src/db.ts:290-299 | with a truthy `sameCategory` the result is a prefix of the category-first order: no other-category work precedes a same-category work, and each group keeps catalog order |
| Catalog.CategoryFirstMembers | src/db.ts:291-295 | the category-first reordering contains only works of the input |
| Catalog.CategoryFirstIsPermutation | src/db.ts:291-295 | the category-first reordering is a permutation of the input |
| Catalog.CategoryFirstPrefixOrder | src/db.ts:291-295 | in any prefix of the reordering, every same-category work comes before every other work |
| Catalog.CategoryFirstPrefixGroups | src/db.ts:291-295 | each category group of a prefix is a prefix of that group in catalog order |
| Catalog.ExcludeDropsOne | src/db.ts:287 | with distinct ids, excluding a present id removes exactly one item and excluding an absent id removes none |
| Catalog.RelatedWorksOfDistinct | src/db.ts:286-300 | with distinct ids and `count` below the item count, exactly `count` works come back |
| Catalog.DefaultRelatedWorksHasThree | src/db.ts:286-300 | with the default count, the catalog yields exactly three related works, none of them the excluded one |
| Catalog.RelatedWorksExample | src/db.ts:290-299 | on a five-work example, the same-category works come first and the other works follow in catalog order |
| Catalog.GalleryItemIds | src/db.ts:112-278 | the catalog has 15 items with ids 1 to 15 in order, all distinct |
| Catalog.ItemCategoriesKnown | src/db.ts:112-278 | every item's category is one of the listed categories other than "all" |
| Gallery.Categories | src/components/gallery.tsx:45-52 | the page's own filter list; `Gallery.SameCategoriesAsCatalog` shows it equals the catalog's |
| Gallery.GalleryItems | src/components/gallery.tsx:55-71 | the page's own fifteen cards; `Gallery.GalleryItemIds` states their ids |
| Gallery.FilteredItems | src/components/gallery.tsx:121-123 | the cards shown for the active filter; `Gallery.FilteredItemsSpec` states which |
| Gallery.ShowsEmptyState | src/components/gallery.tsx:282 | the empty-state message shows when the filtered list is empty; `Gallery.EmptyStateIff` states when |
| Gallery.FilteredItemsSpec | src/components/gallery.tsx:121-123 | "all" shows every card; another category shows exactly its cards, in order, each as many times as the list holds it |
| Gallery.EmptyStateIff | src/components/gallery.tsx:282 | the empty state shows exactly when no card matches the filter; under "all", only when there are no cards |
| Gallery.CategoryLabel | src/components/gallery.tsx:253 | the label is the name of the first category with the card's id, and is absent exactly when no category has it |
| Gallery.LabelAgreesWithCategoryName | src/components/gallery.tsx:253 | the shared lookup returns the card label when there is one, and otherwise the id |
| Gallery.SameCategoriesAsCatalog | src/components/gallery.tsx:45-52 | the page's filter list equals the catalog's category list |
| Gallery.GalleryItemIds | src/components/gallery.tsx:55-71 | the page has 15 cards with ids 1 to 15 in order |
| Gallery.AutoFlipTargets | src/components/gallery.tsx:76 | the gallery's flip targets, cards 2, 8 and 12 in that order; `Gallery.AutoFlipTargetsAreCards` shows each is a card on the page |
| Gallery.AutoFlipTargetsAreCards | src/components/gallery.tsx:76 | the auto-flip targets 2, 8 and 12 are cards on the page |
| Gallery.AutoFlipRotation | src/components/gallery.tsx:76-101 | for ticks of one interval that is never restarted, from nothing flipped, after `k` ticks exactly card 2, 8 or 12 is flipped, in rotation |
| Gallery.PageTicksStayOnCardTwo | src/components/gallery.tsx:74-118 | when the effect runs again before every tick, as the flip-map dependency makes it do, cards 8 and 12 are never flipped after a tick |
| Attention.Flag | src/components/gallery.tsx:92 | a card's flip flag as `prev[targetId]` reads it, a missing key reading as false |
| Attention.ResetAll | src/components/gallery.tsx:83-87 | the flip map with every target set to false; `Attention.ResetAllFacts` states what it keeps |
| Attention.ResetAllFacts | src/components/gallery.tsx:83-87 | the reset pass sets every target to false and leaves other entries alone |
| Attention.NextCursor | src/components/gallery.tsx:96 | the cursor moves to the next target and wraps to 0 after the last |
| Attention.Ticked | src/components/gallery.tsx:83-93 | the flip map after one tick; the `Ticked…` lemmas below state what it does |
| Attention.TickedResetsOtherTargets | src/components/gallery.tsx:83-93 | a tick turns every other target back to false |
| Attention.TickedTogglesCurrent | src/components/gallery.tsx:89-93 | a tick negates the current target's previous flag (a missing flag counts as false) |
| Attention.TickedKeepsNonTargets | src/components/gallery.tsx:83-93 | a tick leaves non-target cards as they were |
| Attention.TickedAtMostOne | src/components/gallery.tsx:80-98 | after a tick, at most one target is flipped, and only the current one can be |
| Attention.TickedExactlyOneIff | src/components/gallery.tsx:80-98 | after a tick, one target is flipped exactly when the current target was not flipped before |
| Attention.Ticks | src/components/gallery.tsx:80-101 | the flip map after `k` ticks of one interval, the cursor moving on each time; `Attention.RoundRobin` states the result |
| Attention.TickHandsOn | src/components/gallery.tsx:80-98 | with only one target flipped, the next tick hands the flip on to the following target |
| Attention.TicksHandOn | src/components/gallery.tsx:80-101 | from a single flipped target, `k` more ticks move the flip to the target `k` places on, wrapping around |
| Attention.RoundRobin | src/components/gallery.tsx:76-101 | from nothing flipped, after `k >= 1` ticks only the target `k - 1` places after the start cursor is flipped |
| Attention.InitialFlipThenTickClears | src/components/gallery.tsx:89-111 | the initial flip followed by a first tick leaves no target flipped |
| Attention.RestartedTicks | src/components/gallery.tsx:74-118 | the flip map after `k` ticks when the effect runs again before each, so every tick is at cursor 0 |
| Attention.RestartedTicksStayOnFirst | src/components/gallery.tsx:74-118 | when the effect runs again before each tick, no target but the first is flipped after a tick, and each tick toggles the first |
| Attention.FlipCycle.constructor | src/components/gallery.tsx:33-34 | at mount no card is flipped or hovered and the cursor is 0 |
| Attention.FlipCycle.Hover | src/components/gallery.tsx:40-42 | hovering stores the card; while it is hovered it shows its back; leaving clears the hover |
| Attention.FlipCycle.Tick | src/components/gallery.tsx:80-98 | with no hover, the new flip map is `Ticked` and the cursor advances, with at most the current target showing its back; with a hover, nothing changes |
| Attention.FlipCycle.InitialFlip | src/components/gallery.tsx:104-111 | with no hover, the first target is set flipped and nothing else changes |
| Attention.FlipCycle.Restart | src/components/gallery.tsx:74-118 | when the effect runs again the cursor starts from 0 and the flips are kept |
| Attention.FlipCycle.ShowsBack | src/components/gallery.tsx:231 | a card shows its back when it is hovered or its flip flag is set; `Attention.FlipCycle.Hover` and `Attention.FlipCycle.Tick` state it |
| WorkDetail.Works | src/components/work_detail.tsx:25-206 | the page's own fifteen works; `WorkDetail.WorkIds` states their ids |
| WorkDetail.WorkIds | src/components/work_detail.tsx:25-206 | the page lists 15 works with ids "1" to "15" in order |
| WorkDetail.WorkIdsDistinct | src/components/work_detail.tsx:25-206 | the work ids are distinct |
| WorkDetail.DecimalIdInjective | src/components/work_detail.tsx:25-206 | distinct numbers below 100 have distinct decimal ids |
| WorkDetail.FindWork | src/components/work_detail.tsx:217 | the lookup returns the first work with the id, and returns nothing exactly when no work has it |
| WorkDetail.FindListedWork | src/components/work_detail.tsx:217 | with distinct ids, looking up a listed work's id finds that work |
| WorkDetail.WorkView.constructor | src/components/work_detail.tsx:209-210 | first render: no work, loading screen |
| WorkDetail.WorkView.Screen | src/components/work_detail.tsx:246-302 | "not found" once loading is over with no work, the loading screen while loading, and the work otherwise; `WorkDetail.WorkView.Load` states which follows a lookup |
| WorkDetail.WorkView.Load | src/components/work_detail.tsx:214-223 | a non-empty id ends loading and stores the work found, keeping an earlier work otherwise; from a fresh view the screen is "not found" exactly when no work has the id, and otherwise shows the work with that id |
| WorkDetail.MoreWorks | src/components/work_detail.tsx:397-399 | the other works cut to three; `WorkDetail.MoreWorksSpec` states what it holds |
| WorkDetail.MoreWorksSpec | src/components/work_detail.tsx:397-399 | the strip holds `min(3, others)` works, never the current one, as a prefix of the other works in list order |
| WorkDetail.OthersCount | src/components/work_detail.tsx:398 | with distinct ids, removing one id removes at most one work |
| WorkDetail.MoreWorksOfListHasThree | src/components/work_detail.tsx:397-399 | on the page's own list, every work gets three more works |
| WorkDetail.Paragraphs | src/components/work_detail.tsx:367 | the description split at each "\n\n"; `WorkDetail.ParagraphsRoundTrip` states what it gives |
| WorkDetail.ParagraphsRoundTrip | src/components/work_detail.tsx:367 | the paragraphs rejoin to the description and none holds "\n\n" |
| WorkDetail.IndentedBlankLine | src/components/work_detail.tsx:32-34 | the template literal's paragraph break: a newline, four spaces, a newline and four spaces |
| WorkDetail.IndentedBlankLineKeepsOneParagraph | src/components/work_detail.tsx:367 | as written, two lines separated by the indented blank line render as one paragraph |
| WorkDetail.DedentPlain | src/components/work_detail.tsx:32-34 | text without newlines passes through the dedent unchanged |
| WorkDetail.DedentIndentedNewline | src/components/work_detail.tsx:32-34 | a newline followed by a run of spaces and then a non-space dedents to the bare newline |
| WorkDetail.DedentBlankLine | src/components/work_detail.tsx:32-34 | a blank line indented by any run of spaces dedents to "\n\n" when the next text does not start with a space |
| WorkDetail.DropSpacesSkips | src/components/work_detail.tsx:32-34 | dropping spaces removes exactly the leading run of spaces and stops at the first non-space |
| WorkDetail.DedentJoin | src/components/work_detail.tsx:32-34 | paragraphs joined by indented blank lines dedent to the paragraphs joined by "\n\n" |
| WorkDetail.IntendedParagraphs | src/components/work_detail.tsx:367 | corrected: the description with the source indentation removed after each newline, then split at "\n\n"; `WorkDetail.IntendedParagraphsOfTemplate` states what it gives |
| WorkDetail.IntendedParagraphsOfTemplate | src/components/work_detail.tsx:367 | corrected: one-line paragraphs written with indented blank lines come back one by one |
| WorkDetail.TwoParagraphsRenderAsOne | src/components/work_detail.tsx:367 | "A." and "B." written as the page writes them: one paragraph as written, two when corrected |
| Portfolio.JsRem | src/components/portfolio.tsx:87 | JavaScript `%` for a positive divisor: its sign follows the dividend, it is smaller than the divisor in magnitude, and it differs from the dividend by a multiple of the divisor |
| Portfolio.MaxSlides | src/components/portfolio.tsx:24 | the carousel size, the number of catalog slides; `Portfolio.AutoRotationCycles` uses that it is 3 |
| Portfolio.NextSlide | src/components/portfolio.tsx:87 | `(prev + 1) % maxSlides`; `Portfolio.SlideStepsWrap` states where it lands |
| Portfolio.PrevSlide | src/components/portfolio.tsx:91 | `(prev - 1 + maxSlides) % maxSlides`; `Portfolio.SlideStepsWrap` and `Portfolio.PrevUndoesNext` state where it lands |
| Portfolio.SlideStepsWrap | src/components/portfolio.tsx:86-92 | from a slide in range, next goes to the following slide or wraps to 0, and previous goes back one slide or wraps to the last |
| Portfolio.PrevUndoesNext | src/components/portfolio.tsx:86-92 | previous undoes next and next undoes previous |
| Portfolio.Advance | src/components/portfolio.tsx:95-100 | the slide after `k` auto-rotation steps; `Portfolio.AdvanceWraps` states which |
| Portfolio.AdvanceWraps | src/components/portfolio.tsx:95-100 | `k` auto-rotation steps from slide `p` land on `(p + k) mod n` |
| Portfolio.AutoRotationCycles | src/components/portfolio.tsx:95-100 | with the three catalog slides, three steps return to the starting slide |
| Portfolio.Carousel.constructor | src/components/portfolio.tsx:21-24 | the carousel starts on slide 0 of the catalog's slides |
| Portfolio.Carousel.Current | src/components/portfolio.tsx:243 | the slide on show is the catalog slide at the current index |
| Portfolio.Carousel.Next | src/components/portfolio.tsx:86-88 | next moves one slide on, wrapping after the last, and stays in range |
| Portfolio.Carousel.Prev | src/components/portfolio.tsx:90-92 | previous moves one slide back, wrapping before the first, and stays in range |
| Portfolio.Carousel.SetSlide | src/components/portfolio.tsx:222-225 | an indicator dot jumps to its slide |
| Portfolio.FeaturedItems | src/components/portfolio.tsx:320 | the first six items; `Portfolio.FeaturedIsPrefix` states it |
| Portfolio.FeaturedIsPrefix | src/components/portfolio.tsx:320 | the featured strip is the first `min(6, n)` catalog items |
| Portfolio.FeaturedOfCatalog | src/components/portfolio.tsx:320 | on the catalog, the strip shows items 1 to 6 |
| Portfolio.Blurb | src/components/portfolio.tsx:371 | the first piece of the description split at "\n\n"; `Portfolio.BlurbIsOpening` states what it is |
| Portfolio.BlurbIsOpening | src/components/portfolio.tsx:371 | the blurb is the text before the first "\n\n": a prefix of the description holding no "\n\n", with no occurrence starting inside it and one right after it when the description has any, and the whole description when it has none |
| Portfolio.AutoFlipTargets | src/components/portfolio.tsx:41 | the home page's flip targets, cards 2 and 4 in that order; `Portfolio.AutoFlipTargetsAreFeatured` shows each is a featured card |
| Portfolio.AutoFlipTargetsAreFeatured | src/components/portfolio.tsx:41 | the auto-flip targets 2 and 4 are featured cards |
| Portfolio.AutoFlipAlternates | src/components/portfolio.tsx:41-66 | for ticks of one interval that is never restarted, from nothing flipped, the ticks alternate between card 2 and card 4 |
| Portfolio.PageTicksStayOnCardTwo | src/components/portfolio.tsx:39-83 | when the effect runs again before every tick, as the flip-map dependency makes it do, card 4 is never flipped after a tick |

## Left out

- Catalog.GalleryItems: each item's `description` is the empty string. The fixture's long texts make every proof that touches the list too expensive for the verifier. Titles, categories, images, alt texts, dates, locations and tags are kept.
- Gallery.GalleryItems: each card's description is `Some("")`, for the same reason. Every card on the page does have a description.
- WorkDetail.Works: each work's description is the empty string, for the same reason. The paragraph lemmas are stated for arbitrary text of the shape those descriptions have: two one-line paragraphs separated by the indented blank line.
- Catalog.RelatedWorks: no lemma evaluates the query on the full catalog; it is evaluated once, on a five-work example list.
- Timers (`setInterval`, `setTimeout`) are not modelled as time. Each firing is a method call: `FlipCycle.Tick`, `FlipCycle.InitialFlip`, or `Carousel.Next` for the five-second rotation. Restarting the effect is `FlipCycle.Restart`.
- React rendering and effect scheduling are not modelled:
  - the effect re-running after every flip is modelled only by its effect on the cursor (`FlipCycle.Restart`, `Attention.RestartedTicks`), not by when it happens;
  - the delayed initial flip is armed again on every run and never cleared, so how its firings interleave with the ticks of the three-second interval is not modelled;
  - cleanup order;
  - the snapshot of `flippedCards` that a stale interval closure reads.
  In the model the reset copy and the updater's `prev` are the same current map.
- Catalog.RelatedWorks: `count` and `excludeId` are JavaScript numbers, and the model takes them as integers. Fractional, `NaN` and infinite values (`slice(0, 2.5)` gives two items, `slice(0, NaN)` none, `slice(0, Infinity)` all) are not modelled. Nothing in the modelled pages calls the query.
- The custom cursor, scroll and mouse handlers, the contact form, the "pulse" highlight on target cards, and all markup and styling are presentation only. They are left out.
- `services`, `siteInfo` and the navigation data of `db.ts` are not used by the modelled logic. They are left out.
- The Next.js pages are left out. They only pass the route id to the components.
- Attention.Ticked: the source reads the current target's old flag from the updater's `prev` and takes the reset from the closure's copy. The model uses one map for both.

## Findings

| source | as written | input that shows it | evidently intended | confidence | as-written member | corrected member |
|---|---|---|---|---|---|---|
| src/components/work_detail.tsx:367 | `description.split('\n\n')`. Each description is a template literal whose paragraph break is `\n` + four spaces + `\n` + four spaces (lines 32-34 and every other work), so it contains no `\n\n` | "A." + "\n    \n    " + "B." splits into one piece | one paragraph per source paragraph: split at blank lines, ignoring the source indentation | not executed | WorkDetail.IndentedBlankLineKeepsOneParagraph | WorkDetail.IntendedParagraphsOfTemplate |

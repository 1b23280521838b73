# Gallery site logic, modelled in Dafny

The site is a single-page gallery of AI-generated images. It shows a 3D carousel of image cards, collection pages with previous/next buttons, and full-screen overlays for loading and route transitions. Most of it is markup and floating-point animation. This project models the parts that have behaviour you can state exactly, and proves properties about them:

- **Collection navigation** (`CollectionLayout.tsx`, module `CollectionLayout`, with `CollectionsData`):
  - The shared `collections.json` array is sorted in place by id. It is modelled as an `array<Item>` sorted by an insertion sort, which is proved sorted and a permutation.
  - The id list is taken from the sorted array.
  - An id that is missing, empty or unknown redirects to `/404`.
  - `next` and `prev` wrap around. They follow JavaScript's rules for `indexOf` (first occurrence, -1 if absent), for out-of-range reads (`undefined`) and for `${undefined}`.
- **Collection page** (`Collection.tsx`, module `Collection`): the description is the title of the first item whose id equals the route id. When no item matches, or the matching title is empty, the text "No description available" is shown instead, as `||` does.
- **Rounded-rectangle mesh** (`helpers/utils.ts`, module `MeshUtils`): `RoundedRectangle` is a method with the source's two loops that builds the index, position and uv buffers. `contour`'s overwrites of `qu`, `sgx`, `sgy`, `x` and `y` become local updates. The floating-point coordinates are kept symbolic (`Num`); everything else is exact.
- **Overlays** (`Overlay.tsx`, `SuspenseOverlay.tsx`, modules `Overlay`, `SuspenseOverlay`, `Dom`):
  - The overlay element is a `Dom.Element` object. Its `classList` is a `set<string>` and its `animationend` listeners are a sequence.
  - The effects and the self-removing `handleAnimationEnd` are methods that change it in place.
  - The class set each one produces is given by a function, which is proved to touch no other class.
- **Route titles** (`Overlay.tsx`, `Loading.tsx`): the pathname-to-label mappings, including the state before the effect has run.
- **Carousel cards** (`Background.tsx`, module `Background`): the number of cards, their keys and their image numbers.

`JsValues` holds the JavaScript value rules used above. `Arith` holds facts about division and remainder.

The rotation of the carousel comes from the scroll offset (`src/Background.tsx:79`).

## Model

| member | source | states |
|---|---|---|
| `CollectionsData.IdLeTotal` | src/CollectionLayout.tsx:11 | the id comparator relates every pair of ids in one direction or the other |
| `CollectionsData.IdLeTransitive` | src/CollectionLayout.tsx:11 | the id comparator is transitive |
| `CollectionsData.IdLeAntisymmetric` | src/CollectionLayout.tsx:11 | for the code-point order that stands in for `localeCompare`, ids that compare equal both ways are the same string; `localeCompare` itself lacks this (see Left out) |
| `CollectionsData.Ids` | src/CollectionLayout.tsx:11 | `map(item => item.id)` keeps the length and puts item k's id at position k |
| `CollectionsData.IdsPermutation` | src/CollectionLayout.tsx:11 | reordering the items reorders their ids: equal item multisets give equal id multisets |
| `CollectionsData.SortById` | src/CollectionLayout.tsx:11 | after the in-place sort the array is in ascending id order and holds the same items (same multiset) |
| `CollectionsData.InsertAt` | src/CollectionLayout.tsx:11 | one pass of the sort: with the first i items in order, moving item i back leaves the first i + 1 items in order and the same multiset of items |
| `CollectionsData.SortedIds` | src/CollectionLayout.tsx:10-13 | the id list `d` is sorted ascending, is the ids of the sorted array in order, and is a permutation of the original data's ids |
| `JsValues.IndexOf` | src/CollectionLayout.tsx:23 | `indexOf` gives -1 exactly when the id is absent, otherwise an index holding it with no earlier occurrence |
| `CollectionLayout.Render` | src/CollectionLayout.tsx:16-19 | the page renders exactly when the id is defined, non-empty and listed; otherwise the result is a redirect to `/404` |
| `CollectionLayout.Next` | src/CollectionLayout.tsx:21-26 | `next` navigates exactly when the id is truthy; for an admitted id its target is a member of the list |
| `CollectionLayout.Prev` | src/CollectionLayout.tsx:28-33 | `prev` navigates exactly when the id is truthy; for an admitted id its target is a member of the list |
| `CollectionLayout.NextWraps` | src/CollectionLayout.tsx:21-26 | for an admitted id at first index i, `next` goes to `d[Succ(i, |d|)]`, the following place round the list, so the last id goes to the first |
| `CollectionLayout.PrevWraps` | src/CollectionLayout.tsx:28-33 | for an admitted id at first index i, `prev` goes to `d[Pred(i, |d|)]`, the preceding place round the list, so the first id goes to the last |
| `CollectionLayout.IndexOfDistinct` | src/CollectionLayout.tsx:23 | in a list of distinct ids, `indexOf(d[i])` is i |
| `CollectionLayout.NextPrevInverse` | src/CollectionLayout.tsx:21-33 | with distinct non-empty ids, `prev` after `next` and `next` after `prev` both return to the starting id |
| `CollectionLayout.DuplicatesBreakInverse` | src/CollectionLayout.tsx:21-33 | with a duplicated id (`["a", "a", "b"]`), `prev` after `next` from "a" lands on "b", not "a" |
| `CollectionLayout.NextTimesAdvances` | src/CollectionLayout.tsx:21-26 | with distinct non-empty ids, k presses of next from `d[i]` reach `d[Advance(i, k, |d|)]`, k places further round the list |
| `Arith.SuccIsMod` | src/CollectionLayout.tsx:24 | the place after i on a ring of n places is (i + 1) mod n |
| `Arith.PredIsMod` | src/CollectionLayout.tsx:31 | the place before i on a ring of n places is (i + n - 1) mod n |
| `Arith.AdvanceIsMod` | src/CollectionLayout.tsx:21-26 | k steps forward from i on a ring of n places land on (i + k) mod n |
| `Arith.FullTurn` | src/CollectionLayout.tsx:21-26 | n steps forward on a ring of n places return to the start |
| `CollectionLayout.NextCycle` | src/CollectionLayout.tsx:21-26 | with distinct non-empty ids, `|d|` presses of next return to the starting id |
| `Collection.Find` | src/Collection.tsx:13 | `find` gives nothing exactly when no item has the route id; otherwise an item of the data with that id |
| `Collection.FindFirst` | src/Collection.tsx:13 | when position k is the first with the route id, `find` gives the item at k |
| `Collection.Render` | src/Collection.tsx:10-14 | the heading is the route id verbatim; the description is never empty; it is the fallback exactly when nothing matches or the first match's title is empty (or is the fallback text itself) |
| `Collection.DescriptionOfFirstMatch` | src/Collection.tsx:13-14 | the description is the first matching item's title, or the fallback if that title is empty |
| `Collection.DescriptionWithoutMatch` | src/Collection.tsx:13-14 | with no item carrying the route id (or no route id), the description is "No description available" |
| `Collection.FirstDuplicateWins` | src/Collection.tsx:13-14 | of two items with the same id the earlier supplies the description, even when its title is empty |
| `MeshUtils.RoundedRectangle` | src/helpers/utils.ts:18-51 | the two loops build exactly the as-written index buffer, the centre-then-contour position buffer and the matching uv buffer for `n = 4(s + 1)` |
| `MeshUtils.FanTrianglesAt` | src/helpers/utils.ts:26 | the fan loop's triangle t is `(0, t + 1, t + 2)` and the loop pushes 3 entries per triangle |
| `MeshUtils.FanTrianglesBounds` | src/helpers/utils.ts:26 | every index pushed by the fan loop over m triangles lies in `0..m + 1` |
| `MeshUtils.IndexBufferShape` | src/helpers/utils.ts:26-27 | the index buffer has `3(n + 1)` entries: `(0, j, j + 1)` for `j = 1..n`, then `(0, n, 1)`; every triangle starts at the centre 0; every index is in `0..n + 1` |
| `MeshUtils.IndexBeyondLastVertex` | src/helpers/utils.ts:26-30 | the index `n + 1` is written (entry `3n - 1`), while the position buffer holds only `n + 1` vertices, 0..n |
| `MeshUtils.ClosedFanInRange` | src/helpers/utils.ts:26-27 | the corrected fan has n triangles, each starting at the centre, every index in `0..n`, and every contour vertex used |
| `MeshUtils.ContourPositionsAt` | src/helpers/utils.ts:49 | contour call j pushes x with its quadrant's `sgx`, y with its quadrant's `sgy`, and z = 0, at offset 3j |
| `MeshUtils.ContourUvsLength` | src/helpers/utils.ts:50 | m contour calls push 2m uv components |
| `MeshUtils.ContourVertex` | src/helpers/utils.ts:43-49 | vertex j + 1 of the position buffer is contour point j, signed by its quadrant, at z = 0 |
| `MeshUtils.PositionBufferShape` | src/helpers/utils.ts:28-30 | exactly n + 1 vertices are emitted: `3(n + 1)` position and `2(n + 1)` uv components, and every z component is 0 |
| `MeshUtils.QuadrantOfPoint` | src/helpers/utils.ts:43 | with `n = 4(s + 1)`, contour point j is in quadrant 1, 2, 3 or 4 according to which run of `s + 1` points it falls in |
| `MeshUtils.QuadrantOrdered` | src/helpers/utils.ts:43 | the quadrant of every contour point lies in 1..4 and never decreases along the contour |
| `MeshUtils.QuadrantMembers` | src/helpers/utils.ts:43 | quadrant q holds exactly the points `(q - 1)(s + 1) .. q(s + 1) - 1` |
| `MeshUtils.CountInQuadrantUpTo` | src/helpers/utils.ts:30-43 | among the first k contour points, the number in quadrant q is clamped between 0 and s + 1 as k passes that quadrant's run |
| `MeshUtils.QuadrantCount` | src/helpers/utils.ts:30-43 | each quadrant receives exactly `s + 1` contour points |
| `MeshUtils.CornerSigns` | src/helpers/utils.ts:44-45 | the signs are ±1; the four quadrants have four different (sgx, sgy) corners; each step to the next quadrant (4 back to 1) flips exactly one sign |
| `Overlay.TransitionClasses` | src/Overlay.tsx:21-29 | while transitioning `clip` is present and `top-[100%]` absent, otherwise the reverse; no other class changes |
| `Overlay.TransitionEffect` | src/Overlay.tsx:21-29 | the effect turns the element's classes into `TransitionClasses` of the old ones and leaves its listeners alone |
| `Overlay.TransitionIdempotent` | src/Overlay.tsx:21-29 | running the effect twice with the same flag gives the same classes as running it once |
| `Overlay.TransitionFromRendered` | src/Overlay.tsx:21-35 | on the rendered element the effect only adds `clip` or `top-[100%]`; `fixed`, `loading` and the layout classes stay |
| `Overlay.Title` | src/Overlay.tsx:104-114 | `/` gives "home", `/about` gives "about", `/collections` gives "collections", and every other pathname gives "Unknown" |
| `Overlay.DisplayedTitle` | src/Overlay.tsx:102-114 | the shown text is one of five strings; it is "Collections" exactly before the effect has run, because the effect never sets that text |
| `Overlay.TitleIsExact` | src/Overlay.tsx:105-113 | a trailing slash, other casing, the empty path or a sub-path all map to "Unknown" |
| `Loading.Title` | src/Loading.tsx:86-96 | `/` gives "Home", `/about` gives "About", `/collections` gives "Collections", and every other pathname gives "Unknown" |
| `Loading.DisplayedTitle` | src/Loading.tsx:85-96 | before the effect has run the text is "Collections"; before or after, it is always one of the four labels |
| `Loading.TitleCapitalisesOverlay` | src/Loading.tsx:86-96 | for every pathname the loading label is the overlay label with its first letter capitalised |
| `Loading.InitialTitleIsCollections` | src/Loading.tsx:85-92 | the loading title shows the same text before its effect as on `/collections`; the overlay title does not |
| `SuspenseOverlay.DoneLoading` | src/SuspenseOverlay.tsx:24-27 | loading is done exactly when some assets are tracked and all have loaded; never when nothing is tracked |
| `SuspenseOverlay.AfterAnimation` | src/SuspenseOverlay.tsx:31-34 | after the handler `top-[100%]` is present, `load-in` and `loading` are absent, and no other class changes |
| `SuspenseOverlay.LoadEffect` | src/SuspenseOverlay.tsx:29-41 | when loading is done, `load-in` is added and the handler registered once; otherwise classes and listeners are unchanged |
| `SuspenseOverlay.HandleAnimationEnd` | src/SuspenseOverlay.tsx:31-36 | the handler applies `AfterAnimation` to the classes and unregisters itself, leaving the other listeners registered once each |
| `SuspenseOverlay.AfterAnimationIdempotent` | src/SuspenseOverlay.tsx:31-34 | applying the handler's class changes twice equals applying them once |
| `SuspenseOverlay.DispatchAnimationEnd` | src/SuspenseOverlay.tsx:31-39 | an `animationend` runs each registered handler once and leaves none registered; the classes change only if a handler was registered |
| `SuspenseOverlay.LoadLifecycle` | src/SuspenseOverlay.tsx:31-48 | from the rendered classes, `load-in` then the handler gives exactly the rendered classes plus `top-[100%]`; `loading` was never present; `bg-black` stays |
| `SuspenseOverlay.PercentageText` | src/SuspenseOverlay.tsx:62 | the text is "0" exactly when the percentage is 0 or NaN; an infinite percentage shows "Infinity" |
| `Background.Carousel` | src/Background.tsx:92-96 | there are `count` cards (none for a negative count); card i has key i and shows image (i mod 10) + 1, a number in 1..10 |
| `Background.DefaultCarousel` | src/Background.tsx:92-96 | by default there are 10 cards, card i showing image i + 1 |
| `Background.SmallCarouselDistinct` | src/Background.tsx:96 | with at most 10 cards, card i shows image i + 1 and no two cards share an image |
| `Background.CarouselPeriodic` | src/Background.tsx:96 | card i + 10 shows the same image as card i |
| `Background.ImageUrlListed` | src/Background.tsx:96 | image n of 1..10 is loaded from the file `/<n>.png`, written in decimal (`/10.png` for 10) |
| `Background.CarouselUrls` | src/Background.tsx:96 | card i of any carousel loads the file of image (i mod 10) + 1, one of the ten files |
| `Background.CarouselKeysDistinct` | src/Background.tsx:95 | no two cards share a key |

## Findings

| source | as written | input that shows it | evidently intended | confidence | as-written member | corrected member |
|---|---|---|---|---|---|---|
| src/helpers/utils.ts:26 | the fan loop runs `j = 1..n` and its last triangle is `(0, n, n + 1)`; the closing triangle `(0, n, 1)` is pushed as well | any smoothness, e.g. `s = 0`: `n = 4`, the index buffer holds 5, but the position buffer has only vertices 0..4 | the loop stops at `j = n - 1`, so the closing triangle `(0, n, 1)` joins the last contour point to the first and every index names a vertex | high (not executed) | `MeshUtils.IndexBeyondLastVertex` | `MeshUtils.ClosedFanInRange` |

`MeshUtils.RoundedRectangle` keeps the as-written index buffer, because it models the code. `MeshUtils.ClosedFan` is the corrected buffer.

## Left out

- Floating-point geometry is not modelled. This covers the `cos`/`sin` contour coordinates, the width, height and radius that scale them, the uv values, and the `BufferGeometry` construction. Positions and uvs are symbolic `Num` terms, so only counts, indices, quadrants and signs are exact.
- `MeshUtils.Quadrant`: JavaScript computes `4 * j / n` in floating point before truncating. Integer division gives the same result for every segment count small enough to build a mesh (below 2^50).
- `MeshUtils.RoundedRectangle`: the smoothness `s` is taken as a non-negative integer. A fractional or negative smoothness is not modelled.
- The loading percentage `Math.floor((loaded / total) * 100)` is float arithmetic. `SuspenseOverlay.PercentageText` takes the computed number as its input.
- `CollectionsData.IdLe`: `localeCompare`'s locale collation is replaced by code-point lexicographic order. The navigation properties depend only on its being a total preorder.
- `CollectionsData.IdLeAntisymmetric`: holds for the code-point order only. `localeCompare` returns 0 for distinct but canonically equivalent strings (such as "é" and "e" followed by a combining acute accent), so with such ids the real sorted order is not unique.
- `CollectionsData.SortById`: does not state that items with equal ids keep their relative order. `Array.prototype.sort` is stable, but the engine's algorithm is not visible, so only sortedness and permutation are stated. Which of several same-id items `Collection.Find` sees first after the sort is therefore not determined by the model.
- `useMemo` memoisation and React rendering are not modelled: the sort is modelled as running once, when the id list is computed. Effect scheduling, hook dependency tracking, `useParams`, `useLocation` and `useProgress` are also left out; their values are parameters.
- `navigate`'s relative-path resolution is left out. `Next` and `Prev` return the path string they navigate to, and `NextTimes` reads that path as the next route id.
- `Dom.Element`:
  - `classList` is modelled as a set, so token order is ignored.
  - The `className` attribute is given already split into class names.
  - A listener closure's identity is a number chosen by the caller.
  - In `SuspenseOverlay.DispatchAnimationEnd`, every listener present is taken to be a `handleAnimationEnd` closure.
- `console.log` in the loading effect is left out (output only).
- Card positions and rotations (`sin`/`cos` of the card angle, the radius) are not modelled. A card keeps its image number n; `Background.ImageUrl` gives the url `/<n>.png` it is loaded from.
- Camera rigs and easing (`Rig`, `Scene`, `Card` hover), lights, materials and `Canvas` are left out: floating-point animation and library calls.
- Markup-only components (`App`, `About`, `NotFound`, `Collections`, `Layout`, `Wrapper`, `Nav`) are not part of this model. Nor are timing components (`Transitioner`, `Magnetic`), the route table in `main.tsx`, or the store in `stores.ts`.

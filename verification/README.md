# Warframe tracker — progress core in Dafny

This project models the pure logic of a browser-based crafting tracker. The
tracker loads a catalog of craftable items and their component requirements.
The user records how many of each component they have. The tracker derives a
completion status per item and can export and import that progress.

The model covers four parts:

- **Progress reducer** (`StateContext`, with its types in `StateTypes`). The
  state is a map from item `uniqueName` to a `Progress`. A `Progress` holds a
  count per component name and one of four `Completion` values. The model
  covers seeding the state from the catalog and the reducer's five actions.
  `SetComponentCount`, `SetCompleted` and `Autosave` transform the state.
  `Autoload` and `Import` overlay a blob onto the state, with the blob winning
  on shared keys. An import with an unknown version yields no state.
- **Completion derivation** (`CompletionRule`). It counts the "full"
  components. All full gives ReadyToCraft, none full gives MissingEverything,
  and anything in between gives MissingSomething.
- **UI rules around the reducer**:
  - `ComponentPreview`: the count clamp, the full/empty click toggle, the tile
    colour, and single-count components.
  - `ProgressItemView`: craftability, the label and background per completion,
    and the Done/undo portrait toggle.
  - `ProgressList`: which cards are rendered.
  - `HomePage`: the name search, the export envelope and the `itemsByName`
    index.
- **Catalog normalisation** (`CatalogData`, with the record shapes in
  `Catalog`). This is the item allow-list, the projection to simplified
  records, and the merging of duplicate components by summing `itemCount`.

The `Tracker` module puts these parts together. The reducer does not clamp
counts; the tile clamps them before dispatching. A session seeds the state
from the catalog, autoloads the saved blob on mount, and then applies user
events: typed counts and clicks on the component tiles of craftable items,
clicks on portraits of items that have a non-empty image name, and imported
save files. The page autoloads only on mount. The model also admits further
autoloads among the events, which over-approximates what the page does. As
long as every loaded or imported blob is well formed for the catalog, every
such sequence keeps two things true. Every count stays in `[0, itemCount]`.
For every item with at least one listed component, the stored completion
agrees with the counts: it is the derived value, or it is Done while the
counts derive ReadyToCraft. Items without listed components are seeded
MissingEverything and never recomputed, so their completion is not
constrained. This relies
on a catalog with distinct item names and with recipes that have distinct
component names and positive counts. Merging guarantees the component-name
part (`CatalogFromApi`).

The reducer performs several lookups without checking them, such as
`newState[item][components][comp]`. These become preconditions
(`CanSetCount`, `CanSetCompleted`). The seeded state establishes them for
every catalog item.

Helper modules: `Wrappers` (`Option`), `Strings` (`toLowerCase`, `includes`)
and `Seqs` (`filter`, `map`, and the subsequence order).

## Model

| member | source | states |
|---|---|---|
| Catalog.FindName | utility/determineCompletion.ts:16-17 | `find` by `uniqueName` returns the first component bearing the name, or nothing when no component bears it |
| CatalogData.MergeComponents | api/data.ts:19-28 | after merging, the component names of a recipe are pairwise distinct |
| CatalogData.MergeNames | api/data.ts:19-28 | merging neither loses nor invents a component name |
| CatalogData.MergePreservesSums | api/data.ts:20-25 | for every name, the total `itemCount` required is the same before and after merging |
| CatalogData.MergePreservesTotal | api/data.ts:20-25 | the grand total of `itemCount` over the recipe is preserved |
| CatalogData.MergedCountIsSum | api/data.ts:23-25 | each merged component requires the sum of its duplicates' counts |
| CatalogData.MergeCharacterisation | api/data.ts:19-28 | each merged component is the first input component of its name with the summed count, and merged components appear in order of first occurrence |
| CatalogData.DuplicateScenario | api/data.ts:19-28 | two entries "c" needing 3 and 2 merge into one "c" needing 5 |
| CatalogData.MergeDuplicateComponents | api/data.ts:12-31 | the item list keeps its length and order; items without components are returned unchanged; others change only in `components`, which end up with distinct names, the same name set and the same required total per name |
| CatalogData.UsefulItem | api/data.ts:33-55 | an allowed-category item is kept unless it is a Pets "Pet Resource" or excluded from the codex; a Misc item is kept exactly when it is an Amp whose lower-cased name contains "prism"; any other category is dropped |
| CatalogData.SimplifyItem | api/data.ts:57-68 | the projection keeps `uniqueName`, name, category, image and wiki link, and the components one for one |
| CatalogData.FilterUnusedData | api/data.ts:70-72 | the result is an in-order subsequence of the simplified input that contains every useful item and nothing that is not a useful item; it is the simplification of an in-order selection of the input that holds each useful item exactly as often as the input does, and no other item |
| CatalogData.CatalogFromApi | api/data.ts:88 | the catalog handed to the tracker is the filtered, simplified list item for item: same length, same fields except `components`, components present exactly where they were, and each name's required total unchanged; each recipe lists a component name at most once |
| StateTypes.OrdinalRoundTrip | components/StateContext.tsx:9-14 | the enum's numeric encoding is a bijection between the four completions and 0..3 |
| CompletionRule.FirstItemCount | utility/determineCompletion.ts:16-17 | there is no count exactly when no listed component bears the name; otherwise the count is the `itemCount` of a component bearing the name that no earlier component bears |
| CompletionRule.CountFullAll | utility/determineCompletion.ts:12-23 | the full-count equals the list length exactly when every listed component is full |
| CompletionRule.CountFullNone | utility/determineCompletion.ts:12-26 | the full-count is zero exactly when no listed component is full |
| CompletionRule.DetermineCompletion | utility/determineCompletion.ts:7-30 | the result is null exactly when the item has no component list or the progress has no component map, and it is never Done |
| CompletionRule.DetermineCompletionClassifies | utility/determineCompletion.ts:23-29 | ReadyToCraft iff all components are full (including the empty list); MissingEverything iff there is at least one component and none is full; MissingSomething iff some but not all are full |
| CompletionRule.IsFullDistinct | utility/determineCompletion.ts:16-17 | with distinct names, a component is full exactly when its count equals its own `itemCount` |
| CompletionRule.DetermineCompletionLocal | utility/determineCompletion.ts:12-22 | the derived completion depends only on the counts of the item's own listed components |
| StateContext.SeedCounts | components/StateContext.tsx:156-165 | every listed component gets an entry, every entry is 0, and no unlisted name gets one |
| StateContext.SeedProgress | components/StateContext.tsx:155-167 | a seeded entry is MissingEverything with all counts 0; an item without components gets an empty map |
| StateContext.InitialState | components/StateContext.tsx:152-170 | the seeded state has exactly one entry per item name, each MissingEverything |
| StateContext.InitialStateLastWins | components/StateContext.tsx:154-169 | on repeated item names, the entry is the seed of the last item bearing the name |
| StateContext.SetComponentCountStep | components/StateContext.tsx:83-96 | the count is stored verbatim; every other item and every other component of the item are unchanged; for an item with components, the stored completion equals the one derived from the new counts |
| StateContext.BulkSet | components/StateContext.tsx:102-113 | every listed component gets its `itemCount` (fill) or 0 (reset), with the last write winning on a repeated name; unlisted entries are untouched |
| StateContext.SetCompletedStep | components/StateContext.tsx:98-117 | completion becomes the target; Done fills and MissingEverything resets every listed count; other targets, or items without components, leave the counts alone; nothing else changes |
| StateContext.Overlay | components/StateContext.tsx:130 | the overlay has the keys of both maps; the blob wins on shared keys; keys absent from the blob survive |
| StateContext.OverlaySelf | components/StateContext.tsx:137 | importing a state into itself is the identity |
| StateContext.OverlayCovering | components/StateContext.tsx:137 | a blob that covers every key of the state replaces it |
| StateContext.OverlayIdempotent | components/StateContext.tsx:130 | loading the same blob twice is the same as loading it once |
| StateContext.Reduce | components/StateContext.tsx:81-141 | no state results exactly for an import of a version other than 0; entries are never removed; only Autoload and Import add keys; Autosave and an empty Autoload return the state unchanged |
| ComponentPreview.Clamp | components/ProgressItem/ComponentPreview.tsx:21 | the dispatched count is at most `itemCount` and, when `itemCount` is not negative, at least 0; values already in range pass through |
| ComponentPreview.SetValue | components/ProgressItem/ComponentPreview.tsx:20-28 | the dispatched action names the tile's own item and component and carries a count in `[0, itemCount]` |
| ComponentPreview.Click | components/ProgressItem/ComponentPreview.tsx:44-46 | a click empties a full component and fills any other |
| ComponentPreview.ClickTwice | components/ProgressItem/ComponentPreview.tsx:44-46 | for any non-negative `itemCount`, two clicks restore a full component and leave any other component empty |
| ComponentPreview.SwatchOf | components/ProgressItem/ComponentPreview.tsx:35-39 | full iff the count equals `itemCount` (taking precedence), empty iff 0 and not full, partial otherwise |
| ComponentPreview.SwatchClassDistinct | components/ProgressItem/ComponentPreview.tsx:35-39 | the three colours have distinct classes |
| ComponentPreview.ClickNeverPartial | components/ProgressItem/ComponentPreview.tsx:35-46 | for any `itemCount`, after a click the tile shows full or empty, never partial |
| ComponentPreview.SingleItemTwoStates | components/ProgressItem/ComponentPreview.tsx:16-18 | a component needed once can only be dispatched as 0 or 1, which is why its numeric input is hidden |
| ProgressItemView.IsCraftable | components/ProgressItem/index.tsx:7-13 | no component list or an empty one is not craftable; a single component is craftable iff it is not "Blueprint"; two or more are craftable |
| ProgressItemView.CompletionStringDistinct | components/ProgressItem/index.tsx:18-30 | the four completions get four distinct labels |
| ProgressItemView.BackgroundDistinct | components/ProgressItem/index.tsx:42-52 | the four completions get four distinct backgrounds |
| ProgressItemView.PortraitClick | components/ProgressItem/index.tsx:72-86 | the click dispatches SetCompleted for its item: Done when the item is not Done, MissingEverything when it is |
| ProgressItemView.PortraitClickFills | components/ProgressItem/index.tsx:72-86 | clicking a portrait that is not Done gives Done with every listed count at its `itemCount` |
| ProgressItemView.PortraitClickTwiceResets | components/ProgressItem/index.tsx:72-86 | Done followed by undo leaves MissingEverything with every listed count at 0, a bulk reset rather than a partial undo |
| ProgressList.Visible | components/ProgressItems.tsx:19-20 | rendered iff the category is selected and, while completed items are hidden, the item is not Done; with hiding off only the category matters |
| ProgressList.Rendered | components/ProgressItems.tsx:16-25 | the rendered cards are an in-order subsequence of the items holding exactly the visible ones, with their multiplicities |
| HomePage.SearchFilter | pages/index.tsx:143 | the active filter has the typed text's length; each upper-case letter A-Z becomes its lower-case partner and every other character is kept; the filter has no upper-case letter, and lower-casing it again changes nothing |
| HomePage.Search | pages/index.tsx:57-62 | an empty filter returns the list unchanged; otherwise the result is an in-order subsequence holding exactly the items whose lower-cased name contains the filter |
| HomePage.ImportOwnExport | pages/index.tsx:80-85 | importing a state's own `{state, version: 0}` export yields that state |
| HomePage.ImportIntoFreshStore | pages/index.tsx:80-85 | importing an export that has an entry for every catalog item into a freshly seeded store reproduces the export |
| HomePage.ImportUnknownVersion | components/StateContext.tsx:133-139 | an envelope of any version other than 0 yields no state |
| HomePage.ItemsByName | pages/index.tsx:203-206 | every item's name is a key, and each key maps to a catalog item bearing that name |
| HomePage.ItemsByNameLastWins | pages/index.tsx:203-206 | on duplicate names the later item wins |
| HomePage.InitialStateMatchesIndex | pages/index.tsx:203-206 | the seeded state is the seed of each item in the `itemsByName` index |
| Tracker.DeriveAllFull | utility/determineCompletion.ts:23-24 | counts all at `itemCount` derive ReadyToCraft |
| Tracker.DeriveAllEmpty | utility/determineCompletion.ts:26-27 | counts all at 0 derive MissingEverything when every `itemCount` is positive |
| Tracker.InitialStateInvariant | components/StateContext.tsx:152-170 | the seeded state gives every catalog item an entry whose counts are in range, and for every item with at least one listed component a completion that agrees with its counts |
| Tracker.SetCountKeepsInvariant | components/ProgressItem/ComponentPreview.tsx:20-28 | a clamped count from a tile is applicable to the reducer and keeps every count in range and, for every item with at least one listed component, the completion consistent with the counts |
| Tracker.SetCompletedKeepsInvariant | components/ProgressItem/index.tsx:72-86 | a portrait toggle is applicable to the reducer and keeps the invariant |
| Tracker.OverlayKeepsInvariant | components/StateContext.tsx:124-139 | autoloading or importing a blob whose catalog entries are well formed keeps the invariant |
| Tracker.StaleBlobBreaksInvariant | components/StateContext.tsx:124-131 | a saved blob written for an older recipe breaks the invariant of the seeded state when it is autoloaded: a listed component loses its count |
| Tracker.EventKeepsInvariant | components/StateContext.tsx:81-139 | every valid event's action is applicable, yields a state, and keeps the invariant |
| Tracker.NotCraftableOnlyPortrait | components/ProgressItem/index.tsx:106-118 | an item that is not craftable shows no component tiles, so no tile event and no other item's portrait click changes its entry |
| Tracker.Run | components/StateContext.tsx:81-139 | after any sequence of valid events, the invariant still holds |
| Tracker.Session | components/StateContext.tsx:152-176 | a session seeded from a valid catalog, autoloaded on mount with a well-formed blob and then driven by valid events keeps every count in `[0, itemCount]` and, for every item with at least one listed component, the completion consistent with the counts |
| Tracker.TwoComponentScenario | components/StateContext.tsx:83-96 | a recipe of "a"×2 and "b"×1 goes from MissingEverything to MissingSomething to ReadyToCraft as "a" and then "b" are completed |

## Left out

- Network and cache: the `fetch` call, the memory-cache TTL and the "API is down" error of `fetchItems`. Only its pure part, `CatalogFromApi`, is modelled.
- Persistence I/O and JSON: `localStorage` reads and writes and `JSON.parse`/`JSON.stringify`. `Autoload` takes the already-parsed blob as an `Option`, and `Import` takes an already-parsed envelope. A malformed file is not modelled.
- Timers: the debounced autosave, the five-minute interval and the debounced search. They have no effect on the state, so `Autosave` is the identity.
- React and browser glue: context, hooks, rendering, `console.info`, `file-saver`, the file picker and image components.
- Floating-point input: `valueAsNumber` can be NaN. Counts are modelled as integers.
- Aliasing: the reducer copies only the top-level map and mutates nested objects that are shared, and merging mutates the input components. The model uses value semantics throughout.
- The `filter` prop passed to the item list in pages/index.tsx is miswired: it is always undefined and named unlike the `categories` prop. The model takes the selected categories as a parameter instead.
- lib/filters.ts (constant filter data, never applied), the configuration files and the button wrapper are not modelled.
- Strings.ToLower: lower-cases ASCII letters only, because Unicode case mapping is not modelled.
- Tracker.Session: the invariant is promised only when every autoloaded or imported blob is well formed for the catalog and every import has version 0. A stale or hand-edited blob can break it (`StaleBlobBreaksInvariant`), and the page would then throw on a missing count. An import of another version leaves no state at all (`HomePage.ImportUnknownVersion`).
- Tracker.Invariant: constrains the completion only of items with at least one listed component. The source seeds the others MissingEverything and never recomputes them, although the derived value would be ReadyToCraft for an empty list and null for an absent one.
- Tracker.Invariant: assumes distinct item names and positive component counts (`ValidCatalog`). Merging guarantees distinct component names, but nothing in the catalog pipeline enforces the other two.

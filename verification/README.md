# Photo gallery page: filter, event groups, lightbox and likes

A Dafny model of the behavioural core of the photo gallery page
`src/pages/PhotosPage.tsx`. The page reads a fixed, ordered list of photo
records and offers four things:

- a case-insensitive search combined with a category choice, with an optional
  event filter applied as a second pass (the `filteredPhotos` memo);
- a browse-by-event view that splits the whole list into groups named by the
  title text before the first `" - "` (the `eventGroups` memo);
- a lightbox that opens one photo and steps cyclically through the visible
  photos (`openLightbox`, `closeLightbox`, `navigatePhoto`);
- a session-only set of liked photo ids (`toggleLike`).

The React state variables become one immutable record, `PhotosPage.PageState`.
Every handler becomes a pure function from one state to the next. The photo
list is not part of the state. It is an external input that each function
takes as a parameter.

Modules:

- `Wrappers`: `Option`, standing for JavaScript's `null`.
- `Text`: per-character `toLowerCase`, `includes` as a substring test, and the
  first piece of `split(sep)`.
- `Seqs`: `filter`, order-preserving subsequence, and first occurrences.
- `Photos`: the photo record and the two-pass filter.
- `Events`: the event name of a title (`EventName`), and the `eventGroups`
  memo as an association list in first-seen order (`GroupByEvent`, which folds
  the `forEach` step `AddPhoto` over the photos).
- `PhotosPage`: the page state, the lightbox, likes and the filter handlers.
- `Scenario`: a worked example of three photos from two events.

Behaviour of the code worth noting:

- The grid opens the lightbox only on a photo of the list it is rendering
  (src/pages/PhotosPage.tsx:371), so in the page `findIndex` always finds it
  and the stored index is never `-1` (`OpenLightboxConsistent`). `OpenLightbox`
  itself, on a photo that is not visible, would store `-1`, not 0. From `-1`,
  `next` shows the first photo and `prev` shows the second-to-last
  (`NavigateFromMissing`).
- The event name falls back to the whole title both when the separator is
  absent and when the text before it is empty (the `|| photo.title`).
- An event name of `""` is falsy, so it adds no event pass, just like `null`.
- A filter change does not touch the lightbox index, so with the lightbox
  open it can go stale. The invariant `PhotosPage.Consistent` holds across
  opening a visible photo, navigation, closing and likes. The filter handlers
  keep it only while the lightbox is closed.

## Model

| member | source | states |
|---|---|---|
| Text.LowerChar | src/pages/PhotosPage.tsx:16-18 | one character of `toLowerCase`: an upper-case letter in the modelled ranges moves 32 code points up, to its lower-case form; any other character is unchanged, and the result is never upper-case |
| Text.Lower | src/pages/PhotosPage.tsx:16-18 | `toLowerCase` on a whole string keeps its length and lower-cases each character in place |
| Text.LowerIdempotent | src/pages/PhotosPage.tsx:16-18 | lower-casing an already lower-cased string changes nothing |
| Text.LowerPrefix | src/pages/PhotosPage.tsx:27 | lower-casing keeps prefixes, so an event name taken from the front of a title still matches the lower-cased title |
| Text.Contains | src/pages/PhotosPage.tsx:16-18 | `includes` is true exactly when the needle occurs at some position of the haystack |
| Text.ContainsEmpty | src/pages/PhotosPage.tsx:16 | every string includes the empty string |
| Text.FirstSegment | src/pages/PhotosPage.tsx:39 | `split(sep)[0]` is a prefix of the title, holds no occurrence of the separator, and is followed by the separator unless it is the whole title |
| Text.FirstSegmentUnique | src/pages/PhotosPage.tsx:39 | any prefix with those three properties is the first segment |
| Seqs.Filter | src/pages/PhotosPage.tsx:15-23 | `filter` keeps exactly the elements that pass the test: every kept element is in the input and passes, and every input element that passes is kept |
| Seqs.FilterIsSubsequence | src/pages/PhotosPage.tsx:15-23 | a filtered list is an order-preserving subsequence of its input |
| Seqs.FilterFuse | src/pages/PhotosPage.tsx:25-30 | filtering the result of a filter equals one filter by both tests |
| Seqs.FirstOccurrencesOrder | src/pages/PhotosPage.tsx:38-44 | the de-duplicated list keeps first-met order: each occurrence of a later element is preceded by an occurrence of every earlier one |
| Seqs.FilterIdempotent | src/pages/PhotosPage.tsx:15-23 | filtering twice by the same test equals filtering once |
| Photos.FilterPhotos | src/pages/PhotosPage.tsx:14-33 | a photo is in the result iff it is in the list, matches the search in its title, description or a tag, matches the category (or the category is `all`), and matches the event in its title or a tag whenever the event is non-null and non-empty |
| Photos.FilterPhotosOnePass | src/pages/PhotosPage.tsx:14-33 | the search/category pass followed by the event pass equals one filter by all the tests together |
| Photos.FilterPhotosIsSubsequence | src/pages/PhotosPage.tsx:14-33 | the visible photos are an order-preserving subsequence of the full list |
| Photos.EventPassNarrows | src/pages/PhotosPage.tsx:25-30 | the result with an event is a subsequence of the result with no event |
| Photos.EmptySearchMatches | src/pages/PhotosPage.tsx:16-18 | the empty search term matches every photo |
| Photos.UnfilteredIsIdentity | src/pages/PhotosPage.tsx:14-33 | with search `''`, category `all` and a null or empty event, the result is the full list in order |
| Photos.FilterPhotosIdempotent | src/pages/PhotosPage.tsx:14-33 | filtering the visible photos again with the same search, category and event changes nothing |
| Photos.UnknownCategoryIsEmpty | src/pages/PhotosPage.tsx:20 | a category other than `all` that no photo carries yields an empty result |
| Photos.SearchIgnoresTermCase | src/pages/PhotosPage.tsx:16-18 | lower-casing the search term first gives the same result, so the search ignores the term's case |
| Events.EventName | src/pages/PhotosPage.tsx:39 | the event name is a prefix of the title. It is empty only for an empty title. When the first `" - "` starts at a position k > 0, it is exactly the first k characters of the title. With no separator, or a separator at the very start, it is the whole title |
| Events.GroupNamesFirstSeen | src/pages/PhotosPage.tsx:35-47 | the group names are the photos' event names, each once, in the order first met |
| Events.GroupNamesInFirstSeenOrder | src/pages/PhotosPage.tsx:38-44 | every photo of a later group comes after some photo of each earlier group in the dataset, so groups are listed in the order their names are first met |
| Events.GroupsAreEventFilters | src/pages/PhotosPage.tsx:35-47 | each group is non-empty and holds exactly the photos with its event name, in dataset order |
| Events.GroupIsEventFilter | src/pages/PhotosPage.tsx:38-44 | one given group equals the filter of the full list by its event name |
| Events.PhotoInExactlyOneGroup | src/pages/PhotosPage.tsx:38-44 | group names are distinct, and each photo is in the group of its own event name and in no other |
| Events.AddPhotoNames | src/pages/PhotosPage.tsx:40-43 | one grouping step appends the name when it is new and otherwise keeps the names |
| Events.AddPhotoKeepsFilters | src/pages/PhotosPage.tsx:40-43 | one grouping step keeps every group non-empty and equal to the event filter of the photos seen so far |
| Events.AddPhotoTotalSize | src/pages/PhotosPage.tsx:40-43 | one grouping step adds exactly one photo over all groups |
| Events.GroupSizesSum | src/pages/PhotosPage.tsx:35-47 | the group sizes sum to the number of photos |
| Events.UniqueTitlesGiveSingletons | src/pages/PhotosPage.tsx:35-47 | with unique titles and no separator in any of them, each photo gets its own one-photo group named by its title, in dataset order |
| PhotosPage.FindIndex | src/pages/PhotosPage.tsx:51 | `findIndex` by id gives the first position holding the id, or -1 exactly when no position does |
| PhotosPage.OpenLightbox | src/pages/PhotosPage.tsx:49-52 | the photo becomes selected. The index is the first visible position with its id, or -1 iff there is none. Nothing else changes |
| PhotosPage.CloseLightbox | src/pages/PhotosPage.tsx:54-56 | the selection is cleared, while the index, filters and likes are left as they were |
| PhotosPage.JsRem | src/pages/PhotosPage.tsx:60-61 | JavaScript `%`: the result lies strictly between -n and n and has the sign of the dividend. It equals the Euclidean remainder for a non-negative dividend, and equals the dividend itself when that is in (-n, 0] |
| PhotosPage.Navigate | src/pages/PhotosPage.tsx:58-65 | from any index of at least -1, the new index is a visible position and the selected photo is the one there. From a valid position, `next` steps forward and wraps to 0, and `prev` steps back and wraps to n-1. Filters and likes are unchanged |
| PhotosPage.CyclicStep | src/pages/PhotosPage.tsx:59-61 | `(i+1) % n` and `(i-1+n) % n` step one place forward and back cyclically, and `prev` from -1 gives n-2 |
| PhotosPage.NavigateRoundTrip | src/pages/PhotosPage.tsx:58-65 | from a valid position, `next` then `prev` (and `prev` then `next`) returns to the same index and photo |
| PhotosPage.NavigateWraps | src/pages/PhotosPage.tsx:59-61 | `prev` from the first photo gives the last, and `next` from the last gives the first |
| PhotosPage.NavigateFromMissing | src/pages/PhotosPage.tsx:49-65 | after a not-found `openLightbox` (index -1), `next` gives 0 and `prev` gives n-2 |
| PhotosPage.InitialState | src/pages/PhotosPage.tsx:6-12 | the initial state satisfies the lightbox invariant and shows every photo |
| PhotosPage.OpenLightboxConsistent | src/pages/PhotosPage.tsx:49-52 | opening a photo whose id is visible keeps the lightbox invariant |
| PhotosPage.NavigateConsistent | src/pages/PhotosPage.tsx:58-65 | navigation keeps the invariant and always leaves a photo selected |
| PhotosPage.CloseAndLikeConsistent | src/pages/PhotosPage.tsx:54-78 | closing the lightbox and toggling a like keep the invariant |
| PhotosPage.FilterHandlersConsistent | src/pages/PhotosPage.tsx:110-118 | with the lightbox closed, selecting an event, clearing it and resetting the filters keep the invariant |
| PhotosPage.Toggle | src/pages/PhotosPage.tsx:69-77 | the id's membership flips, and the set is unchanged apart from that id |
| PhotosPage.ToggleLike | src/pages/PhotosPage.tsx:67-78 | the id's liked flag flips, every other id keeps its flag, and no other field changes |
| PhotosPage.ToggleLikeInvolution | src/pages/PhotosPage.tsx:67-78 | toggling the same id twice restores the state |
| PhotosPage.ToggleLikeCommutes | src/pages/PhotosPage.tsx:67-78 | toggling two ids in either order gives the same state |
| PhotosPage.SelectEvent | src/pages/PhotosPage.tsx:110-114 | sets the event, clears the search to `''`, sets the category to `all`, and changes nothing else |
| PhotosPage.SelectEventShowsGroup | src/pages/PhotosPage.tsx:110-114 | after selecting event `k`, every photo of the group named `k` is visible |
| PhotosPage.SelectEventVisible | src/pages/PhotosPage.tsx:110-114 | after selecting event `k`, the visible photos are exactly those whose title or a tag contains `k` ignoring case (all photos when `k` is empty) |
| PhotosPage.ClearEventFilter | src/pages/PhotosPage.tsx:116-118 | the event becomes null and nothing else changes |
| PhotosPage.ClearEventWidens | src/pages/PhotosPage.tsx:116-118 | everything visible before clearing the event stays visible after it, in order |
| PhotosPage.ResetFilters | src/pages/PhotosPage.tsx:348-352 | the search becomes `''`, the category `all` and the event null. The lightbox and likes are untouched |
| PhotosPage.ResetShowsAll | src/pages/PhotosPage.tsx:348-352 | after "Reset Filters", every photo is visible in dataset order |
| Scenario.EventNameOfTitle | src/pages/PhotosPage.tsx:39 | a title `<name> - <rest>`, with no blank in `<name>`, has event name `<name>` |
| Scenario.GroupsOfThree | src/pages/PhotosPage.tsx:35-47 | two photos of one event followed by one of another make two groups in that order |
| Scenario.ScenarioGroups | src/pages/PhotosPage.tsx:35-47 | the photos `Hackathon - Day 1`, `Hackathon - Day 2` and `Workshop - Intro` group as `Hackathon: [a, b]`, `Workshop: [c]` |
| Scenario.ScenarioSearch | src/pages/PhotosPage.tsx:14-33 | searching those photos for `ai` in all categories gives `[a, b]` |

## Left out

- Markup, styling, animations and the grid/masonry view toggle carry no
  behaviour. Neither do `getCategoryColor`, `getCategoryIcon` and the
  `Trophy` icon, which are presentational lookups.
- The React `useState`/`useMemo` machinery is replaced by one state record and
  pure functions. Memoisation affects only performance.
- The photo list and category labels come from `src/data/photos`, which is not
  part of this model. The list is a parameter of every function that needs it.
- Text.LowerChar: lower-cases only ASCII `A`-`Z` and Latin-1 `À`-`Þ` (except
  `×`), because full Unicode `toLowerCase` is out of scope. That includes
  context-sensitive mappings such as the Greek final sigma, and mappings that
  change a string's length.
- JsRem: does not state the general congruence between the dividend and the
  result for dividends at or below -n. From an index of at least -1,
  navigation never produces such a dividend when two or more photos are
  visible (its smallest is -1). With one visible photo, -1 equals -n, and
  that case is stated.
- Navigate: requires at least one visible photo. With none, JavaScript
  computes `NaN`, and the buttons are only rendered when two or more photos
  are visible. An out-of-range read of the visible list, which gives
  `undefined` in JavaScript, is modelled as no selected photo.
- The code has no policy for a lightbox left open while the filter changes,
  so none is modelled. `FilterHandlersConsistent` covers only the closed
  lightbox.
- The search box and the category select (the inline `onChange` handlers)
  each set one field and are not modelled as separate transitions. The filter
  is stated for every search term and category.
- JavaScript object key order and prototype keys of the `Record` that holds
  the groups are not modelled. Integer-like names would be listed first, and
  a name such as `constructor` would break the `!groups[name]` test. Groups
  are an association list in first-seen order.
- Date formatting with `toLocaleDateString` is locale-dependent.
- `stopPropagation` in `toggleLike` is DOM event plumbing.

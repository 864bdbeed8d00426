# sakuga-better-ui content script: a Dafny model

The content script replaces a booru's post listing with its own grid of thumbnail tiles. It has four main jobs:

- It harvests thumbnails from the page.
- It keeps loading following pages as the user scrolls.
- It watches the page for new thumbnails.
- On a shift-click on a tile, it opens a "peek" overlay that plays the post's video.

This project models the decision logic and the state behind those jobs, and proves what they guarantee.

Modules:

- `JsValues` (js_values.dfy): JavaScript semantics the script relies on.
  - Strings or null in boolean context (`x || y`).
  - `parseInt(s, 10)`: white space, then an optional sign, then a run of digits; otherwise NaN.
  - `String(n)` for integers.
- `NextPage` (next_page.dfy): `detectNextURL`.
  - A URL is its query, kept as an ordered list of name/value pairs with the semantics of `URLSearchParams.get`/`set`, plus an opaque rest.
  - An href is a string the URL parser accepts or one it rejects.
- `Harvest` (harvest.dfy): `Scan`, the specification of one `collectThumbNodes` pass.
  - The document is given as the images the thumbnail selectors match, in document order. Each match records whether it lies inside `#sb-grid` and which anchor encloses it.
  - Nodes are (document, node) pairs, so a page parsed from a fetch is a fresh document.
  - The `data-sb-added` attributes the script sets are the registry, a set of marked anchors. An anchor can also carry the attribute without the script having set it on that element: the markup had it, or the page copied an anchor the script had marked (the attribute survives `cloneNode` and `innerHTML`). Each match says so in a flag, which all matches of one anchor agree on, and such an anchor is skipped like a marked one.
- `Media` (media.dfy): `resolveMediaForLink`, as a function of the hover source and the outcome of fetching the post page.
- `Tile` (tile.dfy): the decisions in `createTile`: the hover source, the click handler, and which body `openPeek` builds.
- `Feed` (feed.dfy): the class `FeedController`. It holds the script's module state: `cleanupEnabled`, `loadingNext`, `pageNextURL`, `moScheduled`, `lastFoundCount`, the registry of marked anchors and the tiles in the grid. Each handler is a method:
  - `renderInitial`.
  - The scroll handler, split at its `await` into a start and a completion.
  - The mutation observer, split into a signal and an animation frame.
  - The cleanup toggle.
  - `maybeHideOriginalLists`, which writes the `style.display` of the original list containers in place in an array.

  The class invariant `Valid` holds across every event and every interleaving of them:
  - `lastFoundCount` is the number of tiles in the grid.
  - The anchors the script has marked are exactly the grid's anchors.
  - No anchor has two tiles.
  - A non-null cursor is a non-empty href.

Four behaviours of the script that are easy to misread:

- Deduplication is by anchor element, not by post. A page fetched while scrolling is a fresh document, so the registry plays no part in what it yields (`Harvest.ScanOfUnmarkedDocument`), and the same post on two fetched pages gets two tiles.
- The "No preview available." body of `openPeek` can be reached from a tile: it happens on a shift-click on an anchor without an `href`, when no video is found (`Tile.ShiftClickBody`).
- An `{img}` result is not shown as an image. The click embeds the post page, exactly as for `{}` (`Tile.ImageTreatedAsNothing`).
- Loading a following page never re-applies the hide rule (`Feed.FeedController.ScrollComplete` leaves the list containers as they were), and the animation frame the new tiles cause finds nothing new on the live page. So the original lists are not always hidden when cleanup is on and the count is at least 6: a first page with fewer than 6 thumbnails leaves them showing after more pages load, until the cleanup button is pressed twice or the live page gains new thumbnails.

## Model

| member | source | states |
|---|---|---|
| `JsValues.DigitRun` | content.js:250 | the digit run `parseInt` reads is made of decimal digits only |
| `JsValues.DigitChar` | content.js:252 | the digit character written for `d < 10` is a digit whose value is `d` |
| `JsValues.NatToDecimal` | content.js:252 | `String(n)` of a natural number is a non-empty run of digits with no leading zero, whose decimal value is `n` |
| `JsValues.IntToString` | content.js:252 | `String(n)` is non-empty and starts with a minus sign or a digit |
| `JsValues.ParseInt` | content.js:250 | `parseInt(s, 10)` is NaN exactly when no digit follows the leading white space and the optional sign |
| `JsValues.TrimStartPast` | content.js:250 | `parseInt` skips leading white space and stops at the first other character |
| `JsValues.DigitRunStopsAt` | content.js:250 | the digit run read from digits followed by a non-digit is exactly those digits |
| `JsValues.ParseSignedUnsigned` | content.js:250 | an unsigned digit run followed by a non-digit parses to its decimal value |
| `JsValues.ParseSignedNegative` | content.js:250 | a minus sign before a digit run parses to the negated value |
| `JsValues.ParseSignedPositive` | content.js:250 | a plus sign before a digit run is accepted and parses to the run's value |
| `JsValues.PlusFiveIsFive` | content.js:250 | `parseInt("+5") == 5` |
| `JsValues.ParseSignedReadsIntToString` | content.js:250-252 | after the white space, `parseInt` reads back `String(n)` followed by any non-digit text |
| `JsValues.ParseIntReadsIntToString` | content.js:250-252 | `parseInt(ws + String(n) + rest) == n`, for white space `ws` and any `rest` not starting with a digit |
| `JsValues.ParseIntOfIntToString` | content.js:250-252 | `parseInt(String(n), 10) == n` for every integer |
| `NextPage.Without` | content.js:252 | the query without `name` has no parameter called `name` |
| `NextPage.GetParam` | content.js:250 | `searchParams.get` is the first value of the parameters with that name, or null when there is none |
| `NextPage.WithoutNamed` | content.js:252 | removing every parameter called `name` leaves none with that name |
| `NextPage.WithoutIdempotent` | content.js:252 | removing a name twice is the same as removing it once |
| `NextPage.ReplaceFirstFacts` | content.js:252 | `set` on a present name leaves exactly one parameter with that name, holding the new value, and the others unchanged and in order |
| `NextPage.AppendFacts` | content.js:252 | `set` on an absent name appends one parameter and keeps the others |
| `NextPage.SetParamInPlace` | content.js:252 | `set` on a present name replaces the first parameter with that name where it stands: the parameters before it are untouched, and the later ones with that name are dropped |
| `NextPage.SetParamAppends` | content.js:252 | `set` on an absent name appends the pair at the end and keeps the query otherwise as it is |
| `NextPage.SetParamFacts` | content.js:252 | after `searchParams.set`, `get` gives the new value, only one parameter has the name, and the other parameters are kept in order |
| `NextPage.DetectNextUrl` | content.js:245-257 | a next link with a non-empty href is returned as it is; any non-null result is a non-empty href, so it passes the scroll guard's null test |
| `NextPage.BaseUrlAloneDecides` | content.js:246-256 | without a next link that has an href, the result depends on the parsed base URL alone: neither which unusable link the page had nor the page's own address matters |
| `NextPage.NextLinkWins` | content.js:246-247 | a next link with a non-empty href is returned unchanged, whatever the base URL |
| `NextPage.UnparsableBaseGivesNull` | content.js:248-256 | without a usable next link, a base URL the parser rejects gives null |
| `NextPage.MissingPageGivesPageTwo` | content.js:249-253 | a missing or empty `page` gives the base URL with exactly one `page`, `page=2`. It stands in the place of the first `page`, or at the end when there was none, and the other parameters are kept in order |
| `NextPage.NumericPageIncrements` | content.js:249-253 | a `page` that `parseInt` reads as `n` gives the base URL with `page=String(n+1)`, which reads back as `n+1`, in the place of the first `page`, and the other parameters kept |
| `NextPage.NonNumericPageGivesNull` | content.js:250-251 | a non-empty `page` that `parseInt` reads as NaN gives null |
| `NextPage.SinglePageParamIncrements` | content.js:249-253 | `?page=String(n)` with no next link leads to `?page=String(n+1)` |
| `NextPage.PageThreeGivesPageFour` | content.js:249-253 | `?page=3` with no next link leads to `?page=4` |
| `Harvest.Scan` | content.js:171-181 | a pass only adds to the registry and returns at most one entry per matched image |
| `Harvest.EligibleAnchorsSnoc` | content.js:174-175 | the anchors of eligible images grow by the last image's anchor when that image is eligible |
| `Harvest.ScanAccounting` | content.js:173-179 | the registry grows by exactly the anchors of the eligible images; the entries' anchors are exactly the newly marked ones, one entry per anchor |
| `Harvest.ScanSelects` | content.js:173-179 | the pass returns, in document order, exactly the images outside the grid with an enclosing anchor that carried no `data-sb-added` when the image was reached |
| `Harvest.ForeignMarksSkipped` | content.js:176 | a document made only of images whose anchors carry a `data-sb-added` the script did not set yields nothing and marks nothing |
| `Harvest.ForeignMarkedAnchorNeverTaken` | content.js:176-178 | an anchor carrying a `data-sb-added` the script did not set is neither marked by a pass nor given an entry, whichever of its images comes first |
| `Harvest.ScanOfMarked` | content.js:176 | a document whose anchors are all marked yields nothing and marks nothing |
| `Harvest.ScanIdempotent` | content.js:176-178 | a second pass over an unchanged document returns nothing and leaves the registry as it is |
| `Harvest.ScanOfUnmarkedDocument` | content.js:176-178 | marks on anchors of other documents do not change what a document yields |
| `Harvest.FreshDocumentUnmarked` | content.js:285-287 | a freshly parsed document has no marked anchor |
| `Harvest.AnchorsOfAppend` | content.js:288 | the anchors of appended tiles are the union of both parts' anchors |
| `Harvest.GridStaysDeduplicated` | content.js:176-178 | appending each pass's entries keeps the registry equal to the grid's anchors and gives no anchor two tiles |
| `Harvest.ScanMarksOwnDocument` | content.js:177 | a pass over one document marks only that document's anchors |
| `Media.ResolveMedia` | content.js:139-168 | a non-empty hover source is returned as `{src}`; an `{img}` result never names a .webm or .mp4 file |
| `Media.HoverSourceNeedsNoFetch` | content.js:141 | a non-empty hover source is returned as `{src}`, whatever the fetch would give |
| `Media.FetchFailureGivesNothing` | content.js:165-166 | a failed fetch or parse gives `{}` |
| `Media.PagePrecedence` | content.js:149-164 | the first hit on the post page wins: a video (raw attribute preferred to the resolved URL), then `#image` as `{img}` unless it ends in .webm/.mp4, then a video `<source>`'s raw `src`, else `{}` |
| `Media.NothingExactlyWhen` | content.js:139-167 | `{}` exactly when there is no hover source and the fetch failed or the page had no hit |
| `Media.VideoExtensionAnyCase` | content.js:154 | the extension test ignores case: two strings that differ only in the case of ASCII letters are both video URLs or neither |
| `Media.VideoExtensionOnlyAtEnd` | content.js:154 | the extension must end the string: a string whose last character is not `m`, `M` or `4`, such as one with a query string after the extension, is never a video URL |
| `Tile.ClickHoverSrcShape` | content.js:191-195 | the hover source handed to the resolver is null or non-empty. The order is: the nearby element's `src` property, then its `src` attribute, then `data-preview-video`, then a `data-sb-hover` the anchor already carried. It is null exactly when none of these is non-empty |
| `Tile.ClickHoverSrc` | content.js:187-195 | the value the click reads, `link.dataset.sbHover \|\| null` (content.js:226) on the clone made at content.js:187 after the choice at content.js:192-195, is null or non-empty, never `""` |
| `Tile.DispatchClick` | content.js:223-232 | the overlay opens exactly on a shift-click; its title is the anchor's title, else its href; it gets a video source exactly when the resolved `src` is truthy |
| `Tile.PeekBodyOf` | content.js:112-124 | `openPeek` plays the video exactly when `src` is truthy, embeds the fallback page exactly when only `fallbackURL` is truthy, and shows "No preview available." when neither is |
| `Tile.PlainClickFollowsLink` | content.js:224 | without the shift key the click is left to the browser |
| `Tile.ShiftClickBody` | content.js:112-124 | a shift-click opens the overlay. It plays a video exactly when the resolved `src` is truthy. Otherwise it embeds the post page. It shows "No preview available" exactly when no video is found and the anchor has no href |
| `Tile.ImageTreatedAsNothing` | content.js:229-231 | an `{img}` result leads to the same overlay as `{}` |
| `Tile.PeekTitle` | content.js:102 | the overlay's heading is the anchor's title, else its href, else "Preview" |
| `Tile.HoverPreviewPlaysWithoutFetch` | content.js:223-232 | a tile with a hover source plays it on shift-click whatever the post page holds |
| `Feed.FeedController.RenderInitial` | content.js:259-273 | initial state: cleanup on, no fetch in flight, no frame pending. The grid and registry are the first pass over the live page and the count is its length. Lists are hidden iff the count is at least 6. The cursor is `detectNextURL` of the live page |
| `Feed.FeedController.CollectThumbNodes` | content.js:171-181 | the loop returns and marks exactly what the specification `Scan` gives from the current registry |
| `Feed.FeedController.MaybeHideOriginalLists` | content.js:237-243 | every list container except `#sb-grid` is set to `none` when cleanup is on and the count is at least 6, otherwise to `""`; `#sb-grid` keeps its display |
| `Feed.FeedController.ToggleCleanup` | content.js:82-86 | the flag flips, the button text shows the new state, and the hide rule is re-applied to the current count |
| `Feed.FeedController.ScrollStart` | content.js:276-283 | a fetch of the cursor starts exactly when none is in flight, the cursor is non-null and the page is near the bottom; the flag is set before the fetch, so no second fetch starts |
| `Feed.FeedController.ScrollComplete` | content.js:283-297 | the flag is cleared on every outcome. On success the grid and count grow by exactly the new entries and the cursor is `detectNextURL(doc, currentURL)`, forced to null when there were none. On error the cursor is null and nothing else changes. The list containers are left as they were: the hide rule is not re-applied |
| `Feed.FeedController.MutationSignal` | content.js:302-305 | a frame is requested only when none is pending; while one is pending a signal changes nothing |
| `Feed.FeedController.AnimationFrame` | content.js:305-313 | the frame clears the pending flag and rescans the live page. Only when the rescan finds entries are they added to the grid and count and the hide rule re-applied; otherwise the lists are untouched |
| `Feed.LoadOnePage` | content.js:276-297 | on a controller with a cursor and no fetch in flight, a scroll near the bottom followed by the completion of a fresh page with one thumbnail and a next link adds one tile, numbers the next page afresh and keeps the cursor and the invariant |
| `Feed.TwoPagesLoad` | content.js:259-297 | the initial render followed by two scrolls, each loading a page with one thumbnail and a next link, is a run every event admits, and it ends with two tiles, a count of 2 and no fetch in flight |

## Left out

- CSS injection, building the grid and the toolbar, and the size buttons (content.js:3-21, 50-81) are presentation only.
- `openPeek` builds DOM and close listeners; only its choice of body and heading is modelled.
- Tile cloning and the `mouseenter`/`mouseleave` hover playback are DOM work. The model keeps only the hover source they use, and the `data-sb-hover` value the clone may carry over from the anchor.
- `fetch`, `DOMParser` and URL parsing and serialisation are foreign calls. Their outcomes are inputs:
  - a fetch fails or yields the parsed page's matches;
  - an href parses or does not;
  - a parsed URL is its query and an opaque rest.
  URL serialisation's percent-encoding of the other parameters is therefore not modelled.
- The CSS selector engine (`SEL_THUMBS`, `NEXT_LINK_SEL`, `closest`). A document is the ordered list of its matches, and the next link is the first match's href.
- The `nearBottom` scroll geometry uses floating-point scroll metrics; it is a boolean input of `ScrollStart`.
- `MutationObserver`, `requestAnimationFrame` and listener registration. Their callbacks are the discrete events of `FeedController`, and the `await` is a start/complete pair rather than real concurrency.
- JavaScript numbers are doubles; `parseInt` and `String` are modelled on unbounded integers, so huge page numbers are not modelled.
- How the page comes to carry a `data-sb-added` the script did not set (markup, copies of marked anchors) is not modelled: each match states it as an input.
- The set of original list containers is fixed while the script runs. Containers added to the page later are not modelled.
- An exception thrown while building tiles in the scroll handler is not modelled; the fetch or parse failing is.

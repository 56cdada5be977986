# RelaMangaReader core, modelled in Dafny

RelaMangaReader is a userscript that lays a two-page "spread" reader over a manga
chapter page. It scans the site's image list for page URLs, groups the pages into
spreads under one of two pairing modes, pages through them in right-to-left or
left-to-right order, and drives the host page's scrolling on a timer so that the
site appends more images.

The model covers that core:

- **Page-URL acceptance** (`page_url.dfy`, module `PageUrl`): `isLoadingUrl`,
  `isValidPageUrl` (scheme, placeholder pattern, host allowlist) and `extractUrl` over
  an image record.
- **Page list** (`page_list.dfy`, module `PageList`): the scan of `refreshPagesNow` as
  specification functions `Pages` and `ImagesByUrl` over the element list, with
  lemmas for duplicate-freedom, validity, first-occurrence order, the lookup's keys
  and values, and growth at the tail.
- **Spreads** (`spreads.dfy`, module `Spreads`): `buildSpreads` as the function
  `SpreadsOf` for both pairing modes, with coverage (right then left over all spreads
  gives back the pages), the spread count, a closed form for each spread and its page
  numbers, worked five-page examples, and stability when pages are appended.
- **Navigation** (`navigation.dfy`, module `Navigation`): `clampIndex`, the
  `findIndex`-based re-anchoring of `togglePairingMode`, the direction-dependent pane
  mapping and render decision of `renderCurrent`, and the decoding of keys and clicks
  into commands.
- **Auto-drive** (`auto_drive.dfy`, module `AutoDrive`): `startAutoDrive`,
  `stopAutoDrive` and `autoDriveTick` as functions over the driver's fields, and
  multi-tick runs (stop at the bottom after `autoDriveStallRounds` stalled ticks,
  timeout under steady growth, the stall bound).
- **Loaded count** (`progress.dfy`, module `Progress`): `computeLoadedCount`.
- **The reader's state** (`reader.dfy`, module `Reader`): the `STATE` object as the
  class `Reader` whose methods update its fields in the source's order. These are
  `refreshPagesNow` (scan loop, spread-building loops, clamp and the re-render rule),
  paging, the three toggles, `renderCurrent`, the observer and refresh-coalescing flag,
  open/close/toggle, and the auto-drive methods. `Valid()` is the invariant they all
  keep. The page list and lookup are those of the last scanned list, the spreads are
  built from the pages, the index lies in `[0, max(0, |spreads| - 1)]`, the drive and
  the observer run only while open, and a running drive is below the stall threshold.
- **Scenarios** (`scenarios.dfy`): operation sequences such as refreshing twice over
  the same list.

Inputs the browser supplies become parameters:

- the image list is `Option<seq<Image>>`, with `None` when the list element is missing;
- a drive tick takes the list twice: `imgs` for the image count, and `scrolled` for the
  refresh, as the list stands after the tick's synthetic scroll events;
- the clock is `now`;
- `isNearBottom()` is a boolean `nearBottom`;
- `isUnderlyingLoaded` is a set `underlyingLoaded`;
- a click is its `x` and the overlay width.

The model follows the code where its behaviour might be read otherwise:

- a refresh with the list missing returns early and leaves `pages`, the lookup, the spreads and the index untouched; it does not empty them;
- a refresh re-renders only when clamping moved the index or no spread exists at the index; it does not compare the spread with the last rendered one.

## Model

| member | source | states |
|---|---|---|
| PageUrl.IsLoadingUrl | src/RelaMangaReader.js:733-739 | The empty URL, the `/loading(.|_)…` placeholder pattern and any URL containing "loading.png" are loading URLs. It has no contract of its own: `EmptyUrlRejected` and `LoadingPngRejected` state its cases. |
| PageUrl.IsValidPageUrl | src/RelaMangaReader.js:742-751 | An http(s) URL that is not a loading URL and contains one of the three allowlist hosts. It has no contract of its own: `ValidUrlCollapsesAllowlist` and `ValidUrlNonEmpty` state what it accepts. |
| PageUrl.ValidUrlCollapsesAllowlist | src/RelaMangaReader.js:742-751 | A URL is valid exactly when it starts with `http://` or `https://`, is not a loading URL, and contains `mangafunb.fun/`. The two longer allowlist entries add nothing. |
| PageUrl.EmptyUrlRejected | src/RelaMangaReader.js:733-751 | The empty string is a loading URL and is never a valid page URL. |
| PageUrl.ValidUrlNonEmpty | src/RelaMangaReader.js:742-745 | A valid page URL is non-empty and is not a loading URL. |
| PageUrl.LoadingPngRejected | src/RelaMangaReader.js:733-739 | Any URL containing "loading.png" is a loading URL and invalid, whatever its host. |
| PageUrl.ExtractUrl | src/RelaMangaReader.js:754-759 | A non-empty `data-src` attribute wins. The result is "" exactly when all five sources are empty. |
| PageUrl.ExtractUrlPicksFirstNonEmpty | src/RelaMangaReader.js:754-759 | The URL is the first non-empty source in the order data-src attribute, dataset.src, currentSrc, src attribute, src property, or "" when all are empty. |
| PageList.Pages | src/RelaMangaReader.js:768-779 | The page list the scan keeps: valid extracted URLs, each at its first occurrence. It has no contract of its own: `PagesWellFormed`, `PagesAreTheValidUrls` and `PagesInFirstOccurrenceOrder` characterise it. |
| PageList.ImagesByUrl | src/RelaMangaReader.js:768-779 | The URL-to-element lookup the scan fills. It has no contract of its own: `ImagesByUrlIsFirstImage` and `ImagesByUrlYieldKeys` characterise it. |
| PageList.PagesWellFormed | src/RelaMangaReader.js:769-779 | The scanned page list has no duplicates, and every entry is a valid page URL. |
| PageList.PagesAreTheValidUrls | src/RelaMangaReader.js:769-779 | A URL is in the page list if and only if it is valid and some element yields it. |
| PageList.PagesOccur | src/RelaMangaReader.js:769-779 | Every page's first occurrence lies within the element list. |
| PageList.PagesInFirstOccurrenceOrder | src/RelaMangaReader.js:769-779 | Pages are ordered by first occurrence: an earlier page was first seen at an earlier element. |
| PageList.ImagesByUrlIsFirstImage | src/RelaMangaReader.js:769-779 | The lookup's keys are exactly the pages, and each maps to the first element yielding it. |
| PageList.ImagesByUrlYieldKeys | src/RelaMangaReader.js:769-779 | Every element in the lookup yields its own key. |
| PageList.PagesGrowAtTail | src/RelaMangaReader.js:769-779 | Appending elements to the list only extends the page list: the old pages are a prefix of the new ones. |
| Spreads.SpreadsOf | src/RelaMangaReader.js:825-862 | `buildSpreads` as a function of the pages and the mode. It has no contract of its own: `SpreadCountIs`, `SpreadAt` and `SpreadsCoverPages` characterise it, and `Reader.BuildSpreads` is proved equal to it. |
| Spreads.Toggled | src/RelaMangaReader.js:872 | Toggling changes the pairing mode. |
| Spreads.SpreadCountIs | src/RelaMangaReader.js:825-862 | Mode 1 has ceil(n/2) spreads. Mode 0 has 0 when n = 0 and 1 + n/2 otherwise. |
| Spreads.SpreadAt | src/RelaMangaReader.js:829-859 | In closed form, spread k's right slot is page RightIndex(mode, k) and `rightNo` is its 1-based position. Its left slot is the next page when one exists, and never exists for the lead spread of mode 0. `leftNo` is `rightNo + 1` exactly when the left page is non-empty. |
| Spreads.LeftNumberMatchesLeftSlot | src/RelaMangaReader.js:836-857 | Over non-empty pages, `leftNo` is set exactly when `left` is, and then equals `rightNo + 1`. |
| Spreads.SpreadsCoverPages | src/RelaMangaReader.js:825-862 | In both modes, reading right then left over the spreads in order gives back the page list exactly. |
| Spreads.EveryPageHasSpread | src/RelaMangaReader.js:825-862 | Every page sits in the right or left slot of some spread. |
| Spreads.FivePagesLeadSingle | src/RelaMangaReader.js:829-846 | Five pages in mode 0 give [{p1}, {p2,p3}, {p4,p5}], with their page numbers. |
| Spreads.FivePagesPairedFromStart | src/RelaMangaReader.js:847-859 | Five pages in mode 1 give [{p1,p2}, {p3,p4}, {p5}], with their page numbers. |
| Spreads.SpreadsGrowAtTail | src/RelaMangaReader.js:825-862 | Appending pages never removes a spread and keeps every spread's right page. A spread that was full, or not last, is unchanged. |
| Navigation.FlipDir | src/RelaMangaReader.js:276 | Toggling changes the reading direction. |
| Navigation.FlipView | src/RelaMangaReader.js:266 | Toggling changes the view mode. |
| Navigation.Clamp | src/RelaMangaReader.js:892-896 | The result lies in [0, max(0, count - 1)]. An index already in range is kept, and one past the end goes to the last spread (0 when there are none). |
| Navigation.FindSlot | src/RelaMangaReader.js:880-881 | `findIndex` returns the first spread whose chosen slot holds the URL, or -1 when none does. |
| Navigation.Reanchor | src/RelaMangaReader.js:877-883 | Without a non-empty old right page the clamped index is kept. Otherwise the result is the clamped index or a spread holding that page on the left or the right. |
| Navigation.ReanchorKeepsPage | src/RelaMangaReader.js:868-883 | For a page in the list, re-anchoring lands on a spread that shows it. That is the spread holding it on the left whenever one exists. |
| Navigation.SixPageToggleExample | src/RelaMangaReader.js:868-883 | With six pages, mode 0 at {p4,p5} switches to mode 1 at {p3,p4}. |
| Navigation.ToggleTwiceStepsBack | src/RelaMangaReader.js:868-883 | Over distinct pages, toggling twice from mode 0 spread k >= 1 lands on spread k - 1. The two switches are not inverses. The comment at 869 ("BC <-> AB") describes the first switch only; the shift-back preference of 877-879 makes the return switch land one spread earlier, and the model follows the code. |
| Navigation.FirstSwitchStepsBack | src/RelaMangaReader.js:868-883 | Switching mode 0 to mode 1 from spread k >= 1 lands on spread k - 1, whose right page is page 2k - 1 (1-based). |
| Navigation.SecondSwitchStepsBack | src/RelaMangaReader.js:868-883 | Switching mode 1 to mode 0 from page 2k - 1 (1-based) lands on spread k - 1. |
| Navigation.PanesFor | src/RelaMangaReader.js:983-986 | The page read first (the spread's right) goes to the right pane under rtl and the left pane under ltr. The left page goes to the other pane. Empty slots are hidden. |
| Navigation.PanesMirror | src/RelaMangaReader.js:983-986 | The ltr pane pair is the rtl pair mirrored. |
| Navigation.Prefetch | src/RelaMangaReader.js:1000-1004 | Render prefetches exactly the non-empty slots of the spread after the current one: nothing else, and every one of them. At most two URLs, the right page first, then the left. |
| Navigation.Show | src/RelaMangaReader.js:976-1036 | A render happens exactly when a spread exists at the index. The right page goes to the first-read pane and the left page to the other; empty slots are hidden. It flags a new spread exactly when the panes differ from the last rendered pair, and prefetches `Prefetch` of the index. |
| Navigation.KeyCommand | src/RelaMangaReader.js:384-432 | While open, next is the arrow pointing the way pages advance (ArrowLeft under rtl, ArrowRight under ltr) and prev is the other one. Escape closes only while open. R/r toggles the overlay, F/f the view, G/g the pairing and C/c the direction, whether or not the overlay is open. Every other key, and Escape or an arrow while closed, is ignored. |
| Navigation.ClickCommand | src/RelaMangaReader.js:339-354 | A click does something exactly while open. It means next exactly when "left half" and "rtl" agree. |
| Navigation.ClickAgreesWithArrows | src/RelaMangaReader.js:339-354 | A left-half click means the same as ArrowLeft, and a right-half click the same as ArrowRight. |
| Navigation.ArrowsSwapWithDirection | src/RelaMangaReader.js:420-431 | Flipping the reading direction swaps the meanings of ArrowLeft and ArrowRight. |
| AutoDrive.Start | src/RelaMangaReader.js:555-575 | On an open overlay with no timer, a new session starts with start and progress timestamps `now`, stall 0, the current image count and no stop reason. Otherwise nothing changes. The stall invariant is kept. |
| AutoDrive.Stop | src/RelaMangaReader.js:578-584 | Stop is a no-op when not running. Otherwise the timer is cleared and the reason is the given one, else the previous one, else "stopped". No other field changes. |
| AutoDrive.Tick | src/RelaMangaReader.js:617-658 | The checks run in order: closed stops "closed", then timeout stops "timeout"; either of these is exactly `Stop` with that reason, so no other field changes. New images reset the stall counter and record the count and time; otherwise the counter goes up by one. At 12 stalled rounds the tick stops "bottom" exactly when `nearBottom`, else jitters (-260 then +520) and resets the counter. Below 12 it steps 900 px. `lastImgCount` never decreases. |
| AutoDrive.Run | src/RelaMangaReader.js:568-574 | The interval timer fires once per input while the drive runs: no more actions than inputs, fewer only once the drive has stopped, and a halt only as the last action. |
| AutoDrive.StalledAtBottomStops | src/RelaMangaReader.js:617-658 | With no new images and at the bottom, the drive steps until the tick that brings the stall counter to 12, then stops with "bottom". |
| AutoDrive.StalledAwayFromBottomJitters | src/RelaMangaReader.js:617-653 | With no new images away from the bottom, the drive steps until the tick that brings the stall counter to 12, then jitters and keeps running with the counter back at 0. |
| AutoDrive.FreshDriveStopsAtBottom | src/RelaMangaReader.js:555-658 | A freshly started drive that never sees a new image at the bottom stops with "bottom" after exactly 12 ticks. |
| AutoDrive.GrowingCountRunsUntilTimeout | src/RelaMangaReader.js:617-658 | With a new image on every tick, the drive steps until the first tick past 30 s, then stops with "timeout". |
| AutoDrive.RunKeepsInvariant | src/RelaMangaReader.js:617-658 | Any run of ticks keeps a running drive below the stall threshold and never lowers `lastImgCount`. |
| Progress.LoadedCount | src/RelaMangaReader.js:816-823 | The count never exceeds the number of pages. |
| Progress.LoadedCountIsCardinality | src/RelaMangaReader.js:816-823 | Over distinct pages, the count is the number of distinct loaded pages. |
| Progress.LoadedCountMonotone | src/RelaMangaReader.js:816-823 | More loaded URLs never lower the count. |
| Progress.LoadedCountFull | src/RelaMangaReader.js:816-823 | The count equals the number of pages exactly when every page has loaded. |
| Reader.ImgCount | src/RelaMangaReader.js:586-590 | Specification function without a contract of its own: the list's image count, 0 when the list is missing. `StartAutoDrive` and `AutoDriveTick` feed it to `AutoDrive.Start` and `AutoDrive.Tick`. |
| Reader.ScanList | src/RelaMangaReader.js:768-779 | The scan loop (with its `seen` set) produces exactly `Pages(list)` and `ImagesByUrl(list)`. |
| Reader.BuildSpreads | src/RelaMangaReader.js:825-862 | The two push loops produce exactly `SpreadsOf(pages, mode)`. |
| Reader.SwitchKeepsPage | src/RelaMangaReader.js:868-883 | After a pairing switch, re-anchoring on the current spread's right page lands on a spread showing that page. |
| Reader.Reader.PagesWellFormedNow | src/RelaMangaReader.js:769-785 | In any valid state, the pages are distinct and valid. The lookup's keys are exactly the pages, and each bound element yields its key. |
| Reader.Reader.constructor | src/RelaMangaReader.js:77-120 | The initial `STATE` is closed, double view, rtl, mode 0, with no pages, spreads, index 0, no observer and no timer. It is valid. |
| Reader.Reader.RenderCurrent | src/RelaMangaReader.js:976-1036 | A render happens exactly when open and a spread exists at the index. It shows `Show(...)` and records the panes as the last rendered pair; otherwise the pair is kept. |
| Reader.Reader.ReplacePages | src/RelaMangaReader.js:784-790 | It stores the new pages and lookup, rebuilds the spreads and clamps the index. If the old pages are a prefix of the new ones and the index was on a spread, the index does not move. |
| Reader.Reader.RefreshPagesNow | src/RelaMangaReader.js:761-802 | A missing list changes nothing. Otherwise pages and lookup become `Pages`/`ImagesByUrl` of the list and the index is clamped. It re-renders exactly when open and clamping moved the index onto a spread. Appending pages never re-renders or moves an index that was on a spread. |
| Reader.Reader.ComputeLoadedCount | src/RelaMangaReader.js:816-823 | The loop counts the pages that are in `loadedUrls` or loaded in the host list: `LoadedCount(pages, loadedUrls + underlyingLoaded)`. |
| Reader.Reader.MarkLoaded | src/RelaMangaReader.js:957-959 | A load event adds the URL to `loadedUrls` exactly when it is a valid page URL. |
| Reader.Reader.GotoNext | src/RelaMangaReader.js:1071-1077 | The index moves up by exactly 1 and renders when a next spread exists. Otherwise nothing changes and nothing renders. On a closed overlay nothing renders. |
| Reader.Reader.GotoPrev | src/RelaMangaReader.js:1079-1085 | The index moves down by exactly 1 and renders when it was above 0. Otherwise nothing changes and nothing renders. On a closed overlay nothing renders. |
| Reader.Reader.TogglePairingMode | src/RelaMangaReader.js:868-890 | The mode flips and the spreads are rebuilt. The index is the first spread with the old right page on the left, else on the right, else the clamped index. The old right page stays in the current spread, and an open overlay re-renders. |
| Reader.Reader.SwitchPairing | src/RelaMangaReader.js:868-883 | This is the state change of `togglePairingMode` before its render, with the same re-anchoring guarantees. |
| Reader.Reader.ToggleViewMode | src/RelaMangaReader.js:265-273 | The view flips, and the overlay re-renders exactly when open with a spread, recording the shown panes. Otherwise the last rendered pair is kept. |
| Reader.Reader.ToggleReadingDir | src/RelaMangaReader.js:275-283 | The direction flips, and an open overlay re-renders its spread under the new direction, recording the shown panes. Otherwise the last rendered pair is kept. |
| Reader.Reader.StartObserver | src/RelaMangaReader.js:701-714 | The observer attaches once, and only when the list exists. |
| Reader.Reader.StopObserver | src/RelaMangaReader.js:716-721 | It detaches the observer and clears the queued-refresh flag. It is a no-op (the flag included) when nothing is attached. |
| Reader.Reader.ScheduleRefresh | src/RelaMangaReader.js:723-730 | A frame is requested exactly when none is queued, and afterwards one is queued. |
| Reader.Reader.RefreshFrame | src/RelaMangaReader.js:726-729 | The frame callback clears the flag and then refreshes with every guarantee of `RefreshPagesNow`: the missing-list case, the clamped index, the re-render rule and tail stability. |
| Reader.Reader.StartAutoDrive | src/RelaMangaReader.js:555-575 | The drive fields become `AutoDrive.Start` of the old ones. |
| Reader.Reader.StopAutoDrive | src/RelaMangaReader.js:578-584 | The drive fields become `AutoDrive.Stop` of the old ones. |
| Reader.Reader.AdvanceDrive | src/RelaMangaReader.js:617-654 | Field updates in the source's order give exactly `AutoDrive.Tick` of the old fields, and the invariant is kept. |
| Reader.Reader.AutoDriveTick | src/RelaMangaReader.js:617-658 | The drive fields and action are `AutoDrive.Tick` on the count of `imgs`. A tick that stops changes nothing else (pages, lookup, spreads, index, last rendered pair) and renders nothing. A tick without a `scrolled` list keeps the pages, lookup, spreads and index. Any other tick refreshes from `scrolled`, the list after its scroll events, with the guarantees of `RefreshPagesNow`. |
| Reader.Reader.Open | src/RelaMangaReader.js:447-478 | Opening an open overlay changes nothing. Otherwise it opens, attaches the observer when the list exists, refreshes (a missing list keeps the pages and the lookup; a present one sets both from it) and clamps the index. It renders the current spread exactly when one exists. That render shows the spread's panes in the reading direction, records them as the last rendered pair, prefetches the next spread's pages, and counts as a new spread exactly when the index stayed and the panes differ from the previous pair. Without a render the last rendered pair is kept. Finally it starts the drive. The modes, `loadedUrls` and the refresh flag never change. |
| Reader.Reader.OpenClosed | src/RelaMangaReader.js:450-475 | This is `open` on a closed overlay, with the same guarantees. |
| Reader.Reader.RefreshRenderAndStart | src/RelaMangaReader.js:473-475 | The tail of `open` on an open overlay: the refresh and render guarantees of `Open`, then the drive starts. |
| Reader.Reader.RefreshAndRender | src/RelaMangaReader.js:473-474 | It refreshes, then renders the current spread exactly when one exists, whatever the refresh decided. The pages, lookup, index, render, prefetch, new-spread flag and last rendered pair are as stated for `Open`. A missing list keeps the spreads. |
| Reader.Reader.Close | src/RelaMangaReader.js:480-509 | Closing a closed overlay changes nothing. Otherwise the overlay closes, the drive stops with its reason defaulting to "stopped", and the observer detaches and clears the queued-refresh flag. An animation frame already requested still runs its refresh. Pages, spreads and index never change. |
| Reader.Reader.CloseOpen | src/RelaMangaReader.js:482-508 | This is `close` on an open overlay: the drive and the observer stop, and the drive and observer invariants are kept. |
| Reader.Reader.Toggle | src/RelaMangaReader.js:688-691 | The open state flips. Closing an open overlay has the guarantees of `Close` and keeps the pages, lookup, spreads, index and last rendered pair. Opening a closed one has those of `Open`. Validity is kept. |
| Scenarios.RefreshTwice | src/RelaMangaReader.js:761-802 | After two refreshes over the same list, the pages and spreads are those of the list and the index is the clamped old index. The second refresh does not re-render. |
| Scenarios.MutationsCoalesce | src/RelaMangaReader.js:723-730 | Two mutations before the frame request one refresh. |
| Scenarios.ReadingDirRoundTrip | src/RelaMangaReader.js:275-283 | Toggling the direction twice restores it and shows the spread as before. |
| Scenarios.NextThenPrev | src/RelaMangaReader.js:1071-1085 | Next then prev from a spread with a successor returns to it. |

## Left out

- Styling and chrome: `injectStyles`, `buildOverlay`, `syncHintReserve` and the top-bar, hint and status text (`updateTopBar`, `updateHint`, `getAutoDriveStatusText`, the mode labels). The loaded count `refreshPagesNow` and the toggles compute only feeds that text, so the methods do not compute it; `ComputeLoadedCount` models it separately.
- Event wiring: the listeners themselves, `installInputBlockers`, the overflow save/restore in `open`/`close`, and the resize handler. Only the key and click → command decision (`KeyCommand`, `ClickCommand`) is modelled; a caller dispatches a command to the matching method.
- Asynchronous image loading: `preload`, the onload/onerror counters in `renderCurrent`, and the loading placeholder. `Render` reports what would be prefetched, and `MarkLoaded` is the only effect of a load event.
- `syncUnderlyingProgress` and `triggerUnderlyingLazyload`: both are switched off in the configuration (`syncUnderlyingScroll` and `useUnderlyingLazyloadTrigger` are false), so they do nothing.
- Host APIs: timers, `Date.now`, `window.scrollBy`, synthetic scroll events and the `MutationObserver`. The interval timer is the `running` flag, the observer is the `observing` flag, and a tick returns the scroll it would make instead of making it.
- Close: `stopObserver` clears the queued-refresh flag but cannot cancel an animation frame that `scheduleRefresh` already requested; that frame still runs `refreshPagesNow` after close. The model has no pending-frame state, so `RefreshFrame` is the frame running whenever the host runs it.
- AutoDriveTick: what the host's scroll listeners do to the list between the image count and the refresh is not modelled. The refresh reads a separate input `scrolled`, which may differ from `imgs`.
- AutoDrive.Tick: the jitter's second scroll (+520 px) is delayed by 60 ms in the code and skipped if the overlay has closed by then. The model reports both scrolls in the tick's `Jitter` action.
- `autoDriveStartScrollY` is written by `startAutoDrive` but never read, so it is not a field.
- The other configuration flags are fixed at their values: the auto-drive is enabled and its constants are 900 px, 12 rounds, 30 s and 260 px.
- `isNearBottom` (fractional scroll geometry) is the input `nearBottom`. `isUnderlyingLoaded` (live `classList`, `complete` and `naturalWidth`) is the input set `underlyingLoaded`.
- `ensureList` re-querying the document is folded into the `imgs` parameter: `None` stands for "no list element".
- DOM identity: `imgByUrl` maps URLs to image records (values), not live nodes, so aliasing between the lookup and the host list is not modelled.
- Representation: the `autoDrive*` fields are one `Session` record, and `lastRenderedLeft`/`lastRenderedRight` are one `Panes` value. `buildSpreads` and `clampIndex` return their result (`BuildSpreads`, `Clamp`), and the calling method assigns it to the fields. Nothing observes the state between these steps.
- The "pages updated" debug log and the missing-list hint text in `refreshPagesNow`.
- `isChapterPage`, `main` and `install`: start-up gating.

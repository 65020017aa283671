# A multi-page navigator in one document: a Dafny model of `app.js`

This project models the behaviour of `app.js`, the script behind a nonprofit's
multi-page site that lives in one HTML document. The script has several parts,
and each is a Dafny module here:

- **Page switching** (`Dom`, `Site`):
  - `showPage` hides every `.page` element and shows the one whose id it is given.
  - It highlights the matching `.nav-link` and closes the mobile menu.
  - Three click handlers lead to `showPage`: nav links, `#`-anchors and footer links.
  - `preloadPageContent` marks a page preloaded and loads its lazy images.
- **Mobile menu** (`Site`): the hamburger toggle, `closeMobileMenu` and the resize handler.
- **Konami easter egg** (`Konami`):
  - A trailing buffer of the last ten key codes.
  - After every key it is compared with the fixed sequence through `join(',')`.
  - It is emptied when they match.
- **Statistics counters** (`Counter`): each counter counts up to its target in 40 ticks of 50 ms. It starts the first time it scrolls into view.
- **Loading screen** (`Loading`):
  - The bar grows by a random amount below 30 every 100 ms and stops at 100.
  - Then the overlay is hidden and removed.

What the model represents:

- **The document.** `Dom` and `Site` hold it as data: every element that has an id or the class `page`, in document order, and the nav links. The classes and inline styles the script touches become fields: `active`, `display`, `preloaded`, the nav's overlay layout and the hamburger cross.
- **State updated in place.** Where the script changes DOM nodes or closure variables, the model is a class with those fields: `Site.Navigator`, `Konami.KonamiDetector`, `Counter.CounterAnimation` and `Loading.LoadingScreen`.
- **Specification functions.** Most methods are proved against a pure function, and the properties are proved as lemmas about those functions:
  - `Site.Navigator.ShowPage` against `Site.ShowPageState`, which is built on `Dom.AfterShowPage`.
  - `HidePages` against `Dom.HideAll`, `UpdateActiveStates` against `Dom.Highlighted`, and `PreloadPageContent` against `Dom.AfterPreload`.
  - The menu methods against `Site.ClosedMenu`, `Site.ToggledMenu` and `Site.ResizedMenu`.
  - The three click methods against `Site.AnchorAction`, `Site.FooterAction` and `Site.NavLinkAction`.
  - `Konami.KonamiDetector.KeyDown` against `Konami.Press`.
  - `Counter.Animate` against `Counter.ShownAfter`, and `Loading.Run` against `Loading.WidthAfter`.
- **Methods with their own contracts.** `Counter.CounterAnimation.Tick` and `Loading.LoadingScreen.Tick` state their new fields directly in their `ensures`. The timeouts `HideTimeout`, `RemoveTimeout` and `RainbowTimeout` do the same and have no specification function.
- **Timers and random input.** A timer callback is one method call. Random draws, key codes, viewport widths and intersection entries are parameters.

## Where the code does less than one might expect

The model follows the code in each of these cases:

- **`showPage` with an id no element has.** One might expect the current page to stay in place. The code hides every page before it looks the id up, so all pages end up hidden (`Dom.AfterShowPage`).
- **`showPage` with the id of a non-page element.** The code marks that element active and displays it, and hides every page (`Dom.AfterShowPage`).
- **The footer handler.** It sends any existing id to `showPage`, not only page ids. It also runs after the anchor handler on the same click, so a footer link to a page calls `showPage` twice; that has the effect of one call (`Site.FooterPageLinkSwitchesOnce`). A footer link to an ordinary anchor scrolls there and then hides every page (`Site.FooterAnchorLinkHidesPages`).
- **`closeMobileMenu` never clears `isMenuOpen`.** showPage calls it under the comment "Close mobile menu if open" (app.js:75-76). After a navigation closes the menu, the flag still says open, so the next hamburger tap hides the nav instead of showing it (`Site.MenuFlagDesyncAfterNavigation`).
- **Resizing.** The resize handler's comment reads "Close mobile menu on resize" (app.js:566). It leaves the flag and the cross as they are. It does not clear the nav's `z-index` (`Site.ResizeKeepsMenuFlag`).
- **Wide viewports.** Above 768 px, the second tap on the hamburger cannot hide the nav (`Site.WideToggleCannotClose`).
- **`preloadPageContent`** is never called by the script. It is modelled on its own.

## Model

| member | source | states |
|---|---|---|
| Dom.FindById | app.js:59-60 | `getElementById`: the result is the first element in document order with that id; none exists when the result is absent; the empty id never matches |
| Dom.NamesPage | app.js:246-248 | `targetPage && targetPage.classList.contains('page')`: some element has the id and the first element with it is a `.page` |
| Dom.HideAll | app.js:53-56 | every `.page` loses `active` and gets `display: none`; every other element is left as it was |
| Dom.Hidden | app.js:53-55 | a `.page` element loses `active` and gets `display: none`; any other element is returned unchanged; id, class, preload mark and images are kept |
| Dom.Shown | app.js:61-62 | the element found carries `active` and `display: block`; its id, class, preload mark and images are kept |
| Dom.AfterShowPage | app.js:48-62 | after showPage, at most one page is active. The element found, page or not, is active and displayed. When the id names a page, that page is the only active one and the only one displayed; when it names no page, every page is inactive and hidden. Ids, page classes, preload marks and images never change, and elements other than pages and the found one are untouched |
| Dom.AfterShowPageIdempotent | app.js:48-62 | switching to the same page twice has the effect of switching once |
| Dom.Highlighted | app.js:106-115 | a nav link is active exactly when its `data-page` equals the page; `data-page` is unchanged |
| Dom.HighlightedForgetsPrevious | app.js:106-115 | highlighting forgets the previous highlight: highlighting b after a is highlighting b |
| Dom.LoadLazy | app.js:608-613 | an image with a non-empty `data-src` gets it as `src` and loses the attribute; any other image is unchanged |
| Dom.AfterPreload | app.js:600-615 | only the element with that id changes, and it ends up marked preloaded; if it was not yet marked, each of its lazy images is loaded as `LoadLazy` says and nothing else about it changes; an element already marked is left as it was; ids, page classes and display are never touched |
| Dom.AfterPreloadIdempotent | app.js:600-615 | preloading the same page twice has the effect of preloading it once |
| Dom.PreloadKeepsOneActivePage | app.js:600-615 | preloading never touches the `active` class, so at most one page stays active |
| Site.ClosedMenu | app.js:221-236 | at most 768 px wide, the nav is hidden and the hamburger cross undone; above 768 px nothing changes; the open flag is never touched; menu coherence is preserved |
| Site.ToggledMenu | app.js:195-218 | the flag flips; opening shows the overlay panel with `z-index` and the cross; closing is `closeMobileMenu` with the flag cleared; coherence is preserved |
| Site.ResizedMenu | app.js:565-583 | above 768 px the nav's display and overlay layout are cleared but its `z-index` is kept; at most 768 px the nav is unchanged; flag and cross are never touched |
| Site.StartsWithHash | app.js:244 | `href.startsWith('#')`: the href's first character is `#` |
| Site.IsHashLink | app.js:244 | `href.startsWith('#') && href !== '#'`: the href is `#` followed by at least one character |
| Site.ShowPageState | app.js:48-78 | pages are switched whatever the id; links are highlighted and the menu closed only when an element has that id, otherwise links and menu are unchanged |
| Site.AnchorAction | app.js:243-261 | hrefs that are not `#`-links pass through; a `#` link to a page navigates to exactly that page; one to another element scrolls to the first element with that id; one to no element is only cancelled |
| Site.FooterAction | app.js:517-524 | only `#` links inside `.footer-links` are handled, and a handled link always cancels the browser's default; they navigate exactly when some element, page or not, has the id; the handler never scrolls |
| Site.NavLinkAction | app.js:95-101 | a nav link navigates exactly when its `data-page` is present and non-empty, to that page; otherwise the click is only cancelled |
| Site.ShowPageStateIdempotent | app.js:48-78 | calling showPage twice with the same id has the effect of calling it once, links and menu included |
| Site.FooterPageLinkSwitchesOnce | app.js:517-524 | a footer link to a page runs the anchor handler and then the document handler; the result is one switch to that page |
| Site.FooterAnchorLinkHidesPages | app.js:517-524 | a footer link to an element that is not a page is scrolled to by the anchor handler, then sent to showPage by the document handler, which hides every page |
| Site.MenuFlagDesyncAfterNavigation | app.js:221-236 | on a phone, opening the menu and then navigating leaves the flag open with the nav hidden, so the next toggle closes again and the nav stays hidden |
| Site.ResizeKeepsMenuFlag | app.js:565-583 | resizing above 768 px with the menu open keeps the flag open and the cross drawn while clearing the nav's display and overlay |
| Site.WideToggleCannotClose | app.js:195-218 | above 768 px, two hamburger taps leave the flag closed and the nav still displayed |
| Site.Navigator.constructor | app.js:184-187 | the document as loaded: the given elements and links, the menu flag false, no inline nav styles, no cross |
| Site.Navigator.InitNavigation | app.js:81-92 | the `home` link is highlighted and the `home` element, if any, displayed; nothing else changes, so at most one page stays active if it was so before |
| Site.Navigator.UpdateActiveStates | app.js:106-115 | the links become exactly `Highlighted` of the old links |
| Site.Navigator.CloseMobileMenu | app.js:221-236 | the menu becomes `ClosedMenu` of the old menu |
| Site.Navigator.ToggleMobileMenu | app.js:189-218 | the menu becomes `ToggledMenu` of the old menu |
| Site.Navigator.Resize | app.js:565-583 | the menu becomes `ResizedMenu` of the old menu at the new width |
| Site.Navigator.HidePages | app.js:53-56 | the elements become `HideAll` of the old elements |
| Site.Navigator.ShowPage | app.js:48-78 | the whole state (elements, links, menu) becomes `ShowPageState` of the old state, and at most one page is active afterwards |
| Site.Navigator.ClickNavLink | app.js:95-101 | the state becomes the old state with the nav link's decision performed |
| Site.Navigator.ClickAnchor | app.js:242-262 | returns the anchor handler's decision on the old elements, and the state is the old one with that decision performed |
| Site.Navigator.ClickFooter | app.js:513-524 | returns the footer handler's decision on the old elements, and the state is the old one with that decision performed |
| Site.Navigator.PreloadPageContent | app.js:600-615 | the elements become `AfterPreload` of the old elements |
| Konami.LastTen | app.js:623 | `slice(-10)`: the result holds min(n, 10) elements and they are the last ones of the input, in order |
| Konami.LastTenAbsorbs | app.js:622-623 | trimming to ten and then appending and trimming again equals appending and trimming once |
| Konami.Decimal | app.js:625 | a key code renders as a non-empty string of decimal digits |
| Konami.DecimalRoundTrip | app.js:625 | reading the rendered digits back gives the key code |
| Konami.Join | app.js:625 | `join(',')`: the join is empty exactly when the list is |
| Konami.JoinInjective | app.js:625 | two code lists with equal comma joins are equal |
| Konami.JoinMatches | app.js:625 | the handler's test: the buffer's comma join equals the sequence's; what it means is proved in `JoinMatchesIffSequence` |
| Konami.JoinMatchesIffSequence | app.js:625 | the join comparison holds exactly when the buffer is the sequence |
| Konami.Press | app.js:621-647 | after one key the buffer holds at most ten codes |
| Konami.BufferIsRecentHistory | app.js:621-647 | from page load, the buffer is the last ten of the codes typed since the last match, and a key fires exactly when it completes a match |
| Konami.BufferGrowsSlowly | app.js:622-623 | each key adds at most one code to the buffer |
| Konami.RefireNeedsTenKeys | app.js:625-646 | two firings are at least ten keys apart |
| Konami.TypingSequenceFires | app.js:619-625 | from any reachable buffer, typing the sequence fires on its tenth key and on no earlier one |
| Konami.NoFireWithoutLastCode | app.js:619-625 | keys none of which is 65 (A) never fire, and leave the trimmed history in the buffer |
| Konami.OnlyTheSequenceFires | app.js:618-625 | from page load, none of the first nine keys fires, and the tenth fires exactly when the ten keys are the sequence |
| Konami.KonamiDetector.constructor | app.js:618 | the buffer starts empty and the rainbow animation off |
| Konami.KonamiDetector.KeyDown | app.js:621-647 | the new buffer and the fired flag are `Press` of the old buffer and the key; the rainbow animation is on if it fired or was already on |
| Konami.KonamiDetector.RainbowTimeout | app.js:642-644 | the rainbow animation is off |
| Counter.AccumulatedIsProduct | app.js:126-130 | k ticks add up to k times the increment |
| Counter.Increment | app.js:124-125 | the increment `target / steps` has the target's sign: positive exactly for a positive target, zero exactly for a zero target |
| Counter.TicksBelowTarget | app.js:125-133 | for a positive target, the accumulated value reaches the target exactly from the 40th tick on, and is never negative |
| Counter.ShownAfter | app.js:129-135 | the text shown never exceeds the target, is non-negative for a non-negative target, and equals the target from the 40th tick on |
| Counter.ShownAfterMonotone | app.js:129-135 | the text shown never decreases from one tick to a later one |
| Counter.CounterAnimation.constructor | app.js:121-127 | the increment is target / 40 and the count starts at 0 with the timer set |
| Counter.CounterAnimation.Tick | app.js:129-136 | the count adds the increment, or reaches the target and clears the timer; the text is the floor of the count |
| Counter.Animate | app.js:121-136 | the texts shown after every tick: 40 of them for a positive target and one otherwise, each the value of `ShownAfter`, never above the target, never decreasing, and ending at the target |
| Counter.Observe | app.js:140-146 | an animation starts exactly when the entry intersects and the counter is not yet marked; afterwards it is marked if it was before or the entry intersected |
| Counter.Starts | app.js:140-146 | over any run of entries, a counter's animation starts at most once, and exactly once when it was unmarked and some entry intersects |
| Loading.Clamped | app.js:23-26 | the shown progress is at most 100; it equals 100 exactly when the sum reached 100; below that it is the sum |
| Loading.WidthAfter | app.js:22-43 | the `style.width` set after a draw: at most 100, equal to 100 exactly when the running sum reached 100, and otherwise the running sum |
| Loading.SumMonotone | app.js:22-23 | the sum of non-negative draws never decreases as more are drawn |
| Loading.ClampedSumsGrow | app.js:22-26 | the bar widths are non-negative and never decrease |
| Loading.LoadingScreen.constructor | app.js:21 | the progress starts at 0 with the interval running |
| Loading.LoadingScreen.Tick | app.js:22-44 | the progress becomes the clamped sum; the bar shows it; the interval is cleared exactly when the sum reached 100 |
| Loading.LoadingScreen.HideTimeout | app.js:29-41 | the overlay is hidden and the hero animations have started |
| Loading.LoadingScreen.RemoveTimeout | app.js:33-37 | the overlay is removed |
| Loading.Run | app.js:21-44 | each width shown is the clamped running sum; all widths lie in [0, 100] and never decrease; only the last can be 100; once one is, no further draw is taken, and the interval is cleared exactly when it is |

## Left out

- Timers and `debounce` (app.js:552-562): a timer callback is one method call, in the order the caller chooses. Delays, the 250 ms debounce and callbacks that overlap are not modelled. A second match within 4 s followed by the first match's timeout is not modelled either.
- `window.scrollTo`, `scrollIntoView` and the smooth-scroll behaviour: an anchor handler's scrolling is the returned `ScrollTo` decision only.
- `document.querySelector(href)` at app.js:254 is taken to find the same element as `getElementById`. An href that is not a valid CSS selector, which would throw, is not modelled.
- `triggerPageAnimations` (delayed by 100 ms in showPage) and `triggerInitialAnimations`: these set entrance styles only. `Loading.LoadingScreen.HideTimeout` records only that the latter ran.
- `initScrollAnimations`, `initIntersectionObserver`, `initFloatingEmojis`, `initButtonAnimations` and the ripple effect: opacity, transform and emoji styling with no state the page switcher reads.
- Distinct nodes: the element records, the `.nav-link` records and a page's lazy images are taken to be different DOM nodes. In the page they can be the same node: `showPage(x)` with `x` the id of a nav link would add `active` to that link (app.js:61), and `updateActiveStates` would then remove it (app.js:110). The model keeps the two records apart and does not capture that aliasing.
- The newsletter handler (app.js:526-548): form feedback unrelated to navigation.
- The injected `@keyframes` style elements for shake and rainbow, and the CSS strings of the nav overlay. The overlay layout is one flag; `z-index` is a second flag, because the resize handler treats it differently.
- Elements taken to exist: `#loading-screen` (without it app.js:30 throws before the hero animations start), `.loading-progress` (without it every tick throws at app.js:43 before the width is set) and the hamburger's three `span` children (without them app.js:212-214 and app.js:231-233 throw after the nav styles are written, so the cross is never drawn). `Loading.LoadingScreen.HideTimeout`, `Loading.LoadingScreen.Tick` and the menu functions of `Site` assume them.
- A missing `.nav` element, for which `closeMobileMenu` and the resize handler's nav code would throw or be skipped: the model takes the nav to exist. A missing hamburger is modelled.
- Counter.ShownAfter: arithmetic is on exact reals, not IEEE doubles, so rounding in `target / 40` and in the repeated additions is not captured. A `data-target` that does not parse (`NaN`) is not modelled, because the target is an integer.
- Loading.Run: the width string `progress + '%'` is the real progress. Float formatting and rounding of `Math.random() * 30` are not captured; the random draws are parameters in [0, 30).
- Konami.Press: key codes are natural numbers. `keyCode` is deprecated and browser-dependent, which is not modelled.

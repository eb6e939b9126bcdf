# A Dafny model of the win10_portfolio desktop core

The portfolio site looks like a Windows 10 desktop. Its behaviour is driven by
a few small state machines and pure mappings, which this project models as
immutable datatypes, total functions and lemmas:

- **The application store** (`AppReducer`). A reducer over the list of
  application records, one per desktop application. It handles APP_INIT,
  APP_CLICK (with or without a sub-view index), MINIMIZE, MAXIMIZE, CLOSE and
  every other action type.
- **Deep linking** (`Routing`). The route table maps a pathname to an
  application and a sub-view. The route listener turns a pathname into at most
  one APP_CLICK. The top-level view is chosen in order: 404 screen, lock
  screen, desktop.
- **The browser application** (`UrlNormalize`, `BrowserTabs`). The address
  bar's normalisation of typed text into a URL. A per-tab history with a
  cursor (go, back, forward, reload, typing). A strip of tabs with an active
  tab (select, add, close).
- **Sub-view navigation inside a window** (`SubViewNav`). The selected
  sub-view's name and index. The back and forward buttons and their
  `disabled` tests. The sidebar and menu. The initial selection, and the
  effect that adopts the store's deep-linked index.
- **Mobile auto-scroll** (`AutoScroll`). The integer and boolean logic of the
  hook:
  - option defaults and the mobile test;
  - the resize handler;
  - the bounds-checked jump to a section;
  - the wrap-around step and its gate;
  - the hover and manual-scroll pauses with their single 3000 ms resume
    deadline.
- **The clock widget** (`CustomClock`). The hand-built `DD-MM-YYYY` text, and
  the mapping from a format name to `Intl.DateTimeFormat` options.
- **The social links block** (`SocialBlock`). A fixed table of five profile
  links built from the user record, filtered by the truthiness of each field.

`Strings` holds the JavaScript string semantics that these need:
- the white-space class of `trim` and `\s`;
- `Number.prototype.toString` on integers;
- `padStart`;
- `split` on one character, with its inverse `join`.

`Wrappers` holds `Option`, which stands for `undefined`/`null` wherever the
source tests for them.

Clocks, random ids and `encodeURIComponent` become parameters:
- A tab's id is an argument of `AddTab`/`CreateTab`, and the ids are assumed
  distinct.
- The time of a manual scroll and the clock reading are arguments of
  `UserScroll` and `ClockAt`.
- The percent-encoder is a function parameter of the URL normalisation.

The source and its own evident intent disagree in four places:

- **`ROUTE_MAP` is not exported.** `src/App.jsx` imports `ROUTE_MAP` as a
  named import from the route listener, but `RouteListener.js` declares it
  without `export`. This one is modelled as intended: both readers share one
  table. What the code does as written is described under "## Left out"
  (`Routing.SelectView`).
- **MAXIMIZE and MINIMIZE ignore `isOpened`.** On a closed application they
  produce a closed, maximized (or minimized) record. This is modelled as
  written. "A closed application is not maximized" holds over every action
  except MAXIMIZE (`ClosedNotMaximizedPreserved`,
  `MaximizeBreaksClosedNotMaximized`). The same holds for "not minimized" and
  MINIMIZE (`ClosedNotMinimizedPreserved`,
  `MinimizeBreaksClosedNotMinimized`).
- **On an empty sub-view list the forward button is enabled.** Its test
  compares index 0 with length − 1 = −1, yet clicking it does nothing
  (`EmptyListForwardEnabledButInert`). This is modelled as written. Taken on
  their own, with a consistent selection, both buttons match their handlers
  exactly (`ButtonsMatchGuards`).
- **A deep link pins the window's selection.** The sync effect re-runs after
  every local navigation and restores the store's index. Both the code as
  written and the evident intent are modelled; see "## Findings".

## Model

| member | source | states |
|---|---|---|
| AppReducer.Init | src/utils/reducers/app.reducer.js:15-37 | APP_INIT yields one record per configuration entry, in order, copying the eight listed fields, every window closed, unminimized and unmaximized. A null, undefined or empty configuration yields no applications. |
| AppReducer.ClickRecord | src/utils/reducers/app.reducer.js:39-59 | A click always leaves the record open and keeps its identity fields. With an index it clears both flags and sets the index. Without one, an open window's `isMinimized` flips and a closed window opens unminimized and unmaximized, keeping its old index. |
| AppReducer.Transition | src/utils/reducers/app.reducer.js:65-89 | MINIMIZE sets only `isMinimized`. MAXIMIZE flips only `isMaximized`. CLOSE clears the three flags and keeps the active index. No action changes an identity field. |
| AppReducer.FindFirst | src/utils/reducers/app.reducer.js:40 | The position of the first record with the id, or −1 exactly when no record has it. |
| AppReducer.ReplaceById | src/utils/reducers/app.reducer.js:60 | Same length; every record with the id becomes the new record, and every other record stays as it was. |
| AppReducer.Update | src/utils/reducers/app.reducer.js:39-89 | A targeted action keeps length, order and ids, and changes only records with the action's id. Each of those becomes the transition of the first such record. An id that names no record leaves the state unchanged. |
| AppReducer.Reduce | src/utils/reducers/app.reducer.js:11-94 | APP_INIT gives the initial state of the configuration, in which no closed application is maximized or minimized. Any other action type returns the state unchanged. Targeted actions only touch the named record and keep ids unique. |
| AppReducer.ReduceAt | src/utils/reducers/app.reducer.js:60-89 | With unique ids, a targeted action replaces exactly the named record by its transition and nothing else. |
| AppReducer.ClickOpensClosedApp | src/utils/reducers/app.reducer.js:52-58 | A click on a closed application opens it, unminimized and unmaximized. It takes the requested index if one is given and otherwise keeps the previous one. |
| AppReducer.ClickWithIndexShowsTab | src/utils/reducers/app.reducer.js:41-58 | A click with an index gives the same record whether the window was open or closed: open, unminimized, unmaximized, at that index. |
| AppReducer.ClickWithIndexIdempotent | src/utils/reducers/app.reducer.js:39-63 | Repeating a click with an index changes nothing further, for any application list. |
| AppReducer.ClickWithoutIndexToggles | src/utils/reducers/app.reducer.js:49-51 | An index-less click on an open window flips only `isMinimized`. Two such clicks restore the original state. |
| AppReducer.MinimizeIdempotent | src/utils/reducers/app.reducer.js:65-71 | MINIMIZE sets `isMinimized` whatever it was and touches nothing else. A second MINIMIZE is a no-op. |
| AppReducer.MaximizeInvolution | src/utils/reducers/app.reducer.js:73-79 | MAXIMIZE flips only `isMaximized`. Applying it twice restores the state. |
| AppReducer.CloseThenReopen | src/utils/reducers/app.reducer.js:81-89 | CLOSE clears the three flags but keeps the active index. A later index-less click reopens the window, unminimized and unmaximized, on the sub-view it showed before. |
| AppReducer.ClosedNotMaximizedPreserved | src/utils/reducers/app.reducer.js:11-94 | "Closed implies not maximized" survives every action except MAXIMIZE. |
| AppReducer.ClosedNotMinimizedPreserved | src/utils/reducers/app.reducer.js:11-94 | "Closed implies not minimized" survives every action except MINIMIZE. |
| AppReducer.MaximizeBreaksClosedNotMaximized | src/utils/reducers/app.reducer.js:73-79 | A concrete closed record that MAXIMIZE turns into a closed, maximized one. |
| AppReducer.MinimizeBreaksClosedNotMinimized | src/utils/reducers/app.reducer.js:65-71 | A concrete closed record that MINIMIZE turns into a closed, minimized one. |
| Routing.RouteFor | src/components/router/RouteListener.js:7-21 | The table lookup is truthy exactly for the twelve non-root keys, and the root is falsy. |
| Routing.Dispatch | src/components/router/RouteListener.js:29-44 | A mapped path dispatches exactly one APP_CLICK carrying the entry's application id and index. The root and unmapped paths dispatch nothing. |
| Routing.Is404 | src/App.jsx:29 | `/404.html` is a 404. Any other path is one exactly when it is not the root and the listener dispatches nothing for it. |
| Routing.SelectView | src/App.jsx:29-47 | The 404 screen shows exactly for `/404.html` and for unmapped non-root paths. Otherwise the lock screen shows when locked and the desktop when not. `/` is never a 404. |
| Routing.Navigate | src/components/router/RouteListener.js:29-40 | Visiting a path leaves the store unchanged or applies the dispatched click, which touches only the named application. |
| Routing.AboutRoutes | src/components/router/RouteListener.js:9-16 | The eight About paths open `aboutMe` on sub-views 0 to 7 in order, so their indices are pairwise distinct. |
| Routing.AppRoutes | src/components/router/RouteListener.js:17-20 | The four other paths open four different applications, none of them `aboutMe`, on sub-view 0. |
| Routing.RouteKeys | src/components/router/RouteListener.js:7-21 | The table has no keys but the root and those twelve paths. |
| Routing.ExactlyOneOutcome | src/App.jsx:29 | For every path exactly one holds: it is the root, the listener dispatches, or the 404 screen is shown. |
| Routing.DeepLinkOpensTab | src/components/router/RouteListener.js:33-40 | A mapped path opens its application on the route's sub-view, unminimized and unmaximized. Every other application is left alone. |
| Routing.ResumeDeepLink | src/components/router/RouteListener.js:14 | `/resume` opens `aboutMe` on sub-view 5. `/` and an unknown path dispatch nothing, and only the unknown path is a 404. |
| Routing.RevisitIdempotent | src/components/router/RouteListener.js:29-45 | Visiting the same path twice leaves the store as visiting it once. |
| UrlNormalize.Normalize | src/components/applications/chrome.application.jsx:32-43 | The result always has an `http(s)://` scheme. Blank or nullish input goes home. Text that does not look like a URL, or has inner white space, becomes an encoded search. A URL with a scheme is kept. Any other URL gets `https://` prepended. |
| UrlNormalize.NormalizeTrimmed | src/components/applications/chrome.application.jsx:34-42 | The four-way decision on already trimmed text, each branch with its result. |
| UrlNormalize.LooksLikeUrl | src/components/applications/chrome.application.jsx:36 | A text looks like a URL exactly when it has a dot or starts with `http://`, `https://` or `localhost`. The dotted-quad alternative adds nothing. |
| UrlNormalize.DigitGroupsHaveDot | src/components/applications/chrome.application.jsx:36 | Every string the dotted-quad pattern accepts contains a dot. |
| UrlNormalize.PrefixedInputShape | src/components/applications/chrome.application.jsx:36-42 | Text that gets `https://` prepended contains a dot or starts with `localhost`. |
| UrlNormalize.NormalizedHasNoWhitespace | src/components/applications/chrome.application.jsx:32-43 | With an encoder that emits no white space, the normalised address has none. |
| UrlNormalize.NormalizeIdempotent | src/components/applications/chrome.application.jsx:32-43 | Normalising a normalised address changes nothing, given such an encoder. |
| UrlNormalize.NormalFormIsFixed | src/components/applications/chrome.application.jsx:37-41 | A white-space-free address with a scheme is its own normal form. |
| UrlNormalize.HomeUrlIsNormal | src/components/applications/chrome.application.jsx:4 | The home page normalises to itself. |
| Strings.Trim | src/components/applications/chrome.application.jsx:33 | Trimming yields an infix of the input with only white space cut off on either side, and the infix neither starts nor ends with white space. It is empty exactly when the input is blank, adds no white space, and leaves white-space-free text alone. |
| BrowserTabs.InitialBrowser | src/components/applications/chrome.application.jsx:57-58 | The first strip is one home-page tab, which is active. It is well formed and shows the home page. |
| BrowserTabs.CreateTab | src/components/applications/chrome.application.jsx:45-54 | A new tab has a one-entry history holding the normalised input, cursor 0, the address bar showing that entry, and reload counter 0. |
| BrowserTabs.GoTab | src/components/applications/chrome.application.jsx:99-107 | Going keeps the history up to the cursor and appends the URL. The cursor moves to that last entry and the address bar shows it. |
| BrowserTabs.BackTab | src/components/applications/chrome.application.jsx:112-116 | From a cursor above 0, back moves it down by one and shows that entry, leaving the history unchanged. The cursor stays in range. |
| BrowserTabs.ForwardTab | src/components/applications/chrome.application.jsx:121-125 | From a cursor below the last entry, forward moves it up by one and shows that entry, leaving the history unchanged. The cursor stays in range. |
| BrowserTabs.ReloadTab | src/components/applications/chrome.application.jsx:130 | Reload increments the reload counter and changes nothing else. |
| BrowserTabs.BackThenForward | src/components/applications/chrome.application.jsx:110-126 | Back then forward restores the cursor and history. |
| BrowserTabs.ForwardThenBack | src/components/applications/chrome.application.jsx:110-126 | Forward then back restores the cursor and history. |
| BrowserTabs.FindTab | src/components/applications/chrome.application.jsx:60 | The index of the first tab with the id, or −1 exactly when there is none. |
| BrowserTabs.ActiveTab | src/components/applications/chrome.application.jsx:61 | There is no active tab only when there are no tabs. When the active id is present, the tab shown carries it. |
| BrowserTabs.CurrentUrl | src/components/applications/chrome.application.jsx:62 | In a well-formed strip, the current URL is the active tab's entry under its cursor. Without tabs it is the home page. |
| BrowserTabs.CanGoBack | src/components/applications/chrome.application.jsx:64 | In a well-formed strip, Back is enabled exactly when going back would move the active tab's cursor. |
| BrowserTabs.CanGoForward | src/components/applications/chrome.application.jsx:65 | In a well-formed strip, Forward is enabled exactly when going forward would move the active tab's cursor. |
| BrowserTabs.EditActive | src/components/applications/chrome.application.jsx:81-89 | The active tab is rewritten in place, keeping ids and length. A missing active id changes nothing. |
| BrowserTabs.EditActiveFacts | src/components/applications/chrome.application.jsx:81-89 | Editing the active tab keeps the strip well formed: non-empty, distinct ids, active id present, every cursor in range. Only the active tab changes. |
| BrowserTabs.Go | src/components/applications/chrome.application.jsx:96-108 | `onGO` navigates the active tab to its normalised address, discarding forward entries, and keeps the strip well formed. |
| BrowserTabs.Back | src/components/applications/chrome.application.jsx:110-117 | Back is a no-op unless the active cursor is above 0. Otherwise it moves the active cursor back one and shows that entry. |
| BrowserTabs.Forward | src/components/applications/chrome.application.jsx:119-126 | Forward is a no-op unless the active cursor is below the last entry. Otherwise it moves the cursor forward one and shows that entry. |
| BrowserTabs.Reload | src/components/applications/chrome.application.jsx:128-131 | Reload bumps only the active tab's reload counter. |
| BrowserTabs.TypeAddress | src/components/applications/chrome.application.jsx:91-94 | Typing changes only the active tab's address text. |
| BrowserTabs.SelectTab | src/components/applications/chrome.application.jsx:170-172 | Clicking a tab makes it the tab shown, without changing the tabs. |
| BrowserTabs.AddTab | src/components/applications/chrome.application.jsx:133-137 | Adding appends a home-page tab after the existing ones and activates it. With a fresh id the strip stays well formed. |
| BrowserTabs.RemoveId | src/components/applications/chrome.application.jsx:143 | The filter drops every tab with the id and never adds one. A strip without that id comes back unchanged. |
| BrowserTabs.RemoveIdMembers | src/components/applications/chrome.application.jsx:143 | Filtering keeps exactly the tabs whose id differs. |
| BrowserTabs.RemoveAt | src/components/applications/chrome.application.jsx:142-143 | With distinct ids, filtering cuts out exactly the one tab at the found index. |
| BrowserTabs.CloseTab | src/components/applications/chrome.application.jsx:139-150 | The last tab is never closed. Otherwise exactly the tab with that id is removed. Closing the active tab activates the one before it, or the new first tab. Closing another tab keeps the active one. The strip stays well formed. |
| BrowserTabs.CloseKeepsWellFormed | src/components/applications/chrome.application.jsx:139-150 | After a close the strip is still non-empty, has distinct ids and valid cursors, and contains the active id. |
| SubViewNav.SetComponent | src/components/appComponent/appComponent.js:65-70 | The name is always set. The index changes only when one is given. |
| SubViewNav.InitialSelection | src/components/appComponent/appComponent.js:72-76 | A non-empty list with no name selected gets sub-view 0 selected, consistently. Anything else is left alone. |
| SubViewNav.SelectSubView | src/components/appComponent/appComponent.js:212-227 | A sidebar or menu click selects that sub-view, with the matching name. |
| SubViewNav.NavigateBack | src/components/appComponent/appComponent.js:78-97 | Back acts only above index 0 with a list. It decrements the index and takes that sub-view's name. |
| SubViewNav.NavigateForward | src/components/appComponent/appComponent.js:173-192 | Forward acts only below the last index. It increments the index and takes that sub-view's name. |
| SubViewNav.DeepLinkSync | src/components/appComponent/appComponent.js:100-124 | The store's index is adopted only when it is defined, differs from the current one and names an existing sub-view. Negative and out-of-range indices are ignored. |
| SubViewNav.InitialSelectionIdempotent | src/components/appComponent/appComponent.js:72-76 | Running the initial-selection effect again changes nothing. |
| SubViewNav.NavigationKeepsConsistent | src/components/appComponent/appComponent.js:78-192 | Back and forward keep the index inside the list and the name matching it. |
| SubViewNav.BackForwardInverse | src/components/appComponent/appComponent.js:78-192 | The handlers on their own, before the sync effect re-runs: back then forward, and forward then back, return to the same sub-view. |
| SubViewNav.ButtonsMatchGuards | src/components/appComponent/appComponent.js:258-271 | The handlers on their own, with a consistent selection: each button is disabled exactly when its handler would do nothing. |
| SubViewNav.BackDisabled | src/components/appComponent/appComponent.js:263 | In every reachable state with a list, the back button is disabled exactly when Back would do nothing. |
| SubViewNav.ForwardDisabled | src/components/appComponent/appComponent.js:270 | With a consistent selection, the forward button is disabled exactly when Forward would do nothing. Without a list it shares the back button's test. |
| SubViewNav.BoundedIsReachableInvariant | src/components/appComponent/appComponent.js:65-227 | The index is never negative and, once past 0, inside the list. The first render has this shape and every update keeps it. In such a state neither handler reads past the list. |
| SubViewNav.BackStep | src/components/appComponent/appComponent.js:78-124 | Back followed by the sync effect's re-run. When the store holds an existing index, the window ends on that index. Otherwise the result is Back alone. |
| SubViewNav.ForwardStep | src/components/appComponent/appComponent.js:100-192 | Forward followed by the sync effect's re-run. When the store holds an existing index, the window ends on that index. Otherwise the result is Forward alone. |
| SubViewNav.SidebarStep | src/components/appComponent/appComponent.js:100-227 | A sidebar click followed by the sync effect's re-run. When the store holds an existing index, the window ends consistently on that index. Otherwise the clicked entry is selected. |
| SubViewNav.StoreIndexUndoesNavigation | src/components/appComponent/appComponent.js:100-124 | As written: once the store's index names the current sub-view, Back, Forward and every sidebar click leave the selection where it was. |
| SubViewNav.DeepLinkedBackIsInert | src/components/appComponent/appComponent.js:100-124 | As written, after `/resume`: the back button is enabled and Back alone would move, yet Back with its render leaves sub-view 5 selected. |
| SubViewNav.SyncOnChange | src/components/appComponent/appComponent.js:100-124 | The intended sync adopts an existing store index only on the render where that index changed. Otherwise the selection is kept. |
| SubViewNav.IntendedBackStep | src/components/appComponent/appComponent.js:78-124 | Under the intended sync, Back and its render end where Back alone does, whatever the store holds. |
| SubViewNav.IntendedForwardStep | src/components/appComponent/appComponent.js:100-192 | Under the intended sync, Forward and its render end where Forward alone does, whatever the store holds. |
| SubViewNav.IntendedSidebarStep | src/components/appComponent/appComponent.js:100-227 | Under the intended sync, a sidebar click selects its entry consistently, whatever the store holds. |
| SubViewNav.IntendedStepsKeepNavigation | src/components/appComponent/appComponent.js:78-271 | Under the intended sync, each button is disabled exactly when its click and render change nothing. Back and Forward undo each other, and the sidebar selects its entry. |
| SubViewNav.IntendedDeepLinkShowsSubView | src/components/appComponent/appComponent.js:100-108 | Under the intended sync, a deep link that changes the store's index still selects the route's sub-view. |
| SubViewNav.NoListButtons | src/components/appComponent/appComponent.js:262-270 | Without a list both buttons are disabled on the first render and neither acts. |
| SubViewNav.EmptyListForwardEnabledButInert | src/components/appComponent/appComponent.js:270 | With an empty list the forward button is enabled although clicking it does nothing. |
| SubViewNav.DeepLinkSyncIdempotent | src/components/appComponent/appComponent.js:100-124 | Syncing twice with the same store index is syncing once. |
| SubViewNav.DeepLinkSyncKeepsConsistent | src/components/appComponent/appComponent.js:100-124 | Sync keeps a consistent selection consistent. |
| SubViewNav.DeepLinkShowsSubView | src/components/appComponent/appComponent.js:100-108 | After a deep link, the application is open and the window syncs to the route's sub-view when it has that many. The name follows whenever the index moved or was already consistent. |
| AutoScroll.OptionsOf | src/hooks/useAutoScroll.js:24-32 | Missing options default to enabled, breakpoint 768, and both pauses on. Given options are used as given. |
| AutoScroll.WindowOptions | src/components/appComponent/appComponent.js:51-63 | The window enables auto-scroll for the About application only, with breakpoint 768 and both pauses on. |
| AutoScroll.Init | src/hooks/useAutoScroll.js:34-37 | Initially the viewport is mobile exactly at or below the breakpoint. Auto-scrolling starts as `enabled` alone, at section 0, unpaused, with no resume pending. |
| AutoScroll.InitResizeAgreeAtGate | src/hooks/useAutoScroll.js:34-52 | The first render takes `enabled` alone as the auto-scrolling flag and a resize takes `mobile && enabled`, yet both open the advance gate in the same cases. Off a mobile width it is shut. |
| AutoScroll.Resize | src/hooks/useAutoScroll.js:48-57 | On resize the mobile flag is recomputed and auto-scrolling becomes mobile and enabled. Nothing else changes. |
| AutoScroll.ScrollToSection | src/hooks/useAutoScroll.js:111-126 | Only the current section can change, and only to the requested one. That happens exactly when a container exists, the index is within the sections, and the child exists. |
| AutoScroll.JsRem | src/hooks/useAutoScroll.js:134 | JavaScript's `%` truncates. It agrees with the mathematical remainder on non-negative operands. On negative ones it lies in (−n, 0]. It always differs from the dividend by a multiple of n, which pins it down. |
| AutoScroll.CanAdvance | src/hooks/useAutoScroll.js:130 | The step's gate is open exactly when auto-scrolling, at a mobile width, with sections present and no pause. |
| AutoScroll.GateIgnoresPosition | src/hooks/useAutoScroll.js:130 | The gate does not depend on the current section or on a pending resume. |
| AutoScroll.ScrollToNext | src/hooks/useAutoScroll.js:129-136 | There is no step unless auto-scrolling, mobile, sections present and not paused. A step keeps an in-range index in range. It moves any section but the last to the next one when that child exists, and wraps the last section to 0. |
| AutoScroll.TicksCycle | src/hooks/useAutoScroll.js:129-168 | With the gate open and every child present, k ticks advance the section by k modulo the section count, changing nothing else. |
| AutoScroll.FullCycle | src/hooks/useAutoScroll.js:134 | As many ticks as there are sections return to the starting state. |
| AutoScroll.MouseEnter | src/hooks/useAutoScroll.js:203-209 | With hover pausing on, entering pauses and closes the advance gate for every section count. Otherwise it is ignored. |
| AutoScroll.MouseLeave | src/hooks/useAutoScroll.js:211-213 | With hover pausing on, leaving unpauses. Otherwise it is ignored. |
| AutoScroll.UserScroll | src/hooks/useAutoScroll.js:171-190 | With scroll pausing on, a manual scroll pauses and replaces any pending resume with one due 3000 ms later. Otherwise it is ignored. |
| AutoScroll.ClockAt | src/hooks/useAutoScroll.js:186-189 | A due resume unpauses and clears the timer. Before it falls due nothing changes. |
| AutoScroll.ScrollsKeepOneDeadline | src/hooks/useAutoScroll.js:182-189 | After any burst of scrolls there is one pending resume, due 3000 ms after the last scroll, and the scroller stays paused. |
| AutoScroll.PausedUntilDeadline | src/hooks/useAutoScroll.js:186-189 | Before the deadline the scroller stays paused and cannot advance. |
| AutoScroll.ResumeIgnoresHover | src/hooks/useAutoScroll.js:186-213 | Hover and scroll share one pause flag, so a due resume unpauses even while the mouse is over the container. |
| Strings.PadStart | src/components/base/customClock.jsx:32-33 | Padding reaches the width, keeps the text as a suffix, and fills only in front. |
| Strings.IntToString | src/components/base/customClock.jsx:32-34 | The decimal text of an integer: digits denoting it, preceded by `-` when negative, with no leading zero except in `0` itself. |
| CustomClock.Pad2 | src/components/base/customClock.jsx:32-33 | Values 0 to 99 print as exactly two digits denoting the value. |
| CustomClock.FormatDayMonthYear | src/components/base/customClock.jsx:31-35 | For a valid date the text has hyphens at positions 2 and 5. |
| CustomClock.FormatRoundTrip | src/components/base/customClock.jsx:32-35 | Splitting the text on `-` gives three digit strings: the day and 1-based month, two digits each, and the year. |
| CustomClock.FormatInjective | src/components/base/customClock.jsx:31-35 | Two valid dates print the same text only if they are equal. |
| CustomClock.FormatOptions | src/components/base/customClock.jsx:12-27 | Every format, undefined included, gets options. The five known names get their own, never the fallback. Everything else gets the 24-hour hour:minute fallback. |
| CustomClock.KnownFormatsDistinct | src/components/base/customClock.jsx:13-23 | The five known names get five different option sets. |
| CustomClock.Render | src/components/base/customClock.jsx:30-42 | `DD-MM-YYYY` renders the hand-built text. Every other format goes to `Intl` with its options. |
| CustomClock.HandFormatOptionsUnused | src/components/base/customClock.jsx:16-17 | No format ever renders through the `DD-MM-YYYY` option set. |
| SocialBlock.Interpolate | src/components/base/socialBlock.js:27 | A template literal prints a present field as itself and a missing one as `undefined`. |
| SocialBlock.SocialLinks | src/components/base/socialBlock.js:24-60 | Row k tests field k and links to prefix k followed by that field, with its alt text and label. |
| SocialBlock.LinkOf | src/components/base/socialBlock.js:66-85 | An anchor carries its row index as key, the URL as href, the label as aria-label and tooltip, and the alt text on the image. |
| SocialBlock.RenderFrom | src/components/base/socialBlock.js:64-86 | Every rendered link comes from a row with a truthy field, at or after the start row. |
| SocialBlock.RenderFromOrdered | src/components/base/socialBlock.js:64 | The links come out in table order. |
| SocialBlock.RenderFromComplete | src/components/base/socialBlock.js:65 | Every row with a truthy field is rendered. |
| SocialBlock.Render | src/components/base/socialBlock.js:62-88 | At most five links, in table order. Each comes from a truthy field, with its exact URL template, label and alt text. Every truthy field yields a link. |
| SocialBlock.LabelShownIffTruthy | src/components/base/socialBlock.js:65-73 | A label appears exactly when its field is truthy. |
| SocialBlock.BlockWithoutTwitter | src/components/base/socialBlock.js:24-86 | A user with every field but Twitter gets GitHub, LinkedIn, Upwork and Email, in that order, with the GitHub and mail URLs built from the fields. |
| SocialBlock.ShippedBlock | src/utils/data/user.config.js:12-15 | The shipped user record renders GitHub, LinkedIn, Upwork and Email, and no Twitter. |

## Left out

- Window frames: geometry, clamping, centring and the launch and restore phases. The window-frame component is not part of this model.
- The reducer's helpers `filterObjectListById` and `replaceObjectListByKey`, `AppStateDocument`, the action-type constants and the application configuration are not part of this model. They are modelled as:
  - "the first record with that id", transformed and written back over every record with that id;
  - a new record that is closed, unminimized, unmaximized and has no active index;
  - the configuration as a parameter of APP_INIT.
  An id that names no record is taken to leave the state unchanged.
- The reducer's default state (`[initialAppState]`, an array rather than an `{apps}` object) is not modelled. The model starts from a state with an application list. The reducer's in-place mutation of the looked-up record is modelled as building a new record.
- Routing.Dispatch, Routing.Navigate: the action creator `handleApplicationClick` (imported from `utils/actions/app.action`) is not part of this model. It is taken to build an APP_CLICK carrying the application id and the sub-view index, which is what the reducer reads.
- `getHostnameSafe`, `isLikelyFrameBlocked` and the frame-blocked notice: they rely on the platform URL parser.
- `encodeURIComponent` is a parameter. The idempotence lemmas assume only that its output contains no white space.
- Tab ids drawn from `Date.now` and `Math.random` are parameters and assumed distinct. `CloseTab` requires distinct ids: with duplicates the source can read an undefined tab.
- Routing.SelectView: models the route table as exported. As written, `src/App.jsx` imports `ROUTE_MAP` by name from a module that does not export it. A strict module linker refuses to load `App.jsx`, so nothing renders. A lenient bundler binds `undefined`, and `is404` then throws for every path other than `/` and `/404.html`.
- SubViewNav.NavigateBack, SubViewNav.NavigateForward: require the indices they read to exist. The source throws on `subComponent[newIndex].name` otherwise. `BoundedIsReachableInvariant` shows that such states are never reached through the component's own updates.
- `window.open` and the clipboard copy are side effects with no state.
- The easing curve and `smoothScrollTo`, `requestAnimationFrame`, the `setTimeout`/`setInterval` scheduling (delays 4000/5000 ms and durations), and DOM offsets. The interval is modelled as repeated steps (`Ticks`) and the resume timer as a due time.
- The scroll-midpoint section detection in the window (src/components/appComponent/appComponent.js:133-156) uses floating-point DOM geometry.
- The calls from the window's navigation handlers into `scrollToSection` and the UIkit switcher clicks are not modelled. The hook's own `scrollToSection` is. The sync effect's own switcher click moves the panel shown along with the selection.
- Whether the container element exists when the hover and scroll listeners are attached is not modelled: the listeners are taken to be attached.
- `Intl.DateTimeFormat` output for formats other than `DD-MM-YYYY`, and the one-second ticking timer.
- CustomClock.FormatRoundTrip: holds for years 0 and up. A negative year prints with a leading `-` and so splits into four pieces.
- The `AppErrorBoundary`, the global error suppression, entry points, analytics calls, icons and lazy images.
- The social-block tests that expect a WhatsApp link, or alt text equal to the aria-label, describe output the component does not produce. The model follows the component.
- SocialBlock.ShippedBlock: states the four labels only. The URLs for any such user are stated by SocialBlock.BlockWithoutTwitter.

## Findings

| source | as written | input that shows it | evidently intended | confidence | as-written member | corrected member |
|---|---|---|---|---|---|---|
| src/components/appComponent/appComponent.js:100-124 | The deep-link sync effect depends on `currentIndex` and adopts the store's `activeSubComponentIndex` whenever the two differ. Nothing clears the store's index, so after every Back, Forward or sidebar click the effect puts the selection back. | Visit `/resume`: the store holds 5 for `aboutMe` and the window selects sub-view 5. Back is enabled and moves `currentIndex` to 4, and the effect's re-run sets it back to 5. | A deep link selects its sub-view once, on the render where the store's index changes. Later clicks stand, and each button is disabled exactly when its click changes nothing. | high; not executed | SubViewNav.StoreIndexUndoesNavigation | SubViewNav.IntendedStepsKeepNavigation |

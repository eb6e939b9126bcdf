/** Sub-view navigation inside an application window
    (src/components/appComponent/appComponent.js): the selected sub-view's
    name and index, the back and forward buttons with their disabled
    predicates, the initial selection, the sidebar, and the effect that
    adopts the store's deep-linked index. The sub-view list is the record's
    `subComponent`, `None` when it is undefined. */
module SubViewNav {
  import opened Wrappers
  import opened AppReducer
  import opened Routing

  /** `currentComponentName` and `currentIndex`. */
  datatype Nav = Nav(name: string, index: int)

  /** The component's first render: no name, index 0. */
  const Start: Nav := Nav("", 0)

  /** The selection points at an existing sub-view and carries its name. */
  predicate Consistent(sub: Option<seq<SubView>>, nav: Nav) {
    && sub.Some?
    && 0 <= nav.index < |sub.value|
    && nav.name == sub.value[nav.index].name
  }

  /** `setComponent(name, index)`: the name is always set, the index only when
      one is given. */
  function SetComponent(nav: Nav, name: string, index: Option<int>): (r: Nav)
    ensures r.name == name
    ensures r.index == index.GetOr(nav.index)
  {
    Nav(name, if index.Some? then index.value else nav.index)
  }

  /** The initial-selection effect: a non-empty list and no name yet selects
      the first sub-view. */
  function InitialSelection(sub: Option<seq<SubView>>, nav: Nav): (r: Nav)
    ensures sub.Some? && |sub.value| > 0 && nav.name == "" ==> Consistent(sub, r) && r.index == 0
    ensures !(sub.Some? && |sub.value| > 0 && nav.name == "") ==> r == nav
  {
    if sub.Some? && |sub.value| > 0 && nav.name == "" then SetComponent(nav, sub.value[0].name, Some(0))
    else nav
  }

  /** A sidebar or menu entry click selects that sub-view. */
  function SelectSubView(sub: seq<SubView>, k: nat, nav: Nav): (r: Nav)
    requires k < |sub|
    ensures Consistent(Some(sub), r) && r.index == k
  {
    SetComponent(nav, sub[k].name, Some(k))
  }

  /** `navigateBack`. The source reads `subComponent[newIndex].name`, which
      throws when the index is past the end, so that case is excluded. */
  function NavigateBack(sub: Option<seq<SubView>>, nav: Nav): (r: Nav)
    requires nav.index > 0 && sub.Some? ==> nav.index - 1 < |sub.value|
    ensures !(nav.index > 0 && sub.Some?) ==> r == nav
    ensures nav.index > 0 && sub.Some? ==>
      r.index == nav.index - 1 && r.name == sub.value[r.index].name
  {
    if nav.index > 0 && sub.Some? then
      var k := nav.index - 1;
      Nav(sub.value[k].name, k)
    else nav
  }

  /** `navigateForward`; the index it reads must not be negative. */
  function NavigateForward(sub: Option<seq<SubView>>, nav: Nav): (r: Nav)
    requires sub.Some? && nav.index < |sub.value| - 1 ==> nav.index >= -1
    ensures !(sub.Some? && nav.index < |sub.value| - 1) ==> r == nav
    ensures sub.Some? && nav.index < |sub.value| - 1 ==>
      r.index == nav.index + 1 && r.name == sub.value[r.index].name
  {
    if sub.Some? && nav.index < |sub.value| - 1 then
      var k := nav.index + 1;
      Nav(sub.value[k].name, k)
    else nav
  }

  /** The back button's `disabled`: in every reachable state with a list it
      holds exactly when Back would do nothing. */
  predicate BackDisabled(nav: Nav)
    ensures forall sub :: Bounded(sub, nav) && sub.Some? ==>
      (BackDisabled(nav) <==> NavigateBack(sub, nav) == nav)
  {
    nav.index == 0
  }

  /** The forward button's `disabled`: the last index, or 0 without a list. On
      a consistent selection it holds exactly when Forward would do nothing;
      without a list it agrees with the back button. */
  predicate ForwardDisabled(sub: Option<seq<SubView>>, nav: Nav)
    ensures Consistent(sub, nav) ==> (ForwardDisabled(sub, nav) <==> NavigateForward(sub, nav) == nav)
    ensures sub.None? ==> (ForwardDisabled(sub, nav) <==> BackDisabled(nav))
  {
    nav.index == (if sub.Some? then |sub.value| - 1 else 0)
  }

  /** The deep-link sync effect: the store's index is adopted only when it is
      defined, differs from the current one, and names an existing sub-view;
      negative and out-of-range indices are ignored. */
  function DeepLinkSync(active: Option<int>, sub: Option<seq<SubView>>, nav: Nav): (r: Nav)
    ensures active.Some? && sub.Some? && 0 <= active.value < |sub.value| ==> r.index == active.value
    ensures active.Some? && active.value != nav.index && sub.Some? && 0 <= active.value < |sub.value| ==>
      Consistent(sub, r)
    ensures !(active.Some? && sub.Some? && 0 <= active.value < |sub.value|) ==> r == nav
    ensures active.Some? && active.value == nav.index ==> r == nav
  {
    if active.Some? && active.value != nav.index && sub.Some? then
      var k := active.value;
      if 0 <= k < |sub.value| then SetComponent(nav, sub.value[k].name, Some(k)) else nav
    else nav
  }

  /** The store holds an index that names an existing sub-view, so the sync
      effect would adopt it. */
  predicate Pinned(active: Option<int>, sub: Option<seq<SubView>>) {
    active.Some? && sub.Some? && 0 <= active.value < |sub.value|
  }

  // ---------------------------------------------------------------------------
  // One user action followed by the render it causes. `currentIndex` is a
  // dependency of the sync effect, so after every Back, Forward or sidebar
  // click the effect runs again with the store's index unchanged.
  // ---------------------------------------------------------------------------

  /** A Back click and its render, as written. */
  function BackStep(active: Option<int>, sub: Option<seq<SubView>>, nav: Nav): (r: Nav)
    requires nav.index > 0 && sub.Some? ==> nav.index - 1 < |sub.value|
    ensures Pinned(active, sub) ==> r.index == active.value
    ensures !Pinned(active, sub) ==> r == NavigateBack(sub, nav)
  {
    DeepLinkSync(active, sub, NavigateBack(sub, nav))
  }

  /** A Forward click and its render, as written. */
  function ForwardStep(active: Option<int>, sub: Option<seq<SubView>>, nav: Nav): (r: Nav)
    requires sub.Some? && nav.index < |sub.value| - 1 ==> nav.index >= -1
    ensures Pinned(active, sub) ==> r.index == active.value
    ensures !Pinned(active, sub) ==> r == NavigateForward(sub, nav)
  {
    DeepLinkSync(active, sub, NavigateForward(sub, nav))
  }

  /** A click on sidebar entry `k` and its render, as written. */
  function SidebarStep(active: Option<int>, sub: seq<SubView>, k: nat, nav: Nav): (r: Nav)
    requires k < |sub|
    ensures Pinned(active, Some(sub)) ==> r.index == active.value && Consistent(Some(sub), r)
    ensures !Pinned(active, Some(sub)) ==> r == SelectSubView(sub, k, nav)
  {
    DeepLinkSync(active, Some(sub), SelectSubView(sub, k, nav))
  }

  /** The intended sync: the store's index is adopted only on the render where
      it changed (`prev` is its value on the previous render), so a deep link
      selects its sub-view once and later clicks stand. */
  function SyncOnChange(prev: Option<int>, active: Option<int>, sub: Option<seq<SubView>>, nav: Nav): (r: Nav)
    ensures prev != active && Pinned(active, sub) ==> r.index == active.value
    ensures prev != active && Pinned(active, sub) && active.value != nav.index ==> Consistent(sub, r)
    ensures prev == active || !Pinned(active, sub) ==> r == nav
  {
    if prev != active then DeepLinkSync(active, sub, nav) else nav
  }

  /** A Back click and its render under the intended sync. */
  function IntendedBackStep(active: Option<int>, sub: Option<seq<SubView>>, nav: Nav): (r: Nav)
    requires nav.index > 0 && sub.Some? ==> nav.index - 1 < |sub.value|
    ensures r == NavigateBack(sub, nav)
  {
    SyncOnChange(active, active, sub, NavigateBack(sub, nav))
  }

  /** A Forward click and its render under the intended sync. */
  function IntendedForwardStep(active: Option<int>, sub: Option<seq<SubView>>, nav: Nav): (r: Nav)
    requires sub.Some? && nav.index < |sub.value| - 1 ==> nav.index >= -1
    ensures r == NavigateForward(sub, nav)
  {
    SyncOnChange(active, active, sub, NavigateForward(sub, nav))
  }

  /** A sidebar click and its render under the intended sync. */
  function IntendedSidebarStep(active: Option<int>, sub: seq<SubView>, k: nat, nav: Nav): (r: Nav)
    requires k < |sub|
    ensures Consistent(Some(sub), r) && r.index == k
  {
    SyncOnChange(active, active, Some(sub), SelectSubView(sub, k, nav))
  }

  // ---------------------------------------------------------------------------
  // Properties
  // ---------------------------------------------------------------------------

  /** The states the component can reach: the index is never negative and,
      once past 0, names an existing sub-view. */
  predicate Bounded(sub: Option<seq<SubView>>, nav: Nav) {
    && 0 <= nav.index
    && (sub.Some? && nav.index > 0 ==> nav.index < |sub.value|)
  }

  /** The first render is bounded and every update of the component keeps it
      so; in a bounded state both handlers' preconditions hold, so the states
      in which the source would throw are never reached. */
  lemma BoundedIsReachableInvariant(active: Option<int>, sub: Option<seq<SubView>>, k: nat, nav: Nav)
    requires Bounded(sub, nav)
    ensures Bounded(sub, Start)
    ensures nav.index > 0 && sub.Some? ==> nav.index - 1 < |sub.value|
    ensures sub.Some? && nav.index < |sub.value| - 1 ==> nav.index >= -1
    ensures Bounded(sub, InitialSelection(sub, nav))
    ensures Bounded(sub, NavigateBack(sub, nav))
    ensures Bounded(sub, NavigateForward(sub, nav))
    ensures Bounded(sub, DeepLinkSync(active, sub, nav))
    ensures sub.Some? && k < |sub.value| ==> Bounded(sub, SelectSubView(sub.value, k, nav))
  {
  }

  /** Running the initial-selection effect again changes nothing. */
  lemma InitialSelectionIdempotent(sub: Option<seq<SubView>>, nav: Nav)
    ensures InitialSelection(sub, InitialSelection(sub, nav)) == InitialSelection(sub, nav)
  {
  }

  /** Both navigation steps keep the selection consistent with the list. */
  lemma NavigationKeepsConsistent(sub: Option<seq<SubView>>, nav: Nav)
    requires Consistent(sub, nav)
    ensures Consistent(sub, NavigateBack(sub, nav))
    ensures Consistent(sub, NavigateForward(sub, nav))
  {
  }

  /** Back then forward, and forward then back, return to the same sub-view. */
  lemma BackForwardInverse(sub: Option<seq<SubView>>, nav: Nav)
    requires Consistent(sub, nav)
    ensures nav.index > 0 ==> NavigateForward(sub, NavigateBack(sub, nav)) == nav
    ensures nav.index < |sub.value| - 1 ==> NavigateBack(sub, NavigateForward(sub, nav)) == nav
  {
  }

  /** With a consistent selection each button is disabled exactly when
      clicking it would do nothing. */
  lemma ButtonsMatchGuards(sub: Option<seq<SubView>>, nav: Nav)
    requires Consistent(sub, nav)
    ensures BackDisabled(nav) <==> NavigateBack(sub, nav) == nav
    ensures ForwardDisabled(sub, nav) <==> NavigateForward(sub, nav) == nav
  {
  }

  /** Without a list both buttons agree with their guards on the first
      render: both are disabled and neither acts. */
  lemma NoListButtons()
    ensures BackDisabled(Start) && NavigateBack(None, Start) == Start
    ensures ForwardDisabled(None, Start) && NavigateForward(None, Start) == Start
  {
  }

  /** The one disagreement: with an empty list the forward button is enabled
      (its test compares 0 with -1) although clicking it does nothing. */
  lemma EmptyListForwardEnabledButInert()
    ensures !ForwardDisabled(Some([]), Start)
    ensures NavigateForward(Some([]), Start) == Start
  {
  }

  /** Syncing twice with the same store index is syncing once. */
  lemma DeepLinkSyncIdempotent(active: Option<int>, sub: Option<seq<SubView>>, nav: Nav)
    ensures DeepLinkSync(active, sub, DeepLinkSync(active, sub, nav)) == DeepLinkSync(active, sub, nav)
  {
  }

  /** Sync keeps a consistent selection consistent. */
  lemma DeepLinkSyncKeepsConsistent(active: Option<int>, sub: Option<seq<SubView>>, nav: Nav)
    requires Consistent(sub, nav)
    ensures Consistent(sub, DeepLinkSync(active, sub, nav))
  {
  }

  /** End to end: after a deep link to a mapped path, the application is open
      and its window shows the route's sub-view, provided the application has
      that many; the name follows whenever the window moved, or was already
      consistent. */
  lemma DeepLinkShowsSubView(config: Option<seq<AppConfig>>, s: AppState, path: string, k: nat, nav: Nav)
    requires UniqueIds(s.apps) && k < |s.apps|
    requires RouteFor(path).Some? && s.apps[k].id == RouteFor(path).value.appId
    requires s.apps[k].subComponent.Some? && RouteFor(path).value.index < |s.apps[k].subComponent.value|
    ensures var a := Navigate(config, s, path).apps[k];
      && a.isOpened && a.subComponent == s.apps[k].subComponent
      && DeepLinkSync(a.activeSubComponentIndex, a.subComponent, nav).index == RouteFor(path).value.index
    ensures var a := Navigate(config, s, path).apps[k];
      nav.index != RouteFor(path).value.index || Consistent(a.subComponent, nav) ==>
      Consistent(a.subComponent, DeepLinkSync(a.activeSubComponentIndex, a.subComponent, nav))
  {
    DeepLinkOpensTab(config, s, path, k);
  }

  /** As written, once the store's index names the current sub-view, no local
      navigation survives its render: Back, Forward and every sidebar entry
      end where they started, although the buttons are enabled. */
  lemma StoreIndexUndoesNavigation(sub: seq<SubView>, k: nat, nav: Nav)
    requires Consistent(Some(sub), nav) && k < |sub|
    ensures BackStep(Some(nav.index), Some(sub), nav) == nav
    ensures ForwardStep(Some(nav.index), Some(sub), nav) == nav
    ensures SidebarStep(Some(nav.index), sub, k, nav) == nav
  {
  }

  /** The concrete case: `/resume` deep-links `aboutMe` to its sixth sub-view;
      with six sub-views the back button is enabled and Back alone would move,
      yet Back with its render leaves the sixth selected. */
  lemma DeepLinkedBackIsInert()
    ensures var sub := seq(6, i => SubView("s", "c"));
      var nav := Nav("s", RouteFor("/resume").value.index);
      && Consistent(Some(sub), nav)
      && !BackDisabled(nav) && NavigateBack(Some(sub), nav) != nav
      && BackStep(Some(nav.index), Some(sub), nav) == nav
  {
  }

  /** Under the intended sync every button is disabled exactly when its click
      and the render that follows change nothing, Back and Forward undo each
      other, and a sidebar click selects its entry, whatever the store holds. */
  lemma IntendedStepsKeepNavigation(active: Option<int>, sub: Option<seq<SubView>>, k: nat, nav: Nav)
    requires Consistent(sub, nav)
    ensures BackDisabled(nav) <==> IntendedBackStep(active, sub, nav) == nav
    ensures ForwardDisabled(sub, nav) <==> IntendedForwardStep(active, sub, nav) == nav
    ensures nav.index > 0 ==>
      IntendedForwardStep(active, sub, IntendedBackStep(active, sub, nav)) == nav
    ensures nav.index < |sub.value| - 1 ==>
      IntendedBackStep(active, sub, IntendedForwardStep(active, sub, nav)) == nav
    ensures k < |sub.value| ==> IntendedSidebarStep(active, sub.value, k, nav).index == k
  {
  }

  /** Under the intended sync a deep link still selects the route's sub-view
      on the render where the store's index changes. */
  lemma IntendedDeepLinkShowsSubView(config: Option<seq<AppConfig>>, s: AppState, path: string, k: nat, nav: Nav)
    requires UniqueIds(s.apps) && k < |s.apps|
    requires RouteFor(path).Some? && s.apps[k].id == RouteFor(path).value.appId
    requires s.apps[k].subComponent.Some? && RouteFor(path).value.index < |s.apps[k].subComponent.value|
    ensures var a := Navigate(config, s, path).apps[k];
      s.apps[k].activeSubComponentIndex != a.activeSubComponentIndex ==>
      SyncOnChange(s.apps[k].activeSubComponentIndex, a.activeSubComponentIndex, a.subComponent, nav).index
        == RouteFor(path).value.index
  {
  }
}

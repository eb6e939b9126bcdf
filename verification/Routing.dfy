/** Deep linking: the static route table, the route listener that turns a
    pathname into at most one APP_CLICK (src/components/router/RouteListener.js),
    and the top-level choice between the 404 screen, the lock screen and the
    desktop (src/App.jsx). Both files read the same table, modelled once here. */
module Routing {
  import opened Wrappers
  import opened AppReducer

  /** A deep-link target: an application and the sub-view to show. */
  datatype Route = Route(appId: string, index: nat)

  /** `ROUTE_MAP`: the root maps to null (the desktop). */
  const RouteMap: map<string, Option<Route>> := map[
    "/" := None,
    "/about" := Some(Route("aboutMe", 0)),
    "/experience" := Some(Route("aboutMe", 1)),
    "/education" := Some(Route("aboutMe", 2)),
    "/projects" := Some(Route("aboutMe", 3)),
    "/skills" := Some(Route("aboutMe", 4)),
    "/resume" := Some(Route("aboutMe", 5)),
    "/contact" := Some(Route("aboutMe", 6)),
    "/services" := Some(Route("aboutMe", 7)),
    "/chrome" := Some(Route("chrome", 0)),
    "/vscode" := Some(Route("vscode", 0)),
    "/spotify" := Some(Route("jioSaavn", 0)),
    "/mail" := Some(Route("mail", 0))
  ]

  /** The About paths, in the order of the About application's sub-views. */
  const AboutPaths: seq<string> :=
    ["/about", "/experience", "/education", "/projects", "/skills", "/resume", "/contact", "/services"]

  /** The paths that open another application on its first sub-view. */
  const AppPaths: seq<string> := ["/chrome", "/vscode", "/spotify", "/mail"]

  /** `ROUTE_MAP[path]` as both readers use it, only for its truthiness and
      fields: a missing key (undefined) and the root's null are both `None`. */
  function RouteFor(path: string): (r: Option<Route>)
    ensures r.Some? <==> path in RouteMap && RouteMap[path].Some?
    ensures r.Some? ==> RouteMap[path] == r
    ensures path == "/" ==> r.None?
  {
    if path in RouteMap then RouteMap[path] else None
  }

  /** The route listener's effect: the action dispatched for a pathname, if
      any. It reads nothing but the pathname. */
  function Dispatch(path: string): (r: Option<Action>)
    ensures r.Some? <==> path in RouteMap && RouteMap[path].Some?
    ensures path == "/" ==> r.None?
    ensures path !in RouteMap ==> r.None?
    ensures r.Some? ==> r.value.AppClick? && r.value.index.Some?
    ensures r.Some? ==> r.value.id == RouteMap[path].value.appId
    ensures r.Some? ==> r.value.index == Some(RouteMap[path].value.index as int)
  {
    match RouteFor(path)
    case Some(route) => Some(AppClick(route.appId, Some(route.index)))
    case None => None
  }

  /** `is404` in App.jsx: `/404.html`, and otherwise every path but the root
      on which the listener dispatches nothing. */
  predicate Is404(path: string)
    ensures path == "/404.html" ==> Is404(path)
    ensures path != "/404.html" ==> (Is404(path) <==> path != "/" && Dispatch(path).None?)
  {
    path == "/404.html" || (path != "/" && RouteFor(path).None?)
  }

  datatype View = BlueScreen404 | LockScreen | DesktopView

  /** The screen App.jsx renders: 404 first, then the lock screen, then the
      desktop. */
  function SelectView(path: string, isLocked: bool): (v: View)
    ensures v == BlueScreen404 <==> Is404(path)
    ensures v == LockScreen <==> !Is404(path) && isLocked
    ensures v == DesktopView <==> !Is404(path) && !isLocked
    ensures path == "/404.html" ==> v == BlueScreen404
    ensures path == "/" ==> v != BlueScreen404
  {
    if Is404(path) then BlueScreen404 else if isLocked then LockScreen else DesktopView
  }

  /** Visiting a path: the listener's dispatch applied to the store. */
  function Navigate(config: Option<seq<AppConfig>>, s: AppState, path: string): (r: AppState)
    ensures Dispatch(path).None? ==> r == s
    ensures Dispatch(path).Some? ==> OnlyTouches(s, r, Dispatch(path).value.id)
  {
    match Dispatch(path)
    case Some(act) => Reduce(config, s, act)
    case None => s
  }

  // ---------------------------------------------------------------------------
  // Properties
  // ---------------------------------------------------------------------------

  /** The eight About paths open `aboutMe` on sub-views 0..7 in order, so
      their indices are pairwise distinct. */
  lemma AboutRoutes()
    ensures forall i :: 0 <= i < |AboutPaths| ==> RouteFor(AboutPaths[i]) == Some(Route("aboutMe", i))
  {
    forall i | 0 <= i < |AboutPaths| ensures RouteFor(AboutPaths[i]) == Some(Route("aboutMe", i)) {
      if i == 0 { assert RouteFor("/about") == Some(Route("aboutMe", 0)); }
      else if i == 1 { assert RouteFor("/experience") == Some(Route("aboutMe", 1)); }
      else if i == 2 { assert RouteFor("/education") == Some(Route("aboutMe", 2)); }
      else if i == 3 { assert RouteFor("/projects") == Some(Route("aboutMe", 3)); }
      else if i == 4 { assert RouteFor("/skills") == Some(Route("aboutMe", 4)); }
      else if i == 5 { assert RouteFor("/resume") == Some(Route("aboutMe", 5)); }
      else if i == 6 { assert RouteFor("/contact") == Some(Route("aboutMe", 6)); }
      else { assert RouteFor("/services") == Some(Route("aboutMe", 7)); }
    }
  }

  /** The four other paths open four different applications, none of them
      `aboutMe`, on sub-view 0. */
  lemma AppRoutes()
    ensures forall i :: 0 <= i < |AppPaths| ==>
      RouteFor(AppPaths[i]).Some? && RouteFor(AppPaths[i]).value.index == 0
      && RouteFor(AppPaths[i]).value.appId != "aboutMe"
    ensures forall i, j :: 0 <= i < j < |AppPaths| ==>
      RouteFor(AppPaths[i]).Some? && RouteFor(AppPaths[j]).Some? &&
      RouteFor(AppPaths[i]).value.appId != RouteFor(AppPaths[j]).value.appId
  {
    assert RouteFor("/chrome") == Some(Route("chrome", 0));
    assert RouteFor("/vscode") == Some(Route("vscode", 0));
    assert RouteFor("/spotify") == Some(Route("jioSaavn", 0));
    assert RouteFor("/mail") == Some(Route("mail", 0));
  }

  /** Apart from the root, the table has no keys but those twelve paths. */
  lemma RouteKeys()
    ensures forall p :: p in RouteMap ==> p == "/" || p in AboutPaths || p in AppPaths
  {
  }

  /** For every path exactly one of three things holds: it is the root, the
      listener dispatches for it, or the 404 screen is shown. */
  lemma ExactlyOneOutcome(path: string)
    ensures path == "/" || Dispatch(path).Some? || Is404(path)
    ensures !(path == "/" && Dispatch(path).Some?)
    ensures !(path == "/" && Is404(path))
    ensures !(Dispatch(path).Some? && Is404(path))
  {
    assert "/404.html" !in RouteMap;
  }

  /** A mapped path opens its application, unminimized and unmaximized, on its
      sub-view, and leaves every other application alone. */
  lemma DeepLinkOpensTab(config: Option<seq<AppConfig>>, s: AppState, path: string, k: nat)
    requires UniqueIds(s.apps) && k < |s.apps|
    requires RouteFor(path).Some? && s.apps[k].id == RouteFor(path).value.appId
    ensures var r := Navigate(config, s, path).apps;
      && r[k] == s.apps[k].(isOpened := true, isMinimized := false, isMaximized := false,
                            activeSubComponentIndex := Some(RouteFor(path).value.index))
      && forall i :: 0 <= i < |s.apps| && i != k ==> r[i] == s.apps[i]
  {
    ReduceAt(config, s, Dispatch(path).value, k);
  }

  /** `/resume` opens `aboutMe` on sub-view 5. */
  lemma ResumeDeepLink()
    ensures Dispatch("/resume") == Some(AppClick("aboutMe", Some(5)))
    ensures Dispatch("/") == None && Dispatch("/xyz") == None
    ensures Is404("/xyz") && !Is404("/") && !Is404("/resume")
  {
  }

  /** Because the dispatch depends on the pathname alone and a click with an
      index is idempotent, visiting the same path twice leaves the store as
      visiting it once. */
  lemma RevisitIdempotent(config: Option<seq<AppConfig>>, s: AppState, path: string)
    ensures Navigate(config, Navigate(config, s, path), path) == Navigate(config, s, path)
  {
    match Dispatch(path)
    case None =>
    case Some(act) =>
      ClickWithIndexIdempotent(config, s, act.id, act.index.value);
  }
}

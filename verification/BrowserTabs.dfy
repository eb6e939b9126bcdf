/** The browser application's tabs and per-tab history
    (src/components/applications/chrome.application.jsx:45-150). Tab ids,
    which the source draws from the clock and a random number, are
    parameters; the percent-encoder is a parameter as in `UrlNormalize`. */
module BrowserTabs {
  import opened Wrappers
  import opened UrlNormalize

  type TabId = string

  /** One tab: its visited addresses, the cursor into them, the text in the
      address bar, and a counter bumped to force the page to reload. */
  datatype Tab = Tab(id: TabId, history: seq<string>, index: int, addressValue: string, reloadKey: int)

  /** The cursor points into the history. */
  predicate ValidTab(t: Tab) {
    0 <= t.index < |t.history|
  }

  /** `createTab(initialInput)` with a fresh id. */
  function CreateTab(id: TabId, initialInput: string, encode: string -> string): (t: Tab)
    ensures ValidTab(t) && t.id == id
    ensures |t.history| == 1 && t.index == 0 && t.addressValue == t.history[0] && t.reloadKey == 0
    ensures t.history[0] == Normalize(Some(initialInput), encode) && HasScheme(t.history[0])
  {
    var url := Normalize(Some(initialInput), encode);
    Tab(id, [url], 0, url, 0)
  }

  // ---------------------------------------------------------------------------
  // One tab's history
  // ---------------------------------------------------------------------------

  /** `a.slice(0, end)` for a non-negative `end`. */
  function Prefix<T>(a: seq<T>, end: nat): (r: seq<T>)
    ensures r == a[..if end <= |a| then end else |a|]
  {
    if end <= |a| then a[..end] else a
  }

  /** The updater of `onGO`: forward entries are dropped, `url` appended and
      made current. */
  function GoTab(t: Tab, url: string): (r: Tab)
    requires t.index >= 0
    ensures ValidTab(t) ==> r.history == t.history[..t.index + 1] + [url]
    ensures r.index == |r.history| - 1 && ValidTab(r)
    ensures r.history[r.index] == url && r.addressValue == url
    ensures r.id == t.id && r.reloadKey == t.reloadKey
  {
    var base := Prefix(t.history, t.index + 1);
    t.(history := base + [url], index := |base|, addressValue := url)
  }

  /** `history[i] ?? DEFAULT_HOME_URL` */
  function EntryOr(history: seq<string>, i: int): string {
    if 0 <= i < |history| then history[i] else DefaultHomeUrl
  }

  /** The updater of `goBack`. */
  function BackTab(t: Tab): (r: Tab)
    ensures ValidTab(t) && t.index > 0 ==>
      r == t.(index := t.index - 1, addressValue := t.history[t.index - 1])
    ensures ValidTab(t) ==> ValidTab(r)
  {
    var next := if t.index - 1 > 0 then t.index - 1 else 0;
    t.(index := next, addressValue := EntryOr(t.history, next))
  }

  /** The updater of `goForward`. */
  function ForwardTab(t: Tab): (r: Tab)
    ensures ValidTab(t) && t.index < |t.history| - 1 ==>
      r == t.(index := t.index + 1, addressValue := t.history[t.index + 1])
    ensures ValidTab(t) ==> ValidTab(r)
  {
    var next := if |t.history| - 1 < t.index + 1 then |t.history| - 1 else t.index + 1;
    t.(index := next, addressValue := EntryOr(t.history, next))
  }

  /** The updater of `reload`. */
  function ReloadTab(t: Tab): (r: Tab)
    ensures r.reloadKey == t.reloadKey + 1
    ensures r.(reloadKey := t.reloadKey) == t
  {
    t.(reloadKey := t.reloadKey + 1)
  }

  /** Back then forward brings the cursor back, leaves the history alone and
      shows the entry under the cursor. */
  lemma BackThenForward(t: Tab)
    requires ValidTab(t) && t.index > 0
    ensures ForwardTab(BackTab(t)) == t.(addressValue := t.history[t.index])
  {
  }

  /** Forward then back, symmetrically. */
  lemma ForwardThenBack(t: Tab)
    requires ValidTab(t) && t.index < |t.history| - 1
    ensures BackTab(ForwardTab(t)) == t.(addressValue := t.history[t.index])
  {
  }

  // ---------------------------------------------------------------------------
  // The tab strip
  // ---------------------------------------------------------------------------

  /** All tabs and the id of the active one. */
  datatype Browser = Browser(tabs: seq<Tab>, activeId: TabId)

  predicate DistinctIds(tabs: seq<Tab>) {
    forall i, j :: 0 <= i < j < |tabs| ==> tabs[i].id != tabs[j].id
  }

  predicate HasTab(tabs: seq<Tab>, id: TabId) {
    exists i :: 0 <= i < |tabs| && tabs[i].id == id
  }

  /** The state every operation keeps: at least one tab, distinct ids, the
      active id among them, every cursor inside its history. */
  predicate WellFormed(b: Browser) {
    && |b.tabs| >= 1
    && DistinctIds(b.tabs)
    && HasTab(b.tabs, b.activeId)
    && forall i :: 0 <= i < |b.tabs| ==> ValidTab(b.tabs[i])
  }

  /** `tabs.findIndex(t => t.id === id)` */
  function FindTab(tabs: seq<Tab>, id: TabId): (r: int)
    ensures -1 <= r < |tabs|
    ensures r >= 0 ==> tabs[r].id == id && forall j :: 0 <= j < r ==> tabs[j].id != id
    ensures r == -1 <==> !HasTab(tabs, id)
  {
    if |tabs| == 0 then -1
    else if tabs[0].id == id then 0
    else
      var k := FindTab(tabs[1..], id);
      assert forall j :: 1 <= j < |tabs| ==> tabs[1..][j - 1] == tabs[j];
      if k == -1 then -1 else k + 1
  }

  /** The tab on screen: `tabs[Math.max(activeTabIndex, 0)]`, undefined when
      there are no tabs. */
  function ActiveTab(b: Browser): (r: Option<Tab>)
    ensures |b.tabs| == 0 <==> r.None?
    ensures HasTab(b.tabs, b.activeId) ==> r.Some? && r.value.id == b.activeId
  {
    if |b.tabs| == 0 then None
    else
      var k := FindTab(b.tabs, b.activeId);
      Some(b.tabs[if k > 0 then k else 0])
  }

  /** `currentUrl`: the entry under the active tab's cursor, else home. */
  function CurrentUrl(b: Browser): (r: string)
    ensures WellFormed(b) ==> r == ActiveTab(b).value.history[ActiveTab(b).value.index]
    ensures ActiveTab(b).None? ==> r == DefaultHomeUrl
  {
    match ActiveTab(b)
    case None => DefaultHomeUrl
    case Some(t) => EntryOr(t.history, t.index)
  }

  /** `canGoBack`: in a well-formed browser, exactly when `goBack` would move
      the active tab's cursor. */
  predicate CanGoBack(b: Browser)
    ensures WellFormed(b) ==>
      (CanGoBack(b) <==> BackTab(ActiveTab(b).value).index != ActiveTab(b).value.index)
  {
    ActiveTab(b).Some? && ActiveTab(b).value.index > 0
  }

  /** `canGoForward`: in a well-formed browser, exactly when `goForward`
      would move the active tab's cursor. */
  predicate CanGoForward(b: Browser)
    ensures WellFormed(b) ==>
      (CanGoForward(b) <==> ForwardTab(ActiveTab(b).value).index != ActiveTab(b).value.index)
  {
    ActiveTab(b).Some? && ActiveTab(b).value.index < |ActiveTab(b).value.history| - 1
  }

  /** The edits the handlers make to the active tab. */
  datatype TabEdit = GoTo(url: string) | StepBack | StepForward | BumpReload | SetAddress(value: string)

  function ApplyEdit(t: Tab, e: TabEdit): (r: Tab)
    requires e.GoTo? ==> t.index >= 0
    ensures r.id == t.id
    ensures ValidTab(t) ==> ValidTab(r)
  {
    match e
    case GoTo(url) => GoTab(t, url)
    case StepBack => BackTab(t)
    case StepForward => ForwardTab(t)
    case BumpReload => ReloadTab(t)
    case SetAddress(v) => t.(addressValue := v)
  }

  /** `setActiveTab(updater)`: rewrite the active tab in place; nothing
      happens when the active id is missing. */
  function EditActive(b: Browser, e: TabEdit): (r: Browser)
    requires forall i :: 0 <= i < |b.tabs| ==> b.tabs[i].index >= 0
    ensures r.activeId == b.activeId && |r.tabs| == |b.tabs|
    ensures forall i :: 0 <= i < |b.tabs| ==> r.tabs[i].id == b.tabs[i].id
    ensures !HasTab(b.tabs, b.activeId) ==> r == b
    ensures HasTab(b.tabs, b.activeId) ==>
      r.tabs == b.tabs[FindTab(b.tabs, b.activeId) := ApplyEdit(b.tabs[FindTab(b.tabs, b.activeId)], e)]
  {
    var k := FindTab(b.tabs, b.activeId);
    if k < 0 then b else b.(tabs := b.tabs[k := ApplyEdit(b.tabs[k], e)])
  }

  /** Only the active tab changes, and to `t`; ids, order and the other tabs
      are kept. */
  predicate ActiveBecomes(b: Browser, r: Browser, t: Tab) {
    && r.activeId == b.activeId && |r.tabs| == |b.tabs|
    && (forall i :: 0 <= i < |b.tabs| && b.tabs[i].id != b.activeId ==> r.tabs[i] == b.tabs[i])
    && (forall i :: 0 <= i < |b.tabs| && b.tabs[i].id == b.activeId ==> r.tabs[i] == t)
  }

  /** Editing the active tab of a well-formed strip keeps it well formed and
      changes the active tab alone. */
  lemma EditActiveFacts(b: Browser, e: TabEdit)
    requires WellFormed(b)
    ensures WellFormed(EditActive(b, e))
    ensures ActiveBecomes(b, EditActive(b, e), ApplyEdit(ActiveTab(b).value, e))
  {
    var r := EditActive(b, e);
    var k := FindTab(b.tabs, b.activeId);
    assert ActiveTab(b).value == b.tabs[k];
    assert HasTab(r.tabs, r.activeId) by {
      assert r.tabs[k].id == b.activeId;
    }
    forall i | 0 <= i < |r.tabs| ensures ValidTab(r.tabs[i]) {
      if i != k {
        assert r.tabs[i] == b.tabs[i];
      }
    }
    forall i | 0 <= i < |b.tabs| && b.tabs[i].id == b.activeId
      ensures r.tabs[i] == ApplyEdit(ActiveTab(b).value, e)
    {
      assert i == k;
    }
  }

  // ---------------------------------------------------------------------------
  // The handlers
  // ---------------------------------------------------------------------------

  /** `onGO`: navigate the active tab to its normalised address text,
      dropping the entries after the cursor. */
  function Go(b: Browser, encode: string -> string): (r: Browser)
    requires WellFormed(b)
    ensures WellFormed(r)
    ensures var t := ActiveTab(b).value; var url := Normalize(Some(t.addressValue), encode);
      ActiveBecomes(b, r, t.(history := t.history[..t.index + 1] + [url], index := t.index + 1, addressValue := url))
  {
    var t := ActiveTab(b).value;
    var e := GoTo(Normalize(Some(t.addressValue), encode));
    EditActiveFacts(b, e);
    EditActive(b, e)
  }

  /** `goBack`: a no-op unless the active cursor can move back. */
  function Back(b: Browser): (r: Browser)
    requires WellFormed(b)
    ensures WellFormed(r)
    ensures !CanGoBack(b) ==> r == b
    ensures CanGoBack(b) ==> var t := ActiveTab(b).value;
      ActiveBecomes(b, r, t.(index := t.index - 1, addressValue := t.history[t.index - 1]))
  {
    EditActiveFacts(b, StepBack);
    if !CanGoBack(b) then b else EditActive(b, StepBack)
  }

  /** `goForward`: a no-op unless the active cursor can move forward. */
  function Forward(b: Browser): (r: Browser)
    requires WellFormed(b)
    ensures WellFormed(r)
    ensures !CanGoForward(b) ==> r == b
    ensures CanGoForward(b) ==> var t := ActiveTab(b).value;
      ActiveBecomes(b, r, t.(index := t.index + 1, addressValue := t.history[t.index + 1]))
  {
    EditActiveFacts(b, StepForward);
    if !CanGoForward(b) then b else EditActive(b, StepForward)
  }

  /** `reload`: only the active tab's reload counter moves. */
  function Reload(b: Browser): (r: Browser)
    requires WellFormed(b)
    ensures WellFormed(r)
    ensures var t := ActiveTab(b).value; ActiveBecomes(b, r, t.(reloadKey := t.reloadKey + 1))
  {
    EditActiveFacts(b, BumpReload);
    EditActive(b, BumpReload)
  }

  /** `onURLChange`: typing into the address bar. */
  function TypeAddress(b: Browser, value: string): (r: Browser)
    requires WellFormed(b)
    ensures WellFormed(r)
    ensures var t := ActiveTab(b).value; ActiveBecomes(b, r, t.(addressValue := value))
  {
    EditActiveFacts(b, SetAddress(value));
    EditActive(b, SetAddress(value))
  }

  /** Clicking a tab in the strip makes it active. */
  function SelectTab(b: Browser, k: nat): (r: Browser)
    requires k < |b.tabs|
    ensures r.tabs == b.tabs
    ensures DistinctIds(b.tabs) ==> ActiveTab(r) == Some(b.tabs[k])
    ensures WellFormed(b) ==> WellFormed(r)
  {
    var r := Browser(b.tabs, b.tabs[k].id);
    assert DistinctIds(b.tabs) ==> FindTab(b.tabs, b.tabs[k].id) == k;
    r
  }

  /** `addTab`: append a fresh home tab and activate it. */
  function AddTab(b: Browser, id: TabId, encode: string -> string): (r: Browser)
    ensures |r.tabs| == |b.tabs| + 1 && r.tabs[..|b.tabs|] == b.tabs
    ensures r.activeId == id && r.tabs[|b.tabs|].id == id
    ensures r.tabs[|b.tabs|].history == [DefaultHomeUrl] && ValidTab(r.tabs[|b.tabs|])
    ensures WellFormed(b) && !HasTab(b.tabs, id) ==> WellFormed(r) && ActiveTab(r) == Some(r.tabs[|b.tabs|])
  {
    var t := CreateTab(id, DefaultHomeUrl, encode);
    HomeTab(id, encode);
    AddTabFacts(b, t);
    Browser(b.tabs + [t], id)
  }

  /** A new tab opens on the home page. */
  /** The strip on the first render: one home-page tab, and that tab active.
      Every handler's well-formedness requirement holds from here on. */
  function InitialBrowser(id: TabId, encode: string -> string): (r: Browser)
    ensures WellFormed(r) && |r.tabs| == 1
    ensures ActiveTab(r) == Some(r.tabs[0])
    ensures CurrentUrl(r) == DefaultHomeUrl
  {
    HomeTab(id, encode);
    var t := CreateTab(id, DefaultHomeUrl, encode);
    assert [t][0].id == t.id;
    Browser([t], t.id)
  }

  lemma HomeTab(id: TabId, encode: string -> string)
    ensures CreateTab(id, DefaultHomeUrl, encode).history == [DefaultHomeUrl]
  {
    HomeUrlIsNormal(encode);
  }

  lemma AddTabFacts(b: Browser, t: Tab)
    requires ValidTab(t)
    ensures (b.tabs + [t])[..|b.tabs|] == b.tabs
    ensures WellFormed(b) && !HasTab(b.tabs, t.id) ==>
      WellFormed(Browser(b.tabs + [t], t.id)) && ActiveTab(Browser(b.tabs + [t], t.id)) == Some(t)
  {
    var n := |b.tabs|;
    var tabs := b.tabs + [t];
    assert tabs[..n] == b.tabs;
    if WellFormed(b) && !HasTab(b.tabs, t.id) {
      assert forall i :: 0 <= i < n ==> tabs[i] == b.tabs[i];
      assert forall i :: 0 <= i < n ==> tabs[i].id != t.id;
      assert tabs[n] == t;
      assert FindTab(tabs, t.id) == n;
    }
  }

  /** The tabs other than `id`, in order (`filter`). */
  function RemoveId(tabs: seq<Tab>, id: TabId): (r: seq<Tab>)
    ensures |r| <= |tabs|
    ensures forall i :: 0 <= i < |r| ==> r[i].id != id
    ensures !HasTab(tabs, id) ==> r == tabs
  {
    if |tabs| == 0 then []
    else
      var rest := RemoveId(tabs[1..], id);
      assert tabs == [tabs[0]] + tabs[1..];
      assert HasTab(tabs[1..], id) ==> HasTab(tabs, id) by {
        if HasTab(tabs[1..], id) {
          var i :| 0 <= i < |tabs[1..]| && tabs[1..][i].id == id;
          assert tabs[i + 1].id == id;
        }
      }
      if tabs[0].id == id then rest else [tabs[0]] + rest
  }

  /** Removing an id keeps exactly the tabs with other ids. */
  lemma {:induction false} RemoveIdMembers(tabs: seq<Tab>, id: TabId)
    ensures forall t :: t in RemoveId(tabs, id) <==> t in tabs && t.id != id
  {
    if |tabs| > 0 {
      RemoveIdMembers(tabs[1..], id);
      assert tabs == [tabs[0]] + tabs[1..];
    }
  }

  /** With distinct ids, removing an id cuts exactly its one tab out. */
  lemma {:induction false} RemoveAt(tabs: seq<Tab>, id: TabId, k: nat)
    requires DistinctIds(tabs) && k < |tabs| && tabs[k].id == id
    ensures RemoveId(tabs, id) == tabs[..k] + tabs[k + 1..]
  {
    var tail := tabs[1..];
    assert DistinctIds(tail);
    if k == 0 {
      forall i | 0 <= i < |tail| ensures tail[i].id != id {
        assert tail[i] == tabs[i + 1];
      }
      assert RemoveId(tabs, id) == RemoveId(tail, id);
      assert tabs[k + 1..] == tail;
    } else {
      assert tabs[0].id != id;
      assert RemoveId(tabs, id) == [tabs[0]] + RemoveId(tail, id);
      RemoveAt(tail, id, k - 1);
      assert tabs[..k] == [tabs[0]] + tail[..k - 1];
      assert tabs[k + 1..] == tail[k..];
    }
  }

  /** What closing leaves: one tab fewer when the id is present (none fewer
      otherwise), still distinct, all taken from the old strip. */
  lemma RemoveFacts(tabs: seq<Tab>, id: TabId)
    requires DistinctIds(tabs)
    ensures var next := RemoveId(tabs, id);
      && (HasTab(tabs, id) ==> next == tabs[..FindTab(tabs, id)] + tabs[FindTab(tabs, id) + 1..])
      && |next| >= |tabs| - 1
      && DistinctIds(next)
  {
    var next := RemoveId(tabs, id);
    if HasTab(tabs, id) {
      var k := FindTab(tabs, id);
      RemoveAt(tabs, id, k);
      DistinctCut(tabs, k);
    }
  }

  /** Cutting one tab out keeps the ids distinct. */
  lemma DistinctCut(tabs: seq<Tab>, k: nat)
    requires DistinctIds(tabs) && k < |tabs|
    ensures DistinctIds(tabs[..k] + tabs[k + 1..])
  {
    var c := tabs[..k] + tabs[k + 1..];
    forall i, j | 0 <= i < j < |c| ensures c[i].id != c[j].id {
      if j < k {
        assert c[i] == tabs[i] && c[j] == tabs[j];
      } else if i < k {
        assert c[i] == tabs[i] && c[j] == tabs[j + 1];
      } else {
        assert c[i] == tabs[i + 1] && c[j] == tabs[j + 1];
      }
    }
  }

  /** `closeTab(tabId)`: never closes the last tab; removes the tab with that
      id; if it was active, the tab before it (or the new first tab) becomes
      active. Ids are distinct, as the source's clock-and-random ids are. */
  function CloseTab(b: Browser, tabId: TabId): (r: Browser)
    requires DistinctIds(b.tabs)
    ensures |b.tabs| <= 1 ==> r == b
    ensures |b.tabs| > 1 ==> forall t :: t in r.tabs <==> t in b.tabs && t.id != tabId
    ensures |b.tabs| > 1 && HasTab(b.tabs, tabId) ==>
      var k := FindTab(b.tabs, tabId); r.tabs == b.tabs[..k] + b.tabs[k + 1..]
    ensures |b.tabs| > 1 && tabId != b.activeId ==> r.activeId == b.activeId
    ensures |b.tabs| > 1 && tabId == b.activeId && HasTab(b.tabs, tabId) ==>
      var k := FindTab(b.tabs, tabId); r.activeId == (if k > 0 then b.tabs[k - 1].id else b.tabs[1].id)
    ensures WellFormed(b) ==> WellFormed(r)
  {
    if |b.tabs| <= 1 then b
    else
      var k := FindTab(b.tabs, tabId);
      var next := RemoveId(b.tabs, tabId);
      RemoveFacts(b.tabs, tabId);
      RemoveIdMembers(b.tabs, tabId);
      var r := if tabId == b.activeId then
        var j := if k - 1 > 0 then k - 1 else 0;
        Browser(next, next[j].id)
      else
        Browser(next, b.activeId);
      CloseKeepsWellFormed(b, tabId, r);
      r
  }

  lemma CloseKeepsWellFormed(b: Browser, tabId: TabId, r: Browser)
    requires DistinctIds(b.tabs) && |b.tabs| > 1
    requires r.tabs == RemoveId(b.tabs, tabId)
    requires tabId != b.activeId ==> r.activeId == b.activeId
    requires tabId == b.activeId ==> HasTab(r.tabs, r.activeId)
    ensures WellFormed(b) ==> WellFormed(r)
  {
    if WellFormed(b) {
      RemoveFacts(b.tabs, tabId);
      if tabId != b.activeId {
        RemoveKeepsOther(b.tabs, tabId, b.activeId);
      }
      RemoveKeepsValid(b.tabs, tabId);
    }
  }

  /** Removing one id keeps every other id present. */
  lemma RemoveKeepsOther(tabs: seq<Tab>, id: TabId, other: TabId)
    requires other != id && HasTab(tabs, other)
    ensures HasTab(RemoveId(tabs, id), other)
  {
    RemoveIdMembers(tabs, id);
    var i :| 0 <= i < |tabs| && tabs[i].id == other;
    assert tabs[i] in RemoveId(tabs, id);
    var r := RemoveId(tabs, id);
    var j :| 0 <= j < |r| && r[j] == tabs[i];
  }

  /** Removing tabs keeps every remaining cursor inside its history. */
  lemma RemoveKeepsValid(tabs: seq<Tab>, id: TabId)
    requires forall i :: 0 <= i < |tabs| ==> ValidTab(tabs[i])
    ensures forall i :: 0 <= i < |RemoveId(tabs, id)| ==> ValidTab(RemoveId(tabs, id)[i])
  {
    RemoveIdMembers(tabs, id);
    var r := RemoveId(tabs, id);
    forall i | 0 <= i < |r| ensures ValidTab(r[i]) {
      assert r[i] in tabs;
    }
  }
}

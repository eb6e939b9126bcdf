/** The application-state store of the simulated desktop: a pure reducer
    `(state, action) -> state` over the list of application records
    (src/utils/reducers/app.reducer.js). */
module AppReducer {
  import opened Wrappers

  /** One named sub-view (tab) of an application. */
  datatype SubView = SubView(name: string, component: string)

  /** One entry of the static application configuration. */
  datatype AppConfig = AppConfig(
    id: string,
    name: string,
    icon: string,
    order: int,
    showInDesktop: bool,
    showLinks: bool,
    isApplication: bool,
    subComponent: Option<seq<SubView>>)

  /** The state of one application; `None` as the active index is `undefined`. */
  datatype AppRecord = AppRecord(
    id: string,
    name: string,
    icon: string,
    order: int,
    showInDesktop: bool,
    showLinks: bool,
    isApplication: bool,
    subComponent: Option<seq<SubView>>,
    isOpened: bool,
    isMinimized: bool,
    isMaximized: bool,
    activeSubComponentIndex: Option<int>)

  datatype AppState = AppState(apps: seq<AppRecord>)

  /** The action types the reducer distinguishes; `Unrecognised` is every
      other `type` (Redux's own initialisation actions among them). A missing
      `activeSubComponentIndex` on a click is `None`. */
  datatype Action =
    | AppInit
    | AppClick(id: string, index: Option<int>)
    | Minimize(id: string)
    | Maximize(id: string)
    | Close(id: string)
    | Unrecognised(kind: string)

  /** The actions that address one application by id. */
  predicate Targeted(act: Action) {
    act.AppClick? || act.Minimize? || act.Maximize? || act.Close?
  }

  // ---------------------------------------------------------------------------
  // Record-level predicates
  // ---------------------------------------------------------------------------

  /** `r` carries the eight configuration fields of `c`. */
  predicate CopiesConfig(r: AppRecord, c: AppConfig) {
    && r.id == c.id && r.name == c.name && r.icon == c.icon && r.order == c.order
    && r.showInDesktop == c.showInDesktop && r.showLinks == c.showLinks
    && r.isApplication == c.isApplication && r.subComponent == c.subComponent
  }

  /** `r` and `a` agree on everything but the window flags and the index. */
  predicate SameApp(r: AppRecord, a: AppRecord) {
    && r.id == a.id && r.name == a.name && r.icon == a.icon && r.order == a.order
    && r.showInDesktop == a.showInDesktop && r.showLinks == a.showLinks
    && r.isApplication == a.isApplication && r.subComponent == a.subComponent
  }

  predicate UniqueIds(apps: seq<AppRecord>) {
    forall i, j :: 0 <= i < j < |apps| ==> apps[i].id != apps[j].id
  }

  /** A closed application is not maximized: APP_INIT establishes this and
      every action but MAXIMIZE keeps it. */
  predicate ClosedNotMaximized(s: AppState) {
    forall i :: 0 <= i < |s.apps| ==> !s.apps[i].isOpened ==> !s.apps[i].isMaximized
  }

  /** A closed application is not minimized: APP_INIT establishes this and
      every action but MINIMIZE keeps it. */
  predicate ClosedNotMinimized(s: AppState) {
    forall i :: 0 <= i < |s.apps| ==> !s.apps[i].isOpened ==> !s.apps[i].isMinimized
  }

  // ---------------------------------------------------------------------------
  // APP_INIT
  // ---------------------------------------------------------------------------

  /** A fresh application document filled from one configuration entry. The
      document's own defaults are not part of this model; they are taken to
      be closed, not minimized, not maximized, no active index. */
  function NewRecord(c: AppConfig): AppRecord {
    AppRecord(c.id, c.name, c.icon, c.order, c.showInDesktop, c.showLinks,
              c.isApplication, c.subComponent, false, false, false, None)
  }

  /** One record per configuration entry, in configuration order. */
  function Seed(cs: seq<AppConfig>): (r: seq<AppRecord>)
    ensures |r| == |cs|
    ensures forall i :: 0 <= i < |r| ==> CopiesConfig(r[i], cs[i])
    ensures forall i :: 0 <= i < |r| ==>
      !r[i].isOpened && !r[i].isMinimized && !r[i].isMaximized && r[i].activeSubComponentIndex.None?
  {
    if |cs| == 0 then [] else [NewRecord(cs[0])] + Seed(cs[1..])
  }

  /** APP_INIT: `config` is the static configuration list; `None` stands for
      a null or undefined list, which yields no applications, as does an
      empty one. */
  function Init(config: Option<seq<AppConfig>>): (r: AppState)
    ensures config.None? ==> r.apps == []
    ensures config.Some? ==> |r.apps| == |config.value|
    ensures config.Some? ==> forall i :: 0 <= i < |r.apps| ==> CopiesConfig(r.apps[i], config.value[i])
    ensures forall i :: 0 <= i < |r.apps| ==>
      !r.apps[i].isOpened && !r.apps[i].isMinimized && !r.apps[i].isMaximized
    ensures ClosedNotMaximized(r) && ClosedNotMinimized(r)
  {
    match config
    case None => AppState([])
    case Some(cs) => if |cs| > 0 then AppState(Seed(cs)) else AppState([])
  }

  // ---------------------------------------------------------------------------
  // Finding and replacing a record by id
  // ---------------------------------------------------------------------------

  /** Position of the first record with the given id, or -1. */
  function FindFirst(apps: seq<AppRecord>, id: string): (r: int)
    ensures -1 <= r < |apps|
    ensures r >= 0 ==> apps[r].id == id && forall j :: 0 <= j < r ==> apps[j].id != id
    ensures r == -1 ==> forall j :: 0 <= j < |apps| ==> apps[j].id != id
  {
    if |apps| == 0 then -1
    else if apps[0].id == id then 0
    else
      var k := FindFirst(apps[1..], id);
      if k == -1 then -1 else k + 1
  }

  /** Every record whose id is `rec.id` replaced by `rec`. */
  function ReplaceById(apps: seq<AppRecord>, rec: AppRecord): (r: seq<AppRecord>)
    ensures |r| == |apps|
    ensures forall i :: 0 <= i < |r| ==> r[i] == (if apps[i].id == rec.id then rec else apps[i])
  {
    if |apps| == 0 then []
    else [if apps[0].id == rec.id then rec else apps[0]] + ReplaceById(apps[1..], rec)
  }

  // ---------------------------------------------------------------------------
  // The transitions of one record
  // ---------------------------------------------------------------------------

  /** APP_CLICK on one record. */
  function ClickRecord(a: AppRecord, index: Option<int>): (r: AppRecord)
    ensures SameApp(r, a) && r.isOpened
    ensures index.Some? ==> !r.isMinimized && !r.isMaximized && r.activeSubComponentIndex == index
    ensures index.None? ==> r.activeSubComponentIndex == a.activeSubComponentIndex
    ensures index.None? && a.isOpened ==> r.isMinimized == !a.isMinimized && r.isMaximized == a.isMaximized
    ensures !a.isOpened ==> !r.isMinimized && !r.isMaximized
  {
    if a.isOpened then
      if index.Some? then
        a.(isMinimized := false, isMaximized := false, isOpened := true,
           activeSubComponentIndex := index)
      else
        a.(isMinimized := !a.isMinimized)
    else
      var b := a.(isMinimized := false, isMaximized := false, isOpened := true);
      if index.Some? then b.(activeSubComponentIndex := index) else b
  }

  /** The record-level effect of a targeted action. */
  function Transition(a: AppRecord, act: Action): (r: AppRecord)
    requires Targeted(act)
    ensures SameApp(r, a)
    ensures act.Minimize? ==> r == a.(isMinimized := true)
    ensures act.Maximize? ==> r.isMaximized == !a.isMaximized && r == a.(isMaximized := r.isMaximized)
    ensures act.Close? ==>
      !r.isOpened && !r.isMinimized && !r.isMaximized && r.activeSubComponentIndex == a.activeSubComponentIndex
  {
    match act
    case AppClick(_, index) => ClickRecord(a, index)
    case Minimize(_) => a.(isMinimized := true)
    case Maximize(_) => a.(isMaximized := !a.isMaximized)
    case Close(_) => a.(isMinimized := false, isMaximized := false, isOpened := false)
  }

  // ---------------------------------------------------------------------------
  // The reducer
  // ---------------------------------------------------------------------------

  /** `s` and `r` differ at most in the records whose id is `id`; length, order
      and ids are kept. */
  predicate OnlyTouches(s: AppState, r: AppState, id: string) {
    && |r.apps| == |s.apps|
    && (forall i :: 0 <= i < |s.apps| ==> r.apps[i].id == s.apps[i].id)
    && (forall i :: 0 <= i < |s.apps| ==> s.apps[i].id != id ==> r.apps[i] == s.apps[i])
  }

  /** A targeted action: look the record up, transform it, put it back. An
      id that names no record leaves the state unchanged. */
  function Update(s: AppState, act: Action): (r: AppState)
    requires Targeted(act)
    ensures OnlyTouches(s, r, act.id)
    ensures FindFirst(s.apps, act.id) == -1 ==> r == s
    ensures forall i :: 0 <= i < |s.apps| && s.apps[i].id == act.id ==>
      r.apps[i] == Transition(s.apps[FindFirst(s.apps, act.id)], act)
  {
    var k := FindFirst(s.apps, act.id);
    if k < 0 then s else AppState(ReplaceById(s.apps, Transition(s.apps[k], act)))
  }

  /** `appStateReducer`: `config` is the static configuration read by APP_INIT. */
  function Reduce(config: Option<seq<AppConfig>>, s: AppState, act: Action): (r: AppState)
    ensures act.Unrecognised? ==> r == s
    ensures act.AppInit? ==> r == Init(config) && ClosedNotMaximized(r) && ClosedNotMinimized(r)
    ensures Targeted(act) ==> OnlyTouches(s, r, act.id)
    ensures Targeted(act) && UniqueIds(s.apps) ==> UniqueIds(r.apps)
  {
    match act
    case AppInit => Init(config)
    case Unrecognised(_) => s
    case _ => Update(s, act)
  }

  // ---------------------------------------------------------------------------
  // Properties
  // ---------------------------------------------------------------------------

  /** With unique ids, a targeted action changes exactly the record it names,
      by that record's own transition. */
  lemma ReduceAt(config: Option<seq<AppConfig>>, s: AppState, act: Action, k: nat)
    requires Targeted(act) && UniqueIds(s.apps)
    requires k < |s.apps| && s.apps[k].id == act.id
    ensures Reduce(config, s, act).apps == s.apps[k := Transition(s.apps[k], act)]
  {
    var r := Reduce(config, s, act);
    assert FindFirst(s.apps, act.id) == k;
    assert r.apps == s.apps[k := Transition(s.apps[k], act)];
  }

  /** APP_CLICK on a closed application opens it, neither minimized nor
      maximized, at the requested index if one is given and otherwise at the
      index it had. */
  lemma ClickOpensClosedApp(config: Option<seq<AppConfig>>, s: AppState, k: nat, index: Option<int>)
    requires UniqueIds(s.apps) && k < |s.apps| && !s.apps[k].isOpened
    ensures var r := Reduce(config, s, AppClick(s.apps[k].id, index)).apps[k];
      && SameApp(r, s.apps[k])
      && r.isOpened && !r.isMinimized && !r.isMaximized
      && r.activeSubComponentIndex == (if index.Some? then index else s.apps[k].activeSubComponentIndex)
  {
    ReduceAt(config, s, AppClick(s.apps[k].id, index), k);
  }

  /** APP_CLICK with an index gives the same record whether the application
      was open or closed: open, unminimized, unmaximized, at that index. */
  lemma ClickWithIndexShowsTab(config: Option<seq<AppConfig>>, s: AppState, k: nat, i: int)
    requires UniqueIds(s.apps) && k < |s.apps|
    ensures Reduce(config, s, AppClick(s.apps[k].id, Some(i))).apps[k]
         == s.apps[k].(isOpened := true, isMinimized := false, isMaximized := false,
                       activeSubComponentIndex := Some(i))
  {
    ReduceAt(config, s, AppClick(s.apps[k].id, Some(i)), k);
  }

  /** Repeating an APP_CLICK with an index changes nothing more: the first
      click already produced the record the second one would. This holds for
      any list, duplicate ids included. */
  lemma ClickWithIndexIdempotent(config: Option<seq<AppConfig>>, s: AppState, id: string, i: int)
    ensures var act := AppClick(id, Some(i));
      Reduce(config, Reduce(config, s, act), act) == Reduce(config, s, act)
  {
    var act := AppClick(id, Some(i));
    var k := FindFirst(s.apps, id);
    if k >= 0 {
      var u := Transition(s.apps[k], act);
      var s1 := AppState(ReplaceById(s.apps, u));
      assert Reduce(config, s, act) == s1;
      FindAfterReplace(s.apps, u, k);
      assert Transition(u, act) == u;
      ReplaceTwice(s.apps, u);
    }
  }

  /** Replacing records keeps the position of the first match. */
  lemma FindAfterReplace(apps: seq<AppRecord>, rec: AppRecord, k: nat)
    requires k < |apps| && FindFirst(apps, rec.id) == k
    ensures FindFirst(ReplaceById(apps, rec), rec.id) == k
  {
    var r := ReplaceById(apps, rec);
    forall j | 0 <= j < k ensures r[j].id != rec.id {
      assert r[j] == apps[j];
    }
    FirstMatchIsFound(r, rec.id, k);
  }

  /** The first record carrying `id` is the one `FindFirst` reports. */
  lemma FirstMatchIsFound(apps: seq<AppRecord>, id: string, k: nat)
    requires k < |apps| && apps[k].id == id
    requires forall j :: 0 <= j < k ==> apps[j].id != id
    ensures FindFirst(apps, id) == k
  {
  }

  /** Replacing by the same record twice is replacing once. */
  lemma ReplaceTwice(apps: seq<AppRecord>, rec: AppRecord)
    ensures ReplaceById(ReplaceById(apps, rec), rec) == ReplaceById(apps, rec)
  {
    var once := ReplaceById(apps, rec);
    var twice := ReplaceById(once, rec);
    forall j | 0 <= j < |twice| ensures twice[j] == once[j] {
      if once[j].id == rec.id {
        assert apps[j].id == rec.id;
      }
    }
  }

  /** APP_CLICK without an index on an open application flips only
      `isMinimized`; doing it twice restores the original state. */
  lemma ClickWithoutIndexToggles(config: Option<seq<AppConfig>>, s: AppState, k: nat)
    requires UniqueIds(s.apps) && k < |s.apps| && s.apps[k].isOpened
    ensures var act := AppClick(s.apps[k].id, None);
      && Reduce(config, s, act).apps == s.apps[k := s.apps[k].(isMinimized := !s.apps[k].isMinimized)]
      && Reduce(config, Reduce(config, s, act), act) == s
  {
    var act := AppClick(s.apps[k].id, None);
    ReduceAt(config, s, act, k);
    var s1 := Reduce(config, s, act);
    ReduceAt(config, s1, act, k);
    assert Reduce(config, s1, act).apps == s.apps;
  }

  /** MINIMIZE sets `isMinimized` whatever it was and touches nothing else;
      a second MINIMIZE changes nothing. */
  lemma MinimizeIdempotent(config: Option<seq<AppConfig>>, s: AppState, k: nat)
    requires UniqueIds(s.apps) && k < |s.apps|
    ensures var act := Minimize(s.apps[k].id);
      && Reduce(config, s, act).apps == s.apps[k := s.apps[k].(isMinimized := true)]
      && Reduce(config, Reduce(config, s, act), act) == Reduce(config, s, act)
  {
    var act := Minimize(s.apps[k].id);
    ReduceAt(config, s, act, k);
    ReduceAt(config, Reduce(config, s, act), act, k);
  }

  /** MAXIMIZE flips only `isMaximized` and undoes itself. */
  lemma MaximizeInvolution(config: Option<seq<AppConfig>>, s: AppState, k: nat)
    requires UniqueIds(s.apps) && k < |s.apps|
    ensures var act := Maximize(s.apps[k].id);
      && Reduce(config, s, act).apps == s.apps[k := s.apps[k].(isMaximized := !s.apps[k].isMaximized)]
      && Reduce(config, Reduce(config, s, act), act) == s
  {
    var act := Maximize(s.apps[k].id);
    ReduceAt(config, s, act, k);
    var s1 := Reduce(config, s, act);
    ReduceAt(config, s1, act, k);
    assert Reduce(config, s1, act).apps == s.apps;
  }

  /** CLOSE clears the three window flags but keeps the active index, so a
      later index-less APP_CLICK reopens the application, unminimized and
      unmaximized, on the tab it showed before. */
  lemma CloseThenReopen(config: Option<seq<AppConfig>>, s: AppState, k: nat)
    requires UniqueIds(s.apps) && k < |s.apps|
    ensures var closed := Reduce(config, s, Close(s.apps[k].id));
      && closed.apps == s.apps[k := s.apps[k].(isOpened := false, isMinimized := false, isMaximized := false)]
      && Reduce(config, closed, AppClick(s.apps[k].id, None)).apps
         == s.apps[k := s.apps[k].(isOpened := true, isMinimized := false, isMaximized := false)]
  {
    var closed := Reduce(config, s, Close(s.apps[k].id));
    ReduceAt(config, s, Close(s.apps[k].id), k);
    ReduceAt(config, closed, AppClick(s.apps[k].id, None), k);
  }

  /** "Closed implies not maximized" survives every action but MAXIMIZE. */
  lemma ClosedNotMaximizedPreserved(config: Option<seq<AppConfig>>, s: AppState, act: Action)
    requires ClosedNotMaximized(s)
    requires !act.Maximize?
    ensures ClosedNotMaximized(Reduce(config, s, act))
  {
    if Targeted(act) {
      var r := Reduce(config, s, act);
      var k := FindFirst(s.apps, act.id);
      forall i | 0 <= i < |r.apps| && !r.apps[i].isOpened
        ensures !r.apps[i].isMaximized
      {
        if s.apps[i].id == act.id {
          assert r.apps[i] == Transition(s.apps[k], act);
          assert !s.apps[k].isOpened ==> !s.apps[k].isMaximized;
        }
      }
    }
  }

  /** "Closed implies not minimized" survives every action but MINIMIZE. */
  lemma ClosedNotMinimizedPreserved(config: Option<seq<AppConfig>>, s: AppState, act: Action)
    requires ClosedNotMinimized(s)
    requires !act.Minimize?
    ensures ClosedNotMinimized(Reduce(config, s, act))
  {
    if Targeted(act) {
      var r := Reduce(config, s, act);
      var k := FindFirst(s.apps, act.id);
      forall i | 0 <= i < |r.apps| && !r.apps[i].isOpened
        ensures !r.apps[i].isMinimized
      {
        if s.apps[i].id == act.id {
          assert r.apps[i] == Transition(s.apps[k], act);
          assert !s.apps[k].isOpened ==> !s.apps[k].isMinimized;
        }
      }
    }
  }

  /** MAXIMIZE does not look at `isOpened`: on a closed application it
      produces a closed, maximized record. */
  lemma MaximizeBreaksClosedNotMaximized(config: Option<seq<AppConfig>>)
    ensures var s := AppState([NewRecord(AppConfig("mail", "Mail", "", 0, true, false, true, None))]);
      && ClosedNotMaximized(s)
      && !ClosedNotMaximized(Reduce(config, s, Maximize("mail")))
  {
    var s := AppState([NewRecord(AppConfig("mail", "Mail", "", 0, true, false, true, None))]);
    assert FindFirst(s.apps, "mail") == 0;
    assert Reduce(config, s, Maximize("mail")).apps[0].isMaximized;
  }

  /** MINIMIZE does not look at `isOpened` either: on a closed application it
      produces a closed, minimized record. */
  lemma MinimizeBreaksClosedNotMinimized(config: Option<seq<AppConfig>>)
    ensures var s := AppState([NewRecord(AppConfig("mail", "Mail", "", 0, true, false, true, None))]);
      && ClosedNotMinimized(s)
      && !ClosedNotMinimized(Reduce(config, s, Minimize("mail")))
  {
    var s := AppState([NewRecord(AppConfig("mail", "Mail", "", 0, true, false, true, None))]);
    assert FindFirst(s.apps, "mail") == 0;
    assert Reduce(config, s, Minimize("mail")).apps[0].isMinimized;
  }
}

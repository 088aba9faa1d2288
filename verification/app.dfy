/** The application window: the page factories, `show_page` with its page
    cache, the top bar's navigation highlight and avatar initials, and the
    teardown on logout.  What a factory does when called (build the page,
    return `None`, or raise) is a parameter. */
module App {
  import opened Outcomes
  import opened Text
  import opened Seqs
  import opened Pages
  import opened Dispatch
  import opened Scheduler

  // ---------------------------------------------------------------------
  // Page factories

  /** Whether the logged-in user (if any) has the administrator role. */
  predicate IsAdmin(role: Option<string>) {
    role.Some? && role.value == "admin"
  }

  /** The factory map: which page class each key builds.  Prediction and
      Reports are deliberately swapped, and User Management has a factory
      only for an administrator. */
  function FactoryKind(isAdmin: bool, key: Key): (k: Option<PageKind>)
    ensures k.None? <==> key.Other? || (key == UserManagement && !isAdmin)
    ensures key == PredictionKey ==> k == Some(ReportPage)
    ensures key == ReportKey ==> k == Some(PredictionPage)
  {
    match key
    case Home => Some(HomePage)
    case About => Some(AboutPage)
    case Contact => Some(ContactPage)
    case DashboardKey => Some(DashboardPage)
    case Upload => Some(UploadPage)
    case VisualizationKey => Some(VisualizationPage)
    case PredictionKey => Some(ReportPage)
    case ReportKey => Some(PredictionPage)
    case UserManagement => if isAdmin then Some(UserManagementPage) else None
    case Other(_) => None
  }

  /** The key whose factory builds a page class. */
  function KeyFor(kind: PageKind): Key {
    match kind
    case HomePage => Home
    case AboutPage => About
    case ContactPage => Contact
    case DashboardPage => DashboardKey
    case UploadPage => Upload
    case VisualizationPage => VisualizationKey
    case PredictionPage => ReportKey
    case ReportPage => PredictionKey
    case UserManagementPage => UserManagement
  }

  /** Each page class has exactly one key: `KeyFor` inverts the factory
      map, for an administrator every class is reachable, and for anyone
      else every class but User Management. */
  lemma FactoryInverse(isAdmin: bool, key: Key, kind: PageKind)
    ensures FactoryKind(isAdmin, key) == Some(kind) ==> key == KeyFor(kind)
    ensures kind != UserManagementPage || isAdmin ==> FactoryKind(isAdmin, KeyFor(kind)) == Some(kind)
  {
  }

  // ---------------------------------------------------------------------
  // show_page

  /** What calling a factory does this time. */
  datatype Outcome = Raises | ReturnsNone | ReturnsPage

  /** A factory call: which key, and what came of it. */
  datatype Call = Call(key: Key, outcome: Outcome)

  /** The window's page state: the role gate for the factory map, the page
      cache (`None` cached where a factory returned `None`), the current
      page's key, and the factory calls made so far. */
  datatype Shell = Shell(admin: bool, pages: map<Key, Option<PageKind>>, current: Option<Key>, calls: seq<Call>)

  function Initial(admin: bool): Shell {
    Shell(admin, map[], None, [])
  }

  datatype Message = Opened | AccessDenied | PageError

  datatype Shown = Shown(shell: Shell, message: Message)

  /** A page is cached and can be shown without a factory call. */
  predicate Cached(s: Shell, key: Key) {
    key in s.pages && s.pages[key].Some?
  }

  /** `show_page(key)`: a cached page is shown again; otherwise the key's
      factory is called, unless there is none (access denied).  A factory
      that raises leaves nothing cached; one that returns `None` caches the
      `None` and reports an error; a built page is cached and becomes
      current. */
  function ShowPage(s: Shell, key: Key, outcome: Outcome): (r: Shown)
    ensures r.shell.admin == s.admin
    ensures Cached(s, key) ==> r == Shown(s.(current := Some(key)), Opened)
    ensures !Cached(s, key) && FactoryKind(s.admin, key).None? ==> r == Shown(s, AccessDenied)
    ensures !Cached(s, key) && FactoryKind(s.admin, key).Some? ==>
              && r.shell.calls == s.calls + [Call(key, outcome)]
              && (outcome == Raises ==> r.shell.pages == s.pages && r.shell.current == s.current && r.message == PageError)
              && (outcome == ReturnsNone ==> r.shell.pages == s.pages[key := None] && r.shell.current == s.current
                                             && r.message == PageError)
              && (outcome == ReturnsPage ==> r.shell.pages == s.pages[key := FactoryKind(s.admin, key)]
                                             && r.shell.current == Some(key) && r.message == Opened)
  {
    if Cached(s, key) then Shown(s.(current := Some(key)), Opened)
    else match FactoryKind(s.admin, key)
      case None => Shown(s, AccessDenied)
      case Some(kind) =>
        var logged := s.(calls := s.calls + [Call(key, outcome)]);
        match outcome
        case Raises => Shown(logged, PageError)
        case ReturnsNone => Shown(logged.(pages := s.pages[key := None]), PageError)
        case ReturnsPage => Shown(logged.(pages := s.pages[key := Some(kind)], current := Some(key)), Opened)
  }

  /** The number of calls of `key`'s factory that built a page. */
  function Built(calls: seq<Call>, key: Key): nat
    decreases |calls|
  {
    if |calls| == 0 then 0
    else (if calls[0] == Call(key, ReturnsPage) then 1 else 0) + Built(calls[1..], key)
  }

  lemma {:induction false} BuiltAppend(calls: seq<Call>, c: Call, key: Key)
    ensures Built(calls + [c], key) == Built(calls, key) + (if c == Call(key, ReturnsPage) then 1 else 0)
    decreases |calls|
  {
    if |calls| == 0 {
      assert [c][1..] == [];
    } else {
      assert (calls + [c])[1..] == calls[1..] + [c];
      BuiltAppend(calls[1..], c, key);
    }
  }

  /** The cache invariant: a key has a cached page exactly when its factory
      has built one, and then only once; cached pages are of the class the
      factory map names; the current page is a cached one. */
  ghost predicate Consistent(s: Shell) {
    && (forall key :: Built(s.calls, key) <= 1)
    && (forall key :: Cached(s, key) <==> Built(s.calls, key) == 1)
    && (forall key :: Cached(s, key) ==> s.pages[key] == FactoryKind(s.admin, key))
    && (s.current.Some? ==> Cached(s, s.current.value))
  }

  lemma ConsistentInitial(admin: bool)
    ensures Consistent(Initial(admin))
  {
  }

  /** `show_page` keeps the cache invariant. */
  lemma ShowPageConsistent(s: Shell, key: Key, outcome: Outcome)
    requires Consistent(s)
    ensures Consistent(ShowPage(s, key, outcome).shell)
  {
    if !Cached(s, key) && FactoryKind(s.admin, key).Some? {
      if outcome == ReturnsPage {
        BuildConsistent(s, key);
      } else {
        FailConsistent(s, key, outcome, if outcome == Raises then s.pages else s.pages[key := None]);
      }
    }
  }

  /** A first successful build caches the page, counts one build and makes
      it current. */
  lemma BuildConsistent(s: Shell, key: Key)
    requires Consistent(s) && !Cached(s, key) && FactoryKind(s.admin, key).Some?
    ensures Consistent(Shell(s.admin, s.pages[key := FactoryKind(s.admin, key)], Some(key), s.calls + [Call(key, ReturnsPage)]))
  {
    forall k
      ensures Built(s.calls + [Call(key, ReturnsPage)], k) == Built(s.calls, k) + (if k == key then 1 else 0)
    {
      BuiltAppend(s.calls, Call(key, ReturnsPage), k);
    }
  }

  /** A failed call builds nothing and caches no page. */
  lemma FailConsistent(s: Shell, key: Key, outcome: Outcome, pages: map<Key, Option<PageKind>>)
    requires Consistent(s) && !Cached(s, key) && outcome != ReturnsPage
    requires pages == s.pages || pages == s.pages[key := None]
    ensures Consistent(Shell(s.admin, pages, s.current, s.calls + [Call(key, outcome)]))
  {
    forall k
      ensures Built(s.calls + [Call(key, outcome)], k) == Built(s.calls, k)
    {
      BuiltAppend(s.calls, Call(key, outcome), k);
    }
    var r := Shell(s.admin, pages, s.current, s.calls + [Call(key, outcome)]);
    forall k
      ensures Cached(r, k) <==> Cached(s, k)
      ensures Cached(r, k) ==> r.pages[k] == s.pages[k]
    {
      if k == key {
        assert !Cached(r, k);
      }
    }
  }

  /** A session of navigation requests, each with what its factory would
      do if called. */
  function Run(s: Shell, requests: seq<Call>): Shell
    decreases |requests|
  {
    if |requests| == 0 then s
    else Run(ShowPage(s, requests[0].key, requests[0].outcome).shell, requests[1..])
  }

  /** However the user navigates, every factory builds its page at most
      once: later requests reuse the cached page. */
  lemma {:induction false} EachPageBuiltOnce(s: Shell, requests: seq<Call>, key: Key)
    requires Consistent(s)
    ensures Consistent(Run(s, requests))
    ensures Built(Run(s, requests).calls, key) <= 1
    decreases |requests|
  {
    if |requests| > 0 {
      ShowPageConsistent(s, requests[0].key, requests[0].outcome);
      EachPageBuiltOnce(ShowPage(s, requests[0].key, requests[0].outcome).shell, requests[1..], key);
    }
  }

  /** A user who is not an administrator is denied User Management every
      time, and the attempt changes nothing. */
  lemma NonAdminDenied(s: Shell, outcome: Outcome)
    requires Consistent(s) && !s.admin
    ensures ShowPage(s, UserManagement, outcome) == Shown(s, AccessDenied)
  {
  }

  // ---------------------------------------------------------------------
  // Top bar: navigation highlight and avatar

  datatype Style = Success | Secondary

  /** The top bar's navigation buttons, in order. */
  const NavKeys: seq<Key> := [Home, DashboardKey, Upload, VisualizationKey, PredictionKey, ReportKey, About]

  datatype Nav = Nav(keys: seq<Key>, styles: seq<Style>, active: Option<Key>)

  /** `_on_nav_click(key)` before it shows the page: the clicked key's
      button in the success style, every other one secondary, and the key
      remembered as active. */
  function NavClick(n: Nav, key: Key): (r: Nav)
    ensures r.keys == n.keys && |r.styles| == |n.keys| && r.active == Some(key)
    ensures forall i :: 0 <= i < |n.keys| ==> (r.styles[i] == Success <==> n.keys[i] == key)
  {
    Nav(n.keys, seq(|n.keys|, i requires 0 <= i < |n.keys| => if n.keys[i] == key then Success else Secondary), Some(key))
  }

  /** `_hide_tooltip`: besides the tooltip it also forgets the active key. */
  function HideTooltip(n: Nav): (r: Nav)
    ensures r.active.None? && r.styles == n.styles && r.keys == n.keys
  {
    n.(active := None)
  }

  /** With distinct keys a click highlights exactly one button when the key
      is on the bar and none otherwise, whatever was highlighted before;
      leaving any button afterwards forgets the active key. */
  lemma OneHighlighted(n: Nav, key: Key, i: nat, j: nat)
    requires NoDup(n.keys)
    requires i < |n.keys| && j < |n.keys|
    ensures var r := NavClick(n, key);
            (r.styles[i] == Success && r.styles[j] == Success ==> i == j)
            && (key in n.keys <==> exists k :: 0 <= k < |n.keys| && r.styles[k] == Success)
            && HideTooltip(r).active.None?
  {
    var r := NavClick(n, key);
    if key in n.keys {
      var k :| 0 <= k < |n.keys| && n.keys[k] == key;
      assert r.styles[k] == Success;
    }
  }

  /** The first character of each word. */
  function Firsts(ws: seq<string>): (r: string)
    requires Words(ws)
    ensures |r| == |ws|
    ensures forall i :: 0 <= i < |ws| ==> r[i] == ws[i][0]
  {
    seq(|ws|, i requires 0 <= i < |ws| => ws[i][0])
  }

  /** The initials of a list of words: their first characters,
      upper-cased, at most two. */
  function InitialsOf(ws: seq<string>): (r: string)
    requires Words(ws)
    ensures |r| == if |ws| <= 2 then |ws| else 2
    ensures forall i :: 0 <= i < |r| ==> r[i] == UpperChar(ws[i][0])
  {
    Upper(Firsts(if |ws| <= 2 then ws else ws[..2]))
  }

  /** The avatar initials: the first character of each whitespace-separated
      word of the user name, upper-cased, at most two. */
  function Initials(username: string): (r: string)
    ensures |r| == if |SplitWs(username)| <= 2 then |SplitWs(username)| else 2
    ensures |r| == 0 <==> AllSpace(username)
    ensures forall i :: 0 <= i < |r| ==> r[i] == UpperChar(SplitWs(username)[i][0])
  {
    InitialsOf(SplitWs(username))
  }

  /** The avatar text: the initials, or a placeholder when there are none. */
  function Avatar(username: string): (r: string)
    ensures r != ""
    ensures !AllSpace(username) ==> r == Initials(username)
  {
    var i := Initials(username);
    if i != "" then i else "\U{1F464}"
  }

  /** Leading blanks in a user name do not change the initials. */
  lemma InitialsIgnoreLeadingBlanks(pre: string, username: string)
    requires AllSpace(pre)
    ensures Initials(pre + username) == Initials(username)
  {
    TrimLeftSkips(pre, username);
    assert SplitWs(pre + username) == SplitWs(username);
  }

  // ---------------------------------------------------------------------
  // Logout

  /** The stop methods logout looks for that a page actually has. */
  datatype Stop = StopScheduleCall | StopSocketCall

  function StopsOf(kind: PageKind): seq<Stop> {
    match kind
    case ReportPage => [StopScheduleCall]
    case UploadPage => [StopSocketCall]
    case _ => []
  }

  /** What logout leaves of one cached page: its class, whether its
      `_shutdown` flag ends up set, the stop methods called, and that it was
      destroyed. */
  datatype Teardown = Teardown(kind: PageKind, shutdown: bool, stops: seq<Stop>, destroyed: bool)

  /** `logout` over the page cache: every cached page (the `None` entries
      skipped) has its flag set where it has one, its stop methods called,
      and is destroyed. */
  function Logout(pages: map<Key, Option<PageKind>>): (r: map<Key, Teardown>)
    ensures forall k :: k in r <==> k in pages && pages[k].Some?
    ensures forall k :: k in r ==> && r[k].kind == pages[k].value && r[k].destroyed
                                   && (r[k].shutdown <==> ShutdownAware(r[k].kind))
                                   && r[k].stops == StopsOf(r[k].kind)
  {
    map k | k in pages && pages[k].Some? ::
      Teardown(pages[k].value, ShutdownAware(pages[k].value), StopsOf(pages[k].value), true)
  }

  /** The report page at logout: the flag is set first, then
      `stop_schedule` runs (its notice meets the raised flag and is
      dropped), then the page is destroyed. */
  function LogoutReportPage(s: Sched): (r: Sched)
    ensures !r.running && r.ui.shutdown && !r.ui.alive && r.ui.pending == []
    ensures r.ui.ran == s.ui.ran && r.workers == s.workers
  {
    var flagged := s.(ui := s.ui.(shutdown := true));
    var stopped := StopSchedule(flagged);
    stopped.(ui := Destroy(stopped.ui))
  }

  /** After logout no scheduler worker can ask for another report: every
      worker step leaves the page's UI side as it is, and each worker is
      finished within two of its steps. */
  lemma LogoutSilencesScheduler(s: Sched, i: nat, fixed: bool)
    requires i < |s.workers|
    ensures var r := LogoutReportPage(s);
            && !Dispatches(r, i, fixed)
            && WorkerStep(r, i, fixed).ui == r.ui
            && WorkerStep(WorkerStep(r, i, fixed), i, fixed).workers[i].phase == Exited
  {
    var r := LogoutReportPage(s);
    DispatchQueuesOne(r, i, fixed);
  }
}

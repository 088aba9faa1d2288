/** The navigation sidebar: its navigation entries, the session action
    counter, the API quota, the notification list fed from the
    notification centre, and its shutdown. */
module Sidebar {
  import opened Outcomes
  import opened Text
  import opened Dispatch
  import opened Pages
  import opened Notifications
  import opened Seqs

  /** The sidebar's state.  `ui.ran` is the notification list: the
      deferred `_add` calls that have run; `ui.pending` those still queued.
      `pref` is the user's `notifications` setting, if any; `shown` the
      pages navigated to. */
  datatype Bar = Bar(ui: Ui<string>, actions: nat, quota: int, pref: Option<bool>, shown: seq<Key>)

  const InitialQuota := 100

  function Fresh(pref: Option<bool>): Bar {
    Bar(Dispatch.Fresh(), 0, InitialQuota, pref, [])
  }

  // ---------------------------------------------------------------------
  // Navigation

  /** The entries of the sidebar: four for everyone; an administrator also
      gets Upload Data second and User Management last. */
  function NavItems(isAdmin: bool): (r: seq<Key>)
    ensures |r| == if isAdmin then 6 else 4
    ensures isAdmin ==> r[1] == Upload && r[5] == UserManagement
    ensures Upload in r <==> isAdmin
    ensures UserManagement in r <==> isAdmin
  {
    var base := [DashboardKey, VisualizationKey, PredictionKey, ReportKey];
    if isAdmin then [base[0], Upload] + base[1..] + [UserManagement] else base
  }

  /** The administrator's entries are the ordinary ones with exactly the
      two extra entries added. */
  lemma AdminNavExtends()
    ensures var a, u := NavItems(true), NavItems(false);
            [a[0]] + a[2..5] == u
  {
  }

  /** `_navigate`: one more session action, and the page is shown. */
  function Navigate(b: Bar, key: Key): (r: Bar)
    ensures r.actions == b.actions + 1 && r.shown == b.shown + [key]
    ensures r.ui == b.ui && r.quota == b.quota
  {
    b.(actions := b.actions + 1, shown := b.shown + [key])
  }

  function NavigateAll(b: Bar, keys: seq<Key>): Bar
    decreases |keys|
  {
    if |keys| == 0 then b else NavigateAll(Navigate(b, keys[0]), keys[1..])
  }

  /** The session counter counts navigations exactly, and the pages shown
      are the keys clicked, in order. */
  lemma {:induction false} NavigateCounts(b: Bar, keys: seq<Key>)
    ensures NavigateAll(b, keys).actions == b.actions + |keys|
    ensures NavigateAll(b, keys).shown == b.shown + keys
    decreases |keys|
  {
    if |keys| > 0 {
      NavigateCounts(Navigate(b, keys[0]), keys[1..]);
      assert b.shown + [keys[0]] + keys[1..] == b.shown + keys;
    }
  }

  // ---------------------------------------------------------------------
  // API quota

  /** `update_api_quota(used)`: never below zero. */
  function UpdateApiQuota(q: int, used: int): (r: int)
    ensures r >= 0
    ensures q - used >= 0 ==> r == q - used
    ensures q - used < 0 ==> r == 0
  {
    if q - used > 0 then q - used else 0
  }

  function Sum(xs: seq<nat>): nat
    decreases |xs|
  {
    if |xs| == 0 then 0 else xs[0] + Sum(xs[1..])
  }

  function SpendAll(q: int, uses: seq<nat>): int
    decreases |uses|
  {
    if |uses| == 0 then q else SpendAll(UpdateApiQuota(q, uses[0]), uses[1..])
  }

  /** Spending a series of non-negative amounts from a non-negative quota
      leaves what one spend of their total would leave. */
  lemma {:induction false} SpendAllIsOneSpend(q: int, uses: seq<nat>)
    requires q >= 0
    ensures SpendAll(q, uses) == UpdateApiQuota(q, Sum(uses))
    decreases |uses|
  {
    if |uses| > 0 {
      SpendAllIsOneSpend(UpdateApiQuota(q, uses[0]), uses[1..]);
    }
  }

  // ---------------------------------------------------------------------
  // Notifications

  /** `add_notification`: while the sidebar is live and not shut down the
      message is queued for the event loop; otherwise, or when `after`
      raises, it is dropped. */
  function AddNotification(b: Bar, message: string, afterFails: bool): (r: Bar)
    ensures Accepts(b.ui) && !afterFails ==> r.ui.pending == b.ui.pending + [message] && r.ui.ran == b.ui.ran
    ensures !Accepts(b.ui) || afterFails ==> r == b
    ensures r.ui.shutdown == b.ui.shutdown && r.ui.alive == b.ui.alive
  {
    if Accepts(b.ui) && !afterFails then b.(ui := b.ui.(pending := b.ui.pending + [message])) else b
  }

  /** The notifications preference; absent means on. */
  predicate WantsNotifications(b: Bar) {
    b.pref.None? || b.pref.value
  }

  /** `"[TYPE] message"` with the type upper-cased. */
  function Tagged(eventType: string, message: string): string {
    "[" + Upper(eventType) + "] " + message
  }

  /** `backend_event_notification`: tagged and added only when the user
      wants notifications. */
  function BackendEvent(b: Bar, eventType: string, message: string): (r: Bar)
    ensures !WantsNotifications(b) ==> r == b
    ensures WantsNotifications(b) ==> r == AddNotification(b, Tagged(eventType, message), false)
  {
    if WantsNotifications(b) then AddNotification(b, Tagged(eventType, message), false) else b
  }

  /** An event reaching a live sidebar whose user wants notifications shows
      up, tagged, once the loop has run the calls queued before it; with the
      preference off, or once the sidebar is shut down, nothing changes. */
  lemma EventArrives(b: Bar, eventType: string, message: string)
    requires Accepts(b.ui) && b.ui.pending == []
    ensures WantsNotifications(b) ==>
              Pump(BackendEvent(b, eventType, message).ui).ran == b.ui.ran + [Tagged(eventType, message)]
    ensures !WantsNotifications(b) ==> BackendEvent(b, eventType, message) == b
    ensures BackendEvent(b.(ui := b.ui.(shutdown := true)), eventType, message) == b.(ui := b.ui.(shutdown := true))
  {
  }

  /** `clear_notifications`: the list is emptied; calls already queued
      still add their message later. */
  function ClearNotifications(b: Bar): (r: Bar)
    ensures r.ui.ran == [] && r.ui.pending == b.ui.pending
    ensures r.actions == b.actions && r.quota == b.quota
  {
    b.(ui := b.ui.(ran := []))
  }

  /** After clearing, the list holds exactly the messages that were still
      queued, once the loop has run them. */
  lemma {:induction false} ClearThenDrain(b: Bar, n: nat)
    requires b.ui.alive && n == |b.ui.pending|
    ensures Drain(ClearNotifications(b).ui, n).ran == b.ui.pending
    decreases n
  {
    DrainAll(ClearNotifications(b).ui, n);
  }

  /** The event loop run `n` times. */
  function Drain<C>(u: Ui<C>, n: nat): Ui<C>
    decreases n
  {
    if n == 0 then u else Drain(Pump(u), n - 1)
  }

  lemma {:induction false} DrainAll<C>(u: Ui<C>, n: nat)
    requires u.alive && n == |u.pending|
    ensures Drain(u, n).ran == u.ran + u.pending
    decreases n
  {
    if n > 0 {
      DrainAll(Pump(u), n - 1);
      assert u.pending == [u.pending[0]] + u.pending[1..];
    } else {
      assert u.ran + u.pending == u.ran;
    }
  }

  // ---------------------------------------------------------------------
  // Shutdown

  /** The sidebar together with the notification centre's subscriber
      list. */
  datatype World<S> = World(bar: Bar, subs: seq<S>)

  /** `stop_socket` as written: the shutdown flag goes up, but without the
      socket.io package the method returns before unregistering, so the
      sidebar stays subscribed. */
  function StopSocket<S(==)>(w: World<S>, me: S, hasSocketIo: bool): (r: World<S>)
    ensures r.bar.ui.shutdown && r.bar.ui.alive == w.bar.ui.alive
    ensures hasSocketIo ==> r.subs == Unregister(w.subs, me)
    ensures !hasSocketIo ==> r.subs == w.subs
  {
    var bar := w.bar.(ui := w.bar.ui.(shutdown := true));
    if !hasSocketIo then World(bar, w.subs) else World(bar, Unregister(w.subs, me))
  }

  /** Without socket.io a stopped sidebar is still subscribed and every
      later broadcast still hands it the event (which its gate then
      drops). */
  lemma StaleSubscription<S>(w: World<S>, me: S, kind: S -> Kind, raises: S -> bool, eventType: string, message: string)
    requires me in w.subs && kind(me) == BackendHook && !raises(me)
    ensures var r := StopSocket(w, me, false);
            me in r.subs
            && Delivery(me, Backend(eventType, message)) in Notify(r.subs, kind, raises, eventType, message)
            && BackendEvent(r.bar, eventType, message).ui == r.bar.ui
  {
    var r := StopSocket(w, me, false);
    DeliveredWhenSubscribed(r.subs, me, kind, raises, eventType, message);
  }

  lemma {:induction false} DeliveredWhenSubscribed<S>(subs: seq<S>, me: S, kind: S -> Kind, raises: S -> bool,
                                                        eventType: string, message: string)
    requires me in subs && kind(me) == BackendHook && !raises(me)
    ensures Delivery(me, Backend(eventType, message)) in Notify(subs, kind, raises, eventType, message)
    decreases |subs|
  {
    var d := Delivery(me, Backend(eventType, message));
    if subs[0] == me {
      assert DeliverTo(me, kind, raises, eventType, message) == [d];
    } else {
      DeliveredWhenSubscribed(subs[1..], me, kind, raises, eventType, message);
    }
  }

  /** Corrected `stop_socket`: the flag goes up and the sidebar always
      leaves the subscriber list, socket.io or not. */
  function StopSocketFixed<S(==)>(w: World<S>, me: S): (r: World<S>)
    ensures r.bar.ui.shutdown && r.bar.ui.alive == w.bar.ui.alive
    ensures r.subs == Unregister(w.subs, me)
  {
    World(w.bar.(ui := w.bar.ui.(shutdown := true)), Unregister(w.subs, me))
  }

  /** After the corrected stop no broadcast reaches the sidebar, and every
      other subscriber still receives exactly what it did before. */
  lemma StoppedSidebarHearsNothing<S>(w: World<S>, me: S, kind: S -> Kind, raises: S -> bool,
                                          eventType: string, message: string, other: S)
    requires NoDup(w.subs)
    ensures var r := StopSocketFixed(w, me);
            To(Notify(r.subs, kind, raises, eventType, message), me) == []
    ensures other != me ==>
              To(Notify(StopSocketFixed(w, me).subs, kind, raises, eventType, message), other)
              == To(Notify(w.subs, kind, raises, eventType, message), other)
  {
    var r := StopSocketFixed(w, me);
    NotifyIsolated(r.subs, kind, raises, eventType, message, me);
    NotifyIsolated(r.subs, kind, raises, eventType, message, other);
    NotifyIsolated(w.subs, kind, raises, eventType, message, other);
  }
}

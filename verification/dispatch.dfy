/** The UI-thread gate every page uses (`safe_ui_update`): a call made from
    a worker is queued on the Tk event loop with `after(0, ...)` while the
    page is live, and dropped once the page is shutting down or its widget
    is gone.  Threads are interleaved atomic steps over this state. */
module Dispatch {

  /** A page's side of the event loop: its shutdown flag, whether its
      widget still exists, the deferred calls waiting in the loop and the
      calls that have run, in the order they ran. */
  datatype Ui<C> = Ui(shutdown: bool, alive: bool, pending: seq<C>, ran: seq<C>)

  function Fresh<C>(): Ui<C> {
    Ui(false, true, [], [])
  }

  /** The gate: not shutting down and the widget exists. */
  predicate Accepts<C>(u: Ui<C>) {
    !u.shutdown && u.alive
  }

  /** `safe_ui_update(f)`: while the page is live, exactly one deferred call
      is queued; should `after` itself raise, `f` runs at once instead; a
      page that is shutting down or gone drops the call. */
  function SafeUiUpdate<C>(u: Ui<C>, f: C, afterFails: bool): (r: Ui<C>)
    ensures !Accepts(u) ==> r == u
    ensures r.shutdown == u.shutdown && r.alive == u.alive
    ensures Accepts(u) ==> |r.pending| + |r.ran| == |u.pending| + |u.ran| + 1
    ensures Accepts(u) && !afterFails ==> r.pending == u.pending + [f] && r.ran == u.ran
  {
    if !Accepts(u) then u
    else if afterFails then u.(ran := u.ran + [f])
    else u.(pending := u.pending + [f])
  }

  /** The event loop runs the oldest deferred call of a live widget. */
  function Pump<C>(u: Ui<C>): (r: Ui<C>)
    ensures u.pending == [] || !u.alive ==> r == u
    ensures u.pending != [] && u.alive ==> r.ran == u.ran + [u.pending[0]] && r.pending == u.pending[1..]
  {
    if u.pending == [] || !u.alive then u
    else u.(pending := u.pending[1..], ran := u.ran + [u.pending[0]])
  }

  /** `destroy`: the shutdown flag is set first, then the widget goes, and
      with it the deferred calls it had registered. */
  function Destroy<C>(u: Ui<C>): (r: Ui<C>)
    ensures r.shutdown && !r.alive && r.pending == [] && r.ran == u.ran
  {
    Ui(true, false, [], u.ran)
  }

  datatype Event<C> = Update(f: C, afterFails: bool) | Loop | Close

  function Step<C>(u: Ui<C>, e: Event<C>): Ui<C> {
    match e
    case Update(f, fails) => SafeUiUpdate(u, f, fails)
    case Loop => Pump(u)
    case Close => Destroy(u)
  }

  /** The state after a run of events, oldest first. */
  function Replay<C>(u: Ui<C>, events: seq<Event<C>>): Ui<C>
    decreases |events|
  {
    if |events| == 0 then u else Replay(Step(u, events[0]), events[1..])
  }

  /** Replaying two runs is replaying the first and then the second. */
  lemma {:induction false} ReplayAppend<C>(u: Ui<C>, a: seq<Event<C>>, b: seq<Event<C>>)
    ensures Replay(u, a + b) == Replay(Replay(u, a), b)
    decreases |a|
  {
    if |a| == 0 {
      assert a + b == b;
    } else {
      assert (a + b)[0] == a[0];
      assert (a + b)[1..] == a[1..] + b;
      ReplayAppend(Step(u, a[0]), a[1..], b);
    }
  }

  /** A destroyed page stays inert: whatever workers submit later and
      however often the loop turns, nothing is queued and nothing runs. */
  lemma {:induction false} InertAfterDestroy<C>(u: Ui<C>, events: seq<Event<C>>)
    requires u.shutdown && !u.alive && u.pending == []
    ensures Replay(u, events) == u
    decreases |events|
  {
    if |events| > 0 {
      InertAfterDestroy(Step(u, events[0]), events[1..]);
    }
  }

  /** Nothing runs after `destroy`: the calls that ever run are those that
      had run when the page was destroyed. */
  lemma NothingRunsAfterDestroy<C>(u: Ui<C>, before: seq<Event<C>>, after: seq<Event<C>>)
    ensures Replay(u, before + [Close] + after).ran == Replay(u, before).ran
  {
    ReplayAppend(u, before + [Close], after);
    ReplayAppend(u, before, [Close]);
    InertAfterDestroy(Destroy(Replay(u, before)), after);
  }

  /** The calls submitted by a run of events. */
  function Submitted<C>(events: seq<Event<C>>): seq<C>
    decreases |events|
  {
    if |events| == 0 then []
    else (if events[0].Update? then [events[0].f] else []) + Submitted(events[1..])
  }

  predicate NoClose<C>(events: seq<Event<C>>) {
    forall i :: 0 <= i < |events| ==> !events[i].Close?
  }

  /** The calls one event submits. */
  function SubmittedBy<C>(e: Event<C>): seq<C> {
    if e.Update? then [e.f] else []
  }

  /** One event on a live page: it stays live, and the calls that ran
      followed by those waiting gain exactly what the event submitted
      (when `after` does not fail). */
  lemma StepLive<C>(u: Ui<C>, e: Event<C>)
    requires Accepts(u) && !e.Close?
    ensures Accepts(Step(u, e))
    ensures multiset(Step(u, e).ran) + multiset(Step(u, e).pending)
            == multiset(u.ran) + multiset(u.pending) + multiset(SubmittedBy(e))
    ensures (e.Update? && !e.afterFails) || e.Loop? ==>
              Step(u, e).ran + Step(u, e).pending == u.ran + u.pending + SubmittedBy(e)
  {
    match e
    case Update(f, fails) => UpdateLive(u, f, fails);
    case Loop => LoopLive(u);
  }

  lemma UpdateLive<C>(u: Ui<C>, f: C, fails: bool)
    requires Accepts(u)
    ensures var r := SafeUiUpdate(u, f, fails);
            && multiset(r.ran) + multiset(r.pending) == multiset(u.ran) + multiset(u.pending) + multiset([f])
            && (!fails ==> r.ran + r.pending == u.ran + u.pending + [f])
  {
    var r := SafeUiUpdate(u, f, fails);
    if fails {
      assert r.ran == u.ran + [f] && r.pending == u.pending;
      assert multiset(r.ran) == multiset(u.ran) + multiset([f]);
    } else {
      assert r.ran == u.ran && r.pending == u.pending + [f];
      assert multiset(r.pending) == multiset(u.pending) + multiset([f]);
      assert r.ran + r.pending == (u.ran + u.pending) + [f];
    }
  }

  lemma LoopLive<C>(u: Ui<C>)
    requires u.alive
    ensures var r := Pump(u);
            && multiset(r.ran) + multiset(r.pending) == multiset(u.ran) + multiset(u.pending)
            && r.ran + r.pending == u.ran + u.pending
  {
    if u.pending != [] {
      var r := Pump(u);
      var x := u.pending[0];
      assert u.pending == [x] + r.pending;
      assert r.ran == u.ran + [x];
      assert r.ran + r.pending == u.ran + ([x] + r.pending);
      assert multiset(u.pending) == multiset([x]) + multiset(r.pending);
      assert multiset(r.ran) == multiset(u.ran) + multiset([x]);
    }
  }

  /** While the page lives nothing is lost: every call submitted has either
      run or is still waiting, each exactly as often as it was submitted. */
  lemma {:induction false} NothingLostWhileLive<C>(u: Ui<C>, events: seq<Event<C>>)
    requires Accepts(u) && NoClose(events)
    ensures Accepts(Replay(u, events))
    ensures multiset(Replay(u, events).ran) + multiset(Replay(u, events).pending)
            == multiset(u.ran) + multiset(u.pending) + multiset(Submitted(events))
    decreases |events|
  {
    if |events| > 0 {
      StepLive(u, events[0]);
      NothingLostWhileLive(Step(u, events[0]), events[1..]);
      assert Submitted(events) == SubmittedBy(events[0]) + Submitted(events[1..]);
    }
  }

  /** An event that neither closes the page nor finds `after` failing. */
  predicate Steady<C>(e: Event<C>) {
    e.Loop? || (e.Update? && !e.afterFails)
  }

  /** While the page lives and `after` never fails, calls run in exactly
      the order they were submitted, and the waiting ones follow in order. */
  lemma {:induction false} InOrderWhileLive<C>(u: Ui<C>, events: seq<Event<C>>)
    requires Accepts(u)
    requires forall i :: 0 <= i < |events| ==> Steady(events[i])
    ensures Replay(u, events).ran + Replay(u, events).pending == u.ran + u.pending + Submitted(events)
    decreases |events|
  {
    if |events| > 0 {
      var e, rest := events[0], events[1..];
      var v := Step(u, e);
      StepLive(u, e);
      assert forall i :: 0 <= i < |rest| ==> Steady(rest[i]) by {
        forall i | 0 <= i < |rest| ensures Steady(rest[i]) {
          assert rest[i] == events[i + 1];
        }
      }
      InOrderWhileLive(v, rest);
      assert Replay(u, events) == Replay(v, rest);
      ConcatStep(u.ran + u.pending, SubmittedBy(e), Submitted(rest));
    }
  }

  lemma ConcatStep<C>(a: seq<C>, b: seq<C>, c: seq<C>)
    ensures a + (b + c) == (a + b) + c
  {
  }
}

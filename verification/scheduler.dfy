/** The periodic report scheduler of the report page: the Start and Stop
    buttons and the worker thread that asks the UI thread for a report once
    per interval, waiting in one-second ticks and re-checking the flags
    before every tick.  Worker threads are modelled as steps the scheduler
    interleaves with the UI actions. */
module Scheduler {
  import opened Outcomes
  import opened Numbers
  import opened Dispatch

  /** What the worker hands to the UI thread, and the notices it shows. */
  datatype Call = GenerateReport | ShowInfo(text: string)

  /** Where a worker thread is: at the head of its loop, waiting with some
      ticks of the interval left, or finished. */
  datatype Phase = Head | Waiting(left: nat) | Exited

  /** A worker: its interval in minutes, its position and the run of the
      scheduler that started it. */
  datatype Worker = Worker(minutes: int, phase: Phase, gen: nat)

  /** The page's scheduling state: `sched_running`, the UI gate (holding
      `_shutdown`), the worker threads started so far, the number of
      schedules started, and the dialogs shown directly on the UI thread. */
  datatype Sched = Sched(running: bool, ui: Ui<Call>, workers: seq<Worker>, gen: nat, shown: seq<string>)

  function Initial(): Sched {
    Sched(false, Fresh(), [], 0, [])
  }

  const AlreadyRunning := "Scheduling already running."
  const BadMinutes := "Enter a positive integer for minutes."

  /** The ticks one interval lasts: `max(1, minutes * 60)`. */
  function Interval(minutes: int): (k: nat)
    ensures k >= 1 && k >= minutes * 60
    ensures k == 1 || k == minutes * 60
  {
    if minutes * 60 > 1 then minutes * 60 else 1
  }

  /** `start_schedule`: refused while a schedule runs; a text that is not a
      positive integer is refused; otherwise the flag goes up and exactly
      one worker starts. */
  function StartSchedule(s: Sched, text: string): (r: Sched)
    ensures s.running ==> r == s.(shown := s.shown + [AlreadyRunning])
    ensures !s.running && (ParseInt(text).None? || ParseInt(text).value <= 0) ==>
              r == s.(shown := s.shown + [BadMinutes])
    ensures !s.running && ParseInt(text).Some? && ParseInt(text).value > 0 ==>
              && r.running && r.gen == s.gen + 1
              && r.workers == s.workers + [Worker(ParseInt(text).value, Head, s.gen + 1)]
              && r.ui.shutdown == s.ui.shutdown
  {
    if s.running then s.(shown := s.shown + [AlreadyRunning])
    else match ParseInt(text)
      case None => s.(shown := s.shown + [BadMinutes])
      case Some(m) =>
        if m <= 0 then s.(shown := s.shown + [BadMinutes])
        else
          var note := ShowInfo("Auto-report generation started (every " + NatToString(m) + " min).");
          Sched(true, SafeUiUpdate(s.ui, note, false), s.workers + [Worker(m, Head, s.gen + 1)], s.gen + 1, s.shown)
  }

  /** `stop_schedule`: the flag goes down and a notice is queued. */
  function StopSchedule(s: Sched): (r: Sched)
    ensures !r.running && r.workers == s.workers && r.gen == s.gen && r.shown == s.shown
    ensures r.ui.shutdown == s.ui.shutdown
  {
    s.(running := false, ui := SafeUiUpdate(s.ui, ShowInfo("Auto-report generation stopped."), false))
  }

  /** Stopping twice leaves the flag, the workers and the run count as
      stopping once does. */
  lemma StopIdempotent(s: Sched)
    ensures var once := StopSchedule(s);
            var twice := StopSchedule(once);
            twice.running == once.running && twice.workers == once.workers && twice.gen == once.gen
  {
  }

  /** The condition a worker re-checks.  As written it looks only at the
      page's flags; the corrected worker also checks that it belongs to the
      current run of the scheduler. */
  predicate KeepGoing(s: Sched, w: Worker, fixed: bool) {
    s.running && !s.ui.shutdown && (!fixed || w.gen == s.gen)
  }

  /** One step of worker `i`: at the loop head it either asks the UI thread
      for a report and starts waiting a full interval, or finishes; while
      waiting it either spends one tick or, seeing the flags down, goes
      back to the loop head. */
  function WorkerStep(s: Sched, i: nat, fixed: bool): (r: Sched)
    requires i < |s.workers|
    ensures r.running == s.running && r.gen == s.gen && |r.workers| == |s.workers|
    ensures r.ui.shutdown == s.ui.shutdown
    ensures forall j :: 0 <= j < |s.workers| && j != i ==> r.workers[j] == s.workers[j]
    ensures r.workers[i].gen == s.workers[i].gen && r.workers[i].minutes == s.workers[i].minutes
  {
    var w := s.workers[i];
    match w.phase
    case Exited => s
    case Head =>
      if KeepGoing(s, w, fixed) then
        s.(ui := SafeUiUpdate(s.ui, GenerateReport, false),
           workers := s.workers[i := w.(phase := Waiting(Interval(w.minutes)))])
      else s.(workers := s.workers[i := w.(phase := Exited)])
    case Waiting(n) =>
      if n == 0 || !KeepGoing(s, w, fixed) then s.(workers := s.workers[i := w.(phase := Head)])
      else s.(workers := s.workers[i := w.(phase := Waiting(n - 1))])
  }

  /** Whether a step of worker `i` asks for a report. */
  predicate Dispatches(s: Sched, i: nat, fixed: bool)
    requires i < |s.workers|
  {
    s.workers[i].phase == Head && KeepGoing(s, s.workers[i], fixed)
  }

  /** A dispatching step queues exactly one report request while the page
      is live, and a step that does not dispatch queues nothing. */
  lemma DispatchQueuesOne(s: Sched, i: nat, fixed: bool)
    requires i < |s.workers|
    ensures Dispatches(s, i, fixed) && s.ui.alive ==>
              WorkerStep(s, i, fixed).ui.pending == s.ui.pending + [GenerateReport]
    ensures !Dispatches(s, i, fixed) ==> WorkerStep(s, i, fixed).ui == s.ui
  {
  }

  /** After Stop, a worker finishes within two of its own steps, wherever
      it was in its loop. */
  lemma StopEndsWorker(s: Sched, i: nat, fixed: bool)
    requires i < |s.workers|
    ensures var t := WorkerStep(WorkerStep(StopSchedule(s), i, fixed), i, fixed);
            t.workers[i].phase == Exited
  {
  }

  // ---------------------------------------------------------------------
  // The worker loop over time

  /** The worker's whole life when the flags it reads stay up for the first
      `stopAt` ticks and are down from then on: it waits exactly `stopAt`
      ticks and asks for one report per interval started, that is
      `ceil(stopAt / interval)` reports. */
  method RunWorker(minutes: int, stopAt: nat) returns (reports: nat, ticks: nat)
    ensures ticks == stopAt
    ensures reports == (stopAt + Interval(minutes) - 1) / Interval(minutes)
  {
    var k := Interval(minutes);
    reports, ticks := 0, 0;
    while ticks < stopAt
      invariant ticks <= stopAt
      invariant ticks == if k * reports < stopAt then k * reports else stopAt
      invariant reports == 0 || k * (reports - 1) < stopAt
      decreases stopAt - ticks
    {
      reports := reports + 1;
      var j := 0;
      while j < k
        invariant 0 <= j <= k
        invariant ticks == if k * (reports - 1) + j < stopAt then k * (reports - 1) + j else stopAt
        decreases k - j
      {
        if ticks >= stopAt {
          break;
        }
        ticks := ticks + 1;
        j := j + 1;
      }
      assert ticks == if k * (reports - 1) + k < stopAt then k * (reports - 1) + k else stopAt;
    }
    CeilUnique(stopAt, k, reports);
  }

  /** `n` with `k * (n - 1) < t <= k * n` is the ceiling of `t / k`. */
  lemma CeilUnique(t: nat, k: nat, n: nat)
    requires k >= 1 && t <= k * n && (n == 0 || k * (n - 1) < t)
    ensures n == (t + k - 1) / k
  {
    var q := (t + k - 1) / k;
    var r := (t + k - 1) % k;
    assert t + k - 1 == k * q + r;
    if n > 0 {
      assert k * (n - 1) + 1 <= t;
      assert k * (n - 1) < k * q + 1 ==> n - 1 <= q by {
        if n - 1 > q {
          MulStrict(q, n - 1, k);
        }
      }
      assert k * q <= t + k - 1 < k * n + k;
      assert q < n + 1 by {
        if q >= n + 1 {
          MulStrict(n, q, k);
        }
      }
    }
  }

  lemma MulStrict(a: int, b: int, k: nat)
    requires a < b && k >= 1
    ensures k * a + k <= k * b
  {
    var d := b - a - 1;
    assert d >= 0;
    assert k * b == k * a + k + k * d;
    assert k * d >= 0;
  }

  // ---------------------------------------------------------------------
  // Restarting within one tick

  /** As written: start, one worker step, stop and start again before the
      first worker's next one-second check, and that worker reads the flag
      up again and keeps waiting; two live workers now both ask for reports. */
  lemma TwoLiveWorkers(text: string)
    requires ParseInt(text).Some? && ParseInt(text).value > 0
    ensures var s := StartSchedule(StopSchedule(WorkerStep(StartSchedule(Initial(), text), 0, false)), text);
            && |s.workers| == 2 && s.running
            && WorkerStep(s, 0, false).workers[0].phase.Waiting?
            && Dispatches(s, 1, false)
  {
    var m := ParseInt(text).value;
    var s1 := StartSchedule(Initial(), text);
    assert s1.workers == [Worker(m, Head, 1)];
    var s2 := WorkerStep(s1, 0, false);
    assert s2.workers[0].phase == Waiting(Interval(m));
    var s3 := StopSchedule(s2);
    var s := StartSchedule(s3, text);
    assert s.workers == s2.workers + [Worker(m, Head, 2)];
    assert Interval(m) >= 60;
  }

  /** The invariant the corrected scheduler keeps: no worker belongs to a
      later run than the current one, and at most one worker belongs to the
      current run. */
  predicate OneCurrent(s: Sched) {
    && (forall j :: 0 <= j < |s.workers| ==> s.workers[j].gen <= s.gen)
    && (forall j, l :: 0 <= j < l < |s.workers| && s.workers[j].gen == s.gen ==> s.workers[l].gen != s.gen)
  }

  lemma OneCurrentInitial()
    ensures OneCurrent(Initial())
  {
  }

  /** Every action keeps the invariant of the corrected scheduler. */
  lemma OneCurrentPreserved(s: Sched, text: string, i: nat)
    requires OneCurrent(s)
    ensures OneCurrent(StartSchedule(s, text))
    ensures OneCurrent(StopSchedule(s))
    ensures i < |s.workers| ==> OneCurrent(WorkerStep(s, i, true))
  {
    var t := StartSchedule(s, text);
    if !s.running && ParseInt(text).Some? && ParseInt(text).value > 0 {
      assert forall j :: 0 <= j < |s.workers| ==> t.workers[j] == s.workers[j];
      assert t.workers[|s.workers|].gen == t.gen;
    }
    if i < |s.workers| {
      var u := WorkerStep(s, i, true);
      assert forall j :: 0 <= j < |s.workers| ==> u.workers[j].gen == s.workers[j].gen;
    }
  }

  /** Corrected: only a worker of the current run ever asks for a report,
      and there is at most one such worker, so restarting quickly can never
      leave two workers generating reports. */
  lemma OneLiveWorker(s: Sched, i: nat, j: nat)
    requires OneCurrent(s) && i < j < |s.workers|
    ensures !(Dispatches(s, i, true) && Dispatches(s, j, true))
  {
  }
}

/** The fixed-window limiter of the frontend's diagnostics (src/lib/diagnostics.ts). */
module Diagnostics {
  import opened Windows

  const MAX_PER_WINDOW: nat := 20
  const WINDOW_MS: int := 10_000

  /** A report that got through: when, in the window opened when, and as the how-manieth. */
  datatype Pass = Pass(at: int, window: int, nth: nat)

  /** The module's variables, the reports that got through, and how many are still being written. */
  datatype State = State(windowStart: int, countInWindow: nat, logging: bool, passed: seq<Pass>, inFlight: nat)

  const INIT: State := State(0, 0, false, [], 0)

  function Counted(s: State, now: int): State {
    if now - s.windowStart > WINDOW_MS
    then s.(windowStart := now, countInWindow := 1)
    else s.(countInWindow := s.countInWindow + 1)
  }

  function Reported(s: State, now: int): State {
    if s.logging then s else
    var s := Counted(s, now);
    if s.countInWindow > MAX_PER_WINDOW then s
    else s.(logging := true, inFlight := s.inFlight + 1,
            passed := s.passed + [Pass(now, s.windowStart, s.countInWindow)])
  }

  function Settled(s: State): State
    requires s.inFlight > 0
  {
    s.(logging := false, inFlight := s.inFlight - 1)
  }

  class GlobalDiagnostics {
    var logging: bool
    var windowStart: int
    var countInWindow: nat
    ghost var passed: seq<Pass>
    ghost var inFlight: nat

    ghost function Abs(): State
      reads this
    {
      State(windowStart, countInWindow, logging, passed, inFlight)
    }

    constructor ()
      ensures Abs() == INIT
    {
      logging, windowStart, countInWindow := false, 0, 0;
      passed, inFlight := [], 0;
    }

    method Allow(now: int) returns (ok: bool)
      modifies `windowStart, `countInWindow
      ensures Abs() == Counted(old(Abs()), now)
      ensures ok == (Abs().countInWindow <= MAX_PER_WINDOW)
    {
      if now - windowStart > WINDOW_MS {
        windowStart := now;
        countInWindow := 0;
      }
      countInWindow := countInWindow + 1;
      ok := countInWindow <= MAX_PER_WINDOW;
    }

    /** `sent` says whether the logger was called. */
    method Report(now: int) returns (sent: bool)
      modifies this
      ensures Abs() == Reported(old(Abs()), now)
      ensures sent == (|passed| > |old(passed)|)
    {
      sent := false;
      if logging {
        return;
      }
      var ok := Allow(now);
      if !ok {
        return;
      }
      logging := true;
      inFlight := inFlight + 1;
      passed := passed + [Pass(now, windowStart, countInWindow)];
      sent := true;
    }

    /** The logger's promise settles. */
    method Settle()
      requires inFlight > 0
      modifies this
      ensures Abs() == Settled(old(Abs()))
    {
      logging := false;
      inFlight := inFlight - 1;
    }
  }

  // ---------------------------------------------------------------------------
  // Runs.
  // ---------------------------------------------------------------------------

  datatype Event = Report(now: int) | Settle

  predicate Takes(s: State, e: Event, t: State) {
    match e
    case Report(now) => now >= 0 && t == Reported(s, now)
    case Settle => s.inFlight > 0 && t == Settled(s)
  }

  /** A run: clock readings do not decrease, and only what is being written can settle. */
  ghost predicate IsRun(trace: seq<State>, events: seq<Event>) {
    && |trace| == |events| + 1 && trace[0] == INIT
    && (forall i, j :: 0 <= i < j < |events| && events[i].Report? && events[j].Report? ==> events[i].now <= events[j].now)
    && (forall i :: 0 <= i < |events| ==> Takes(trace[i], events[i], trace[i + 1]))
  }

  /** Successive passes share a window and count up, or the later opens a window of its own. */
  predicate Follows(p: Pass, q: Pass) {
    || (q.window == p.window && q.nth == p.nth + 1)
    || (q.window > p.window + WINDOW_MS && q.nth == 1)
  }

  predicate WellPlaced(p: Pass) {
    && 1 <= p.nth <= MAX_PER_WINDOW
    && p.window <= p.at <= p.window + WINDOW_MS
    && (p.window > 0 && p.nth == 1 ==> p.at == p.window)
  }

  ghost predicate Chain(passed: seq<Pass>) {
    && (forall i :: 0 <= i < |passed| ==> WellPlaced(passed[i]) && passed[i].window >= 0)
    && (forall i :: 0 <= i < |passed| - 1 ==> Follows(passed[i], passed[i + 1]))
    && (forall i, j :: 0 <= i <= j < |passed| ==> passed[i].at <= passed[j].at)
  }

  ghost predicate Inv(s: State, clock: int) {
    && Chain(s.passed)
    && 0 <= s.windowStart <= clock
    && (forall i :: 0 <= i < |s.passed| ==> s.passed[i].at <= clock)
    && (if s.passed == [] then s.windowStart == 0 && s.countInWindow == 0
        else
          var last := s.passed[|s.passed| - 1];
          && last.window == s.windowStart
          && last.nth == (if s.countInWindow < MAX_PER_WINDOW then s.countInWindow else MAX_PER_WINDOW))
    && s.inFlight == (if s.logging then 1 else 0)
  }

  lemma ReportKeepsInv(s: State, clock: int, now: int)
    requires Inv(s, clock) && clock <= now
    ensures Inv(Reported(s, now), now)
  {
    if !s.logging {
      var t := Reported(s, now);
      if t.passed != s.passed && s.passed != [] {
        assert Follows(s.passed[|s.passed| - 1], t.passed[|s.passed|]);
      }
    }
  }

  /** The latest clock reading among the first `n` events. */
  function Clock(events: seq<Event>, n: nat): int
    requires n <= |events|
  {
    if n == 0 then 0
    else match events[n - 1]
         case Report(now) => now
         case Settle => Clock(events, n - 1)
  }

  lemma {:induction false} ClockIsReading(events: seq<Event>, n: nat)
    requires n <= |events|
    ensures Clock(events, n) == 0 || exists i :: 0 <= i < n && events[i].Report? && events[i].now == Clock(events, n)
  {
    if n > 0 && events[n - 1].Settle? { ClockIsReading(events, n - 1); }
  }

  lemma {:induction false} RunKeepsInv(trace: seq<State>, events: seq<Event>, n: nat)
    requires IsRun(trace, events) && n <= |events|
    ensures Inv(trace[n], Clock(events, n))
  {
    if n > 0 {
      RunKeepsInv(trace, events, n - 1);
      assert Takes(trace[n - 1], events[n - 1], trace[n - 1 + 1]);
      if events[n - 1].Report? {
        ClockIsReading(events, n - 1);
        ReportKeepsInv(trace[n - 1], Clock(events, n - 1), events[n - 1].now);
      }
    }
  }

  // ---------------------------------------------------------------------------
  // How close passes can come.
  // ---------------------------------------------------------------------------

  /** After at most `21 - nth` more passes a new window has been opened. */
  lemma {:induction false} NextOpener(passed: seq<Pass>, i: nat) returns (a: nat)
    requires Chain(passed) && i < |passed| && i + MAX_PER_WINDOW + 1 - passed[i].nth < |passed|
    ensures i < a <= i + MAX_PER_WINDOW + 1 - passed[i].nth
    ensures passed[a].nth == 1 && passed[a].at == passed[a].window > passed[i].window + WINDOW_MS
    decreases MAX_PER_WINDOW - passed[i].nth
  {
    assert Follows(passed[i], passed[i + 1]) && WellPlaced(passed[i]) && WellPlaced(passed[i + 1]);
    if passed[i + 1].window == passed[i].window {
      a := NextOpener(passed, i + 1);
    } else {
      a := i + 1;
    }
  }

  /** 41 successive passes span more than a window. */
  lemma FortyApart(passed: seq<Pass>, i: nat)
    requires Chain(passed) && i + 2 * MAX_PER_WINDOW < |passed|
    ensures passed[i + 2 * MAX_PER_WINDOW].at - passed[i].at > WINDOW_MS
  {
    var a := NextOpener(passed, i);
    var b := NextOpener(passed, a);
    assert passed[i].at <= passed[a].at && passed[b].at <= passed[i + 2 * MAX_PER_WINDOW].at;
  }

  /** Where every window was opened by a pass of its own, 40 successive passes already do. */
  lemma ThirtyNineApart(passed: seq<Pass>, i: nat)
    requires Chain(passed) && i + 2 * MAX_PER_WINDOW - 1 < |passed| && passed[i].window > 0
    ensures passed[i + 2 * MAX_PER_WINDOW - 1].at - passed[i].at > WINDOW_MS
  {
    var j := i + 2 * MAX_PER_WINDOW - 1;
    var a := NextOpener(passed, i);
    assert WellPlaced(passed[i]);
    if passed[i].nth == 1 {
      assert passed[a].at <= passed[j].at;
    } else {
      var b := NextOpener(passed, a);
      assert passed[i].at <= passed[a].at && passed[b].at <= passed[j].at;
    }
  }

  function Times(passed: seq<Pass>): seq<int> {
    seq(|passed|, i requires 0 <= i < |passed| => passed[i].at)
  }

  lemma TimesSpaced(passed: seq<Pass>)
    requires Chain(passed)
    ensures Sorted(Times(passed)) && Spaced(Times(passed), 2 * MAX_PER_WINDOW, WINDOW_MS, 0)
    ensures passed != [] && passed[0].window > 0 ==> Spaced(Times(passed), 2 * MAX_PER_WINDOW - 1, WINDOW_MS, 0)
  {
    forall i | 0 <= i < |passed| - 2 * MAX_PER_WINDOW
      ensures Times(passed)[i + 2 * MAX_PER_WINDOW] - Times(passed)[i] > WINDOW_MS
    {
      FortyApart(passed, i);
    }
    if passed != [] && passed[0].window > 0 {
      forall i | 0 <= i < |passed| - (2 * MAX_PER_WINDOW - 1)
        ensures Times(passed)[i + (2 * MAX_PER_WINDOW - 1)] - Times(passed)[i] > WINDOW_MS
      {
        WindowsAscend(passed, i);
        ThirtyNineApart(passed, i);
      }
    }
  }

  lemma {:induction false} WindowsAscend(passed: seq<Pass>, i: nat)
    requires Chain(passed) && i < |passed|
    ensures passed[0].window <= passed[i].window
  {
    if i > 0 {
      WindowsAscend(passed, i - 1);
      assert Follows(passed[i - 1], passed[i - 1 + 1]);
    }
  }

  // ---------------------------------------------------------------------------
  // The claims.
  // ---------------------------------------------------------------------------

  /** In every run at most 40 reports get through in any closed ten-second interval. */
  lemma AtMostForty(trace: seq<State>, events: seq<Event>, lo: int)
    requires IsRun(trace, events)
    ensures CountIn(Times(trace[|events|].passed), lo, lo + WINDOW_MS) <= 2 * MAX_PER_WINDOW
  {
    RunKeepsInv(trace, events, |events|);
    var passed := trace[|events|].passed;
    TimesSpaced(passed);
    assert forall i :: 0 <= i < |passed| ==> WellPlaced(passed[i]) && passed[i].window >= 0;
    SpacedBoundsCount(Times(passed), 2 * MAX_PER_WINDOW, WINDOW_MS, 0, lo, lo + WINDOW_MS);
  }

  /** When the first report that got through came more than ten seconds after the epoch, as any
   *  real clock has it, the bound is 39: a window's opening pass cannot share an interval with
   *  the next window. */
  lemma AtMostThirtyNine(trace: seq<State>, events: seq<Event>, lo: int)
    requires IsRun(trace, events)
    requires trace[|events|].passed != [] && trace[|events|].passed[0].at > WINDOW_MS
    ensures CountIn(Times(trace[|events|].passed), lo, lo + WINDOW_MS) <= 2 * MAX_PER_WINDOW - 1
  {
    RunKeepsInv(trace, events, |events|);
    var passed := trace[|events|].passed;
    assert WellPlaced(passed[0]);
    TimesSpaced(passed);
    assert forall i :: 0 <= i < |passed| ==> WellPlaced(passed[i]) && passed[i].window >= 0;
    SpacedBoundsCount(Times(passed), 2 * MAX_PER_WINDOW - 1, WINDOW_MS, 0, lo, lo + WINDOW_MS);
  }

  /** In every run at most one report is being written at a time. */
  lemma AtMostOneInFlight(trace: seq<State>, events: seq<Event>, n: nat)
    requires IsRun(trace, events) && n <= |events|
    ensures trace[n].inFlight <= 1
  {
    RunKeepsInv(trace, events, n);
  }

  // ---------------------------------------------------------------------------
  // Both bounds are attained.
  // ---------------------------------------------------------------------------

  ghost predicate Idle(trace: seq<State>, events: seq<Event>, clock: int) {
    && IsRun(trace, events) && !trace[|events|].logging && trace[|events|].inFlight == 0
    && forall i :: 0 <= i < |events| && events[i].Report? ==> events[i].now <= clock
  }

  /** `n` reports at one instant, each settled at once, all get through while the window has room. */
  lemma {:induction false} Burst(trace: seq<State>, events: seq<Event>, now: int, n: nat)
    returns (trace': seq<State>, events': seq<Event>)
    requires Idle(trace, events, now) && now >= 0
    requires n > 0 ==> Counted(trace[|events|], now).countInWindow + n <= MAX_PER_WINDOW + 1
    ensures Idle(trace', events', now)
    ensures var s, t := trace[|events|], trace'[|events'|];
            && Times(t.passed) == Times(s.passed) + seq(n, _ => now)
            && (n > 0 ==> t.windowStart == Counted(s, now).windowStart
                          && t.countInWindow == Counted(s, now).countInWindow + n - 1)
    ensures n == 0 ==> trace' == trace && events' == events
    decreases n
  {
    if n == 0 {
      trace', events' := trace, events;
      assert Times(trace[|events|].passed) + seq(0, _ => now) == Times(trace[|events|].passed);
    } else {
      var s := trace[|events|];
      var r := Reported(s, now);
      var q := Settled(r);
      var trace1, events1 := trace + [r, q], events + [Report(now), Settle];
      IdleGrows(trace, events, now);
      assert Times(q.passed) == Times(s.passed) + [now];
      trace', events' := Burst(trace1, events1, now, n - 1);
      assert [now] + seq(n - 1, _ => now) == seq(n, _ => now);
    }
  }

  lemma IdleGrows(trace: seq<State>, events: seq<Event>, now: int)
    requires Idle(trace, events, now) && now >= 0
    requires Reported(trace[|events|], now).inFlight > 0
    ensures var r := Reported(trace[|events|], now);
            Idle(trace + [r, Settled(r)], events + [Report(now), Settle], now)
  {
    var r := Reported(trace[|events|], now);
    var trace1, events1 := trace + [r, Settled(r)], events + [Report(now), Settle];
    forall i | 0 <= i < |events1|
      ensures Takes(trace1[i], events1[i], trace1[i + 1])
    {
      if i < |events| {
        assert Takes(trace[i], events[i], trace[i + 1]);
      }
    }
  }

  lemma StartIdle(clock: int)
    ensures Idle([INIT], [], clock) && Times(INIT.passed) == []
  {
  }

  lemma FortyAttained() returns (trace: seq<State>, events: seq<Event>)
    ensures IsRun(trace, events)
    ensures CountIn(Times(trace[|events|].passed), 10_000, 10_000 + WINDOW_MS) == 2 * MAX_PER_WINDOW
  {
    StartIdle(10_000);
    trace, events := Burst([INIT], [], 10_000, MAX_PER_WINDOW);
    trace, events := Burst(trace, events, 10_001, MAX_PER_WINDOW);
    CountInAll(Times(trace[|events|].passed), 10_000, 20_000);
  }

  lemma ThirtyNineAttained() returns (trace: seq<State>, events: seq<Event>)
    ensures IsRun(trace, events)
    ensures trace[|events|].passed != [] && trace[|events|].passed[0].at > WINDOW_MS
    ensures CountIn(Times(trace[|events|].passed), 30_000, 30_000 + WINDOW_MS) == 2 * MAX_PER_WINDOW - 1
  {
    StartIdle(20_000);
    trace, events := Burst([INIT], [], 20_000, 1);
    trace, events := Burst(trace, events, 30_000, MAX_PER_WINDOW - 1);
    trace, events := Burst(trace, events, 30_001, MAX_PER_WINDOW);
    var times := Times(trace[|events|].passed);
    CountInSuffix(times, 1, 30_000, 40_000);
    CountInAll(times[1..], 30_000, 40_000);
    assert trace[|events|].passed[0].at == times[0];
  }
}

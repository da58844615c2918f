/**
 * The frame-rate counter shown in the status bar (iOSPerfBenchmark/AppDelegate.swift).
 *
 * `FpsCounter` is driven by a display link: every tick either opens a
 * measuring window (recording the current time), or counts one frame and,
 * once `notificationDelay` seconds have elapsed since the window opened,
 * reports `round(frames / elapsed)` to its delegate and closes the window.
 * A closed window is marked by the time value 0.0, so the tick after a report
 * only re-opens the window.
 *
 * Clock readings are passed in as `now`; timestamps are exact reals.
 */
module StatusBarFps {

  datatype Option<T> = None | Some(value: T)

  /** A run loop, known only by its identity. */
  datatype RunLoop = RunLoop(id: nat)

  /** A run-loop mode, known by its raw name. */
  type Mode = string

  /** One (run loop, mode) pair the display link is scheduled in. */
  datatype Registration = Registration(runloop: RunLoop, mode: Mode)

  /** The `lastNotificationTime` value that means "no window is open". */
  const Unset: real := 0.0

  /** Default seconds between two reports. */
  const DefaultDelay: real := 1.0

  /** Swift's `round`: to the nearest integer, halves away from zero. */
  function Round(x: real): (n: int)
    ensures x - 0.5 <= n as real <= x + 0.5
    ensures n as real == x + 0.5 ==> x >= 0.0
    ensures n as real == x - 0.5 ==> x < 0.0
  {
    if x >= 0.0 then (x + 0.5).Floor else -((0.5 - x).Floor)
  }

  lemma RoundOfInteger(k: int)
    ensures Round(k as real) == k
  {
  }

  // ---------------------------------------------------------------------
  // The measuring window as a value, and one tick as a function of it
  // ---------------------------------------------------------------------

  /** The counter's sampling state: `lastNotificationTime` and `numberOfFrames`. */
  datatype Window = Window(lastNotificationTime: real, numberOfFrames: int)

  /** The state of a fresh counter, and the state after every report. */
  const Unarmed: Window := Window(Unset, 0)

  predicate Armed(w: Window) {
    w.lastNotificationTime != Unset
  }

  /** The state every reachable window satisfies. */
  predicate WellFormed(w: Window) {
    w.numberOfFrames >= 0 && (!Armed(w) ==> w.numberOfFrames == 0)
  }

  /**
   * A tick at `now` would report with zero elapsed time, where
   * `Int(round(frames / 0.0))` traps. Only a `delay <= 0` lets this happen.
   */
  predicate DividesByZero(w: Window, delay: real, now: real) {
    Armed(w) && now - w.lastNotificationTime >= delay && now == w.lastNotificationTime
  }

  /** The window after a tick, and the value reported by that tick, if any. */
  datatype Outcome = Outcome(window: Window, reading: Option<int>)

  /** One display-link tick at clock reading `now` (`updateFromDisplayLink`). */
  function Tick(w: Window, delay: real, now: real): (o: Outcome)
    requires !DividesByZero(w, delay, now)
    // a report happens exactly when an open window has lasted `delay` seconds
    ensures o.reading.Some? <==> Armed(w) && now - w.lastNotificationTime >= delay
    // a report closes the window and gives the rounded rate of the frames counted in it,
    // this tick included
    ensures o.reading.Some? ==>
              o.window == Unarmed &&
              o.reading.value == Round((w.numberOfFrames + 1) as real / (now - w.lastNotificationTime))
    // a tick on a closed window only records the time
    ensures !Armed(w) ==> o.window == Window(now, w.numberOfFrames)
    // a tick on an open window that does not report counts exactly one frame
    ensures Armed(w) && o.reading.None? ==>
              o.window == Window(w.lastNotificationTime, w.numberOfFrames + 1)
  {
    if !Armed(w) then
      Outcome(Window(now, w.numberOfFrames), None)
    else
      var frames := w.numberOfFrames + 1;
      var elapsed := now - w.lastNotificationTime;
      if elapsed >= delay then
        Outcome(Unarmed, Some(Round(frames as real / elapsed)))
      else
        Outcome(Window(w.lastNotificationTime, frames), None)
  }

  lemma TickKeepsWellFormed(w: Window, delay: real, now: real)
    requires WellFormed(w) && !DividesByZero(w, delay, now)
    ensures WellFormed(Tick(w, delay, now).window)
  {
  }

  // ---------------------------------------------------------------------
  // Runs of ticks
  // ---------------------------------------------------------------------

  /** The window after a run of ticks and the values reported, oldest first. */
  datatype Trace = Trace(window: Window, readings: seq<int>)

  function Reported(o: Outcome): seq<int> {
    if o.reading.Some? then [o.reading.value] else []
  }

  /**
   * The ticks at clock readings `times`, in order, with a positive delay.
   * Every report needs a tick that opens its window and a later tick that
   * closes it, so a run reports at most once per two ticks.
   */
  function Run(w: Window, delay: real, times: seq<real>): (t: Trace)
    requires delay > 0.0
    ensures 2 * |t.readings| <= |times| + (if Armed(w) then 1 else 0)
    decreases |times|
  {
    if times == [] then
      Trace(w, [])
    else
      var o := Tick(w, delay, times[0]);
      var rest := Run(o.window, delay, times[1..]);
      Trace(rest.window, Reported(o) + rest.readings)
  }

  /** Running two stretches of ticks is running the first, then the second from where it ended. */
  lemma {:induction false} RunAppend(w: Window, delay: real, a: seq<real>, b: seq<real>)
    requires delay > 0.0
    ensures Run(w, delay, a + b).window == Run(Run(w, delay, a).window, delay, b).window
    ensures Run(w, delay, a + b).readings ==
            Run(w, delay, a).readings + Run(Run(w, delay, a).window, delay, b).readings
    decreases |a|
  {
    if a != [] {
      assert (a + b)[0] == a[0];
      assert (a + b)[1..] == a[1..] + b;
      var o := Tick(w, delay, a[0]);
      RunAppend(o.window, delay, a[1..], b);
    } else {
      assert a + b == b;
    }
  }

  /** An open window whose ticks all come before `delay` has elapsed reports nothing. */
  lemma {:induction false} QuietWindow(w: Window, delay: real, times: seq<real>)
    requires delay > 0.0 && Armed(w)
    requires forall i :: 0 <= i < |times| ==> times[i] - w.lastNotificationTime < delay
    ensures Run(w, delay, times) ==
            Trace(Window(w.lastNotificationTime, w.numberOfFrames + |times|), [])
    decreases |times|
  {
    if times != [] {
      var o := Tick(w, delay, times[0]);
      QuietWindow(o.window, delay, times[1..]);
    }
  }

  /**
   * An open window whose last tick is the first to reach `delay` reports the
   * frames it held plus every tick of the run, divided by the time since it opened.
   */
  lemma {:induction false} ClosingWindow(w: Window, delay: real, times: seq<real>)
    requires delay > 0.0 && Armed(w) && |times| >= 1
    requires forall i :: 0 <= i < |times| - 1 ==> times[i] - w.lastNotificationTime < delay
    requires times[|times| - 1] - w.lastNotificationTime >= delay
    ensures Run(w, delay, times) ==
            Trace(Unarmed, [Round((w.numberOfFrames + |times|) as real /
                                  (times[|times| - 1] - w.lastNotificationTime))])
    decreases |times|
  {
    var o := Tick(w, delay, times[0]);
    if |times| > 1 {
      ClosingWindow(o.window, delay, times[1..]);
    }
  }

  /**
   * From a closed window, the tick at `t0` opens a window and the report comes
   * at the first later tick `delay` or more after `t0`: its value is the number
   * of ticks after the opening one, up to and including the reporting one,
   * divided by the elapsed time, rounded. The window is closed again afterwards.
   */
  lemma ReadingCountsTicksAfterOpening(t0: real, times: seq<real>, delay: real)
    requires delay > 0.0 && t0 != Unset && |times| >= 1
    requires forall i :: 0 <= i < |times| - 1 ==> times[i] - t0 < delay
    requires times[|times| - 1] - t0 >= delay
    ensures Run(Unarmed, delay, [t0] + times) ==
            Trace(Unarmed, [Round(|times| as real / (times[|times| - 1] - t0))])
  {
    assert ([t0] + times)[0] == t0;
    assert ([t0] + times)[1..] == times;
    ClosingWindow(Window(t0, 0), delay, times);
  }

  // ---------------------------------------------------------------------
  // Spacing of reports in time
  // ---------------------------------------------------------------------

  /** The window just before tick `k` of a run. */
  function StateBefore(w: Window, delay: real, times: seq<real>, k: nat): Window
    requires delay > 0.0 && k <= |times|
  {
    Run(w, delay, times[..k]).window
  }

  /** Tick `k` of a run reports a value. */
  predicate ReportsAt(w: Window, delay: real, times: seq<real>, k: nat)
    requires delay > 0.0 && k < |times|
  {
    Tick(StateBefore(w, delay, times, k), delay, times[k]).reading.Some?
  }

  /** Clock readings that only move forward. */
  predicate Increasing(times: seq<real>) {
    forall a, b :: 0 <= a < b < |times| ==> times[a] < times[b]
  }

  /** The window before tick `k + 1` is tick `k` applied to the window before tick `k`. */
  lemma StateBeforeStep(w: Window, delay: real, times: seq<real>, k: nat)
    requires delay > 0.0 && k < |times|
    ensures StateBefore(w, delay, times, k + 1) ==
            Tick(StateBefore(w, delay, times, k), delay, times[k]).window
  {
    assert times[..k + 1] == times[..k] + [times[k]];
    RunAppend(w, delay, times[..k], [times[k]]);
    assert [times[k]][1..] == [];
  }

  /** After a report at tick `i`, any window open before a later tick was opened after tick `i`. */
  lemma {:induction false} OpenedAfterReport(w: Window, delay: real, times: seq<real>, i: nat, k: nat)
    requires delay > 0.0 && Increasing(times) && i < k <= |times|
    requires ReportsAt(w, delay, times, i)
    ensures Armed(StateBefore(w, delay, times, k)) ==>
              StateBefore(w, delay, times, k).lastNotificationTime > times[i]
    decreases k
  {
    StateBeforeStep(w, delay, times, k - 1);
    if k > i + 1 {
      OpenedAfterReport(w, delay, times, i, k - 1);
    }
  }

  /**
   * With clock readings that only move forward, two reports of a run are more
   * than `delay` apart: the later one needs a window opened after the earlier
   * report and lasting `delay`.
   */
  lemma ReportsMoreThanDelayApart(w: Window, delay: real, times: seq<real>, i: nat, j: nat)
    requires delay > 0.0 && Increasing(times) && i < j < |times|
    requires ReportsAt(w, delay, times, i) && ReportsAt(w, delay, times, j)
    ensures times[j] - times[i] > delay
  {
    OpenedAfterReport(w, delay, times, i, j);
  }

  // ---------------------------------------------------------------------
  // A display link firing at a steady rate
  // ---------------------------------------------------------------------

  /** `count` ticks `p` seconds apart, the first at `t0`: a rate of `1/p` ticks per second. */
  function PeriodicTicks(t0: real, p: real, count: nat): (ts: seq<real>)
    ensures |ts| == count
  {
    seq(count, i => t0 + i as real * p)
  }

  lemma PeriodicTicksSplit(t0: real, p: real, a: nat, b: nat)
    ensures PeriodicTicks(t0, p, a + b) ==
            PeriodicTicks(t0, p, a) + PeriodicTicks(t0 + a as real * p, p, b)
  {
    var l := PeriodicTicks(t0, p, a + b);
    var r := PeriodicTicks(t0, p, a) + PeriodicTicks(t0 + a as real * p, p, b);
    forall i | 0 <= i < a + b
      ensures l[i] == r[i]
    {
      if i >= a {
        assert (a + (i - a)) as real * p == a as real * p + (i - a) as real * p;
      }
    }
  }

  /** Multiplying by the same positive number keeps the order. */
  lemma MulMonotone(a: real, b: real, p: real)
    requires a <= b && p > 0.0
    ensures a * p <= b * p
  {
    assert b * p - a * p == (b - a) * p;
  }

  /** `k` ticks of `p` seconds, counted over their own duration, are a rate of `1/p`. */
  lemma TicksOverTheirDuration(k: nat, p: real)
    requires k > 0 && p > 0.0
    ensures k as real / (k as real * p) == 1.0 / p
  {
    var d := k as real * p;
    assert d > 0.0;
    var x := k as real / d;
    assert x * d == k as real;
    assert x * d == (x * p) * k as real;
    assert (x * p - 1.0) * k as real == 0.0;
    assert x * p == 1.0;
  }

  /** Ticks fewer than `k` intervals after the first stay under a delay above `(k - 1) * p`. */
  lemma EarlyTicks(t0: real, p: real, delay: real, k: nat, count: nat)
    requires p > 0.0 && k >= 1
    requires (k - 1) as real * p < delay
    ensures forall i :: 0 <= i < count && i < k ==> PeriodicTicks(t0, p, count)[i] - t0 < delay
  {
    var ts := PeriodicTicks(t0, p, count);
    forall i | 0 <= i < count && i < k
      ensures ts[i] - t0 < delay
    {
      MulMonotone(i as real, (k - 1) as real, p);
    }
  }

  /** In a cycle, the ticks after the opening one stay under the delay until the last, `k * p` later. */
  lemma CycleTimes(t0: real, p: real, delay: real, k: nat)
    requires p > 0.0 && k >= 1
    requires (k - 1) as real * p < delay <= k as real * p
    ensures var ts := PeriodicTicks(t0, p, k + 1);
            (forall i :: 1 <= i < k ==> ts[i] - t0 < delay) && ts[k] - t0 == k as real * p
  {
    EarlyTicks(t0, p, delay, k, k + 1);
  }

  /**
   * At one tick every `p` seconds with any positive delay, let `k` be the
   * number of tick intervals the delay needs (the least k >= 1 with k * p >=
   * delay). The k + 1 ticks starting at a positive time open a window and
   * report exactly the rounded rate `1/p`.
   */
  lemma PeriodicCycle(t0: real, p: real, delay: real, k: nat)
    requires p > 0.0 && t0 > 0.0 && delay > 0.0 && k >= 1
    requires (k - 1) as real * p < delay <= k as real * p
    ensures Run(Unarmed, delay, PeriodicTicks(t0, p, k + 1)) == Trace(Unarmed, [Round(1.0 / p)])
  {
    var ts := PeriodicTicks(t0, p, k + 1);
    var rest := ts[1..];
    assert ts == [t0] + rest;
    CycleTimes(t0, p, delay, k);
    ReadingCountsTicksAfterOpening(t0, rest, delay);
    TicksOverTheirDuration(k, p);
  }

  /** `m` copies of the reading `r`. */
  function Repeat(r: int, m: nat): (rs: seq<int>)
    ensures |rs| == m
    ensures forall i :: 0 <= i < m ==> rs[i] == r
    decreases m
  {
    if m == 0 then [] else [r] + Repeat(r, m - 1)
  }

  /** A run reporting `r` once, followed by a run reporting it `m - 1` times, reports it `m` times. */
  lemma JoinCycles(delay: real, first: seq<real>, later: seq<real>, r: int, m: nat)
    requires delay > 0.0 && m > 0
    requires Run(Unarmed, delay, first) == Trace(Unarmed, [r])
    requires Run(Unarmed, delay, later) == Trace(Unarmed, Repeat(r, m - 1))
    ensures Run(Unarmed, delay, first + later) == Trace(Unarmed, Repeat(r, m))
  {
    RunAppend(Unarmed, delay, first, later);
  }

  /** `m` cycles of `cycle` ticks are one cycle and `m - 1` more. */
  lemma CycleCounts(m: nat, cycle: nat)
    requires m > 0
    ensures m * cycle == cycle + (m - 1) * cycle
  {
  }

  /** `PeriodicCycles` with the tick count `m * (k + 1)` named `count`. */
  lemma {:induction false} CyclesOfTicks(t0: real, p: real, delay: real, k: nat, m: nat, count: nat)
    requires p > 0.0 && t0 > 0.0 && delay > 0.0 && k >= 1
    requires (k - 1) as real * p < delay <= k as real * p
    requires count == m * (k + 1)
    ensures Run(Unarmed, delay, PeriodicTicks(t0, p, count)) == Trace(Unarmed, Repeat(Round(1.0 / p), m))
    decreases m
  {
    if m > 0 {
      var cycle := k + 1;
      var rest: nat := (m - 1) * cycle;
      CycleCounts(m, cycle);
      var rate := Round(1.0 / p);
      var next := t0 + cycle as real * p;
      var first, later := PeriodicTicks(t0, p, cycle), PeriodicTicks(next, p, rest);
      assert PeriodicTicks(t0, p, count) == first + later by {
        PeriodicTicksSplit(t0, p, cycle, rest);
      }
      assert Run(Unarmed, delay, first) == Trace(Unarmed, [rate]) by {
        PeriodicCycle(t0, p, delay, k);
      }
      assert Run(Unarmed, delay, later) == Trace(Unarmed, Repeat(rate, m - 1)) by {
        MulMonotone(1.0, cycle as real, p);
        CyclesOfTicks(next, p, delay, k, m - 1, rest);
      }
      JoinCycles(delay, first, later, rate, m);
    }
  }

  /**
   * Because every report is followed by a tick that only re-opens the window,
   * one tick every `p` seconds with a delay of `k` tick intervals gives one
   * report per k + 1 ticks, not per k: `m` such cycles report the rounded
   * rate `1/p` exactly `m` times.
   */
  lemma PeriodicCycles(t0: real, p: real, delay: real, k: nat, m: nat)
    requires p > 0.0 && t0 > 0.0 && delay > 0.0 && k >= 1
    requires (k - 1) as real * p < delay <= k as real * p
    ensures Run(Unarmed, delay, PeriodicTicks(t0, p, m * (k + 1))) ==
            Trace(Unarmed, Repeat(Round(1.0 / p), m))
  {
    CyclesOfTicks(t0, p, delay, k, m, m * (k + 1));
  }

  /** At most `k` periodic ticks from a closed window, with a delay of `k` tick intervals, report nothing. */
  lemma PeriodicPartialCycle(t0: real, p: real, delay: real, k: nat, j: nat)
    requires p > 0.0 && t0 > 0.0 && delay > 0.0 && k >= 1 && j <= k
    requires (k - 1) as real * p < delay
    ensures Run(Unarmed, delay, PeriodicTicks(t0, p, j)).readings == []
  {
    if j > 0 {
      var ts := PeriodicTicks(t0, p, j);
      var rest := ts[1..];
      assert ts == [t0] + rest;
      EarlyTicks(t0, p, delay, k, j);
      assert forall i :: 0 <= i < |rest| ==> rest[i] == ts[i + 1];
      QuietWindow(Window(t0, 0), delay, rest);
    }
  }

  /**
   * A rate that is not a whole number: at 59.5 Hz with the default delay, a
   * window needs 60 tick intervals and reports round(59.5), which is 60.
   */
  lemma HalfHertzRateRoundsAway(t0: real)
    requires t0 > 0.0
    ensures Run(Unarmed, DefaultDelay, PeriodicTicks(t0, 2.0 / 119.0, 61)) == Trace(Unarmed, [60])
  {
    PeriodicCycle(t0, 2.0 / 119.0, DefaultDelay, 60);
    assert 1.0 / (2.0 / 119.0) == 59.5;
  }

  /** `count` ticks `1/n` seconds apart, the first at `t0`. */
  function SteadyTicks(t0: real, n: nat, count: nat): (ts: seq<real>)
    requires n > 0
    ensures |ts| == count
  {
    seq(count, i => t0 + i as real / n as real)
  }

  /** `n` ticks per second are one tick every `1/n` seconds. */
  lemma SteadyIsPeriodic(t0: real, n: nat, count: nat)
    requires n > 0
    ensures SteadyTicks(t0, n, count) == PeriodicTicks(t0, 1.0 / n as real, count)
  {
    forall i | 0 <= i < count
      ensures SteadyTicks(t0, n, count)[i] == PeriodicTicks(t0, 1.0 / n as real, count)[i]
    {
      assert i as real / n as real == i as real * (1.0 / n as real);
    }
  }

  lemma SteadyTicksSplit(t0: real, n: nat, a: nat, b: nat)
    requires n > 0
    ensures SteadyTicks(t0, n, a + b) ==
            SteadyTicks(t0, n, a) + SteadyTicks(t0 + a as real / n as real, n, b)
  {
    var l := SteadyTicks(t0, n, a + b);
    var r := SteadyTicks(t0, n, a) + SteadyTicks(t0 + a as real / n as real, n, b);
    forall i | 0 <= i < a + b
      ensures l[i] == r[i]
    {
      if i >= a {
        assert (a + (i - a)) as real / n as real == a as real / n as real + (i - a) as real / n as real;
      }
    }
  }

  lemma FractionBelowOne(a: real, b: real)
    requires 0.0 <= a < b
    ensures a / b < 1.0
  {
    assert a / b * b == a;
  }

  /** With a whole rate `n`, `k` tick intervals of `1/n` seconds are `k/n` seconds. */
  lemma WholeRatePeriod(n: nat, k: int)
    requires n > 0
    ensures k as real * (1.0 / n as real) == k as real / n as real
    ensures 1.0 / (1.0 / n as real) == n as real
  {
    var p := 1.0 / n as real;
    assert p * n as real == 1.0;
  }

  /** `PeriodicCycle` at a whole rate of `n` ticks per second: the report is exactly `n`. */
  lemma SteadyRateCycle(t0: real, n: nat, delay: real, k: nat)
    requires n > 0 && t0 > 0.0 && delay > 0.0 && k >= 1
    requires (k - 1) as real / n as real < delay <= k as real / n as real
    ensures Run(Unarmed, delay, SteadyTicks(t0, n, k + 1)) == Trace(Unarmed, [n])
  {
    SteadyIsPeriodic(t0, n, k + 1);
    WholeRatePeriod(n, k - 1);
    WholeRatePeriod(n, k);
    PeriodicCycle(t0, 1.0 / n as real, delay, k);
    RoundOfInteger(n);
  }

  /** `PeriodicCycles` at a whole rate of `n` ticks per second: `m` reports of exactly `n`. */
  lemma SteadyRateCycles(t0: real, n: nat, delay: real, k: nat, m: nat)
    requires n > 0 && t0 > 0.0 && delay > 0.0 && k >= 1
    requires (k - 1) as real / n as real < delay <= k as real / n as real
    ensures Run(Unarmed, delay, SteadyTicks(t0, n, m * (k + 1))) ==
            Trace(Unarmed, seq(m, _ => n))
  {
    SteadyIsPeriodic(t0, n, m * (k + 1));
    WholeRatePeriod(n, k - 1);
    WholeRatePeriod(n, k);
    PeriodicCycles(t0, 1.0 / n as real, delay, k, m);
    RoundOfInteger(n);
    assert Repeat(n, m) == seq(m, _ => n);
  }

  /** `PeriodicPartialCycle` at a whole rate of `n` ticks per second. */
  lemma PartialCycle(t0: real, n: nat, delay: real, k: nat, j: nat)
    requires n > 0 && t0 > 0.0 && delay > 0.0 && k >= 1 && j <= k
    requires (k - 1) as real / n as real < delay
    ensures Run(Unarmed, delay, SteadyTicks(t0, n, j)).readings == []
  {
    SteadyIsPeriodic(t0, n, j);
    WholeRatePeriod(n, k - 1);
    PeriodicPartialCycle(t0, 1.0 / n as real, delay, k, j);
  }

  /**
   * Ticks at exactly 60 Hz for three seconds (181 ticks, both ends included)
   * give two reports of 60, not three: each report is followed by a tick that
   * only re-opens the window.
   */
  lemma ThreeSecondsAtSixtyHertz(t0: real)
    requires t0 > 0.0
    ensures Run(Unarmed, DefaultDelay, SteadyTicks(t0, 60, 181)) == Trace(Window(t0 + 122.0 / 60.0, 58), [60, 60])
  {
    var t1 := t0 + 122.0 / 60.0;
    SteadyTicksSplit(t0, 60, 122, 59);
    SteadyRateCycles(t0, 60, DefaultDelay, 60, 2);
    assert seq(2, _ => 60) == [60, 60];
    var tail := SteadyTicks(t1, 60, 59);
    RunAppend(Unarmed, DefaultDelay, SteadyTicks(t0, 60, 122), tail);
    assert tail == [t1] + tail[1..];
    forall i | 0 <= i < |tail[1..]|
      ensures tail[1..][i] - t1 < DefaultDelay
    {
      FractionBelowOne((i + 1) as real, 60.0);
    }
    QuietWindow(Window(t1, 0), DefaultDelay, tail[1..]);
  }

  // ---------------------------------------------------------------------
  // What the status bar shows for a reported value
  // ---------------------------------------------------------------------

  /** The milliseconds-per-frame figure, `1000 / max(fps, 1)` in integer division. */
  function Milliseconds(fps: int): (ms: int)
    ensures fps <= 1 ==> ms == 1000
    ensures fps >= 1 ==> 0 <= ms <= 1000 && ms * fps <= 1000 < (ms + 1) * fps
  {
    var d := if fps > 1 then fps else 1;
    var q := 1000 / d;
    assert q * d <= 1000 < q * d + d by {
      assert q * d + 1000 % d == 1000;
    }
    assert fps >= 1 ==> (q + 1) * fps == q * fps + fps;
    q
  }

  datatype Background = Green | Orange | Red
  datatype TextColour = Black | White
  datatype Palette = Palette(background: Background, text: TextColour)

  /** The colours the status bar takes for a reported value. */
  function PaletteFor(fps: int): (p: Palette)
    ensures p.background == Green <==> fps >= 45
    ensures p.background == Orange <==> 35 <= fps <= 44
    ensures p.background == Red <==> fps < 35
    ensures p.text == Black <==> p.background == Green
  {
    if fps >= 45 then Palette(Green, Black)
    else if fps >= 35 then Palette(Orange, White)
    else Palette(Red, White)
  }

  /** What the status bar displays: the value, its milliseconds figure and colours. */
  datatype Readout = Readout(fps: int, milliseconds: int, palette: Palette)

  // ---------------------------------------------------------------------
  // The counter object
  // ---------------------------------------------------------------------

  /** The values a delegate receives for a tick's outcome. */
  function Delivery(hasDelegate: bool, reading: Option<int>): (vs: seq<int>)
    // at most one value per tick, and none when there is no delegate or no report
    ensures |vs| <= 1
    ensures vs != [] <==> hasDelegate && reading.Some?
    ensures vs != [] ==> vs[0] == reading.value
  {
    if hasDelegate && reading.Some? then [reading.value] else []
  }

  class FpsCounter {
    /** Where tracking was last started, if it has not been stopped since. */
    var runloop: Option<RunLoop>
    var mode: Option<Mode>
    /** The (run loop, mode) pairs the display link is scheduled in. */
    var registrations: set<Registration>
    var notificationDelay: real
    var lastNotificationTime: real
    var numberOfFrames: int
    /** Whether the (weakly held) delegate is set. */
    var hasDelegate: bool
    /** Every value handed to the delegate, oldest first. */
    var delivered: seq<int>

    ghost predicate Valid()
      reads this
    {
      && runloop.Some? == mode.Some?
      && registrations == (if runloop.Some? then {Registration(runloop.value, mode.value)} else {})
      && WellFormed(CurrentWindow())
    }

    function CurrentWindow(): Window
      reads this
    {
      Window(lastNotificationTime, numberOfFrames)
    }

    predicate IsTracking()
      reads this
    {
      runloop.Some?
    }

    constructor ()
      ensures Valid() && !IsTracking()
      ensures CurrentWindow() == Unarmed && notificationDelay == DefaultDelay
      ensures !hasDelegate && delivered == []
    {
      runloop, mode, registrations := None, None, {};
      notificationDelay := DefaultDelay;
      lastNotificationTime, numberOfFrames := Unset, 0;
      hasDelegate, delivered := false, [];
    }

    method SetDelegate(present: bool)
      modifies this`hasDelegate
      ensures hasDelegate == present
    {
      hasDelegate := present;
    }

    /** `notificationDelay` is a plain property: any value is accepted. */
    method SetNotificationDelay(delay: real)
      modifies this`notificationDelay
      ensures notificationDelay == delay
    {
      notificationDelay := delay;
    }

    /** Attaches to `(r, m)`, detaching from any previous pair first. */
    method StartTracking(r: RunLoop, m: Mode)
      requires Valid()
      modifies this`runloop, this`mode, this`registrations
      ensures Valid() && IsTracking()
      ensures runloop == Some(r) && mode == Some(m)
      ensures registrations == {Registration(r, m)}
    {
      StopTracking();
      runloop := Some(r);
      mode := Some(m);
      registrations := registrations + {Registration(r, m)};
    }

    /** Detaches from the current pair; does nothing when not tracking. */
    method StopTracking()
      requires Valid()
      modifies this`runloop, this`mode, this`registrations
      ensures Valid() && !IsTracking()
      ensures registrations == {}
      ensures !old(IsTracking()) ==> runloop == old(runloop) && mode == old(mode)
    {
      if runloop.None? || mode.None? {
        return;
      }
      registrations := registrations - {Registration(runloop.value, mode.value)};
      runloop := None;
      mode := None;
    }

    /** One tick of the display link at clock reading `now`. */
    method UpdateFromDisplayLink(now: real)
      requires Valid()
      requires !DividesByZero(CurrentWindow(), notificationDelay, now)
      modifies this`lastNotificationTime, this`numberOfFrames, this`delivered
      ensures Valid()
      ensures CurrentWindow() == Tick(old(CurrentWindow()), notificationDelay, now).window
      ensures delivered ==
              old(delivered) + Delivery(hasDelegate, Tick(old(CurrentWindow()), notificationDelay, now).reading)
    {
      if lastNotificationTime == Unset {
        lastNotificationTime := now;
        return;
      }
      numberOfFrames := numberOfFrames + 1;
      var elapsed := now - lastNotificationTime;
      if elapsed >= notificationDelay {
        NotifyUpdateForElapsedTime(elapsed);
        lastNotificationTime := Unset;
        numberOfFrames := 0;
      }
    }

    /** Hands `round(numberOfFrames / elapsed)` to the delegate, if there is one. */
    method NotifyUpdateForElapsedTime(elapsed: real)
      requires elapsed != 0.0
      modifies this`delivered
      ensures delivered ==
              old(delivered) + (if hasDelegate then [Round(numberOfFrames as real / elapsed)] else [])
    {
      if hasDelegate {
        var fps := Round(numberOfFrames as real / elapsed);
        delivered := delivered + [fps];
      }
    }

    /**
     * The run loop `reg.runloop`, running in mode `reg.mode`, fires its display
     * links: the counter ticks only if its link is scheduled there.
     */
    method DisplayLinkFired(reg: Registration, now: real)
      requires Valid()
      requires reg in registrations ==> !DividesByZero(CurrentWindow(), notificationDelay, now)
      modifies this`lastNotificationTime, this`numberOfFrames, this`delivered
      ensures Valid()
      ensures reg !in registrations ==> CurrentWindow() == old(CurrentWindow()) && delivered == old(delivered)
      ensures reg in registrations ==>
                CurrentWindow() == Tick(old(CurrentWindow()), notificationDelay, now).window &&
                delivered == old(delivered) +
                             Delivery(hasDelegate, Tick(old(CurrentWindow()), notificationDelay, now).reading)
    {
      if reg in registrations {
        UpdateFromDisplayLink(now);
      }
    }
  }

  // ---------------------------------------------------------------------
  // The status-bar overlay
  // ---------------------------------------------------------------------

  /**
   * The shared status-bar window: its visibility, the counter its controller
   * owns (whose delegate the controller is) and what its label shows.
   */
  class StatusBar {
    var isHidden: bool
    const counter: FpsCounter
    var shown: Option<Readout>

    ghost predicate Valid()
      reads this, counter
    {
      counter.Valid() && counter.hasDelegate
    }

    /** `isVisible`: the overlay shows exactly when its window is not hidden. */
    function IsVisible(): (visible: bool)
      reads this
      ensures visible <==> !isHidden
    {
      !isHidden
    }

    constructor ()
      ensures Valid() && fresh(counter)
      ensures !IsVisible() && !counter.IsTracking() && shown == None
      ensures counter.CurrentWindow() == Unarmed && counter.delivered == []
      ensures counter.notificationDelay == DefaultDelay
    {
      var c := new FpsCounter();
      c.SetDelegate(true);
      counter := c;
      isHidden := true;
      shown := None;
    }

    /** `showInStatusBar`: make the window visible and (re)start tracking in `(r, m)`. */
    method Show(r: RunLoop, m: Mode)
      requires Valid()
      modifies this`isHidden, counter`runloop, counter`mode, counter`registrations
      ensures Valid() && IsVisible()
      ensures counter.runloop == Some(r) && counter.mode == Some(m)
      ensures counter.registrations == {Registration(r, m)}
    {
      isHidden := false;
      counter.StartTracking(r, m);
    }

    /** `hide`: stop tracking and hide the window. */
    method Hide()
      requires Valid()
      modifies this`isHidden, counter`runloop, counter`mode, counter`registrations
      ensures Valid() && !IsVisible()
      ensures !counter.IsTracking() && counter.registrations == {}
    {
      counter.StopTracking();
      isHidden := true;
    }

    /** The delegate callback: show the value, its milliseconds figure and colours. */
    method DidUpdateFramesPerSecond(fps: int)
      modifies this`shown
      ensures shown == Some(Readout(fps, Milliseconds(fps), PaletteFor(fps)))
    {
      var ms := Milliseconds(fps);
      var palette := PaletteFor(fps);
      shown := Some(Readout(fps, ms, palette));
    }
  }
}

/**
 * The in-view frame-rate counter (iOSPerfBenchmark/ContentView.swift).
 *
 * Every `update` counts one frame; once a second or more has passed since
 * the window started, the count becomes the shown `fps`, the count restarts
 * at zero and the window restarts at the current time. Unlike the status-bar
 * counter there is no "window closed" state: the first window starts when the
 * counter is created, and the updating tick is counted in the reading.
 *
 * Clock readings are passed in as `now`; `fps` only ever holds a frame
 * count, so it is an integer.
 */
module InViewFps {

  /** Seconds a window lasts before its count is published. */
  const Interval: real := 1.0

  /** The counter's fields `fps`, `frameCount` and `lastTime`. */
  datatype Counter = Counter(fps: int, frameCount: int, lastTime: real)

  /** A counter created at clock reading `now`. */
  function Fresh(now: real): Counter {
    Counter(0, 0, now)
  }

  /** One `update` at clock reading `now`. */
  function Next(c: Counter, now: real): (d: Counter)
    // every update counts; a window of a second or more publishes the count,
    // this update included, and restarts at `now`
    ensures now - c.lastTime >= Interval ==> d == Counter(c.frameCount + 1, 0, now)
    // a shorter window leaves the shown value and the start time alone
    ensures now - c.lastTime < Interval ==> d == c.(frameCount := c.frameCount + 1)
  {
    var frames := c.frameCount + 1;
    if now - c.lastTime >= Interval then Counter(frames, 0, now)
    else c.(frameCount := frames)
  }

  /** The updates at clock readings `times`, in order. */
  function Run(c: Counter, times: seq<real>): (d: Counter)
    // neither the count nor the shown value ever drops below zero, whatever the clock says
    ensures c.frameCount >= 0 && c.fps >= 0 ==> d.frameCount >= 0 && d.fps >= 0
    decreases |times|
  {
    if times == [] then c else Run(Next(c, times[0]), times[1..])
  }

  /** Updates that all come within a second of the window start change only the count. */
  lemma {:induction false} QuietUpdates(c: Counter, times: seq<real>)
    requires forall i :: 0 <= i < |times| ==> times[i] - c.lastTime < Interval
    ensures Run(c, times) == c.(frameCount := c.frameCount + |times|)
    decreases |times|
  {
    if times != [] {
      QuietUpdates(Next(c, times[0]), times[1..]);
    }
  }

  /**
   * When the last of a run of updates is the first to come a second or more
   * after the window start, the shown value becomes the number of updates since
   * the last publication, this one included, and the window restarts there.
   */
  lemma {:induction false} PublishedCountsUpdates(c: Counter, times: seq<real>)
    requires |times| >= 1
    requires forall i :: 0 <= i < |times| - 1 ==> times[i] - c.lastTime < Interval
    requires times[|times| - 1] - c.lastTime >= Interval
    ensures Run(c, times) == Counter(c.frameCount + |times|, 0, times[|times| - 1])
    decreases |times|
  {
    if |times| > 1 {
      PublishedCountsUpdates(Next(c, times[0]), times[1..]);
    }
  }

  /**
   * From a new counter, the first publication shows the number of updates
   * made, including the one that published.
   */
  lemma FirstReading(created: real, times: seq<real>)
    requires |times| >= 1
    requires forall i :: 0 <= i < |times| - 1 ==> times[i] - created < Interval
    requires times[|times| - 1] - created >= Interval
    ensures Run(Fresh(created), times).fps == |times|
  {
    PublishedCountsUpdates(Fresh(created), times);
  }

  class FpsCounter {
    var fps: int
    var frameCount: int
    var lastTime: real

    function State(): Counter
      reads this
    {
      Counter(fps, frameCount, lastTime)
    }

    /** Created at clock reading `now`. */
    constructor (now: real)
      ensures State() == Fresh(now)
      ensures fps == 0 && frameCount == 0 && lastTime == now
    {
      fps := 0;
      frameCount := 0;
      lastTime := now;
    }

    /** One tick of the view's timer at clock reading `now`. */
    method Update(now: real)
      modifies this
      ensures State() == Next(old(State()), now)
    {
      frameCount := frameCount + 1;
      var currentTime := now;
      if currentTime - lastTime >= Interval {
        fps := frameCount;
        frameCount := 0;
        lastTime := currentTime;
      }
    }
  }
}

# iOSPerfBenchmark: frame-rate counters and animation state, in Dafny

iOSPerfBenchmark is an iOS app that loads the renderer on purpose (long lists of
rotating images, a 4 000-cell animated grid) and shows the frame rate it gets.
This project models the logic inside it, not the views:

- `StatusBarFps` (`status_bar_fps.dfy`): the `FPSCounter` of `AppDelegate.swift`.
  Start and stop tracking attach and detach the display link. Each display-link
  tick opens a measuring window, counts a frame, or reports
  `round(frames / elapsed)` to the delegate and closes the window. The delegate
  turns a reported value into a milliseconds-per-frame figure and a colour bucket.
  `showInStatusBar` and `hide` toggle the overlay window (`IsVisible`) and start
  or stop tracking.
  The tick is proved against the pure function `Tick` and runs of ticks against `Run`.
  The lemmas cover a whole window (`ReadingCountsTicksAfterOpening`), the spacing
  of reports (at most one per `notificationDelay`, `ReportsMoreThanDelayApart`)
  and a steady tick rate, whole or not, under any positive delay (`PeriodicCycles`).
- `InViewFps` (`in_view_fps.dfy`): the simpler `FPSCounter` of `ContentView.swift`.
  It counts every update, the publishing one included, and restarts its window at
  the current time instead of closing it.
- `RotatingImages` (`rotating_image.dfy`): the `RotatingImage` timer handler.
  `ContentView.swift` and `ImageListBenchmark.swift` declare it identically, so it
  is modelled once. It adds 3 degrees per tick and wraps to 0 at 360.
- `ImageLists` (`image_lists.dfy`): the 30-name image row
  (`Array(repeating:count:).flatMap`) and the two 300-row lists.
- `GridBenchmark` (`grid_benchmark.dfy`): the grid's `time` counter modulo 10 000
  and the per-cell seed `index + time`. The seeded generator is a parameter `draw`
  that promises only values in [1, 10 000).
- `Arithmetic` (`arithmetic.dfy`): facts about `/` and `%` the other modules use.

Clock readings (`CFAbsoluteTimeGetCurrent`, `CACurrentMediaTime`) are parameters
named `now`. Run loops are identities and run-loop modes are names. A delegate
call is an append to the counter's `delivered` sequence.

Three behaviours of the code are easy to get wrong, and the model keeps them as written:

- `startTracking` does not reset the frame count or the window.
- `notificationDelay` is not validated. A delay of zero or less makes a zero
  elapsed time possible, and there `Int(round(x / 0.0))` traps.
  `DividesByZero` names that input, and the tick's precondition excludes it.
- At a steady `n` ticks per second, each report is followed by a tick that only
  re-opens the window. So with the default delay a cycle lasts `n + 1` ticks, and
  three seconds at 60 Hz give two reports, not three (`ThreeSecondsAtSixtyHertz`).
  With one tick every `p` seconds, under any delay, a cycle lasts `k + 1` ticks,
  for the least `k >= 1` with `k * p >= delay`, and reports `round(1/p)`: at 59.5 Hz
  that is 60 (`HalfHertzRateRoundsAway`).

## Model

| member | source | states |
|---|---|---|
| `StatusBarFps.Round` | iOSPerfBenchmark/AppDelegate.swift:156 | Swift `round`: the result is within 1/2 of `x`, and a tie goes away from zero |
| `StatusBarFps.RoundOfInteger` | iOSPerfBenchmark/AppDelegate.swift:156 | rounding leaves a whole number unchanged |
| `StatusBarFps.Tick` | iOSPerfBenchmark/AppDelegate.swift:137-153 | a report happens exactly when an open window has lasted `notificationDelay`; it closes the window and gives round((frames+1)/elapsed); a closed window only records the time; an open one that does not report counts exactly one frame |
| `StatusBarFps.TickKeepsWellFormed` | iOSPerfBenchmark/AppDelegate.swift:134-153 | the frame count stays non-negative and is 0 whenever the window is closed |
| `StatusBarFps.Run` | iOSPerfBenchmark/AppDelegate.swift:137-157 | a run of ticks reports at most once per two ticks (one to open the window, one to close it), plus one if the window starts open |
| `StatusBarFps.QuietWindow` | iOSPerfBenchmark/AppDelegate.swift:143-148 | ticks that all come before the delay has elapsed report nothing and add one frame each |
| `StatusBarFps.ClosingWindow` | iOSPerfBenchmark/AppDelegate.swift:143-157 | the first tick to reach the delay reports the rounded rate of every frame counted in the window and closes it |
| `StatusBarFps.ReadingCountsTicksAfterOpening` | iOSPerfBenchmark/AppDelegate.swift:137-157 | from a closed window the reported value is round(ticks after the opening tick, up to and including the reporting one / elapsed) |
| `StatusBarFps.PeriodicCycle` | iOSPerfBenchmark/AppDelegate.swift:137-157 | at one tick every p > 0 seconds and any delay > 0, with k the least k >= 1 whose k * p reaches the delay, k + 1 ticks open a window and report exactly round(1/p) |
| `StatusBarFps.PeriodicCycles` | iOSPerfBenchmark/AppDelegate.swift:137-157 | at one tick every p > 0 seconds and any delay > 0 (k as above), m(k + 1) ticks report round(1/p) exactly m times |
| `StatusBarFps.PeriodicPartialCycle` | iOSPerfBenchmark/AppDelegate.swift:138-148 | at one tick every p seconds, at most k ticks from a closed window report nothing when (k - 1) * p is under the delay |
| `StatusBarFps.HalfHertzRateRoundsAway` | iOSPerfBenchmark/AppDelegate.swift:156 | at 59.5 ticks per second with the default delay, 61 ticks report 60: a rate halfway between two integers rounds up |
| `StatusBarFps.SteadyRateCycle` | iOSPerfBenchmark/AppDelegate.swift:137-157 | the whole-rate case p = 1/n of `PeriodicCycle`: k + 1 ticks at n Hz report exactly n |
| `StatusBarFps.SteadyRateCycles` | iOSPerfBenchmark/AppDelegate.swift:137-157 | the whole-rate case p = 1/n of `PeriodicCycles`: m(k + 1) ticks at n Hz report n exactly m times |
| `StatusBarFps.PartialCycle` | iOSPerfBenchmark/AppDelegate.swift:138-148 | the whole-rate case p = 1/n of `PeriodicPartialCycle` |
| `StatusBarFps.StateBeforeStep` | iOSPerfBenchmark/AppDelegate.swift:137-153 | the window before tick k + 1 is the window after tick k |
| `StatusBarFps.OpenedAfterReport` | iOSPerfBenchmark/AppDelegate.swift:138-153 | with increasing clock readings, any window open after a report was opened strictly later than the reporting tick |
| `StatusBarFps.ReportsMoreThanDelayApart` | iOSPerfBenchmark/AppDelegate.swift:137-157 | with increasing clock readings, any two reports come more than `notificationDelay` apart: at most one report per interval |
| `StatusBarFps.ThreeSecondsAtSixtyHertz` | iOSPerfBenchmark/AppDelegate.swift:137-153 | 181 ticks at 60 Hz report 60 twice and leave a window open with 58 frames |
| `StatusBarFps.Milliseconds` | iOSPerfBenchmark/AppDelegate.swift:252 | 1000 for any fps <= 1; otherwise the floor of 1000 / fps (ms * fps <= 1000 < (ms + 1) * fps) |
| `StatusBarFps.PaletteFor` | iOSPerfBenchmark/AppDelegate.swift:255-265 | green for fps >= 45, orange for 35..44, red below 35; black text on green, white otherwise |
| `StatusBarFps.FpsCounter.constructor` | iOSPerfBenchmark/AppDelegate.swift:68-135 | a new counter is not tracking, its window is closed with 0 frames, its delay is 1.0 and it has no delegate |
| `StatusBarFps.FpsCounter.SetDelegate` | iOSPerfBenchmark/AppDelegate.swift:88 | sets whether a delegate is present |
| `StatusBarFps.FpsCounter.SetNotificationDelay` | iOSPerfBenchmark/AppDelegate.swift:91 | any delay is accepted as given |
| `StatusBarFps.FpsCounter.StartTracking` | iOSPerfBenchmark/AppDelegate.swift:111-117 | afterwards the counter is attached to exactly (r, m) and the link is scheduled only there, whatever it was before |
| `StatusBarFps.FpsCounter.StopTracking` | iOSPerfBenchmark/AppDelegate.swift:123-129 | afterwards nothing is attached or scheduled; with nothing attached it changes nothing; frames and window untouched |
| `StatusBarFps.FpsCounter.UpdateFromDisplayLink` | iOSPerfBenchmark/AppDelegate.swift:137-153 | the new window is `Tick` of the old one; the delegate gets the tick's report, if any and if a delegate is set |
| `StatusBarFps.FpsCounter.NotifyUpdateForElapsedTime` | iOSPerfBenchmark/AppDelegate.swift:155-158 | appends round(frames / elapsed) to what the delegate received, when there is a delegate |
| `StatusBarFps.FpsCounter.DisplayLinkFired` | iOSPerfBenchmark/AppDelegate.swift:52-54 | a run loop firing ticks the counter only if its link is scheduled there; otherwise nothing changes, so a stopped counter reports nothing |
| `StatusBarFps.StatusBar.constructor` | iOSPerfBenchmark/AppDelegate.swift:223-241 | the overlay starts hidden, with a fresh, untracking counter with a closed window, the default delay of 1 second and the overlay's controller as delegate (set in `loadView`, line 223) |
| `StatusBarFps.StatusBar.IsVisible` | iOSPerfBenchmark/AppDelegate.swift:324-326 | the overlay is visible exactly when its window is not hidden |
| `StatusBarFps.Delivery` | iOSPerfBenchmark/AppDelegate.swift:157 | the delegate gets at most one value per tick: the report's value, exactly when there is both a delegate and a report |
| `StatusBarFps.StatusBar.Show` | iOSPerfBenchmark/AppDelegate.swift:292-309 | the overlay becomes visible and its counter tracks exactly (r, m) |
| `StatusBarFps.StatusBar.Hide` | iOSPerfBenchmark/AppDelegate.swift:313-320 | the counter stops tracking and the overlay becomes hidden |
| `StatusBarFps.StatusBar.DidUpdateFramesPerSecond` | iOSPerfBenchmark/AppDelegate.swift:249-266 | the overlay shows the value with its milliseconds figure and colours |
| `InViewFps.Next` | iOSPerfBenchmark/ContentView.swift:21-29 | a window of a second or more publishes the count, this update included, and restarts at now; a shorter one changes only the count |
| `InViewFps.Run` | iOSPerfBenchmark/ContentView.swift:21-29 | neither the count nor the shown value ever becomes negative |
| `InViewFps.QuietUpdates` | iOSPerfBenchmark/ContentView.swift:22-24 | updates within a second of the window start leave fps and the start time alone and add one each to the count |
| `InViewFps.PublishedCountsUpdates` | iOSPerfBenchmark/ContentView.swift:22-28 | the published fps is the number of updates since the last publication, this one included; the count restarts at 0 and the window at that update's time |
| `InViewFps.FirstReading` | iOSPerfBenchmark/ContentView.swift:17-28 | a new counter's first published value is the number of updates made, the publishing one included |
| `InViewFps.FpsCounter.constructor` | iOSPerfBenchmark/ContentView.swift:12-19 | fps 0, frame count 0, window starting at the creation time |
| `InViewFps.FpsCounter.Update` | iOSPerfBenchmark/ContentView.swift:21-29 | the new fields are `Next` of the old ones |
| `RotatingImages.Advance` | iOSPerfBenchmark/ContentView.swift:60-63 | keeps the angle a multiple of 3 in [0, 360); adds exactly 3 within a turn; 357 goes to 0 |
| `RotatingImages.AdvanceBy` | iOSPerfBenchmark/ImageListBenchmark.swift:51-56 | any number of ticks keeps the angle a multiple of 3 in [0, 360) |
| `RotatingImages.AngleAfterTicks` | iOSPerfBenchmark/ContentView.swift:51-63 | from 0, k ticks give 3k mod 360 |
| `RotatingImages.NotBackBeforeFullTurn` | iOSPerfBenchmark/ImageListBenchmark.swift:52-55 | between 1 and 119 ticks from 0 the angle is never 0 |
| `RotatingImages.FullTurnTakes120Ticks` | iOSPerfBenchmark/ContentView.swift:60-63 | the angle returns to 0 after exactly 120 ticks and not before |
| `RotatingImages.Periodic` | iOSPerfBenchmark/ImageListBenchmark.swift:52-55 | 120 more ticks give the same angle |
| `RotatingImages.RotatingImage.constructor` | iOSPerfBenchmark/ImageListBenchmark.swift:41-43 | a new image starts at angle 0 |
| `RotatingImages.RotatingImage.OnTimer` | iOSPerfBenchmark/ImageListBenchmark.swift:51-56 | the new angle is `Advance` of the old and stays a multiple of 3 in [0, 360) |
| `ImageLists.Repeating` | iOSPerfBenchmark/ContentView.swift:92 | `Array(repeating:count:)` has `count` elements, all equal to the repeated value |
| `ImageLists.Flattened` | iOSPerfBenchmark/ContentView.swift:92 | `flatMap { $0 }` has the summed length of the inner arrays and holds exactly their elements |
| `ImageLists.ListItem` | iOSPerfBenchmark/ContentView.swift:87-95 | every row, whatever its index, lists 30 names cycling image1, image2, image3 |
| `ImageLists.TiledAt` | iOSPerfBenchmark/ImageListBenchmark.swift:15 | flattening n copies of xs gives n times len(xs) elements, element i being xs[i mod len(xs)] |
| `ImageLists.ImageRow` | iOSPerfBenchmark/ContentView.swift:92 | 30 names, element i is ["image1","image2","image3"][i mod 3] |
| `ImageLists.Range` | iOSPerfBenchmark/ContentView.swift:106 | `0..<n` has n elements and element i is i |
| `ImageLists.ContentRows` | iOSPerfBenchmark/ContentView.swift:87-109 | 300 rows, each the 30-name image row |
| `ImageLists.BenchmarkRows` | iOSPerfBenchmark/ImageListBenchmark.swift:10-19 | 300 rows, each the 30-name image row |
| `ImageLists.SameRows` | iOSPerfBenchmark/ImageListBenchmark.swift:14-15 | both screens list the same rows |
| `GridBenchmark.Rem` | iOSPerfBenchmark/GridViewBenchmark.swift:48 | Swift `%`: the remainder has the dividend's sign, is smaller than the modulus and differs from the dividend by a multiple of it |
| `GridBenchmark.NextTime` | iOSPerfBenchmark/GridViewBenchmark.swift:47-49 | keeps time in [0, 10000); time + 1 below 9999; 9999 goes to 0 |
| `GridBenchmark.TimeAfterTicks` | iOSPerfBenchmark/GridViewBenchmark.swift:19-49 | from a valid time, k ticks add k modulo 10000 |
| `GridBenchmark.TimeIsPeriodic` | iOSPerfBenchmark/GridViewBenchmark.swift:48 | 10000 ticks bring time back to its starting value |
| `GridBenchmark.CellValue` | iOSPerfBenchmark/GridViewBenchmark.swift:34-35 | every cell value lies in [1, 10000) |
| `GridBenchmark.CellValues` | iOSPerfBenchmark/GridViewBenchmark.swift:33-43 | exactly 4000 cells, every value in [1, 10000) |
| `GridBenchmark.SameSeedSameValue` | iOSPerfBenchmark/GridViewBenchmark.swift:34 | a cell's value depends only on index + time |
| `GridBenchmark.TickShiftsValues` | iOSPerfBenchmark/GridViewBenchmark.swift:33-48 | between wraps, after a tick cell i shows what cell i + 1 showed before |
| `GridBenchmark.GridView.constructor` | iOSPerfBenchmark/GridViewBenchmark.swift:19 | time starts at 0 |
| `GridBenchmark.GridView.OnTimer` | iOSPerfBenchmark/GridViewBenchmark.swift:47-49 | time becomes `NextTime` of the old time and stays in [0, 10000) |
| `GridBenchmark.GridView.Values` | iOSPerfBenchmark/GridViewBenchmark.swift:33-35 | the grid shows 4000 values, each in [1, 10000) |
| `GridBenchmark.Seed` | iOSPerfBenchmark/GridViewBenchmark.swift:34 | the seed minus the time is the cell index: at one time no two cells share a seed |

## Left out

- `StatusBarFps.FpsCounter.UpdateFromDisplayLink`: requires that a report not divide by a zero elapsed time. The source traps there, which only a `notificationDelay` of zero or less allows.
- `StatusBarFps.Round`: timestamps and the frame rate are exact reals, not Doubles, so Double rounding in `frames / elapsed` and in tick spacing is not modelled.
- `StatusBarFps.FpsCounter.NotifyUpdateForElapsedTime`: requires `elapsed != 0.0`, because `Int(round(x / 0.0))` traps in the source; the tick path reaches it only with a delay of zero or less.
- `StatusBarFps.FpsCounter.NotifyUpdateForElapsedTime`: does not model the trap of `Int(...)` for a rounded value outside the 64-bit range.
- `StatusBarFps.FpsCounter.UpdateFromDisplayLink`: does not model the overflow trap of `numberOfFrames` at 2^63 - 1 ticks in one window.
- `CADisplayLink` and the `DisplayLinkProxy` weak-reference relay are not modelled, and neither is `deinit` invalidation. A display-link firing is the method `DisplayLinkFired`.
- `RunLoop.Mode.common` standing for several modes is not modelled: a mode is only a name.
- `StatusBarFps.StatusBar.DidUpdateFramesPerSecond`: the label's text string is not formatted. The readout keeps the value and its milliseconds figure instead. `resignKeyWindowIfNeeded` (key-window handling) is left out as window management.
- `StatusBarFps.StatusBar.constructor`: the counter's delegate is set when the overlay is created, not in `loadView` when its view loads. No tick can reach the counter before `Show` unhides the window, so no report is lost by this.
- `StatusBarFps.StatusBar.Show`: the window frame taken from the status-bar manager is not modelled. Neither is the orientation-change observer (layout).
- The counter's `delivered` sequence and the overlay's `DidUpdateFramesPerSecond` are modelled separately: the delegate dispatch between them is not.
- `InViewFps.FpsCounter.Update`: does not model the overflow trap of `frameCount += 1` at 2^63 - 1 updates in one window.
- `InViewFps.FpsCounter.Update`: `fps` is a `Double` in the source and an `int` here, because it is only ever assigned a whole frame count.
- `InViewFps`: the counter's own one-second `timer` property (ContentView.swift:15) is never subscribed to, so it is not modelled. Neither is the view's text `Int(counter.fps)`.
- `GridBenchmark`: `SeededGenerator` (C `srand48`/`drand48`) and how `Int.random(in:using:)` maps raw draws into the range are not modelled. Only the range promise is kept, as the parameter `draw`.
- `GridBenchmark`: the shared `scale`, `rotation` and `shadowOffset` are left out (floating-point trigonometry and `truncatingRemainder`). So is `elapsed`, which only feeds them.
- All SwiftUI/UIKit view composition, layout, fonts and colours-as-views are left out as UI glue. So are `AppDelegate.application` (window setup, launch logging) and `ViewController.swift` (TTID logging).

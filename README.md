# ASUS fan control: the decision engine, in Dafny

This project models the control core of a fan controller for ASUS laptops.
Once per tick, `FanController.run` reads the CPU temperature from
`AsusFanControl.exe`. A positive reading resets the failure count. A rise of at
least `spike_threshold` since the previous raw reading forces 100 %.
Otherwise the reading joins a bounded history (`deque(maxlen=smoothing_window)`)
and its rounded mean drives the fan curve.
The curve is a custom one (sorted by temperature), the named preset profile,
or a two-point ramp built from the legacy thresholds. The speed is
piecewise-linear between waypoints and clamped at the curve's ends. A
hysteresis guard holds the speed already set until the temperature has dropped
by `hysteresis_degrees`, and the result is clamped to [0, 100].
A reading of 0 means an incompatible ASUS driver. The controller counts a
failure, forces 100 % and runs a driver version check, throttled to once a
minute, which compares the dotted version with 3.1.38.0 as a tuple of ints.
A missing or negative reading counts a failure and forces 100 %. After every
completed tick the speed is sent only if it differs from the one already set,
and the controller sleeps 3, 5 or 10 s depending on the temperature.
The tray module contributes its pure display helpers: colour bands,
icon colour and text, integer settings, the dashboard's placement and the
values the dashboard bars and the tooltip show.

Layout:

- `wrappers.dfy` (`Option`).
- `numeric.dfy`: clamping, and Python's `round` (half to even) on an exact fraction.
- `pytext.dfy`: the parts of Python's `str` and `int` the version parser uses: `strip`, `split`, `join`, `int(str)`, `str(int)`.
- `versions.dfy`: `_parse_version`, tuple comparison, the driver verdict.
- `settings.dfy`: the configuration, its defaults and the three presets.
- `curves.dfy`: `_resolve_fan_curve` with a stable sort.
- `decision.dfy`: the speed decision of `decide_fan_speed`.
- `smoothing.dfy`: the bounded history and its rounded mean.
- `engine.dfy`: the controller's state as a value, and every method as a function of the old state and of what the outside world answers. Lemmas state what a tick and the loop guarantee.
- `controller.dfy`: `FanController` as a class whose methods update its fields in place. Each method is proved to do what the matching `Engine` function says.
- `tray.dfy`: the display helpers of the tray and the dashboard.

## Model

| member | source | states |
|---|---|---|
| Numeric.RoundHalfEven | main.py:512 | the integer within half a unit of `n / d`, the even one on a tie, as Python's `round` |
| Numeric.RoundUnique | main.py:512 | an integer within half a unit, and even on a tie, is the rounded value |
| Numeric.RoundMonotone | main.py:512 | rounding is monotone |
| Numeric.RoundBetween | main.py:512 | a fraction between two integers rounds to a value between them |
| Numeric.Clamp | main.py:526 | `max(lo, min(hi, x))`: the result lies in `lo..hi`, is `x` itself when `x` is in range, `lo` below it and `hi` above it |
| PyText.Strip | main.py:62 | `str.strip()` leaves neither end on Python whitespace |
| PyText.StripIsTrimmedSlice | main.py:62 | the stripped text is a contiguous slice of the input, with only whitespace removed at either end |
| PyText.Split | main.py:62 | `str.split(".")` gives at least one part, no part contains the separator, and joining the parts with it gives back the text |
| PyText.SplitJoin | main.py:62 | splitting text joined from separator-free parts gives back those parts |
| PyText.ParseIntStr | main.py:62 | `int(str(i)) == i` for every integer, negative ones included |
| PyText.ParseInt | main.py:62 | `int(x)` on text gives a number only when the stripped text is not empty; `PyText.ParseIntStr` proves it reads back every `str(i)` |
| PyText.Join | main.py:410 | `sep.join(parts)` begins with the first part; `PyText.SplitJoin` proves `split` undoes it for separator-free parts |
| PyText.NatStr | main.py:410 | `str(n)` of a natural number is non-empty, all digits, without a leading zero and without a dot |
| PyText.IntStr | main.py:410 | `str(i)` is non-empty and contains no dot, so it can be a version part; `PyText.ParseIntStr` proves `int()` reads it back |
| Versions.ParseVersion | main.py:59-64 | a version is never empty |
| Versions.ParseVersionParts | main.py:59-64 | when every dot-separated part of the stripped text is an integer the version is those integers in order; when any part is not, it is `(0,)` |
| Versions.ParseRenderVersion | main.py:59-64 | a version tuple printed with dots parses back to itself |
| Versions.RenderVersion | main.py:410 | `".".join(str(x) for x in v)`; `Versions.ParseRenderVersion` proves `_parse_version` inverts it |
| Versions.TupleLess | main.py:408 | Python's `<` on tuples of ints, defined lexicographically; `Versions.TupleLessFirstDifference`, `TupleLessTransitive` and `TupleLessTotal` prove it is the strict order by first difference |
| Versions.TupleLessFirstDifference | main.py:408 | tuple `<` holds exactly when the first differing element is smaller, or the left side is a proper prefix |
| Versions.TupleLessTransitive | main.py:408 | tuple `<` is transitive |
| Versions.TupleLessTotal | main.py:408 | any two different versions are ordered one way or the other |
| Versions.DriverVerdict | main.py:400-423 | no version gives "unknown"; "incompatible" holds exactly when the parsed version is greater than 3.1.38.0 |
| Versions.UnparseableIsCompatible | main.py:59-64 | text that does not parse counts as compatible |
| Versions.NewerPatchIsIncompatible | main.py:55 | 3.1.39.0 is incompatible |
| Versions.PrefixVersionIsCompatible | main.py:55 | a proper prefix such as 3.1.38 is compatible |
| Versions.LongerVersionIsIncompatible | main.py:55 | 3.1.38.0.1 is incompatible |
| Settings.PresetsWellFormed | main.py:41-51 | exactly three profile names exist; each preset's temperatures strictly increase, its speeds never fall and stay within 0..100 |
| Settings.Preset | main.py:41-51 | a preset exists exactly for the names "silent", "balanced" and "performance" |
| Curves.SortByTemp | main.py:284 | the sorted curve is ordered by temperature and is a permutation of the input |
| Curves.SortIsStable | main.py:284 | waypoints with the same temperature keep their input order, as `sorted` is stable |
| Curves.ResolveFanCurve | main.py:279-297 | the resolved curve is never empty, and a non-empty custom curve resolves to a sorted permutation of itself |
| Curves.ResolutionOrder | main.py:279-297 | a non-empty custom curve wins, sorted; otherwise a known profile's preset; otherwise the two-point ramp from the legacy thresholds |
| Curves.ResolveIdempotent | main.py:279-297 | when the configuration has a non-empty custom curve or names a known profile, resolving again with the resolved curve as the custom curve changes nothing (a legacy ramp with `low_temp > high_temp` would be re-sorted, so it is excluded) |
| Curves.DefaultResolvesToBalanced | main.py:21-37 | the default configuration resolves to the balanced preset |
| Decision.FirstBracket | main.py:504-513 | the scan stops at the first segment that brackets the temperature, or at the end when none does |
| Decision.BracketFound | main.py:497-513 | between the first and the last waypoint some segment always brackets the temperature |
| Decision.SegmentSpeed | main.py:508-512 | the interpolated speed lies between the segment's end speeds and equals them at its ends |
| Decision.SegmentMonotone | main.py:511-512 | on a rising segment a hotter temperature never gets a lower speed |
| Decision.CurveTarget | main.py:496-513 | the curve target, defined as the end speeds outside the curve and the first bracketing segment's interpolation inside; `Controller.CurveScan` proves the loop computes it, and the `CurveTarget*` lemmas state its range, its values at waypoints and its monotonicity |
| Decision.CurveTargetWithin | main.py:497-513 | the curve target never leaves the range of the waypoint speeds |
| Decision.CurveTargetAtWaypoints | main.py:497-513 | the target is the first speed at or below the first waypoint, the last speed at or above the last one, and the waypoint's own speed at every waypoint of a strictly increasing curve |
| Decision.CurveTargetMonotone | main.py:497-513 | on a sorted curve with non-falling speeds a hotter temperature never gets a lower target |
| Decision.DecideSpeed | main.py:492-526 | the decided speed is always within 0..100 |
| Decision.ApplyHysteresis | main.py:515-524 | the guard either keeps the curve target or replaces it by a higher speed already set |
| Decision.HysteresisHoldsSpeed | main.py:516-524 | below the set speed, the set speed is held while the drop is under `hysteresis_degrees` and released once it reaches it |
| Decision.HysteresisNeverRaises | main.py:517-521 | with no speed set, no previous reading or a target not below the set speed, the guard does nothing |
| Decision.BalancedAt45 | main.py:41-51 | the balanced preset at 45 C gives 38 % (37.5 rounded half to even) |
| Smoothing.Window | main.py:266 | the deque keeps the last `maxlen` readings |
| Smoothing.PushEvictsOldest | main.py:532 | appending to a full deque drops the oldest reading; a deque of size 0 stays empty |
| Smoothing.Mean | main.py:533 | the rounded mean times the count is within half the count of the sum, i.e. within half a degree of the exact average |
| Smoothing.MeanBetweenMinAndMax | main.py:533 | the rounded mean lies between the smallest and the largest reading |
| Smoothing.MeanWithin | main.py:533 | readings within bounds have a rounded mean within the same bounds |
| Smoothing.SmoothingExample | main.py:530-533 | 50..90 averages to 70, and after 100 the window 60..100 averages to 80 |
| Engine.Initial | main.py:258-276 | a new controller holds no history, and its curve is the resolved one |
| Engine.Smooth | main.py:530-533 | the new history is the window of the old one plus the reading; the mean is absent exactly when the window is 0 (division by zero), otherwise between the history's minimum and maximum |
| Engine.SpikeDetected | main.py:535-546 | `detect_spike`: a rise of at least the threshold over the previous raw reading, never without one; `Engine.SpikeMonotone` and `Engine.SpikeExamples` state its behaviour |
| Engine.SpikeMonotone | main.py:535-546 | a spike stays a spike for any hotter reading and any lower threshold |
| Engine.Decide | main.py:492-526 | the decided speed is within 0..100 |
| Engine.SetProfile | main.py:299-309 | the configuration still resolves to the active curve after `set_profile`, whatever the name; `Engine.SetProfileContract` states what a switch changes |
| Engine.SetFanSpeed | main.py:473-488 | `set_fan_speed` as a function of the speed set and the command's result; `Engine.SetFanSpeedContract` states its behaviour |
| Engine.CheckDriver | main.py:386-426 | within 60 s of the last check nothing changes; otherwise the time and the version are recorded and the verdict is "incompatible" exactly for a version greater than 3.1.38.0 |
| Engine.DriverAlert | main.py:407-421 | the "Driver Incompatible" toast goes out when the check is not throttled and the probed version is greater than 3.1.38.0; `Engine.ZeroReadSeverity` proves a zero-read tick reports exactly this |
| Engine.AdaptiveSleep | main.py:550-560 | the sleep is 3, 5 or 10 s, and 3 s when the reading is missing or non-positive |
| Engine.AdaptiveSleepBands | main.py:550-560 | a hotter reading never sleeps longer; 10 s exactly below `high_temp - 10`, 5 s exactly in the 10 degrees below `high_temp` |
| Engine.SpikeExamples | main.py:535-546 | a rise of 20 over a threshold of 15 is a spike, a rise of 10 is not, and the first reading never is |
| Engine.Tick | main.py:574-653 | every tick keeps the history within the window and the curve equal to the resolved one, leaves the configuration and `running` alone, targets a speed within 0..100, and ends in a `set_fan_speed` that sends the command exactly when the target differs from the speed set and records it exactly on success |
| Engine.GoodReadTick | main.py:576-592 | a positive reading resets the failure count, leaves the driver fields alone, becomes the previous reading on a completed tick, targets a speed within 0..100 and ends in the dispatch `Engine.Tick` describes |
| Engine.SpikeTick | main.py:580-592 | a spike targets 100 %, resets the failures, records the raw reading, leaves the driver fields alone and ends in the dispatch `Engine.Tick` describes |
| Engine.CalmTick | main.py:588-592 | a calm positive reading resets the failures and leaves the driver fields alone; a completed tick targets 0..100 and records the raw reading |
| Engine.DecideAndFinish | main.py:589-592 | the end of a calm tick always completes, targets 0..100, records the raw reading and keeps the failure count and the driver fields |
| Engine.ZeroReadTick | main.py:594-617 | a reading of 0 targets 100 % and ends in the dispatch `Engine.Tick` describes |
| Engine.FailedReadTick | main.py:619-638 | a missing or negative reading targets 100 %, leaves the driver fields alone and ends in the dispatch `Engine.Tick` describes |
| Engine.Finish | main.py:640-660 | the end of a completed tick: the state after `set_fan_speed`, whether the command went out and whether it succeeded, exactly as the call says; failures, history, previous reading and driver fields untouched; the sleep from `adaptive_sleep` |
| Engine.TickDispatch | main.py:640-643 | a completed tick sends the command exactly when its target differs from the speed set before it, and the target becomes the speed set exactly when the call succeeds |
| Engine.SwitchForcesNextTick | main.py:299-309 | after a successful `set_profile` the next completed tick always sends its command |
| Engine.SetFanSpeedContract | main.py:473-488 | the command is issued exactly when the speed differs from the one set; the call fails only when an issued command fails; only success records the speed; nothing else changes |
| Engine.SetFanSpeedTwice | main.py:475-477 | once a speed is applied, asking for it again issues nothing |
| Engine.SetProfileContract | main.py:299-309 | switching succeeds exactly for the three preset names; success installs the preset, clears the custom curve and forces the next dispatch, and keeps the history, the previous reading, the failure count, `running` and the driver fields; an unknown name changes nothing |
| Engine.SetProfileResolves | main.py:299-309 | after a switch the configuration resolves to the installed preset |
| Engine.PositiveReadResets | main.py:576-592 | a positive reading clears the failure count and, unless the tick aborts, becomes the previous reading |
| Engine.SpikeForcesFullSpeed | main.py:580-592 | a spike targets 100 % at warning severity, notifies when notifications are enabled, and leaves the history alone |
| Engine.CalmTickFollowsCurve | main.py:588-592 | without a spike the reading joins the history, and the target is the decision for the rounded mean of the new history |
| Engine.EmptyWindowAborts | main.py:530-533 | with a window of 0 a calm positive reading raises before anything is dispatched |
| Engine.FailedReadForcesFullSpeed | main.py:594-653 | a reading that is not positive counts a failure, targets 100 %, sleeps 3 s, leaves the history and the previous reading alone, and notifies exactly when the failures reach the maximum with notifications enabled |
| Engine.FailedReadSeverity | main.py:619-638 | a missing or negative reading is critical exactly when the failures reach the maximum, and never probes the driver |
| Engine.ZeroReadSeverity | main.py:594-617 | a reading of 0 records the driver check (time, version, verdict) exactly as `_check_driver_if_needed` does; it is critical exactly when the driver verdict is "incompatible"; the driver toast goes out exactly when a probe finds it so |
| Engine.OnlyZeroReadProbesDriver | main.py:576-600 | for every reading other than 0 the tick does not depend on the clock or the driver, and leaves the driver fields alone |
| Engine.DriverCheckThrottled | main.py:392-395 | a second check within a minute of a probe changes nothing |
| Engine.Stop | main.py:666-668 | `stop()` clears `running` and changes nothing else |
| Engine.AfterTick | main.py:572-668 | the state at the top of the next iteration keeps the configuration, and `running` is clear exactly when it was clear or a `stop()` came during the tick |
| Engine.RunLoop | main.py:572-661 | the `while self.running` loop runs at most one tick per input, does nothing when `running` is already clear, and keeps the configuration |
| Engine.Run | main.py:564-664 | `run` ends with `running` cleared and the configuration unchanged |
| Engine.RunLoopCountsFailures | main.py:572-654 | without a stop the loop runs one tick per input, and the failure count is the number of consecutive failed readings at the end of the script, plus the earlier count when all of them failed |
| Engine.StopEndsLoop | main.py:666-668 | a `stop()` during the tick for input `k` ends the loop after exactly `k + 1` ticks |
| Engine.RunEndsInFailures | main.py:564-664 | `run` always ends with `running` cleared; when no `stop()` comes during the script, the failure count covers its trailing failed readings |
| Controller.CurveScan | main.py:496-513 | the `for`/`break` scan computes the curve target |
| Controller.FanController.constructor | main.py:258-276 | the new object is the initial state |
| Controller.FanController.SetProfile | main.py:299-309 | the object moves as `Engine.SetProfile` says |
| Controller.FanController.SetFanSpeed | main.py:473-488 | the object moves as `Engine.SetFanSpeed` says |
| Controller.FanController.CheckDriverIfNeeded | main.py:386-426 | the object moves as `Engine.CheckDriver` says |
| Controller.FanController.Probe | main.py:395-426 | the unthrottled check records the time, the driver's answer and the verdict in place, changes nothing else, and raises the alert exactly for an incompatible verdict |
| Controller.FanController.GetSmoothedTemp | main.py:530-533 | the object moves as `Engine.Smooth` says |
| Controller.FanController.DecideFanSpeed | main.py:492-526 | the speed is the decision for the object's curve, set speed, previous reading and hysteresis |
| Controller.FanController.Tick | main.py:574-653 | one pass of the loop body moves the object as `Engine.Tick` says |
| Controller.FanController.GoodReadTick | main.py:576-592 | the positive-reading branch moves the object as `Engine.GoodReadTick` says |
| Controller.FanController.ZeroReadTick | main.py:594-617 | the zero-reading branch moves the object as `Engine.ZeroReadTick` says |
| Controller.FanController.FailedReadTick | main.py:619-638 | the failed-reading branch moves the object as `Engine.FailedReadTick` says |
| Controller.FanController.Dispatch | main.py:640-656 | the end of a tick moves the object as `Engine.Finish` says |
| Controller.FanController.Run | main.py:564-664 | the loop moves the object as `Engine.Run` says |
| Controller.FanController.Stop | main.py:666-668 | `stop()` clears `running` and nothing else |
| Controller.FanController.DetectSpike | main.py:535-546 | `detect_spike` on the object's previous reading and threshold, as `Engine.SpikeDetected` |
| Tray.TempHexColour | tray.py:339-347 | the four dashboard colours, each for exactly its band: unknown (missing or at most 0), below 45, below 65, the rest |
| Tray.HexColourMonotone | tray.py:339-347 | a real reading always gets a temperature colour, and a hotter one never gets a cooler colour |
| Tray.IconBackground | tray.py:313-320 | the icon colour, each for exactly its band: at most 0, below 50, below 70, the rest |
| Tray.IconText | tray.py:325 | the icon shows "?" exactly for a reading at or below 0 |
| Tray.IconTextReadsBack | tray.py:325 | the icon text of a positive reading reads back as that reading |
| Tray.IconMatchesTooltip | tray.py:307-325 | the icon shows the tooltip's temperature, with the grey "?" exactly when that is 0 |
| Tray.ToInt | tray.py:249 | `int()` of a config value: ints unchanged, `None` and other objects refused, floats truncated toward zero |
| Tray.ConfigInt | tray.py:246-252 | the setting is never below `min_value`, and a value `int()` refuses falls back to the default |
| Tray.ConfigIntText | tray.py:246-252 | a setting written as text reads as the number itself |
| Tray.ConfigIntFallback | tray.py:246-252 | a missing, `null` or unusable setting gives the clamped default, and the result used as the default gives itself |
| Tray.FloatSettingTruncates | tray.py:249 | -3.5 reads as -3 and 3.5 as 3 |
| Tray.WorkBounds | tray.py:216-239 | a non-empty converted work area is used, anything else falls back to the whole screen |
| Tray.DashboardPosition | tray.py:241-242 | the position is never above or left of the inset top-left corner, and each coordinate is either the inset top-left one or the inset bottom-right one |
| Tray.FittingWindowHugsCorner | tray.py:241-242 | a window that fits sits `margin` from the right edge and `margin + bottom_safe_margin` from the bottom, inside the bounds |
| Tray.PlacementOnScreen | tray.py:201-243 | on a screen of positive size the bounds are never empty, and for any non-negative margin and bottom offset (the configured `dashboard_margin` and `dashboard_bottom_offset`, which `_config_int` keeps at 0 or more) a window that fits with both margins is placed fully inside them |
| Tray.DisplayTarget | tray.py:607 | the dashboard shows the tick's target when present, else the speed set |
| Tray.BarValue | tray.py:625-629 | a bar value is within 0..100, is the integer itself when already in range, and is 0 for a non-integer |
| Tray.TooltipTemp | tray.py:778 | the tooltip temperature is the reading when it is a positive integer, else 0 |
| Tray.TooltipSpeed | tray.py:781-785 | the tooltip speed is the target when an integer, else the speed set when an integer, else 0 |
| Tray.FanBarMatchesTooltip | tray.py:781-785 | for the values the controller writes (ints or `None`) the dashboard fan bar is the tooltip speed clamped to 0..100 |
| Tray.FallbacksDiffer | tray.py:607 | for a target that is neither `None` nor an int the bar shows 0 while the tooltip shows the speed set |

## Left out

- Subprocess calls to `AsusFanControl.exe` and PowerShell (`validate_exe`, `check_driver_version`, `_run_command`, `get_cpu_temp`, `get_current_fan_speeds`). Each tick instead takes the reading, whether the speed command succeeds, the clock and the driver version as inputs (`Engine.TickInput`). The reading's text parsing is not modelled.
- Logging, the coloured formatter, `setup_logger`, `load_config`, the command line, `main`, and the Win32 console helpers. They do I/O only.
- `send_notification` is not called. A tick's outcome records whether the loop would notify (`notify`) and whether the driver check would send its toast (`driverAlert`). That toast goes out whatever `enable_notifications` says.
- `time.sleep` is not modelled. The outcome carries the sleep length, and the abort path's 3 s back-off is implied by `Aborted`.
- `KeyboardInterrupt` and the catch-all `except Exception` in `run`. The only exception the model raises is the division by zero of a window of size 0 (an `Aborted` tick). Other exceptions need inputs the model does not take, such as non-numeric configuration values in the loop.
- `run` loops while `running` is set. The model loops over a finite script of tick inputs and also stops when the script runs out. A `stop()` from another thread is an input flag, seen at the top of the next iteration. A `set_profile` from the tray menu's thread while `run` loops (tray.py:684-687) is not part of the script, so profile switches during `Run` are not modelled; `Engine.SwitchForcesNextTick` covers a switch between ticks.
- Floating point: `fraction` in the interpolation and `sum / len` in the mean are exact fractions rounded half to even. Python's binary doubles can round differently when a value sits within a rounding error of a .5 tie.
- `int()` of text accepts only ASCII digits. Python also accepts other Unicode decimal digits.
- A negative `smoothing_window` makes `deque` raise in `__init__`. The window is a natural number.
- The configuration's numeric settings are integers. Floats in `hysteresis_degrees`, `spike_threshold` or `high_temp` are not modelled.
- Tray.ToInt: `int()` of an infinite float raises `OverflowError`, which `_config_int` does not catch. Float settings are exact fractions, so they have no infinity or NaN.
- Tray.WorkBounds: takes the work area after its DPI conversion, as integers. The float scaling and `int()` truncation (tray.py:229-235) are not modelled.
- Tray.TooltipTemp: a `bool` counts as an int (as `isinstance` says) with value 0 or 1. The tooltip would print it as `True`, which the model does not capture.
- `_config_float`, `_temp_to_ansi`, the tkinter/pystray widgets, `DashboardWindow` and the watcher/updater/dashboard threads. They are floating point, GUI or concurrency.
- `get_status_snapshot` is not defined in main.py. The tray helpers take snapshot values as inputs.
- `set_profile` keeps the smoothing history (main.py:299-309). It is modelled as the code does it, not as a history reset.

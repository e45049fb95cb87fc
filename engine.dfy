/** The state of a `FanController` as a value, and every operation of the class
    as a function from the old state (and the outside world's answers) to the new
    state and the result. The class in `controller.dfy` is proved against these. */
module Engine {
  import opened Wrappers
  import opened Settings
  import opened Versions
  import opened Curves
  import opened Decision
  import opened Smoothing

  /** The fields of `FanController` that the control loop reads and writes. */
  datatype State = State(
    config: Config,
    fanCurve: seq<Waypoint>,
    currentSetFanPercentage: Option<int>,
    previousTemp: Option<int>,
    consecutiveFailures: nat,
    tempHistory: seq<int>,
    running: bool,
    lastDriverCheck: int,
    driverIncompatible: DriverStatus,
    cachedDriverVersion: Option<string>)

  /** What every operation keeps: the history never holds more than the window,
      and the active curve is the one the configuration resolves to. */
  ghost predicate Valid(s: State) {
    && |s.tempHistory| <= s.config.smoothingWindow
    && s.fanCurve == ResolveFanCurve(s.config)
  }

  /** `FanController.__init__`. */
  function Initial(cfg: Config): (s: State)
    ensures Valid(s)
  {
    State(cfg, ResolveFanCurve(cfg), None, None, 0, [], false, 0, Unknown, None)
  }

  /** `set_profile(name)`: the new state and the returned flag. */
  function SetProfile(s: State, name: string): (r: (State, bool))
    requires Valid(s)
    ensures Valid(r.0)
  {
    if Preset(name).None? then (s, false)
    else
      var cfg := s.config.(profile := name, curve := None);
      (s.(config := cfg, fanCurve := Preset(name).value, currentSetFanPercentage := None), true)
  }

  /** The answer of `set_fan_speed(percentage)`: whether the command was issued
      at all, and the returned flag. */
  datatype Dispatch = Dispatch(state: State, commandIssued: bool, ok: bool)

  /** `set_fan_speed(percentage)` when the command would report `commandOk`. */
  function SetFanSpeed(s: State, percentage: int, commandOk: bool): (r: Dispatch)
  {
    if s.currentSetFanPercentage == Some(percentage) then Dispatch(s, false, true)
    else if commandOk then Dispatch(s.(currentSetFanPercentage := Some(percentage)), true, true)
    else Dispatch(s, true, false)
  }

  /** `_check_driver_if_needed()` at time `now`, with `version` standing for what
      `check_driver_version()` would return if it were called. */
  function CheckDriver(s: State, now: int, version: Option<string>): (r: State)
    ensures r.config == s.config && r.fanCurve == s.fanCurve && r.running == s.running
    ensures r.currentSetFanPercentage == s.currentSetFanPercentage && r.previousTemp == s.previousTemp
    ensures r.consecutiveFailures == s.consecutiveFailures && r.tempHistory == s.tempHistory
    ensures now - s.lastDriverCheck < 60 ==> r == s
    ensures now - s.lastDriverCheck >= 60 ==>
      && r.lastDriverCheck == now && r.cachedDriverVersion == version
      && r.driverIncompatible == DriverVerdict(version)
  {
    if now - s.lastDriverCheck < 60 then s
    else s.(lastDriverCheck := now, cachedDriverVersion := version,
             driverIncompatible := DriverVerdict(version))
  }

  /** Whether `_check_driver_if_needed()` at `now` probes the driver and finds it
      incompatible, which sends the "Driver Incompatible" toast whether or not
      notifications are enabled. */
  predicate DriverAlert(s: State, now: int, version: Option<string>) {
    now - s.lastDriverCheck >= 60 && DriverVerdict(version) == Incompatible
  }

  /** `get_smoothed_temp(raw)`: the new history and the rounded mean, or `None`
      where Python would divide by zero (a window of size 0 never holds anything). */
  function Smooth(s: State, raw: int): (r: (State, Option<int>))
    ensures r.0 == s.(tempHistory := Window(s.tempHistory + [raw], s.config.smoothingWindow))
    ensures r.1.None? <==> s.config.smoothingWindow == 0
    ensures r.1.Some? ==> Min(r.0.tempHistory) <= r.1.value <= Max(r.0.tempHistory)
    ensures Valid(s) ==> Valid(r.0)
  {
    var h := Window(s.tempHistory + [raw], s.config.smoothingWindow);
    if h == [] then (s.(tempHistory := h), None)
    else
      MeanBetweenMinAndMax(h);
      (s.(tempHistory := h), Some(Mean(h)))
  }

  /** `detect_spike(current)`: a rise of at least `threshold` over the previous
      raw reading; never on the first reading. */
  predicate SpikeDetected(current: int, previousTemp: Option<int>, threshold: int) {
    previousTemp.Some? && current - previousTemp.value >= threshold
  }

  /** A spike stays a spike for any hotter reading and any lower threshold. */
  lemma SpikeMonotone(current: int, hotter: int, previousTemp: Option<int>, threshold: int, lower: int)
    requires SpikeDetected(current, previousTemp, threshold)
    requires current <= hotter && lower <= threshold
    ensures SpikeDetected(hotter, previousTemp, lower)
  {
  }

  lemma SpikeExamples()
    ensures SpikeDetected(80, Some(60), 15)
    ensures !SpikeDetected(70, Some(60), 15)
    ensures forall t, th :: !SpikeDetected(t, None, th)
  {
  }

  /** `adaptive_sleep(temp)`: seconds to wait before the next tick. */
  function AdaptiveSleep(temp: Option<int>, highTemp: int): (r: int)
    ensures r == 3 || r == 5 || r == 10
    ensures temp.None? || temp.value <= 0 ==> r == 3
  {
    if temp.None? || temp.value <= 0 then 3
    else if temp.value < highTemp - 10 then 10
    else if temp.value < highTemp then 5
    else 3
  }

  /** The cadence only quickens as the CPU gets hotter, and the long and medium
      intervals belong to the bands below `high_temp`. */
  lemma AdaptiveSleepBands(t1: int, t2: int, highTemp: int)
    requires 0 < t1 <= t2
    ensures AdaptiveSleep(Some(t2), highTemp) <= AdaptiveSleep(Some(t1), highTemp)
    ensures AdaptiveSleep(Some(t1), highTemp) == 10 <==> t1 < highTemp - 10
    ensures AdaptiveSleep(Some(t1), highTemp) == 5 <==> highTemp - 10 <= t1 < highTemp
  {
  }

  /** `decide_fan_speed(temp)` in state `s`. */
  function Decide(s: State, temp: int): (r: int)
    requires Valid(s)
    ensures 0 <= r <= 100
  {
    DecideSpeed(s.fanCurve, s.currentSetFanPercentage, s.previousTemp, s.config.hysteresisDegrees, temp)
  }

  /** The severity the loop logs a tick at. */
  datatype Severity = Info | Warning | Critical

  /** What one pass of the `run` loop's body does, besides changing the state. */
  datatype TickOutcome =
    | Completed(target: int, commandIssued: bool, applied: bool, severity: Severity,
                notify: bool, driverAlert: bool, sleep: int)
      // the loop's catch-all: Python raised inside the tick (division by zero in
      // `get_smoothed_temp`), logged it and slept 3 s
    | Aborted

  /** The outside world's answers for one tick: the temperature read, whether a
      fan-speed command would succeed, the clock, the driver probe's answer and
      whether `stop()` was called while the tick ran. */
  datatype TickInput = TickInput(read: Option<int>, commandOk: bool, now: int,
                                 driverVersion: Option<string>, stopRequested: bool)

  predicate GoodRead(read: Option<int>) {
    read.Some? && read.value > 0
  }

  /** The driver-check fields of two states agree. */
  predicate SameDriver(a: State, b: State) {
    && a.lastDriverCheck == b.lastDriverCheck
    && a.driverIncompatible == b.driverIncompatible
    && a.cachedDriverVersion == b.cachedDriverVersion
  }

  /** What the `set_fan_speed(fan_speed)` at the end of a completed tick did,
      given the speed set before the tick: the command went out exactly when the
      target differed, and the target became the speed set exactly on success. */
  predicate Dispatched(before: Option<int>, r: (State, TickOutcome)) {
    r.1.Completed? ==>
      && (r.1.commandIssued <==> before != Some(r.1.target))
      && r.0.currentSetFanPercentage == (if r.1.applied then Some(r.1.target) else before)
  }

  /** Dispatch `target` and report the tick. */
  function Finish(s: State, input: TickInput, target: int, severity: Severity, notify: bool,
                  driverAlert: bool): (r: (State, TickOutcome))
    requires Valid(s)
    ensures Valid(r.0)
    ensures r.0 == SetFanSpeed(s, target, input.commandOk).state
    ensures r.1.Completed? && r.1.target == target && r.1.severity == severity
    ensures r.1.commandIssued == SetFanSpeed(s, target, input.commandOk).commandIssued
    ensures r.1.applied == SetFanSpeed(s, target, input.commandOk).ok
    ensures Dispatched(s.currentSetFanPercentage, r)
    ensures r.1.notify == notify && r.1.driverAlert == driverAlert
    ensures r.1.sleep == AdaptiveSleep(input.read, s.config.highTemp)
    ensures r.1.applied ==> r.0.currentSetFanPercentage == Some(target)
    ensures r.0.consecutiveFailures == s.consecutiveFailures && r.0.previousTemp == s.previousTemp
    ensures r.0.tempHistory == s.tempHistory && SameDriver(r.0, s)
  {
    var d := SetFanSpeed(s, target, input.commandOk);
    (d.state, Completed(target, d.commandIssued, d.ok, severity, notify, driverAlert,
                        AdaptiveSleep(input.read, s.config.highTemp)))
  }

  /** A positive reading that jumped by at least the spike threshold: force
      100 % without touching the history, and remember the raw reading. */
  function SpikeTick(s: State, input: TickInput): (r: (State, TickOutcome))
    requires Valid(s) && GoodRead(input.read)
    requires SpikeDetected(input.read.value, s.previousTemp, s.config.spikeThreshold)
    ensures Valid(r.0) && r.0.running == s.running && r.0.config == s.config
    ensures r.1.Completed? && r.1.target == 100
    ensures r.0.consecutiveFailures == 0 && r.0.previousTemp == input.read && SameDriver(r.0, s)
    ensures Dispatched(s.currentSetFanPercentage, r)
  {
    var s1 := s.(consecutiveFailures := 0, previousTemp := input.read);
    Finish(s1, input, 100, Warning, s.config.enableNotifications, false)
  }

  /** Any other positive reading: push it into the history, decide on the
      smoothed temperature, then remember the raw reading. */
  function CalmTick(s: State, input: TickInput): (r: (State, TickOutcome))
    requires Valid(s) && GoodRead(input.read)
    ensures Valid(r.0) && r.0.running == s.running && r.0.config == s.config
    ensures r.1.Completed? ==> 0 <= r.1.target <= 100
    ensures r.0.consecutiveFailures == 0 && SameDriver(r.0, s)
    ensures r.1.Completed? ==> r.0.previousTemp == input.read
    ensures Dispatched(s.currentSetFanPercentage, r)
  {
    var smoothed := Smooth(s.(consecutiveFailures := 0), input.read.value);
    if smoothed.1.None? then (smoothed.0, Aborted)
    else DecideAndFinish(smoothed.0, input, smoothed.1.value)
  }

  /** The end of a calm tick: decide on the smoothed temperature `smoothed`
      (against the previous raw reading), remember the raw reading, dispatch. */
  function DecideAndFinish(s: State, input: TickInput, smoothed: int): (r: (State, TickOutcome))
    requires Valid(s) && GoodRead(input.read)
    ensures Valid(r.0) && r.0.running == s.running && r.0.config == s.config
    ensures r.1.Completed? && 0 <= r.1.target <= 100
    ensures r.0.consecutiveFailures == s.consecutiveFailures && r.0.previousTemp == input.read
    ensures SameDriver(r.0, s)
    ensures Dispatched(s.currentSetFanPercentage, r)
  {
    Finish(s.(previousTemp := input.read), input, Decide(s, smoothed), Info, false, false)
  }

  /** A positive reading: reset the failure count, then the spike response or the
      smoothed curve decision. */
  function GoodReadTick(s: State, input: TickInput): (r: (State, TickOutcome))
    requires Valid(s) && GoodRead(input.read)
    ensures Valid(r.0) && r.0.running == s.running && r.0.config == s.config
    ensures r.1.Completed? ==> 0 <= r.1.target <= 100
    ensures r.0.consecutiveFailures == 0 && SameDriver(r.0, s)
    ensures r.1.Completed? ==> r.0.previousTemp == input.read
    ensures Dispatched(s.currentSetFanPercentage, r)
  {
    if SpikeDetected(input.read.value, s.previousTemp, s.config.spikeThreshold) then SpikeTick(s, input)
    else CalmTick(s, input)
  }

  /** A reading of exactly 0, the sign of an incompatible driver: count a
      failure, force 100 % and run the throttled driver check. */
  function ZeroReadTick(s: State, input: TickInput): (r: (State, TickOutcome))
    requires Valid(s) && input.read == Some(0)
    ensures Valid(r.0) && r.0.running == s.running && r.0.config == s.config
    ensures r.1.Completed? && r.1.target == 100
    ensures Dispatched(s.currentSetFanPercentage, r)
  {
    var cfg := s.config;
    var s1 := s.(consecutiveFailures := s.consecutiveFailures + 1);
    var s2 := CheckDriver(s1, input.now, input.driverVersion);
    var locked := s2.consecutiveFailures >= cfg.maxConsecutiveFailures;
    Finish(s2, input, 100, if s2.driverIncompatible == Incompatible then Critical else Warning,
           locked && cfg.enableNotifications, DriverAlert(s1, input.now, input.driverVersion))
  }

  /** A failed or negative reading: count a failure and force 100 %. */
  function FailedReadTick(s: State, input: TickInput): (r: (State, TickOutcome))
    requires Valid(s) && !GoodRead(input.read) && input.read != Some(0)
    ensures Valid(r.0) && r.0.running == s.running && r.0.config == s.config
    ensures r.1.Completed? && r.1.target == 100
    ensures SameDriver(r.0, s)
    ensures Dispatched(s.currentSetFanPercentage, r)
  {
    var cfg := s.config;
    var s1 := s.(consecutiveFailures := s.consecutiveFailures + 1);
    var locked := s1.consecutiveFailures >= cfg.maxConsecutiveFailures;
    Finish(s1, input, 100, if locked then Critical else Warning, locked && cfg.enableNotifications, false)
  }

  /** One pass of the body of `run`. */
  function Tick(s: State, input: TickInput): (r: (State, TickOutcome))
    requires Valid(s)
    ensures Valid(r.0)
    ensures r.0.running == s.running && r.0.config == s.config
    ensures r.1.Completed? ==> 0 <= r.1.target <= 100
    ensures Dispatched(s.currentSetFanPercentage, r)
  {
    if GoodRead(input.read) then GoodReadTick(s, input)
    else if input.read == Some(0) then ZeroReadTick(s, input)
    else FailedReadTick(s, input)
  }

  /** `stop()`. */
  function Stop(s: State): (r: State)
    requires Valid(s)
    ensures Valid(r) && !r.running
    ensures r.(running := s.running) == s
  {
    s.(running := false)
  }

  /** The state at the top of the next iteration: a `stop()` during the tick has
      cleared `running`. */
  function AfterTick(s: State, input: TickInput): (r: State)
    requires Valid(s)
    ensures Valid(r) && r.config == s.config
    ensures r.running == (s.running && !input.stopRequested)
  {
    var s1 := Tick(s, input).0;
    if input.stopRequested then Stop(s1) else s1
  }

  /** The `while self.running` loop over a script of tick inputs: a `stop()`
      during a tick is seen at the top of the next iteration. */
  function RunLoop(s: State, inputs: seq<TickInput>): (r: (State, seq<TickOutcome>))
    requires Valid(s)
    ensures Valid(r.0)
    ensures r.0.config == s.config
    ensures |r.1| <= |inputs|
    ensures !s.running ==> r == (s, [])
    decreases |inputs|
  {
    if !s.running || inputs == [] then (s, [])
    else
      var outcome := Tick(s, inputs[0]).1;
      var rest := RunLoop(AfterTick(s, inputs[0]), inputs[1..]);
      (rest.0, [outcome] + rest.1)
  }

  /** One turn of the loop. */
  lemma RunLoopStep(s: State, inputs: seq<TickInput>)
    requires Valid(s) && s.running && inputs != []
    ensures var rest := RunLoop(AfterTick(s, inputs[0]), inputs[1..]);
      RunLoop(s, inputs) == (rest.0, [Tick(s, inputs[0]).1] + rest.1)
  {
  }

  /** `run()`: set `running`, loop, clear `running`. */
  function Run(s: State, inputs: seq<TickInput>): (r: (State, seq<TickOutcome>))
    requires Valid(s)
    ensures Valid(r.0) && !r.0.running
    ensures r.0.config == s.config
  {
    var loop := RunLoop(s.(running := true), inputs);
    (Stop(loop.0), loop.1)
  }

  // ---------------------------------------------------------------------------
  // What one tick guarantees
  // ---------------------------------------------------------------------------

  /** `set_fan_speed` skips the command exactly when the percentage is already
      set; it succeeds unless an issued command fails; only a success records the
      percentage. */
  lemma SetFanSpeedContract(s: State, pct: int, ok: bool)
    ensures var d := SetFanSpeed(s, pct, ok);
      && (d.commandIssued <==> s.currentSetFanPercentage != Some(pct))
      && (d.ok <==> !d.commandIssued || ok)
      && d.state.currentSetFanPercentage == (if d.ok then Some(pct) else s.currentSetFanPercentage)
      && d.state == s.(currentSetFanPercentage := d.state.currentSetFanPercentage)
  {
  }

  /** Once a percentage is applied, asking for it again issues nothing. */
  lemma {:induction false} SetFanSpeedTwice(s: State, pct: int, ok1: bool, ok2: bool)
    requires SetFanSpeed(s, pct, ok1).ok
    ensures var s1 := SetFanSpeed(s, pct, ok1).state;
      SetFanSpeed(s1, pct, ok2) == Dispatch(s1, false, true)
  {
    SetFanSpeedContract(s, pct, ok1);
  }

  /** `set_profile` succeeds exactly for the preset names; on success it installs
      the preset, drops any custom curve and forgets the set percentage, so the
      next dispatch always issues a command; otherwise nothing changes. */
  lemma SetProfileContract(s: State, name: string, pct: int, ok: bool)
    requires Valid(s)
    ensures var (s1, switched) := SetProfile(s, name);
      && (switched <==> name in {"silent", "balanced", "performance"})
      && (!switched ==> s1 == s)
      && (switched ==>
            && s1.fanCurve == Preset(name).value
            && s1.config == s.config.(profile := name, curve := None)
            && s1.tempHistory == s.tempHistory && s1.previousTemp == s.previousTemp
            && s1.consecutiveFailures == s.consecutiveFailures && s1.running == s.running
            && SameDriver(s1, s)
            && SetFanSpeed(s1, pct, ok).commandIssued)
  {
    PresetsWellFormed(name);
  }

  /** Switching to a profile and back again with its name restores the curve:
      the active curve is what the configuration resolves to. */
  lemma {:induction false} SetProfileResolves(s: State, name: string)
    requires Valid(s) && SetProfile(s, name).1
    ensures ResolveFanCurve(SetProfile(s, name).0.config) == Preset(name).value
  {
    SetProfileContract(s, name, 0, true);
  }

  /** A positive reading clears the failure count and becomes the previous
      reading, unless the tick was aborted. */
  lemma {:induction false} PositiveReadResets(s: State, input: TickInput)
    requires Valid(s) && GoodRead(input.read)
    ensures Tick(s, input).0.consecutiveFailures == 0
    ensures Tick(s, input).1.Completed? ==> Tick(s, input).0.previousTemp == input.read
  {
    assert Tick(s, input) == GoodReadTick(s, input);
  }

  /** A spike forces 100 % at Warning severity, notifies when notifications are
      enabled, and leaves the smoothing history alone. */
  lemma {:induction false} SpikeForcesFullSpeed(s: State, input: TickInput)
    requires Valid(s) && GoodRead(input.read)
    requires SpikeDetected(input.read.value, s.previousTemp, s.config.spikeThreshold)
    ensures var (s1, o) := Tick(s, input);
      && o == Completed(100, o.commandIssued, o.applied, Warning, s.config.enableNotifications,
                        false, AdaptiveSleep(input.read, s.config.highTemp))
      && s1.tempHistory == s.tempHistory && s1.previousTemp == input.read
      && s1.consecutiveFailures == 0
  {
    var s0 := s.(consecutiveFailures := 0, previousTemp := input.read);
    assert Tick(s, input) == Finish(s0, input, 100, Warning, s.config.enableNotifications, false);
  }

  /** Without a spike, the reading joins the history and the target is the
      hysteresis-guarded curve value at the rounded mean of the new history,
      judged against the previous raw reading. */
  lemma {:induction false} CalmTickFollowsCurve(s: State, input: TickInput)
    requires Valid(s) && GoodRead(input.read) && s.config.smoothingWindow > 0
    requires !SpikeDetected(input.read.value, s.previousTemp, s.config.spikeThreshold)
    ensures var h := Window(s.tempHistory + [input.read.value], s.config.smoothingWindow);
      var (s1, o) := Tick(s, input);
      && |h| >= 1
      && o.Completed? && o.severity == Info && !o.notify
      && o.target == DecideSpeed(s.fanCurve, s.currentSetFanPercentage, s.previousTemp,
                                 s.config.hysteresisDegrees, Mean(h))
      && s1.tempHistory == h && s1.previousTemp == input.read
  {
    var raw := input.read.value;
    var sm := Smooth(s.(consecutiveFailures := 0), raw);
    assert Tick(s, input) == DecideAndFinish(sm.0, input, sm.1.value);
  }

  /** With a smoothing window of 0 the deque never holds a reading and the mean
      divides by zero: a calm positive reading aborts the tick after clearing
      the failure count, before anything is dispatched. */
  lemma {:induction false} EmptyWindowAborts(s: State, input: TickInput)
    requires Valid(s) && GoodRead(input.read) && s.config.smoothingWindow == 0
    requires !SpikeDetected(input.read.value, s.previousTemp, s.config.spikeThreshold)
    ensures Tick(s, input) == (s.(consecutiveFailures := 0), Aborted)
  {
    assert |s.tempHistory| == 0;
  }

  /** Any reading that is not positive counts a failure and forces 100 %; the
      history and the previous reading stay as they were. */
  lemma {:induction false} FailedReadForcesFullSpeed(s: State, input: TickInput)
    requires Valid(s) && !GoodRead(input.read)
    ensures var (s1, o) := Tick(s, input);
      && o.Completed? && o.target == 100 && o.sleep == 3
      && s1.consecutiveFailures == s.consecutiveFailures + 1
      && s1.tempHistory == s.tempHistory && s1.previousTemp == s.previousTemp
      && s1.fanCurve == s.fanCurve
      && (o.notify <==> s.consecutiveFailures + 1 >= s.config.maxConsecutiveFailures
                         && s.config.enableNotifications)
  {
  }

  /** A failed or negative reading is Critical exactly once the failures reach
      the configured maximum; it never probes the driver. */
  lemma {:induction false} FailedReadSeverity(s: State, input: TickInput)
    requires Valid(s) && !GoodRead(input.read) && input.read != Some(0)
    ensures var (s1, o) := Tick(s, input);
      && (o.severity == Critical <==> s.consecutiveFailures + 1 >= s.config.maxConsecutiveFailures)
      && !o.driverAlert
      && s1.lastDriverCheck == s.lastDriverCheck && s1.driverIncompatible == s.driverIncompatible
  {
  }

  /** A reading of 0 records the driver check as `_check_driver_if_needed`
      does, and is Critical exactly when the (possibly cached) driver verdict is
      "incompatible", whatever the failure count. */
  lemma {:induction false} ZeroReadSeverity(s: State, input: TickInput)
    requires Valid(s) && input.read == Some(0)
    ensures var (s1, o) := Tick(s, input);
      && SameDriver(s1, CheckDriver(s, input.now, input.driverVersion))
      && (o.severity == Critical <==> s1.driverIncompatible == Incompatible)
      && (o.driverAlert <==> DriverAlert(s, input.now, input.driverVersion))
  {
    var s1 := s.(consecutiveFailures := s.consecutiveFailures + 1);
    assert SameDriver(CheckDriver(s1, input.now, input.driverVersion),
                      CheckDriver(s, input.now, input.driverVersion));
  }

  /** Only a reading of 0 consults the clock or the driver: for any other reading
      the tick does not depend on them and the driver fields stay as they were. */
  lemma {:induction false} OnlyZeroReadProbesDriver(s: State, input: TickInput, now: int,
                                                    version: Option<string>)
    requires Valid(s) && input.read != Some(0)
    ensures Tick(s, input) == Tick(s, input.(now := now, driverVersion := version))
    ensures var s1 := Tick(s, input).0;
      && s1.lastDriverCheck == s.lastDriverCheck && s1.driverIncompatible == s.driverIncompatible
      && s1.cachedDriverVersion == s.cachedDriverVersion
  {
    if GoodRead(input.read) {
      GoodReadIgnoresDriver(s, input, input.(now := now, driverVersion := version));
    }
  }

  /** A positive reading looks at nothing of the tick's input but the reading
      and the command's result: not the clock, not the driver's answer. */
  lemma GoodReadIgnoresDriver(s: State, input: TickInput, input2: TickInput)
    requires Valid(s) && GoodRead(input.read)
    requires input2.read == input.read && input2.commandOk == input.commandOk
    ensures GoodReadTick(s, input) == GoodReadTick(s, input2)
  {
    var raw := input.read.value;
    if !SpikeDetected(raw, s.previousTemp, s.config.spikeThreshold) {
      var sm := Smooth(s.(consecutiveFailures := 0), raw);
      if sm.1.Some? {
        CalmFinishIgnoresDriver(sm.0, input, input2, sm.1.value);
      }
    }
  }

  /** The same for the end of a calm tick. */
  lemma CalmFinishIgnoresDriver(s: State, input: TickInput, input2: TickInput, smoothed: int)
    requires Valid(s) && GoodRead(input.read)
    requires input2.read == input.read && input2.commandOk == input.commandOk
    ensures DecideAndFinish(s, input, smoothed) == DecideAndFinish(s, input2, smoothed)
  {
    var s1 := s.(previousTemp := input.read);
    assert Finish(s1, input, Decide(s, smoothed), Info, false, false)
        == Finish(s1, input2, Decide(s, smoothed), Info, false, false);
  }

  /** Every completed tick ends in `set_fan_speed(fan_speed)`: the command goes
      out exactly when the target differs from the speed set before the tick,
      and the target becomes the speed set exactly when the call succeeds. */
  lemma TickDispatch(s: State, input: TickInput)
    requires Valid(s)
    ensures var (s1, o) := Tick(s, input);
      o.Completed? ==>
        && (o.commandIssued <==> s.currentSetFanPercentage != Some(o.target))
        && s1.currentSetFanPercentage == (if o.applied then Some(o.target) else s.currentSetFanPercentage)
  {
  }

  /** A profile switch clears the speed set, so the next completed tick sends
      its command even when its target is the speed that was set before. */
  lemma SwitchForcesNextTick(s: State, name: string, input: TickInput)
    requires Valid(s) && SetProfile(s, name).1
    ensures var (_, o) := Tick(SetProfile(s, name).0, input); o.Completed? ==> o.commandIssued
  {
    TickDispatch(SetProfile(s, name).0, input);
  }

  /** The driver is probed at most once a minute: right after a probe at `now`,
      a second check before `now + 60` changes nothing. */
  lemma {:induction false} DriverCheckThrottled(s: State, now: int, later: int,
                                                v1: Option<string>, v2: Option<string>)
    requires now - s.lastDriverCheck >= 60 && later < now + 60
    ensures CheckDriver(CheckDriver(s, now, v1), later, v2) == CheckDriver(s, now, v1)
  {
  }

  // ---------------------------------------------------------------------------
  // What the loop guarantees
  // ---------------------------------------------------------------------------

  /** Whether a tick input is a failed (non-positive or missing) reading. */
  predicate BadRead(input: TickInput) {
    !GoodRead(input.read)
  }

  /** The number of failed readings at the end of `inputs`. */
  function TrailingBad(inputs: seq<TickInput>): (n: nat)
    ensures n <= |inputs|
    ensures forall i :: |inputs| - n <= i < |inputs| ==> BadRead(inputs[i])
    ensures n < |inputs| ==> !BadRead(inputs[|inputs| - n - 1])
    decreases |inputs|
  {
    if inputs == [] || !BadRead(inputs[|inputs| - 1]) then 0
    else 1 + TrailingBad(inputs[..|inputs| - 1])
  }

  /** Adding a reading at the end: a good one clears the trailing count, a bad
      one extends it. */
  lemma {:induction false} TrailingBadSnoc(inputs: seq<TickInput>, x: TickInput)
    ensures TrailingBad(inputs + [x]) == if BadRead(x) then TrailingBad(inputs) + 1 else 0
  {
    assert (inputs + [x])[..|inputs|] == inputs;
  }

  /** The failure count after one tick. */
  lemma {:induction false} TickFailures(s: State, input: TickInput)
    requires Valid(s)
    ensures AfterTick(s, input).consecutiveFailures ==
              if BadRead(input) then s.consecutiveFailures + 1 else 0
  {
    if GoodRead(input.read) {
      PositiveReadResets(s, input);
    } else {
      FailedReadForcesFullSpeed(s, input);
    }
  }

  /** Whether no input of the script asks to stop. */
  predicate NoStop(inputs: seq<TickInput>) {
    forall i :: 0 <= i < |inputs| ==> !inputs[i].stopRequested
  }

  /** Without a `stop()` the loop runs one tick per input, and the failure count
      at the end is the number of consecutive failed readings at the end of the
      script, on top of the failures counted before it when every reading failed. */
  lemma {:induction false} RunLoopCountsFailures(s: State, inputs: seq<TickInput>)
    requires Valid(s) && s.running && NoStop(inputs)
    ensures var (s1, outcomes) := RunLoop(s, inputs);
      && |outcomes| == |inputs| && s1.running
      && s1.consecutiveFailures ==
           TrailingBad(inputs) + (if TrailingBad(inputs) == |inputs| then s.consecutiveFailures else 0)
    decreases |inputs|
  {
    if inputs != [] {
      var s1 := AfterTick(s, inputs[0]);
      TickFailures(s, inputs[0]);
      RunLoopCountsFailures(s1, inputs[1..]);
      TrailingBadCons(inputs[0], inputs[1..]);
      assert [inputs[0]] + inputs[1..] == inputs;
    }
  }

  /** Adding a reading at the front only matters when all the rest failed. */
  lemma {:induction false} TrailingBadCons(x: TickInput, rest: seq<TickInput>)
    ensures TrailingBad([x] + rest) ==
              if TrailingBad(rest) == |rest| && BadRead(x) then |rest| + 1 else TrailingBad(rest)
    decreases |rest|
  {
    if rest != [] {
      var init := rest[..|rest| - 1];
      var last := rest[|rest| - 1];
      assert rest == init + [last];
      assert [x] + rest == ([x] + init) + [last];
      TrailingBadSnoc(init, last);
      TrailingBadSnoc([x] + init, last);
      TrailingBadCons(x, init);
    } else {
      assert [x] + rest == [] + [x];
      TrailingBadSnoc([], x);
    }
  }

  /** A `stop()` during the tick for input `k` ends the loop right after it: the
      loop runs exactly `k + 1` ticks. */
  lemma {:induction false} StopEndsLoop(s: State, inputs: seq<TickInput>, k: nat)
    requires Valid(s) && s.running && k < |inputs| && inputs[k].stopRequested
    requires NoStop(inputs[..k])
    ensures |RunLoop(s, inputs).1| == k + 1 && !RunLoop(s, inputs).0.running
    decreases k
  {
    var s1 := AfterTick(s, inputs[0]);
    if k == 0 {
      assert !s1.running;
    } else {
      assert inputs[1..][..k - 1] == inputs[..k][1..];
      assert !inputs[..k][0].stopRequested;
      StopEndsLoop(s1, inputs[1..], k - 1);
    }
  }

  /** `run()` keeps the failure count across runs and always ends with the loop
      stopped; a script that ends in `n` failed readings locks the fan at 100 %
      for those ticks. */
  lemma {:induction false} RunEndsInFailures(s: State, inputs: seq<TickInput>)
    requires Valid(s) && NoStop(inputs)
    ensures var (s1, outcomes) := Run(s, inputs);
      && |outcomes| == |inputs| && !s1.running
      && s1.consecutiveFailures >= TrailingBad(inputs)
  {
    RunLoopCountsFailures(s.(running := true), inputs);
  }
}

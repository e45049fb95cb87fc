/** `FanController` as the object it is: its fields are updated in place by its
    methods, and each method is proved to move the object from `old(Model())` to
    what the matching function of `Engine` says. */
module Controller {
  import opened Wrappers
  import opened Numeric
  import opened Settings
  import opened Versions
  import opened Curves
  import opened Decision
  import opened Smoothing
  import Engine

  /** The curve part of `decide_fan_speed`: clamp at the curve's ends, otherwise
      scan the segments for the first one that brackets `temp` and interpolate
      on it, keeping the last speed when none does. */
  method CurveScan(curve: seq<Waypoint>, temp: int) returns (target: int)
    requires |curve| >= 1
    ensures target == CurveTarget(curve, temp)
  {
    var n := |curve|;
    if temp <= curve[0].temp {
      return curve[0].speed;
    } else if temp >= curve[n - 1].temp {
      return curve[n - 1].speed;
    }
    target := curve[n - 1].speed;
    var i := 0;
    while i < n - 1
      invariant 0 <= i <= n - 1
      invariant forall k :: 0 <= k < i ==> !Brackets(curve, k, temp)
      invariant target == curve[n - 1].speed
      decreases n - 1 - i
    {
      var low, high := curve[i], curve[i + 1];
      if low.temp <= temp <= high.temp {
        assert Brackets(curve, i, temp);
        assert FirstBracket(curve, temp, 0) == i;
        if high.temp == low.temp {
          target := high.speed;
        } else {
          target := SegmentSpeed(low, high, temp);
        }
        return;
      }
      i := i + 1;
    }
  }

  class FanController {
    var config: Config
    var fanCurve: seq<Waypoint>
    var currentSetFanPercentage: Option<int>
    var previousTemp: Option<int>
    var consecutiveFailures: nat
    var tempHistory: seq<int>
    var running: bool
    var lastDriverCheck: int
    var driverIncompatible: DriverStatus
    var cachedDriverVersion: Option<string>

    /** The fields as one value. */
    function Model(): Engine.State
      reads this
    {
      Engine.State(config, fanCurve, currentSetFanPercentage, previousTemp, consecutiveFailures,
                   tempHistory, running, lastDriverCheck, driverIncompatible, cachedDriverVersion)
    }

    ghost predicate Valid()
      reads this
    {
      Engine.Valid(Model())
    }

    /** `__init__(config)`: nothing set, nothing read, the curve resolved. */
    constructor (cfg: Config)
      ensures Valid() && Model() == Engine.Initial(cfg)
    {
      config := cfg;
      fanCurve := ResolveFanCurve(cfg);
      currentSetFanPercentage := None;
      previousTemp := None;
      consecutiveFailures := 0;
      tempHistory := [];
      running := false;
      lastDriverCheck := 0;
      driverIncompatible := Unknown;
      cachedDriverVersion := None;
    }

    /** `set_profile(name)`. */
    method SetProfile(name: string) returns (switched: bool)
      requires Valid()
      modifies this
      ensures Valid()
      ensures (Model(), switched) == Engine.SetProfile(old(Model()), name)
    {
      var preset := Preset(name);
      if preset.None? {
        return false;
      }
      config := config.(profile := name, curve := None);
      fanCurve := preset.value;
      currentSetFanPercentage := None;
      switched := true;
    }

    /** `set_fan_speed(percentage)`, where `commandOk` is whether the external
        command would succeed; `issued` says whether it was run at all. */
    method SetFanSpeed(percentage: int, commandOk: bool) returns (issued: bool, ok: bool)
      requires Valid()
      modifies this
      ensures Valid()
      ensures Model() == Engine.SetFanSpeed(old(Model()), percentage, commandOk).state
      ensures issued == Engine.SetFanSpeed(old(Model()), percentage, commandOk).commandIssued
      ensures ok == Engine.SetFanSpeed(old(Model()), percentage, commandOk).ok
    {
      if currentSetFanPercentage == Some(percentage) {
        return false, true;
      }
      issued := true;
      if commandOk {
        currentSetFanPercentage := Some(percentage);
        ok := true;
      } else {
        ok := false;
      }
    }

    /** `_check_driver_if_needed()` at time `now`, with `version` what the driver
        query would answer; `alert` says whether the incompatibility toast went out. */
    method CheckDriverIfNeeded(now: int, version: Option<string>) returns (alert: bool)
      requires Valid()
      modifies this
      ensures Valid()
      ensures Model() == Engine.CheckDriver(old(Model()), now, version)
      ensures alert == Engine.DriverAlert(old(Model()), now, version)
    {
      if now - lastDriverCheck < 60 {
        return false;
      }
      var verdict := DriverVerdict(version);
      alert := Probe(now, version, verdict);
    }

    /** The unthrottled part of `_check_driver_if_needed()`: record the probe and
        its `verdict`, and raise the alert when that is an incompatibility. */
    method Probe(now: int, version: Option<string>, verdict: DriverStatus) returns (alert: bool)
      requires Valid()
      modifies this
      ensures Valid()
      ensures Model() == old(Model()).(lastDriverCheck := now, cachedDriverVersion := version,
                                       driverIncompatible := verdict)
      ensures alert == (verdict == Incompatible)
    {
      lastDriverCheck := now;
      cachedDriverVersion := version;
      driverIncompatible := verdict;
      alert := verdict == Incompatible;
    }

    /** `get_smoothed_temp(raw)`; `None` where Python divides by zero. */
    method GetSmoothedTemp(raw: int) returns (smoothed: Option<int>)
      requires Valid()
      modifies this
      ensures Valid()
      ensures (Model(), smoothed) == Engine.Smooth(old(Model()), raw)
    {
      tempHistory := Window(tempHistory + [raw], config.smoothingWindow);
      if |tempHistory| == 0 {
        return None;
      }
      smoothed := Some(Mean(tempHistory));
    }

    /** `detect_spike(current)`. */
    predicate DetectSpike(current: int)
      reads this
    {
      Engine.SpikeDetected(current, previousTemp, config.spikeThreshold)
    }

    /** `decide_fan_speed(temp)`: the curve target, then the hysteresis guard
        and the clamp to [0, 100]. */
    method DecideFanSpeed(temp: int) returns (speed: int)
      requires Valid()
      ensures speed == Engine.Decide(Model(), temp)
      ensures 0 <= speed <= 100
    {
      var target := CurveScan(fanCurve, temp);
      var hysteresis := config.hysteresisDegrees;
      if currentSetFanPercentage.Some? && target < currentSetFanPercentage.value && previousTemp.Some? {
        var drop := previousTemp.value - temp;
        if drop < hysteresis {
          target := currentSetFanPercentage.value;
        }
      }
      speed := Clamp(target, 0, 100);
    }

    /** `stop()`. */
    method Stop()
      requires Valid()
      modifies this
      ensures Valid() && Model() == Engine.Stop(old(Model()))
    {
      running := false;
    }

    /** One pass of the body of the `run` loop, with `input` standing for what the
        outside world answers during it. */
    method Tick(input: Engine.TickInput) returns (outcome: Engine.TickOutcome)
      requires Valid()
      modifies this
      ensures Valid()
      ensures (Model(), outcome) == Engine.Tick(old(Model()), input)
    {
      var raw := input.read;
      if raw.Some? && raw.value > 0 {
        outcome := GoodReadTick(input);
      } else if raw == Some(0) {
        outcome := ZeroReadTick(input);
      } else {
        outcome := FailedReadTick(input);
      }
    }

    /** The end of every completed tick: `set_fan_speed(fan_speed)` and the
        adaptive sleep. */
    method Dispatch(input: Engine.TickInput, fanSpeed: int, severity: Engine.Severity, notify: bool,
                    alert: bool) returns (outcome: Engine.TickOutcome)
      requires Valid()
      modifies this
      ensures Valid()
      ensures (Model(), outcome) == Engine.Finish(old(Model()), input, fanSpeed, severity, notify, alert)
    {
      var issued, ok := SetFanSpeed(fanSpeed, input.commandOk);
      outcome := Engine.Completed(fanSpeed, issued, ok, severity, notify, alert,
                                  Engine.AdaptiveSleep(input.read, config.highTemp));
    }

    /** The `raw_temp > 0` branch of the loop body. */
    method GoodReadTick(input: Engine.TickInput) returns (outcome: Engine.TickOutcome)
      requires Valid() && Engine.GoodRead(input.read)
      modifies this
      ensures Valid()
      ensures (Model(), outcome) == Engine.GoodReadTick(old(Model()), input)
    {
      var raw := input.read.value;
      if DetectSpike(raw) {
        consecutiveFailures := 0;
        previousTemp := input.read;
        outcome := Dispatch(input, 100, Engine.Warning, config.enableNotifications, false);
      } else {
        consecutiveFailures := 0;
        var smoothed := GetSmoothedTemp(raw);
        if smoothed.None? {
          return Engine.Aborted;
        }
        var fanSpeed := DecideFanSpeed(smoothed.value);
        previousTemp := input.read;
        outcome := Dispatch(input, fanSpeed, Engine.Info, false, false);
      }
    }

    /** The `raw_temp == 0` branch of the loop body. */
    method ZeroReadTick(input: Engine.TickInput) returns (outcome: Engine.TickOutcome)
      requires Valid() && input.read == Some(0)
      modifies this
      ensures Valid()
      ensures (Model(), outcome) == Engine.ZeroReadTick(old(Model()), input)
    {
      consecutiveFailures := consecutiveFailures + 1;
      var alert := CheckDriverIfNeeded(input.now, input.driverVersion);
      var severity := if driverIncompatible == Incompatible then Engine.Critical else Engine.Warning;
      var notify := consecutiveFailures >= config.maxConsecutiveFailures && config.enableNotifications;
      outcome := Dispatch(input, 100, severity, notify, alert);
    }

    /** The branch of the loop body for a missing or negative reading. */
    method FailedReadTick(input: Engine.TickInput) returns (outcome: Engine.TickOutcome)
      requires Valid() && !Engine.GoodRead(input.read) && input.read != Some(0)
      modifies this
      ensures Valid()
      ensures (Model(), outcome) == Engine.FailedReadTick(old(Model()), input)
    {
      consecutiveFailures := consecutiveFailures + 1;
      var locked := consecutiveFailures >= config.maxConsecutiveFailures;
      var severity := if locked then Engine.Critical else Engine.Warning;
      outcome := Dispatch(input, 100, severity, locked && config.enableNotifications, false);
    }

    /** `run()` over a script of tick inputs: set `running`, tick while it stays
        set and inputs remain (a `stop()` during a tick is seen at the top of the
        next iteration), clear `running`. */
    method Run(inputs: seq<Engine.TickInput>) returns (outcomes: seq<Engine.TickOutcome>)
      requires Valid()
      modifies this
      ensures Valid()
      ensures (Model(), outcomes) == Engine.Run(old(Model()), inputs)
    {
      running := true;
      ghost var start := Model();
      var i := 0;
      outcomes := [];
      assert start == old(Model()).(running := true);
      assert inputs[i..] == inputs;
      assert outcomes + Engine.RunLoop(start, inputs).1 == Engine.RunLoop(start, inputs).1;
      while running && i < |inputs|
        invariant 0 <= i <= |inputs|
        invariant Valid()
        invariant Engine.RunLoop(start, inputs) ==
                    (Engine.RunLoop(Model(), inputs[i..]).0, outcomes + Engine.RunLoop(Model(), inputs[i..]).1)
        decreases |inputs| - i
      {
        ghost var before := Model();
        ghost var tail := inputs[i..];
        Engine.RunLoopStep(before, tail);
        var o := Tick(inputs[i]);
        if inputs[i].stopRequested {
          Stop();
        }
        assert Model() == Engine.AfterTick(before, inputs[i]);
        assert tail[1..] == inputs[i + 1..];
        ghost var rest := Engine.RunLoop(Model(), inputs[i + 1..]);
        assert outcomes + ([o] + rest.1) == (outcomes + [o]) + rest.1;
        outcomes := outcomes + [o];
        i := i + 1;
      }
      assert Engine.RunLoop(Model(), inputs[i..]) == (Model(), []);
      assert outcomes + [] == outcomes;
      assert Engine.RunLoop(start, inputs) == (Model(), outcomes);
      running := false;
    }
  }
}

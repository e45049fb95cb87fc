/** The controller's configuration (`DEFAULT_CONFIG`), its fan-curve waypoints and
    the three preset curves (`PROFILES`). */
module Settings {
  import opened Wrappers

  /** One `(temperature_C, fan_speed_%)` point of a fan curve. */
  datatype Waypoint = Waypoint(temp: int, speed: int)

  /** The configuration keys the control loop reads. `smoothingWindow` is the
      `maxlen` of the history deque, which Python refuses to be negative. A `curve`
      of `None` and an empty `curve` both mean "no custom curve". */
  datatype Config = Config(
    lowTemp: int,
    highTemp: int,
    minSpeed: int,
    maxSpeed: int,
    hysteresisDegrees: int,
    smoothingWindow: nat,
    spikeThreshold: int,
    maxConsecutiveFailures: int,
    profile: string,
    curve: Option<seq<Waypoint>>,
    enableNotifications: bool)

  /** `DEFAULT_CONFIG`, restricted to the keys above. */
  const DefaultConfig: Config := Config(
    lowTemp := 20,
    highTemp := 60,
    minSpeed := 10,
    maxSpeed := 100,
    hysteresisDegrees := 3,
    smoothingWindow := 5,
    spikeThreshold := 15,
    maxConsecutiveFailures := 10,
    profile := "balanced",
    curve := None,
    enableNotifications := false)

  const SilentCurve: seq<Waypoint> := [
    Waypoint(0, 0), Waypoint(35, 5), Waypoint(45, 15), Waypoint(55, 35),
    Waypoint(65, 55), Waypoint(75, 80), Waypoint(85, 100)]

  const BalancedCurve: seq<Waypoint> := [
    Waypoint(0, 10), Waypoint(30, 10), Waypoint(40, 25), Waypoint(50, 50),
    Waypoint(60, 75), Waypoint(70, 100)]

  const PerformanceCurve: seq<Waypoint> := [
    Waypoint(0, 20), Waypoint(25, 30), Waypoint(35, 50), Waypoint(45, 70),
    Waypoint(55, 90), Waypoint(65, 100)]

  /** `PROFILES.get(name)`. */
  function Preset(name: string): (r: Option<seq<Waypoint>>)
    ensures r.Some? <==> name == "silent" || name == "balanced" || name == "performance"
  {
    if name == "silent" then Some(SilentCurve)
    else if name == "balanced" then Some(BalancedCurve)
    else if name == "performance" then Some(PerformanceCurve)
    else None
  }

  /** Waypoints in non-decreasing temperature order (what `sorted` produces). */
  ghost predicate SortedByTemp(c: seq<Waypoint>) {
    forall i, j :: 0 <= i < j < |c| ==> c[i].temp <= c[j].temp
  }

  /** Waypoints in strictly increasing temperature order. */
  ghost predicate StrictlyIncreasing(c: seq<Waypoint>) {
    forall i, j :: 0 <= i < j < |c| ==> c[i].temp < c[j].temp
  }

  ghost predicate SpeedsNondecreasing(c: seq<Waypoint>) {
    forall i, j :: 0 <= i < j < |c| ==> c[i].speed <= c[j].speed
  }

  ghost predicate SpeedsWithin(c: seq<Waypoint>, lo: int, hi: int) {
    forall i :: 0 <= i < |c| ==> lo <= c[i].speed <= hi
  }

  /** What the preset tables promise: strictly increasing temperatures from 0 C,
      speeds that never fall, stay within [0, 100] and end at 100 %. */
  ghost predicate WellFormedPreset(c: seq<Waypoint>) {
    && |c| >= 2
    && c[0].temp == 0
    && c[|c| - 1].speed == 100
    && StrictlyIncreasing(c)
    && SpeedsNondecreasing(c)
    && SpeedsWithin(c, 0, 100)
  }

  /** Checking neighbours is enough for both orderings. */
  lemma {:induction false} NeighboursSuffice(c: seq<Waypoint>)
    requires forall i :: 0 <= i < |c| - 1 ==> c[i].temp < c[i + 1].temp
    requires forall i :: 0 <= i < |c| - 1 ==> c[i].speed <= c[i + 1].speed
    ensures StrictlyIncreasing(c) && SpeedsNondecreasing(c)
  {
    if |c| > 1 {
      var tail := c[1..];
      NeighboursSuffice(tail);
      forall i, j | 0 <= i < j < |c|
        ensures c[i].temp < c[j].temp && c[i].speed <= c[j].speed
      {
        if i == 0 && j > 1 {
          assert tail[0].temp < tail[j - 1].temp && tail[0].speed <= tail[j - 1].speed;
        } else if i > 0 {
          assert tail[i - 1].temp < tail[j - 1].temp && tail[i - 1].speed <= tail[j - 1].speed;
        }
      }
    }
  }

  lemma PresetWellFormed(c: seq<Waypoint>)
    requires c == SilentCurve || c == BalancedCurve || c == PerformanceCurve
    ensures WellFormedPreset(c)
  {
    NeighboursSuffice(c);
  }

  /** Exactly the three names are presets, and each of them is well formed. */
  lemma PresetsWellFormed(name: string)
    ensures Preset(name).Some? <==> name in ["silent", "balanced", "performance"]
    ensures Preset(name).Some? ==> WellFormedPreset(Preset(name).value)
  {
    if Preset(name).Some? {
      PresetWellFormed(Preset(name).value);
    }
  }
}

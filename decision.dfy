/** The speed decision of `FanController.decide_fan_speed`: the curve target
    (clamped at both ends, piecewise-linear inside), the hysteresis guard and the
    final clamp to [0, 100]. */
module Decision {
  import opened Wrappers
  import opened Numeric
  import opened Settings

  /** Segment `i` of the curve brackets `temp`: `t_low <= temp <= t_high`. */
  predicate Brackets(c: seq<Waypoint>, i: nat, temp: int)
    requires i + 1 < |c|
  {
    c[i].temp <= temp <= c[i + 1].temp
  }

  /** The index the `for`/`break` scan stops at, from index `from` on: the first
      bracketing segment, or `|c| - 1` when no segment brackets `temp`. */
  function FirstBracket(c: seq<Waypoint>, temp: int, from: nat): (j: nat)
    requires from < |c|
    ensures from <= j < |c|
    ensures j < |c| - 1 ==> Brackets(c, j, temp)
    ensures forall k :: from <= k < j && k + 1 < |c| ==> !Brackets(c, k, temp)
    decreases |c| - from
  {
    if from == |c| - 1 then from
    else if Brackets(c, from, temp) then from
    else FirstBracket(c, temp, from + 1)
  }

  /** A scan that starts at or below `temp` and ends at or above it always stops
      at a bracketing segment, whatever the order of the waypoints in between. */
  lemma {:induction false} BracketFound(c: seq<Waypoint>, temp: int, from: nat)
    requires from < |c| - 1
    requires c[from].temp <= temp <= c[|c| - 1].temp
    ensures FirstBracket(c, temp, from) < |c| - 1
    decreases |c| - from
  {
    if !Brackets(c, from, temp) {
      BracketFound(c, temp, from + 1);
    }
  }

  /** `round(s_low + (temp - t_low) / (t_high - t_low) * (s_high - s_low))`,
      computed exactly; `s_high` when the segment has no width. */
  function SegmentSpeed(lo: Waypoint, hi: Waypoint, temp: int): (r: int)
    requires lo.temp <= temp <= hi.temp
    ensures lo.speed <= hi.speed ==> lo.speed <= r <= hi.speed
    ensures hi.speed <= lo.speed ==> hi.speed <= r <= lo.speed
    ensures temp == hi.temp ==> r == hi.speed
    ensures temp == lo.temp && lo.temp < hi.temp ==> r == lo.speed
  {
    if hi.temp == lo.temp then hi.speed
    else
      var d := hi.temp - lo.temp;
      var n := lo.speed * d + (temp - lo.temp) * (hi.speed - lo.speed);
      SegmentBounds(lo, hi, temp);
      RoundHalfEven(n, d)
  }

  lemma SegmentBounds(lo: Waypoint, hi: Waypoint, temp: int)
    requires lo.temp <= temp <= hi.temp && lo.temp < hi.temp
    ensures var d := hi.temp - lo.temp;
            var n := lo.speed * d + (temp - lo.temp) * (hi.speed - lo.speed);
            && (lo.speed <= hi.speed ==> lo.speed <= RoundHalfEven(n, d) <= hi.speed)
            && (hi.speed <= lo.speed ==> hi.speed <= RoundHalfEven(n, d) <= lo.speed)
            && (temp == hi.temp ==> RoundHalfEven(n, d) == hi.speed)
            && (temp == lo.temp ==> RoundHalfEven(n, d) == lo.speed)
  {
    var d, x := hi.temp - lo.temp, temp - lo.temp;
    var n := lo.speed * d + x * (hi.speed - lo.speed);
    ScaledBetween(lo.speed, hi.speed, x, d);
    if lo.speed <= hi.speed {
      RoundBetween(n, d, lo.speed, hi.speed);
    }
    if hi.speed <= lo.speed {
      RoundBetween(n, d, hi.speed, lo.speed);
    }
    if temp == hi.temp {
      RoundExact(hi.speed, d);
    }
    if temp == lo.temp {
      RoundExact(lo.speed, d);
    }
  }

  /** `a * d + x * (b - a)` for `0 <= x <= d` lies between `a * d` and `b * d`,
      and is one of them at either end. */
  lemma ScaledBetween(a: int, b: int, x: int, d: int)
    requires 0 <= x <= d && d > 0
    ensures a <= b ==> a * d <= a * d + x * (b - a) <= b * d
    ensures b <= a ==> b * d <= a * d + x * (b - a) <= a * d
    ensures x == d ==> a * d + x * (b - a) == b * d
    ensures x == 0 ==> a * d + x * (b - a) == a * d
  {
    assert b * d == a * d + d * (b - a);
    if a <= b {
      MulLeft(0, x, b - a);
      MulLeft(x, d, b - a);
    } else {
      MulLeft(0, x, a - b);
      MulLeft(x, d, a - b);
      assert x * (b - a) == -(x * (a - b));
      assert d * (b - a) == -(d * (a - b));
    }
  }

  lemma MulLeft(a: int, b: int, m: int)
    requires a <= b && m >= 0
    ensures a * m <= b * m
  {
    assert b * m - a * m == (b - a) * m;
  }

  /** Within one segment whose speed does not fall, a hotter temperature never
      gives a lower speed. */
  lemma SegmentMonotone(lo: Waypoint, hi: Waypoint, t1: int, t2: int)
    requires lo.temp <= t1 <= t2 <= hi.temp && lo.speed <= hi.speed
    ensures SegmentSpeed(lo, hi, t1) <= SegmentSpeed(lo, hi, t2)
  {
    if lo.temp < hi.temp {
      var d, delta := hi.temp - lo.temp, hi.speed - lo.speed;
      var n1 := lo.speed * d + (t1 - lo.temp) * delta;
      var n2 := lo.speed * d + (t2 - lo.temp) * delta;
      assert SegmentSpeed(lo, hi, t1) == RoundHalfEven(n1, d);
      assert SegmentSpeed(lo, hi, t2) == RoundHalfEven(n2, d);
      MulLeft(t1 - lo.temp, t2 - lo.temp, delta);
      RoundMonotone(n1, n2, d);
    }
  }

  /** The curve part of `decide_fan_speed`: the end speeds outside the curve, the
      first bracketing segment inside it. */
  function CurveTarget(c: seq<Waypoint>, temp: int): (r: int)
    requires |c| >= 1
  {
    if temp <= c[0].temp then c[0].speed
    else if temp >= c[|c| - 1].temp then c[|c| - 1].speed
    else
      var j := FirstBracket(c, temp, 0);
      if j < |c| - 1 then SegmentSpeed(c[j], c[j + 1], temp) else c[|c| - 1].speed
  }

  /** The curve target never leaves the range of the waypoint speeds; for the
      presets it is already within [0, 100]. */
  lemma CurveTargetWithin(c: seq<Waypoint>, temp: int, lo: int, hi: int)
    requires |c| >= 1 && SpeedsWithin(c, lo, hi)
    ensures lo <= CurveTarget(c, temp) <= hi
  {
    if c[0].temp < temp < c[|c| - 1].temp {
      var j := FirstBracket(c, temp, 0);
      if j < |c| - 1 {
        assert lo <= c[j].speed <= hi && lo <= c[j + 1].speed <= hi;
      }
    }
  }

  /** At or below the first waypoint the target is its speed; at or above the
      last, the last speed; on a curve of strictly increasing temperatures the
      target at every waypoint's temperature is that waypoint's speed. */
  lemma CurveTargetAtWaypoints(c: seq<Waypoint>, temp: int)
    requires |c| >= 1
    ensures temp <= c[0].temp ==> CurveTarget(c, temp) == c[0].speed
    ensures c[0].temp < temp && temp >= c[|c| - 1].temp ==> CurveTarget(c, temp) == c[|c| - 1].speed
    ensures StrictlyIncreasing(c) ==>
      forall k :: 0 <= k < |c| && temp == c[k].temp ==> CurveTarget(c, temp) == c[k].speed
  {
    if StrictlyIncreasing(c) {
      forall k | 0 <= k < |c| && temp == c[k].temp
        ensures CurveTarget(c, temp) == c[k].speed
      {
        if 0 < k < |c| - 1 {
          var j := FirstBracket(c, temp, 0);
          assert Brackets(c, k - 1, temp);
        }
      }
    }
  }

  /** On a sorted curve whose speeds never fall, the curve target is monotone:
      a hotter temperature never asks for a slower fan. */
  lemma CurveTargetMonotone(c: seq<Waypoint>, t1: int, t2: int)
    requires |c| >= 1 && SortedByTemp(c) && SpeedsNondecreasing(c) && t1 <= t2
    ensures CurveTarget(c, t1) <= CurveTarget(c, t2)
  {
    var last := |c| - 1;
    CurveTargetWithin(c, t1, c[0].speed, c[last].speed);
    CurveTargetWithin(c, t2, c[0].speed, c[last].speed);
    if c[0].temp < t1 && t2 < c[last].temp {
      BracketFound(c, t1, 0);
      BracketFound(c, t2, 0);
      var j1, j2 := FirstBracket(c, t1, 0), FirstBracket(c, t2, 0);
      if j1 == j2 {
        SegmentMonotone(c[j1], c[j1 + 1], t1, t2);
      } else if j1 < j2 {
        assert CurveTarget(c, t1) <= c[j1 + 1].speed;
        assert c[j1 + 1].speed <= c[j2].speed;
      } else {
        // j2 would bracket t1 too, before j1
        assert false;
      }
    }
  }

  /** The hysteresis guard: a target below the speed already set is held at that
      speed while the temperature has dropped by less than `hysteresis` degrees
      since the previous raw reading. */
  function ApplyHysteresis(target: int, setSpeed: Option<int>, previousTemp: Option<int>,
                           hysteresis: int, temp: int): (r: int)
    ensures r == target || (setSpeed.Some? && r == setSpeed.value && target < r)
  {
    if setSpeed.Some? && target < setSpeed.value && previousTemp.Some?
       && previousTemp.value - temp < hysteresis
    then setSpeed.value
    else target
  }

  /** `decide_fan_speed(temp)` for the controller fields it reads. */
  function DecideSpeed(c: seq<Waypoint>, setSpeed: Option<int>, previousTemp: Option<int>,
                       hysteresis: int, temp: int): (r: int)
    requires |c| >= 1
    ensures 0 <= r <= 100
  {
    Clamp(ApplyHysteresis(CurveTarget(c, temp), setSpeed, previousTemp, hysteresis, temp), 0, 100)
  }

  /** With a speed `S` set, a previous raw temperature `P` and a curve target
      `T < S`: the decision stays at `S` while `P - temp < hysteresis` and drops
      to `T` (clamped) once the drop reaches `hysteresis`. */
  lemma HysteresisHoldsSpeed(c: seq<Waypoint>, s: int, p: int, hysteresis: int, temp: int)
    requires |c| >= 1 && 0 <= s <= 100 && CurveTarget(c, temp) < s
    ensures p - temp < hysteresis ==> DecideSpeed(c, Some(s), Some(p), hysteresis, temp) == s
    ensures p - temp >= hysteresis ==>
      DecideSpeed(c, Some(s), Some(p), hysteresis, temp) == Clamp(CurveTarget(c, temp), 0, 100)
  {
  }

  /** The guard never raises a target: when the curve target is not below the
      speed already set, or nothing has been set yet, or there is no previous
      reading (the first tick), the decision is the clamped curve target. */
  lemma HysteresisNeverRaises(c: seq<Waypoint>, setSpeed: Option<int>, previousTemp: Option<int>,
                              hysteresis: int, temp: int)
    requires |c| >= 1
    requires setSpeed.None? || previousTemp.None? || CurveTarget(c, temp) >= setSpeed.value
    ensures DecideSpeed(c, setSpeed, previousTemp, hysteresis, temp) == Clamp(CurveTarget(c, temp), 0, 100)
  {
  }

  /** The balanced preset at 45 C interpolates between (40, 25) and (50, 50):
      25 + 0.5 * 25 = 37.5, which rounds to 38. */
  lemma BalancedAt45()
    ensures DecideSpeed(BalancedCurve, None, None, 3, 45) == 38
  {
    var c := BalancedCurve;
    assert !Brackets(c, 0, 45) && !Brackets(c, 1, 45) && Brackets(c, 2, 45);
    assert FirstBracket(c, 45, 2) == 2;
    assert FirstBracket(c, 45, 1) == 2;
    assert FirstBracket(c, 45, 0) == 2;
    assert RoundHalfEven(25 * 10 + 5 * 25, 10) == 38;
  }
}

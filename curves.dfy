/** Fan-curve resolution (`FanController._resolve_fan_curve`): a custom curve
    sorted by temperature, else a named preset, else a two-point ramp built from
    the legacy thresholds. */
module Curves {
  import opened Wrappers
  import opened Settings

  /** Places `w` before the first waypoint that is at least as hot, so that it
      stays ahead of waypoints with the same temperature. */
  function Insert(w: Waypoint, s: seq<Waypoint>): (r: seq<Waypoint>)
    ensures multiset(r) == multiset(s) + multiset{w}
  {
    if s == [] || w.temp <= s[0].temp then [w] + s
    else
      assert multiset(s) == multiset{s[0]} + multiset(s[1..]) by { assert s == [s[0]] + s[1..]; }
      [s[0]] + Insert(w, s[1..])
  }

  /** Inserting into a sorted curve keeps it sorted. */
  lemma {:induction false} InsertSorted(w: Waypoint, s: seq<Waypoint>)
    requires SortedByTemp(s)
    ensures SortedByTemp(Insert(w, s))
  {
    if s != [] && s[0].temp < w.temp {
      InsertSorted(w, s[1..]);
      AllAtLeast(s[0].temp, s[1..], w, Insert(w, s[1..]));
    }
  }

  /** A bound below every waypoint of `xs` and below `w` is below every
      waypoint of a permutation of `xs` with `w` added. */
  lemma AllAtLeast(bound: int, xs: seq<Waypoint>, w: Waypoint, ys: seq<Waypoint>)
    requires forall k :: 0 <= k < |xs| ==> bound <= xs[k].temp
    requires bound <= w.temp && multiset(ys) == multiset(xs) + multiset{w}
    ensures forall k :: 0 <= k < |ys| ==> bound <= ys[k].temp
  {
    forall k | 0 <= k < |ys| ensures bound <= ys[k].temp {
      assert ys[k] in multiset(ys);
      if ys[k] != w {
        assert ys[k] in multiset(xs);
      }
    }
  }

  /** `sorted(curve, key=lambda x: x[0])`: Python's sort is stable; insertion of
      each waypoint ahead of its equal-temperature followers is too. */
  function SortByTemp(c: seq<Waypoint>): (r: seq<Waypoint>)
    ensures SortedByTemp(r)
    ensures multiset(r) == multiset(c)
  {
    if c == [] then []
    else
      assert c == [c[0]] + c[1..];
      InsertSorted(c[0], SortByTemp(c[1..]));
      Insert(c[0], SortByTemp(c[1..]))
  }

  /** The waypoints of `c` that sit at temperature `t`, in their order in `c`. */
  function AtTemp(c: seq<Waypoint>, t: int): seq<Waypoint> {
    if c == [] then []
    else (if c[0].temp == t then [c[0]] else []) + AtTemp(c[1..], t)
  }

  lemma {:induction false} InsertAtTemp(w: Waypoint, s: seq<Waypoint>, t: int)
    ensures AtTemp(Insert(w, s), t) == (if w.temp == t then [w] else []) + AtTemp(s, t)
  {
    if s == [] || w.temp <= s[0].temp {
      AtTempCons(w, s, t);
    } else {
      var rest := Insert(w, s[1..]);
      InsertAtTemp(w, s[1..], t);
      AtTempCons(s[0], rest, t);
      if s[0].temp == t {
        assert w.temp != t;
      }
    }
  }

  lemma AtTempCons(x: Waypoint, rest: seq<Waypoint>, t: int)
    ensures AtTemp([x] + rest, t) == (if x.temp == t then [x] else []) + AtTemp(rest, t)
  {
    assert ([x] + rest)[1..] == rest;
  }

  /** The sort is stable: for every temperature, the waypoints at that temperature
      keep their relative order. */
  lemma {:induction false} SortIsStable(c: seq<Waypoint>, t: int)
    ensures AtTemp(SortByTemp(c), t) == AtTemp(c, t)
  {
    if c != [] {
      SortIsStable(c[1..], t);
      InsertAtTemp(c[0], SortByTemp(c[1..]), t);
    }
  }

  /** Sorting an already sorted curve changes nothing. */
  lemma {:induction false} SortSortedIsIdentity(c: seq<Waypoint>)
    requires SortedByTemp(c)
    ensures SortByTemp(c) == c
  {
    if c != [] {
      SortSortedIsIdentity(c[1..]);
      if |c| > 1 { assert c[0].temp <= c[1].temp; }
    }
  }

  /** `_resolve_fan_curve`. */
  function ResolveFanCurve(cfg: Config): (r: seq<Waypoint>)
    ensures |r| >= 1
    ensures cfg.curve.Some? && cfg.curve.value != [] ==> SortedByTemp(r) && multiset(r) == multiset(cfg.curve.value)
  {
    if cfg.curve.Some? && cfg.curve.value != [] then SortByTemp(cfg.curve.value)
    else if Preset(cfg.profile).Some? then Preset(cfg.profile).value
    else [Waypoint(cfg.lowTemp, cfg.minSpeed), Waypoint(cfg.highTemp, cfg.maxSpeed)]
  }

  /** The resolution order: a non-empty custom curve wins (sorted, speeds as
      given), then a known profile's preset, then the two-point ramp. */
  lemma ResolutionOrder(cfg: Config)
    ensures cfg.curve.Some? && cfg.curve.value != [] ==>
      && SortedByTemp(ResolveFanCurve(cfg))
      && (forall t :: AtTemp(ResolveFanCurve(cfg), t) == AtTemp(cfg.curve.value, t))
    ensures (cfg.curve.None? || cfg.curve.value == []) && Preset(cfg.profile).Some? ==>
      ResolveFanCurve(cfg) == Preset(cfg.profile).value
    ensures (cfg.curve.None? || cfg.curve.value == []) && Preset(cfg.profile).None? ==>
      ResolveFanCurve(cfg) == [Waypoint(cfg.lowTemp, cfg.minSpeed), Waypoint(cfg.highTemp, cfg.maxSpeed)]
  {
    if cfg.curve.Some? && cfg.curve.value != [] {
      forall t ensures AtTemp(ResolveFanCurve(cfg), t) == AtTemp(cfg.curve.value, t) {
        SortIsStable(cfg.curve.value, t);
      }
    }
  }

  /** Re-resolving is idempotent: feeding a resolved custom or preset curve back
      in as the custom curve yields the same list. */
  lemma ResolveIdempotent(cfg: Config)
    requires (cfg.curve.Some? && cfg.curve.value != []) || Preset(cfg.profile).Some?
    ensures ResolveFanCurve(cfg.(curve := Some(ResolveFanCurve(cfg)))) == ResolveFanCurve(cfg)
  {
    var r := ResolveFanCurve(cfg);
    if !(cfg.curve.Some? && cfg.curve.value != []) {
      PresetsWellFormed(cfg.profile);
    }
    SortSortedIsIdentity(r);
  }

  /** The default configuration runs on the balanced preset. */
  lemma DefaultResolvesToBalanced()
    ensures ResolveFanCurve(DefaultConfig) == BalancedCurve
  {
  }
}

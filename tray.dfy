/** The pure display helpers of the tray and dashboard: colour bands for a
    temperature, the tray icon's colour and text, integer settings read from the
    configuration, the dashboard's bottom-right placement, and the values the
    dashboard bars and the tray tooltip show. */
module Tray {
  import opened Wrappers
  import opened Numeric
  import opened PyText

  // ---------------------------------------------------------------------------
  // Temperature colours
  // ---------------------------------------------------------------------------

  const Unknown := "#9CA3AF"
  const Cool := "#22C55E"
  const Warm := "#FACC15"
  const Hot := "#EF4444"

  /** `_temp_hex_colour(temp)`: the dashboard's text colour. */
  function TempHexColour(temp: Option<int>): (colour: string)
    ensures colour == Unknown <==> temp.None? || temp.value <= 0
    ensures colour == Cool <==> temp.Some? && 0 < temp.value < 45
    ensures colour == Warm <==> temp.Some? && 45 <= temp.value < 65
    ensures colour == Hot <==> temp.Some? && temp.value >= 65
  {
    if temp.None? || temp.value <= 0 then Unknown
    else if temp.value < 45 then Cool
    else if temp.value < 65 then Warm
    else Hot
  }

  /** The order of the colour bands, from unknown to hot. */
  function Rank(colour: string): (r: nat)
    ensures r <= 3
  {
    if colour == Cool then 1 else if colour == Warm then 2 else if colour == Hot then 3 else 0
  }

  /** Every temperature gets one of the four colours, and among real readings a
      hotter one never gets a cooler colour. */
  lemma {:induction false} HexColourMonotone(t1: int, t2: int)
    requires 0 < t1 <= t2
    ensures TempHexColour(Some(t1)) in {Cool, Warm, Hot}
    ensures Rank(TempHexColour(Some(t1))) <= Rank(TempHexColour(Some(t2)))
  {
    var c1, c2 := TempHexColour(Some(t1)), TempHexColour(Some(t2));
    assert Rank(c1) == (if t1 < 45 then 1 else if t1 < 65 then 2 else 3);
    assert Rank(c2) == (if t2 < 45 then 1 else if t2 < 65 then 2 else 3);
  }

  // ---------------------------------------------------------------------------
  // The tray icon
  // ---------------------------------------------------------------------------

  datatype Rgb = Rgb(red: int, green: int, blue: int)

  const Grey := Rgb(100, 100, 100)
  const Green := Rgb(60, 160, 60)
  const Yellow := Rgb(220, 180, 30)
  const Red := Rgb(210, 50, 50)

  /** The background circle of `_create_icon_image(temp)`. */
  function IconBackground(temp: int): (colour: Rgb)
    ensures colour == Grey <==> temp <= 0
    ensures colour == Green <==> 0 < temp < 50
    ensures colour == Yellow <==> 50 <= temp < 70
    ensures colour == Red <==> temp >= 70
  {
    if temp <= 0 then Grey
    else if temp < 50 then Green
    else if temp < 70 then Yellow
    else Red
  }

  /** The text drawn on the icon: the temperature, or "?" when it is unknown. */
  function IconText(temp: int): (text: string)
    ensures temp <= 0 <==> text == "?"
  {
    if temp > 0 then NatStr(temp) else "?"
  }

  /** The icon text of a real reading reads back as that reading. */
  lemma {:induction false} IconTextReadsBack(temp: int)
    requires temp > 0
    ensures ParseInt(IconText(temp)) == Some(temp)
  {
    ParseIntStr(temp);
  }

  /** The dashboard and the icon use different thresholds: at 47 C the dashboard
      text is already warm while the icon is still green. */
  lemma BandsDiffer()
    ensures TempHexColour(Some(47)) == Warm && IconBackground(47) == Green
    ensures TempHexColour(Some(67)) == Hot && IconBackground(67) == Yellow
  {
  }

  // ---------------------------------------------------------------------------
  // Configuration values
  // ---------------------------------------------------------------------------

  /** A positive integer, the denominator of a float. */
  type Positive = n: int | n >= 1 witness 1

  /** A value read from the JSON configuration or from a status snapshot: a float
      is kept as the exact fraction `num / den`; `OtherValue` is a list, a dict or
      any other object. */
  datatype PyValue =
    | Null
    | BoolValue(b: bool)
    | IntValue(i: int)
    | FloatValue(num: int, den: Positive)
    | TextValue(text: string)
    | OtherValue

  /** Python's `int(v)`, or `None` where it raises `TypeError` or `ValueError`: a
      bool is 0 or 1, a float is truncated toward zero, text is parsed. */
  function ToInt(v: PyValue): (r: Option<int>)
    ensures v.IntValue? ==> r == Some(v.i)
    ensures v.Null? || v.OtherValue? ==> r.None?
    ensures v.FloatValue? ==> r.Some? && var den: int := v.den;
      && (0 <= r.value * den <= v.num || v.num <= r.value * den <= 0)
      && -den < v.num - r.value * den < den
  {
    match v
    case Null => None
    case BoolValue(b) => Some(if b then 1 else 0)
    case IntValue(i) => Some(i)
    case FloatValue(num, den) =>
      Some(if num >= 0 then num / den else -((-num) / den))
    case TextValue(text) => ParseInt(text)
    case OtherValue => None
  }

  /** `config.get(key, default)`. */
  function Lookup(config: map<string, PyValue>, key: string, default: PyValue): PyValue {
    if key in config then config[key] else default
  }

  /** `_config_int(config, key, default, min_value)`. */
  function ConfigInt(config: map<string, PyValue>, key: string, default: int, minValue: int): (r: int)
    ensures r >= minValue
    ensures ToInt(Lookup(config, key, IntValue(default))).None? ==> r == Max(minValue, default)
    ensures ToInt(Lookup(config, key, IntValue(default))).Some? ==>
              r == Max(minValue, ToInt(Lookup(config, key, IntValue(default))).value)
  {
    var value := match ToInt(Lookup(config, key, IntValue(default)))
                 case Some(v) => v
                 case None => default;
    Max(minValue, value)
  }

  function Max(a: int, b: int): int {
    if a >= b then a else b
  }

  /** A setting written as text reads the same as the number itself. */
  lemma {:induction false} ConfigIntText(config: map<string, PyValue>, key: string, i: int,
                                         default: int, minValue: int)
    ensures ConfigInt(config[key := TextValue(IntStr(i))], key, default, minValue)
         == ConfigInt(config[key := IntValue(i)], key, default, minValue)
  {
    ParseIntStr(i);
  }

  /** A missing setting, a `null` and an unusable value all fall back to the
      default; feeding the result back in as the default changes nothing. */
  lemma {:induction false} ConfigIntFallback(config: map<string, PyValue>, key: string,
                                             default: int, minValue: int)
    requires key !in config || config[key].Null? || config[key].OtherValue?
    ensures ConfigInt(config, key, default, minValue) == Max(minValue, default)
    ensures ConfigInt(config, key, ConfigInt(config, key, default, minValue), minValue)
         == ConfigInt(config, key, default, minValue)
  {
    var r := ConfigInt(config, key, default, minValue);
    assert ToInt(Lookup(config, key, IntValue(default))).None? <==> key in config;
    assert ConfigInt(config, key, r, minValue) == Max(minValue, r);
  }

  /** A float setting is truncated toward zero, as Python's `int()` does. */
  lemma FloatSettingTruncates()
    ensures ConfigInt(map["k" := FloatValue(-7, 2)], "k", 5, -10) == -3
    ensures ConfigInt(map["k" := FloatValue(7, 2)], "k", 5, 0) == 3
  {
  }

  // ---------------------------------------------------------------------------
  // Dashboard placement
  // ---------------------------------------------------------------------------

  /** A screen rectangle, edges in Tk units. */
  datatype Rect = Rect(left: int, top: int, right: int, bottom: int)

  /** The bounds `_compute_dashboard_position` places the window in: the work
      area already converted to Tk units when there is one, but the whole screen
      when there is none or the conversion gave an empty rectangle. */
  function WorkBounds(screenWidth: int, screenHeight: int, converted: Option<Rect>): (b: Rect)
    ensures (converted.Some? && converted.value.left < converted.value.right
             && converted.value.top < converted.value.bottom) ==> b == converted.value
    ensures (converted.None? || converted.value.right <= converted.value.left
             || converted.value.bottom <= converted.value.top)
            ==> b == Rect(0, 0, screenWidth, screenHeight)
  {
    match converted
    case None => Rect(0, 0, screenWidth, screenHeight)
    case Some(r) =>
      if r.right <= r.left || r.bottom <= r.top then Rect(0, 0, screenWidth, screenHeight) else r
  }

  /** The final two lines of `_compute_dashboard_position`: the bottom-right
      corner of the bounds, inset by `margin` (and at the bottom also by
      `bottomSafe`), but never past the top-left inset. */
  function DashboardPosition(b: Rect, width: int, height: int, margin: int, bottomSafe: int)
    : (pos: (int, int))
    ensures pos.0 >= b.left + margin && pos.1 >= b.top + margin
    ensures pos.0 == b.left + margin || pos.0 == b.right - width - margin
    ensures pos.1 == b.top + margin || pos.1 == b.bottom - height - margin - bottomSafe
  {
    (Max(b.left + margin, b.right - width - margin),
     Max(b.top + margin, b.bottom - height - margin - bottomSafe))
  }

  /** A window that fits sits exactly `margin` from the right edge and
      `margin + bottomSafe` from the bottom one, and stays inside the bounds. */
  lemma {:induction false} FittingWindowHugsCorner(b: Rect, width: int, height: int,
                                                   margin: int, bottomSafe: int)
    requires width >= 0 && height >= 0 && margin >= 0 && bottomSafe >= 0
    requires b.left + margin + width + margin <= b.right
    requires b.top + margin + height + margin + bottomSafe <= b.bottom
    ensures var (x, y) := DashboardPosition(b, width, height, margin, bottomSafe);
      && x + width + margin == b.right
      && y + height + margin + bottomSafe == b.bottom
      && b.left <= x && x + width <= b.right
      && b.top <= y && y + height <= b.bottom
  {
    var pos := DashboardPosition(b, width, height, margin, bottomSafe);
    assert pos.0 == b.right - width - margin;
    assert pos.1 == b.bottom - height - margin - bottomSafe;
  }

  /** On a screen of positive size the bounds are never empty, and any
      non-negative margins (the configured `dashboard_margin` and
      `dashboard_bottom_offset`) place a window that fits fully on screen. */
  lemma {:induction false} PlacementOnScreen(screenWidth: int, screenHeight: int,
                                             converted: Option<Rect>, width: int, height: int,
                                             margin: int, bottomSafe: int)
    requires screenWidth > 0 && screenHeight > 0
    requires margin >= 0 && bottomSafe >= 0
    ensures var b := WorkBounds(screenWidth, screenHeight, converted);
      b.left < b.right && b.top < b.bottom
    ensures var b := WorkBounds(screenWidth, screenHeight, converted);
      width >= 0 && height >= 0 && b.left + 2 * margin + width <= b.right
      && b.top + 2 * margin + bottomSafe + height <= b.bottom ==>
        var (x, y) := DashboardPosition(b, width, height, margin, bottomSafe);
        b.left <= x && x + width <= b.right && b.top <= y && y + height <= b.bottom
  {
    var b := WorkBounds(screenWidth, screenHeight, converted);
    if width >= 0 && height >= 0 && b.left + 2 * margin + width <= b.right
       && b.top + 2 * margin + bottomSafe + height <= b.bottom {
      FittingWindowHugsCorner(b, width, height, margin, bottomSafe);
    }
  }

  // ---------------------------------------------------------------------------
  // What the dashboard and the tooltip show
  // ---------------------------------------------------------------------------

  /** `isinstance(v, int)`: a bool is an int in Python. */
  predicate IsInt(v: PyValue) {
    v.IntValue? || v.BoolValue?
  }

  /** The integer value of an `IsInt` value. */
  function IntOf(v: PyValue): int
    requires IsInt(v)
  {
    if v.IntValue? then v.i else if v.b then 1 else 0
  }

  /** `snapshot.get(key)`. */
  function Get(snapshot: map<string, PyValue>, key: string): PyValue {
    Lookup(snapshot, key, Null)
  }

  /** The dashboard's target: the tick's target when present, else the speed set. */
  function DisplayTarget(target: PyValue, currentSet: PyValue): (r: PyValue)
    ensures !target.Null? ==> r == target
    ensures target.Null? ==> r == currentSet
  {
    if !target.Null? then target else currentSet
  }

  /** A dashboard progress bar: an integer clamped to [0, 100], 0 for anything else. */
  function BarValue(v: PyValue): (r: int)
    ensures 0 <= r <= 100
    ensures IsInt(v) && 0 <= IntOf(v) <= 100 ==> r == IntOf(v)
    ensures !IsInt(v) ==> r == 0
  {
    Clamp(if IsInt(v) then IntOf(v) else 0, 0, 100)
  }

  /** The tooltip's temperature: a positive integer reading, else 0. */
  function TooltipTemp(raw: PyValue): (r: int)
    ensures r >= 0
    ensures r > 0 <==> IsInt(raw) && IntOf(raw) > 0
    ensures r > 0 ==> r == IntOf(raw)
  {
    if IsInt(raw) && IntOf(raw) > 0 then IntOf(raw) else 0
  }

  /** The tooltip's speed: the target when it is an integer, else the speed set
      when that is one, else 0. */
  function TooltipSpeed(target: PyValue, currentSet: PyValue): (r: int)
    ensures IsInt(target) ==> r == IntOf(target)
    ensures !IsInt(target) && IsInt(currentSet) ==> r == IntOf(currentSet)
    ensures !IsInt(target) && !IsInt(currentSet) ==> r == 0
  {
    if IsInt(target) then IntOf(target) else if IsInt(currentSet) then IntOf(currentSet) else 0
  }

  /** Whether a snapshot speed is what the controller writes: an int or `None`. */
  predicate Speedlike(v: PyValue) {
    v.Null? || v.IntValue?
  }

  /** For the values the controller writes, the dashboard's fan bar shows the
      tooltip's speed clamped to [0, 100]: the two fallbacks agree. */
  lemma {:induction false} FanBarMatchesTooltip(target: PyValue, currentSet: PyValue)
    requires Speedlike(target) && Speedlike(currentSet)
    ensures BarValue(DisplayTarget(target, currentSet)) == Clamp(TooltipSpeed(target, currentSet), 0, 100)
  {
    if target.Null? {
      assert DisplayTarget(target, currentSet) == currentSet;
      assert !IsInt(target);
    }
  }

  /** The tray icon shows the reading itself, and its text reads back as the
      tooltip's temperature; an unusable reading shows "?". */
  lemma {:induction false} IconMatchesTooltip(raw: PyValue)
    ensures var t := TooltipTemp(raw);
      && (t > 0 ==> ParseInt(IconText(t)) == Some(t) && IconBackground(t) != Grey)
      && (t == 0 ==> IconText(t) == "?" && IconBackground(t) == Grey)
  {
    var t := TooltipTemp(raw);
    if t > 0 {
      IconTextReadsBack(t);
    }
  }

  /** The two fallbacks differ for a target that is neither `None` nor an int:
      the dashboard bar shows 0 while the tooltip shows the speed set. */
  lemma FallbacksDiffer()
    ensures BarValue(DisplayTarget(TextValue("80"), IntValue(50))) == 0
    ensures TooltipSpeed(TextValue("80"), IntValue(50)) == 50
  {
  }
}

/** The typed configuration of weather profiles and presets, and the optional
    range rule behind every randomised field. */
module Config {
  import opened Wrappers

  /** An optional `[min, max]` pair of a profile (`cloud_base_min`/`cloud_base_max`, ...). */
  datatype Range = Range(min: Option<int>, max: Option<int>) {
    /** Neither bound is given: the field is not to be changed. */
    predicate Unset() {
      min.None? && max.None?
    }

    /** pick is a value `gen_range(min..=max)` can return; with both bounds given
        that needs min <= max, as `gen_range` panics on an empty range. */
    predicate Admits(pick: int) {
      min.Some? && max.Some? ==> min.value <= pick <= max.value
    }

    /** The match of `random_cloud_base`, `random_temp` and `random_qnh`, where
        pick is the value the random generator drew. */
    function Select(pick: int): (r: Option<int>)
      ensures r.None? <==> Unset()
      ensures min.None? && max.Some? ==> r == max
      ensures min.Some? && max.None? ==> r == min
      ensures min.Some? && max.Some? && Admits(pick) ==> min.value <= r.value <= max.value
      ensures min.Some? && min == max && Admits(pick) ==> r == min
    {
      match (min, max)
      case (None, None) => None
      case (None, Some(_)) => max
      case (Some(_), None) => min
      case (Some(_), Some(_)) => Some(pick)
    }
  }

  /** A draw from the range: no change, the one bound given, or any value of the
      inclusive range. */
  method Draw(range: Range) returns (r: Option<int>)
    requires range.min.Some? && range.max.Some? ==> range.min.value <= range.max.value
    ensures r.None? <==> range.Unset()
    ensures range.min.None? && range.max.Some? ==> r == range.max
    ensures range.min.Some? && range.max.None? ==> r == range.min
    ensures range.min.Some? && range.max.Some? ==> range.min.value <= r.value <= range.max.value
  {
    var pick := 0;
    if range.min.Some? && range.max.Some? {
      pick :| range.min.value <= pick <= range.max.value;
    }
    r := range.Select(pick);
  }

  /** A weather profile. Temperature and QNH ranges are in hundredths (of a degree
      Celsius and of a millimetre of mercury); `isWindFlipped` is the per-run flag
      that `randomize_wind_flip` and a preset's `flip_wind` set. */
  datatype Weather = Weather(
    cloudPreset: Option<string>,
    cloudBase: Range,
    temp: Range,
    qnh: Range,
    weight: real,
    isWindFlipped: bool)

  /** A preset: its `H[:M[:S]]` start time, the weather profiles it may use and
      whether it inverts the profile's wind flip. */
  datatype Preset = Preset(weather: Option<seq<string>>, time: string, flipWind: bool)

  /** What the wind helpers of a profile draw (`random_wind_speed_ground`,
      `random_wind_heading_ground`, ...). Speeds are in hundredths of m/s; the
      2000 m and 8000 m speed draws are given the speed of the band below. */
  datatype WindDraws = WindDraws(
    groundSpeed: Option<int>,
    groundHeading: Option<int>,
    speed2000m: int -> Option<int>,
    heading2000m: Option<int>,
    speed8000m: int -> Option<int>,
    heading8000m: Option<int>)

  /** The values the random generator returns during one weather application. */
  datatype Draws = Draws(cloudBase: int, temp: int, qnh: int, wind: WindDraws)
}

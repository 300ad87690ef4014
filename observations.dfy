/**
 * The observation normaliser: one upstream observation feature becomes one
 * history row, with missing or null nested fields read as absent, pressure
 * taken from the station reading before the sea-level one, and relative
 * humidity filled in from the dew point when it is absent.
 */
module Observations {
  import opened Wrappers
  import opened Faults
  import opened Conversions

  /** A normalised observation: the `ts`, `temp_c`, `dewpoint_c`, `rh` and `pressure_pa` entries. */
  datatype Row = Row(
    ts: Option<string>,
    tempC: Option<real>,
    dewpointC: Option<real>,
    rh: Option<real>,
    pressurePa: Option<real>)

  /**
   * A nested quantity object such as `{"unitCode": ..., "value": 21.7}`. Only its
   * `value` entry is read; a missing entry and a JSON null `value` are both None.
   */
  type Quantity = map<string, Option<real>>

  /**
   * The `properties` object of a feature: its `timestamp` (missing or null is None)
   * and its nested quantity members (a member that is missing, null or an empty
   * object reads as an object without a `value`).
   */
  datatype Properties = Properties(timestamp: Option<string>, quantities: map<string, Option<Quantity>>)

  /** The `properties` member of a feature: missing, JSON null, or an object. */
  datatype PropertiesSlot = Missing | Null | Present(props: Properties)

  /** One upstream observation feature. */
  datatype Feature = Feature(properties: PropertiesSlot)

  const TemperatureKey := "temperature"
  const DewpointKey := "dewpoint"
  const HumidityKey := "relativeHumidity"
  const BarometricKey := "barometricPressure"
  const SeaLevelKey := "seaLevelPressure"
  const ValueKey := "value"

  /** `(props.get(key) or {}).get("value")`. */
  function NestedValue(p: Properties, key: string): (v: Option<real>)
    ensures v.Some? ==> key in p.quantities && p.quantities[key].Some?
    ensures key in p.quantities && p.quantities[key].Some? && ValueKey in p.quantities[key].value ==>
      v == p.quantities[key].value[ValueKey]
    ensures !(key in p.quantities && p.quantities[key].Some? && ValueKey in p.quantities[key].value) ==> v.None?
  {
    if key in p.quantities && p.quantities[key].Some? && ValueKey in p.quantities[key].value
    then p.quantities[key].value[ValueKey]
    else None
  }

  /** `feature.get("properties", {})`: a missing member reads as an empty object. */
  function PropertiesOf(f: Feature): (p: Properties)
    requires !f.properties.Null?
    ensures f.properties.Missing? ==> p.timestamp.None? && p.quantities == map[]
    ensures f.properties.Present? ==> p == f.properties.props
  {
    if f.properties.Missing? then Properties(None, map[]) else f.properties.props
  }

  /** `parse_obs_feature`. */
  function ParseObsFeature(m: MathLib, f: Feature): (r: Result<Row, Fault>)
    ensures r.Err? ==> (f.properties.Null? && r.error == AttributeError)
                       || (!f.properties.Null? && (r.error == ZeroDivisionError || r.error == OverflowError))
    ensures r.Ok? ==> !f.properties.Null? && r.value.ts == PropertiesOf(f).timestamp
  {
    if f.properties.Null? then Err(AttributeError)
    else
      var p := PropertiesOf(f);
      var tempC := NestedValue(p, TemperatureKey);
      var dewC := NestedValue(p, DewpointKey);
      var rh := NestedValue(p, HumidityKey);
      var baro := NestedValue(p, BarometricKey);
      var pressure := if baro.None? then NestedValue(p, SeaLevelKey) else baro;
      if rh.None? && tempC.Some? && dewC.Some? then
        match RhFromTAndTd(m, tempC, dewC)
        case Err(fault) => Err(fault)
        case Ok(derived) => Ok(Row(p.timestamp, tempC, dewC, derived, pressure))
      else
        Ok(Row(p.timestamp, tempC, dewC, rh, pressure))
  }

  /**
   * What `parse_obs_feature` promises: a null `properties` raises and nothing
   * else about the shape does; timestamp, temperature and dew point are copied;
   * pressure prefers the station reading; humidity is kept when reported and
   * derived, within [0, 100], only from both temperature and dew point.
   */
  lemma ParseObsFeatureSpec(m: MathLib, f: Feature)
    // `props.get` on a JSON null raises; nothing else about the shape does
    ensures f.properties.Null? ==> ParseObsFeature(m, f) == Err(AttributeError)
    ensures f.properties.Missing? ==> ParseObsFeature(m, f) == Ok(Row(None, None, None, None, None))
    ensures !f.properties.Null? ==> (
      var r := ParseObsFeature(m, f);
      var p := PropertiesOf(f);
      var t := NestedValue(p, TemperatureKey);
      var td := NestedValue(p, DewpointKey);
      var rh := NestedValue(p, HumidityKey);
      var baro := NestedValue(p, BarometricKey);
      // the only other failure is the humidity derivation raising
      && (r.Err? <==> rh.None? && t.Some? && td.Some? && RhFromTAndTd(m, t, td).Err?)
      && (r.Ok? ==>
        // timestamp, temperature and dew point are copied verbatim
        && r.value.ts == p.timestamp
        && r.value.tempC == t
        && r.value.dewpointC == td
        // station pressure first, then sea-level pressure, else absent
        && (baro.Some? ==> r.value.pressurePa == baro)
        && (baro.None? ==> r.value.pressurePa == NestedValue(p, SeaLevelKey))
        // a reported humidity is kept unchanged
        && (rh.Some? ==> r.value.rh == rh)
        // otherwise it is derived by the Magnus formula, hence absent unless both
        // temperature and dew point are present, and within [0, 100]
        && (rh.None? ==> r.value.rh == RhFromTAndTd(m, t, td).value)
        && (rh.None? && (t.None? || td.None?) ==> r.value.rh.None?)
        && (rh.None? && t.Some? && td.Some? ==> r.value.rh.Some? && 0.0 <= r.value.rh.value <= 100.0)))
  {
  }
}

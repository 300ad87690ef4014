/**
 * Quantity conversions: Celsius to Fahrenheit, Pascals to inches of mercury,
 * relative humidity from dew point (Magnus) and the Stull wet-bulb approximation.
 * The floating-point library calls stay abstract; what is modelled is how an
 * absent input propagates, where the formulas can raise, and the clamps.
 */
module Conversions {
  import opened Wrappers
  import opened Faults

  /**
   * The math library the formulas call, kept abstract.
   * `exp(x)` is None where `math.exp` raises OverflowError; it may be 0.0 where
   * the float result underflows. `pow(x, y)` is `x ** y` on a positive base.
   */
  datatype MathLib = MathLib(exp: real -> Option<real>, atan: real -> real, pow: (real, real) -> real)

  /** The Magnus coefficients of `rh_from_t_and_td`. */
  const MagnusA: real := 17.625
  const MagnusB: real := 243.04

  /** Pascals in one inch of mercury. */
  const PascalsPerInHg: real := 3386.389

  /** The relative-humidity range over which the Stull approximation is applied. */
  const StullRhLow: real := 5.0
  const StullRhHigh: real := 99.0

  function CToF(c: Option<real>): (f: Option<real>)
    ensures f.None? <==> c.None?
    ensures c.Some? ==> (f.value - 32.0) * 5.0 / 9.0 == c.value
  {
    if c.None? then None else Some(c.value * 9.0 / 5.0 + 32.0)
  }

  /** Fahrenheit conversion preserves and reflects the order of temperatures. */
  lemma CToFMonotonic(c1: real, c2: real)
    ensures c1 <= c2 <==> CToF(Some(c1)).value <= CToF(Some(c2)).value
  {
  }

  /** Water freezes at 32 degrees Fahrenheit. */
  lemma CToFFreezing()
    ensures CToF(Some(0.0)) == Some(32.0)
  {
  }

  function PaToInHg(pa: Option<real>): (inHg: Option<real>)
    ensures inHg.None? <==> pa.None?
    ensures pa.Some? ==> inHg.value * PascalsPerInHg == pa.value
  {
    if pa.None? then None else Some(pa.value / PascalsPerInHg)
  }

  /** Standard sea-level pressure reads as 29.92 inches of mercury to two decimals. */
  lemma StandardAtmosphereInHg()
    ensures 29.915 <= PaToInHg(Some(101325.0)).value < 29.925
  {
  }

  /** `max(lo, min(hi, v))`; when the bounds are inverted the result is `lo`. */
  function Clamp(v: real, lo: real, hi: real): (r: real)
    ensures lo <= hi ==> lo <= r <= hi
    ensures lo <= v <= hi ==> r == v
    ensures v < lo ==> r == lo
    ensures lo <= hi < v ==> r == hi
    ensures hi < lo ==> r == lo
  {
    var m := if hi <= v then hi else v;
    if lo >= m then lo else m
  }

  /** Clamping twice into the same range is clamping once. */
  lemma ClampIdempotent(v: real, lo: real, hi: real)
    requires lo <= hi
    ensures Clamp(Clamp(v, lo, hi), lo, hi) == Clamp(v, lo, hi)
  {
  }

  /** `exp(a*x / (b+x))`, the Magnus vapour-pressure factor, with the exceptions it raises. */
  function MagnusFactor(m: MathLib, x: real): (r: Result<real, Fault>)
    ensures r.Err? <==> MagnusB + x == 0.0 || m.exp(MagnusA * x / (MagnusB + x)).None?
    ensures MagnusB + x == 0.0 ==> r == Err(ZeroDivisionError)
    ensures MagnusB + x != 0.0 && r.Err? ==> r == Err(OverflowError)
  {
    if MagnusB + x == 0.0 then Err(ZeroDivisionError)
    else match m.exp(MagnusA * x / (MagnusB + x))
      case None => Err(OverflowError)
      case Some(v) => Ok(v)
  }

  /**
   * Relative humidity in percent from temperature and dew point: 100 * e/es,
   * clamped into [0, 100]; absent when either input is absent.
   */
  function RhFromTAndTd(m: MathLib, t: Option<real>, td: Option<real>): (r: Result<Option<real>, Fault>)
    ensures r == Ok(None) <==> t.None? || td.None?
    ensures r.Ok? && r.value.Some? ==> 0.0 <= r.value.value <= 100.0
    ensures r.Err? ==> t.Some? && td.Some?
    ensures r.Err? ==> r.error == ZeroDivisionError || r.error == OverflowError
    ensures t.Some? && td.Some? ==>
      (r.Err? <==> MagnusFactor(m, t.value).Err? || MagnusFactor(m, td.value).Err?
                   || MagnusFactor(m, t.value).value == 0.0)
  {
    if t.None? || td.None? then Ok(None)
    else
      match MagnusFactor(m, t.value)
      case Err(fault) => Err(fault)
      case Ok(es) =>
        match MagnusFactor(m, td.value)
        case Err(fault) => Err(fault)
        case Ok(e) =>
          if es == 0.0 then Err(ZeroDivisionError)
          else Ok(Some(Clamp(100.0 * (e / es), 0.0, 100.0)))
  }

  /**
   * When `exp` is total and never underflows to zero, the Magnus formula fails
   * only where its denominator `b + x` vanishes, that is at -243.04 degrees.
   */
  lemma RhDefinedAwayFromPole(m: MathLib, t: real, td: real)
    requires forall x :: m.exp(x).Some? && m.exp(x).value > 0.0
    requires t != -MagnusB && td != -MagnusB
    ensures RhFromTAndTd(m, Some(t), Some(td)).Ok?
    ensures RhFromTAndTd(m, Some(t), Some(td)).value.Some?
  {
    assert m.exp(MagnusA * t / (MagnusB + t)).Some?;
    assert m.exp(MagnusA * td / (MagnusB + td)).Some?;
  }

  /** The Stull (2011) wet-bulb formula itself, on an already clamped humidity. */
  function StullFormula(m: MathLib, t: real, rh: real): (w: real)
    ensures w - t * m.atan(0.151977 * m.pow(rh + 8.313659, 0.5)) - m.atan(t + rh) == StullHumidityTerms(m, rh)
  {
    t * m.atan(0.151977 * m.pow(rh + 8.313659, 0.5)) + m.atan(t + rh) + StullHumidityTerms(m, rh)
  }

  /** The terms of the Stull formula that depend on the humidity alone. */
  function StullHumidityTerms(m: MathLib, rh: real): real
  {
    0.00391838 * m.pow(rh, 1.5) * m.atan(0.023101 * rh) - m.atan(rh - 1.676331) - 4.686035
  }

  /**
   * Wet-bulb temperature in Celsius; absent when either input is absent.
   * Humidity is clamped into [5, 99] before the formula; temperature is not clamped.
   */
  function WetbulbStullC(m: MathLib, t: Option<real>, rh: Option<real>): (w: Option<real>)
    ensures w.None? <==> t.None? || rh.None?
    ensures t.Some? && rh.Some? && StullRhLow <= rh.value <= StullRhHigh ==>
      w == Some(StullFormula(m, t.value, rh.value))
  {
    if t.None? || rh.None? then None
    else Some(StullFormula(m, t.value, Clamp(rh.value, StullRhLow, StullRhHigh)))
  }

  /** Humidity outside [5, 99] behaves as the nearest bound, whatever the temperature. */
  lemma WetbulbClampsHumidity(m: MathLib, t: real, rh: real)
    ensures rh < StullRhLow ==> WetbulbStullC(m, Some(t), Some(rh)) == WetbulbStullC(m, Some(t), Some(StullRhLow))
    ensures rh > StullRhHigh ==> WetbulbStullC(m, Some(t), Some(rh)) == WetbulbStullC(m, Some(t), Some(StullRhHigh))
    ensures WetbulbStullC(m, Some(t), Some(rh)) == WetbulbStullC(m, Some(t), Some(Clamp(rh, StullRhLow, StullRhHigh)))
  {
    ClampIdempotent(rh, StullRhLow, StullRhHigh);
  }
}

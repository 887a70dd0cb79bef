/**
 * The unit conversions the fix-info row asks of the avionics SDK's `UnitType`
 * tables, with the standard factors and 6.7 lb per gallon of fuel; the SDK
 * tables themselves are not part of this model.
 */
module Units {

  const MetersPerNauticalMile: real := 1852.0
  const MetersPerFoot: real := 0.3048
  /** Weight of one gallon of fuel, in pounds (GALLON_FUEL to POUND, and GPH_FUEL to PPH). */
  const PoundsPerGallonFuel: real := 6.7
  const MillisecondsPerHour: int := 3600000

  /** UnitType.METER.convertTo(m, UnitType.NMILE) */
  function MetersToNm(m: real): (nm: real)
    ensures nm * MetersPerNauticalMile == m
    ensures (nm < 0.0 <==> m < 0.0) && (nm == 0.0 <==> m == 0.0)
  {
    m / MetersPerNauticalMile
  }

  /** UnitType.METER.convertTo(m, UnitType.FOOT) */
  function MetersToFeet(m: real): (ft: real)
    ensures ft * MetersPerFoot == m
    ensures (ft <= 0.0 <==> m <= 0.0)
  {
    m / MetersPerFoot
  }

  /** UnitType.GALLON_FUEL.convertTo(gal, UnitType.POUND) */
  function GallonsToPounds(gal: real): (lb: real)
    ensures lb / PoundsPerGallonFuel == gal
  {
    gal * PoundsPerGallonFuel
  }

  /** UnitType.GPH_FUEL.convertTo(gph, UnitType.PPH) */
  function GphToPph(gph: real): (pph: real)
    ensures pph / PoundsPerGallonFuel == gph
    ensures pph > 0.0 <==> gph > 0.0
  {
    gph * PoundsPerGallonFuel
  }

  /** UnitType.HOUR.convertTo(h, UnitType.MILLISECOND) */
  function HoursToMs(h: real): (ms: real)
    ensures ms / MillisecondsPerHour as real == h
  {
    h * MillisecondsPerHour as real
  }
}

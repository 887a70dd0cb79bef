// The per-row telemetry fields of the wide flight-plan page: fuel remaining
// at the fix, endurance, time en route (ETE), arrival time (ETA), bearing,
// desired track, the altitude-unit label and the fix-type suffix.
//
// Fuel, ETE and ETA read the row's distance back from the string the
// cumulative-distance column shows, so they see the rounded distance.

module Telemetry {
  import opened Wrappers
  import opened FlightPlan
  import opened Units
  import opened JsFormat
  import CumulativeDistance

  /** What the fuel, endurance, ETE and ETA fields show when they have no value. */
  const NoValue: string := "_____"

  /** What the bearing and DTK fields show when they have no value. */
  const NoCourse: string := "___"

  /** The sensor readings the fields are computed from (kt, gal/h, gal, ms since the epoch). */
  datatype Sensors = Sensors(groundSpeedKts: real, fuelFlowGph: real, totalFuelGal: real, simTimeMs: real)

  /**
   * `dist !== '____' ? Number(dist) : -1`; `None` is NaN. The sentinel
   * reads as -1, and any total the distance column shows reads as that
   * total rounded to the shown decimals.
   */
  function DistanceToFix(dist: string): (r: Option<real>)
    ensures dist == CumulativeDistance.NoDistance ==> r == Some(-1.0)
    ensures forall t: real :: dist == CumulativeDistance.DistanceText(t) ==>
              r == Some(RoundedTo(t, CumulativeDistance.Decimals(t)))
  {
    if dist != CumulativeDistance.NoDistance then ParseNumber(dist) else Some(-1.0)
  }

  /**
   * The distance, in NM, that fuel, ETE and ETA are computed from; `None`
   * when they show no value because the row has no distance, its leg is
   * behind the aircraft, or the ground speed is not above 30 kt.
   */
  function TravelDistance(dist: string, behind: bool, groundSpeedKts: real): (r: Option<real>)
    ensures r.Some? <==>
              !behind && groundSpeedKts > 30.0 && DistanceToFix(dist).Some? && DistanceToFix(dist).value >= 0.0
    ensures r.Some? ==> dist != CumulativeDistance.NoDistance && r == ParseNumber(dist)
  {
    var d := DistanceToFix(dist);
    if d == Some(-1.0) || behind then None
    else if d.Some? && d.value >= 0.0 && groundSpeedKts > 30.0 then d
    else None
  }

  /** The fields read the distance the row shows: the running total rounded to the shown decimals. */
  lemma TravelUsesShownDistance(total: real, behind: bool, groundSpeedKts: real)
    requires total >= 0.0 && !behind && groundSpeedKts > 30.0
    ensures TravelDistance(CumulativeDistance.DistanceText(total), behind, groundSpeedKts) ==
            Some(RoundedTo(total, CumulativeDistance.Decimals(total)))
  {
    var d := CumulativeDistance.Decimals(total);
    RoundedToSigned(total, d);
    assert RoundedTo(total, d) >= 0.0;
  }

  // ---------------------------------------------------------------------
  // Fuel remaining at the fix

  /** Fuel left on reaching the fix, in pounds: the fuel on board less the flow over the time to the fix. */
  function FuelAtFix(s: Sensors, distanceNm: real): real
    requires s.groundSpeedKts > 0.0
  {
    GallonsToPounds(s.totalFuelGal - (distanceNm / s.groundSpeedKts) * s.fuelFlowGph)
  }

  /** The fuel field: whole pounds at the fix, or no value. */
  function FuelRemaining(s: Sensors, dist: string, behind: bool): (r: string)
    ensures r == NoValue <==> TravelDistance(dist, behind, s.groundSpeedKts).None? || s.fuelFlowGph <= 0.0
    ensures r != NoValue ==>
              ParseNumber(r) == Some(Round(FuelAtFix(s, TravelDistance(dist, behind, s.groundSpeedKts).value)) as real)
  {
    var d := DistanceToFix(dist);
    if d == Some(-1.0) || behind then
      NoValue
    else if d.Some? && d.value >= 0.0 && s.groundSpeedKts > 30.0 && s.fuelFlowGph > 0.0 then
      var text := IntegerString(Round(FuelAtFix(s, d.value)));
      assert text[0] != '_';
      text
    else
      NoValue
  }

  // ---------------------------------------------------------------------
  // Clock-style fields

  /** `r` reads as two fields `a` and `b` around `sep` with `a * 60 + b == total` and `b < limit`. */
  predicate ClockReads(r: string, sep: char, total: int, limit: nat) {
    match ParseClock(r, sep)
    case Some((a, b)) => a * 60 + b == total && b < limit
    case None => false
  }

  /**
   * `r` has two characters after the separator, at least `width` before it,
   * and more only when they are a number without leading zeros.
   */
  predicate ClockShape(r: string, sep: char, width: nat) {
    IndexOf(r, sep) >= width && |r| - IndexOf(r, sep) == 3 &&
    (IndexOf(r, sep) > width ==> Canonical(r[..IndexOf(r, sep)]))
  }

  /**
   * Whole units of `x` (hours or minutes) and the sixtieths of the rest,
   * rounded: together they are `x * 60` rounded, but the second can be 60.
   */
  lemma MixedRadix(x: real)
    requires x >= 0.0
    ensures 0 <= x.Floor && 0 <= Round(Remainder1(x) * 60.0) <= 60
    ensures x.Floor * 60 + Round(Remainder1(x) * 60.0) == Round(x * 60.0)
  {
    var f := Remainder1(x);
    assert Trunc(x) == x.Floor;
    assert x * 60.0 == (x.Floor * 60) as real + f * 60.0;
    RoundShift(x.Floor * 60, f * 60.0);
  }

  /**
   * The page's split of `units` (hours or minutes): the whole units, then the
   * sixtieths of the fractional part rounded on their own, so the second
   * field can read 60.
   */
  function SplitClock(units: real, width: nat, sep: char): (r: string)
    requires units >= 0.0 && !IsDigit(sep)
    ensures ClockReads(r, sep, Round(units * 60.0), 61)
    ensures ParseClock(r, sep) == Some((units.Floor, Round(Remainder1(units) * 60.0)))
    ensures ClockShape(r, sep, width)
    ensures 1 <= width && units < Pow10(width) as real ==> IndexOf(r, sep) == width
  {
    MixedRadix(units);
    ClockText(units.Floor, width, sep, Round(Remainder1(units) * 60.0))
  }

  /** `Math.round(x * 60)`, for x >= 0. */
  function Sixtieths(x: real): (n: nat)
    requires x >= 0.0
    ensures n == Round(x * 60.0)
  {
    Round(x * 60.0)
  }

  /** The split with the carry: `units * 60` rounded first, then cut into whole units and sixtieths below 60. */
  function CarryClock(units: real, width: nat, sep: char): (r: string)
    requires units >= 0.0 && !IsDigit(sep)
    ensures ClockReads(r, sep, Round(units * 60.0), 60)
    ensures ClockShape(r, sep, width)
    ensures 1 <= width && Round(units * 60.0) < 60 * Pow10(width) ==> IndexOf(r, sep) == width
  {
    var total := Sixtieths(units);
    ClockText(total / 60, width, sep, total % 60)
  }

  /** Whole units and sixtieths below 60 are what dividing the sixtieths by 60 gives back. */
  lemma CarrySplit(a: int, b: int)
    requires 0 <= b < 60
    ensures (a * 60 + b) / 60 == a && (a * 60 + b) % 60 == b
  {
  }

  /** Where the page's second field reads below 60, its split is the split with the carry. */
  lemma SplitAgrees(units: real, width: nat, sep: char)
    requires units >= 0.0 && !IsDigit(sep)
    ensures ParseClock(SplitClock(units, width, sep), sep).value.1 < 60 ==>
              SplitClock(units, width, sep) == CarryClock(units, width, sep)
  {
    var a, b := units.Floor, Round(Remainder1(units) * 60.0);
    var split, carried := SplitClock(units, width, sep), CarryClock(units, width, sep);
    if b < 60 {
      MixedRadix(units);
      var total := Sixtieths(units);
      assert split == ClockText(a, width, sep, b);
      assert carried == ClockText(total / 60, width, sep, total % 60);
      ClockTextCarry(a, b, total, width, sep);
      assert split == carried;
    } else {
      assert ParseClock(split, sep).value.1 == b;
    }
  }

  /** Writing a quantity of sixtieths with the carry gives the text of its whole units and remainder. */
  lemma ClockTextCarry(a: nat, b: nat, total: nat, width: nat, sep: char)
    requires b < 60 && total == a * 60 + b && !IsDigit(sep)
    ensures ClockText(total / 60, width, sep, total % 60) == ClockText(a, width, sep, b)
  {
    CarrySplit(a, b);
    var whole, rest := total / 60, total % 60;
    assert whole == a && rest == b;
  }

  // ---------------------------------------------------------------------
  // Endurance

  /**
   * The endurance text of `hours` as the page writes it: whole hours, then
   * the rounded minutes of the fraction, which can be 60.
   */
  function EnduranceTextAsWritten(hours: real): (r: string)
    ensures hours < 0.0 ==> r == "0+00"
    ensures hours >= 0.0 ==> ClockReads(r, '+', Round(hours * 60.0), 61)
    ensures hours >= 0.0 ==> ParseClock(r, '+') == Some((hours.Floor, Round(Remainder1(hours) * 60.0)))
    ensures ClockShape(r, '+', 1)
  {
    ZeroEndurance();
    if hours < 0.0 then "0+00" else SplitClock(hours, 1, '+')
  }

  /** The endurance text with the minutes carried into the hours. */
  function EnduranceText(hours: real): (r: string)
    ensures hours < 0.0 ==> r == "0+00"
    ensures hours >= 0.0 ==> ClockReads(r, '+', Round(hours * 60.0), 60)
    ensures ClockShape(r, '+', 1)
  {
    ZeroEndurance();
    if hours < 0.0 then "0+00" else CarryClock(hours, 1, '+')
  }

  /** "0+00" has one hour digit and two minute digits. */
  lemma ZeroEndurance()
    ensures ClockShape("0+00", '+', 1)
  {
    assert "0+00" == "0" + ['+'] + "00";
    SplitAt("0", '+', "00");
  }

  /** Where the page's own minutes field is below 60, its endurance text is the corrected one. */
  lemma EnduranceTextAgrees(hours: real)
    ensures hours >= 0.0 ==> ParseClock(EnduranceTextAsWritten(hours), '+').Some?
    ensures hours < 0.0 || ParseClock(EnduranceTextAsWritten(hours), '+').value.1 < 60 ==>
              EnduranceTextAsWritten(hours) == EnduranceText(hours)
  {
    if hours >= 0.0 {
      var written, corrected := EnduranceTextAsWritten(hours), EnduranceText(hours);
      assert written == SplitClock(hours, 1, '+');
      assert corrected == CarryClock(hours, 1, '+');
      SplitAgrees(hours, 1, '+');
      assert ParseClock(written, '+').value.1 < 60 ==> written == corrected;
    }
  }

  /** 1199 lb of fuel at 200 lb/h lasts 5.995 h, which the page shows as five hours and sixty minutes. */
  lemma EnduranceShowsSixty()
    ensures ParseClock(EnduranceTextAsWritten(1199.0 / 200.0), '+') == Some((5, 60))
  {
    var h := 1199.0 / 200.0;
    assert h == 5.995;
    assert h.Floor == 5 && Trunc(h) == 5;
    assert Remainder1(h) * 60.0 == 59.7;
    assert Round(59.7) == 60;
  }

  /**
   * Hours `fuelLb` pounds of fuel last at `fuelFlowGph` gallons per hour: the
   * time that, burnt at the flow in pounds per hour, uses up the fuel.
   */
  function EnduranceHours(fuelLb: real, fuelFlowGph: real): (h: real)
    requires fuelFlowGph > 0.0
    ensures h * GphToPph(fuelFlowGph) == fuelLb
    ensures h < 0.0 <==> fuelLb < 0.0
  {
    Per(fuelLb, GphToPph(fuelFlowGph))
  }

  /** `a / b` for a positive `b`: the amount that, `b` times over, makes `a`. */
  function Per(a: real, b: real): (q: real)
    requires b > 0.0
    ensures q * b == a
    ensures q < 0.0 <==> a < 0.0
  {
    a / b
  }

  /** The endurance field as the page writes it. */
  function EnduranceAsWritten(s: Sensors, dist: string, behind: bool): (r: string)
    ensures r == NoValue <==> FuelRemaining(s, dist, behind) == NoValue
    ensures r != NoValue ==> r == EnduranceTextAsWritten(EnduranceHours(ParseNumber(FuelRemaining(s, dist, behind)).value, s.fuelFlowGph))
  {
    if FuelRemaining(s, dist, behind) != NoValue then
      var text := EnduranceTextAsWritten(EnduranceHours(ParseNumber(FuelRemaining(s, dist, behind)).value, s.fuelFlowGph));
      assert text[|text| - 3] == '+';
      text
    else
      NoValue
  }

  /** The endurance field: no value exactly when the fuel field has none, else hours and minutes below 60. */
  function Endurance(s: Sensors, dist: string, behind: bool): (r: string)
    ensures r == NoValue <==> FuelRemaining(s, dist, behind) == NoValue
    ensures r != NoValue ==>
              var h := EnduranceHours(ParseNumber(FuelRemaining(s, dist, behind)).value, s.fuelFlowGph);
              (h < 0.0 ==> r == "0+00") && (h >= 0.0 ==> ClockReads(r, '+', Round(h * 60.0), 60))
    ensures r != NoValue ==> r == EnduranceText(EnduranceHours(ParseNumber(FuelRemaining(s, dist, behind)).value, s.fuelFlowGph))
  {
    if FuelRemaining(s, dist, behind) != NoValue then
      var text := EnduranceText(EnduranceHours(ParseNumber(FuelRemaining(s, dist, behind)).value, s.fuelFlowGph));
      assert text[|text| - 3] == '+';
      text
    else
      NoValue
  }

  // ---------------------------------------------------------------------
  // Time en route

  /** Hours to the fix, rounded to four significant digits. */
  function EteHours(distanceNm: real, groundSpeedKts: real): (h: real)
    requires distanceNm >= 0.0 && groundSpeedKts > 0.0
    ensures h >= 0.0
    ensures Abs(h - distanceNm / groundSpeedKts) * 2000.0 <= distanceNm / groundSpeedKts
  {
    ToPrecision4(distanceNm / groundSpeedKts)
  }

  /** Below one hour the fraction of the hour, `h % 1`, is all of it. */
  lemma FractionOfHour(h: real)
    requires 0.0 <= h < 1.0
    ensures Remainder1(h) == h
  {
    assert Trunc(h) == 0;
  }

  /** The separator of the ETE text: minutes:seconds below one hour, hours+minutes from one hour on. */
  function EteSeparator(h: real): char {
    if h < 1.0 then ':' else '+'
  }

  /**
   * The quantity whose whole part and sixtieths the page shows: below one
   * hour the minutes of the fraction of the hour, `(h % 1) * 60`, else the hours.
   */
  function EteUnitsAsWritten(h: real): (u: real)
    requires h >= 0.0
    ensures u >= 0.0
  {
    if h < 1.0 then Remainder1(h) * 60.0 else h
  }

  /** The same quantity computed directly: minutes below one hour, else hours. */
  function EteUnits(h: real): (u: real)
    requires h >= 0.0
    ensures u >= 0.0
    ensures h < 1.0 ==> u * 60.0 == h * 3600.0
    ensures h >= 1.0 ==> u == h
  {
    if h < 1.0 then h * 60.0 else h
  }

  /** Both ways of taking the ETE quantity agree. */
  lemma EteUnitsAgree(h: real)
    requires h >= 0.0
    ensures EteUnitsAsWritten(h) == EteUnits(h)
  {
    if h < 1.0 {
      FractionOfHour(h);
    }
  }

  /**
   * The ETE text of `h` hours as the page writes it: below one hour whole
   * minutes and rounded seconds, from one hour on whole hours and rounded
   * minutes; the second field can be 60.
   */
  function EteClockAsWritten(h: real): (r: string)
    requires h >= 0.0
    ensures h < 1.0 ==> ClockReads(r, ':', Round(h * 3600.0), 61)
    ensures h >= 1.0 ==> ClockReads(r, '+', Round(h * 60.0), 61)
    ensures ParseClock(r, EteSeparator(h)) ==
            Some((EteUnitsAsWritten(h).Floor, Round(Remainder1(EteUnitsAsWritten(h)) * 60.0)))
    ensures ClockShape(r, EteSeparator(h), 2)
    ensures h < 100.0 ==> |r| == 5
  {
    var u := EteUnitsAsWritten(h);
    var r := SplitClock(u, 2, EteSeparator(h));
    assert ParseClock(r, EteSeparator(h)) == Some((u.Floor, Round(Remainder1(u) * 60.0)));
    EteUnitsAgree(h);
    r
  }

  /** The ETE text with the seconds or minutes carried over. */
  function EteClock(h: real): (r: string)
    requires h >= 0.0
    ensures h < 1.0 ==> ClockReads(r, ':', Round(h * 3600.0), 60)
    ensures h >= 1.0 ==> ClockReads(r, '+', Round(h * 60.0), 60)
    ensures ClockShape(r, EteSeparator(h), 2)
    ensures h < 1.0 || Round(h * 60.0) < 6000 ==> |r| == 5
  {
    CarryClock(EteUnits(h), 2, EteSeparator(h))
  }

  /** Where the page's own seconds (or minutes) field is below 60, its ETE text is the corrected one. */
  lemma EteClockAgrees(h: real)
    requires h >= 0.0
    ensures ParseClock(EteClockAsWritten(h), EteSeparator(h)).Some?
    ensures ParseClock(EteClockAsWritten(h), EteSeparator(h)).value.1 < 60 ==>
              EteClockAsWritten(h) == EteClock(h)
  {
    EteUnitsAgree(h);
    SplitAgrees(EteUnits(h), 2, EteSeparator(h));
  }

  /** The ETE field as the page writes it. */
  function EteAsWritten(s: Sensors, dist: string, behind: bool): (r: string)
    ensures r == NoValue <==> TravelDistance(dist, behind, s.groundSpeedKts).None?
    ensures r != NoValue ==>
              r == EteClockAsWritten(EteHours(TravelDistance(dist, behind, s.groundSpeedKts).value, s.groundSpeedKts))
  {
    match TravelDistance(dist, behind, s.groundSpeedKts)
    case None => NoValue
    case Some(d) =>
      var text := EteClockAsWritten(EteHours(d, s.groundSpeedKts));
      assert text != NoValue by {
        assert ParseClock(text, ':').Some? || ParseClock(text, '+').Some?;
      }
      text
  }

  /** The ETE field: minutes and seconds below one hour, hours and minutes from one hour on, second field below 60. */
  function Ete(s: Sensors, dist: string, behind: bool): (r: string)
    ensures r == NoValue <==> TravelDistance(dist, behind, s.groundSpeedKts).None?
    ensures r != NoValue ==>
              var h := EteHours(TravelDistance(dist, behind, s.groundSpeedKts).value, s.groundSpeedKts);
              (h < 1.0 ==> ClockReads(r, ':', Round(h * 3600.0), 60)) &&
              (h >= 1.0 ==> ClockReads(r, '+', Round(h * 60.0), 60))
    ensures r != NoValue ==>
              r == EteClock(EteHours(TravelDistance(dist, behind, s.groundSpeedKts).value, s.groundSpeedKts))
  {
    match TravelDistance(dist, behind, s.groundSpeedKts)
    case None => NoValue
    case Some(d) =>
      var text := EteClock(EteHours(d, s.groundSpeedKts));
      assert text != NoValue by {
        assert ParseClock(text, ':').Some? || ParseClock(text, '+').Some?;
      }
      text
  }

  /** Four significant digits leave 1.998 unchanged. */
  lemma FourDigitsExact()
    ensures ToPrecision4(1.998) == 1.998
  {
    assert Pow10(1) == 10 && Pow10(3) == 1000;
    assert DecimalExponent(1.998) == 0;
    assert Scale(-3) == 1.0 / 1000.0;
    assert 1.998 / Scale(-3) == 1998.0;
    assert Round(1998.0) == 1998;
  }

  /** "99.9" reads as 99.9. */
  lemma ReadDistance()
    ensures ParseNumber("99.9") == Some(99.9)
  {
    assert "99.9" == "99" + "." + "9";
    assert IsDigits("99") && IsDigits("9");
    assert ParseNat("9") == 9 && ParseNat("99") == 99;
    PointParse("99", "9");
    assert Pow10(1) == 10;
  }

  /** 99.9 NM at 50 kt is 1.998 h, which the page shows as one hour and sixty minutes. */
  lemma EteShowsSixty()
    ensures ParseClock(EteAsWritten(Sensors(50.0, 0.0, 0.0, 0.0), "99.9", false), '+') == Some((1, 60))
  {
    ReadDistance();
    assert TravelDistance("99.9", false, 50.0) == Some(99.9);
    FourDigitsExact();
    var h := EteHours(99.9, 50.0);
    assert h == 1.998;
    assert Trunc(h) == 1 && Remainder1(h) * 60.0 == 59.88;
    assert Round(59.88) == 60;
  }

  // ---------------------------------------------------------------------
  // Estimated time of arrival

  /** The largest magnitude, in ms, a Date can hold. */
  const MaxTimeMs: real := 8640000000000000.0

  /** The arrival instant, truncated to whole milliseconds as a Date does. */
  function ArrivalMs(s: Sensors, distanceNm: real): int
    requires s.groundSpeedKts > 0.0
  {
    Trunc(HoursToMs(distanceNm / s.groundSpeedKts) + s.simTimeMs)
  }

  /** The minutes and hours of a whole-millisecond instant together give its minute of the day. */
  lemma DayClock(t: int)
    ensures (t / 3600000) % 24 * 60 + (t / 60000) % 60 == (t / 60000) % 1440
  {
    var u := t / 60000;
    var q, r := u / 60, u % 60;
    assert t == 60000 * u + t % 60000;
    assert u == 60 * q + r;
    assert t == 3600000 * q + (60000 * r + t % 60000);
    assert t / 3600000 == q;
    var k, j := q / 24, q % 24;
    assert u == 1440 * k + (60 * j + r);
  }

  /** `HH:MM` of the arrival instant (UTC), or "NaN:NaN" for an instant a Date cannot hold. */
  function Eta(s: Sensors, dist: string, behind: bool): (r: string)
    ensures r == NoValue <==> TravelDistance(dist, behind, s.groundSpeedKts).None?
    ensures r != NoValue ==>
              var x := HoursToMs(TravelDistance(dist, behind, s.groundSpeedKts).value / s.groundSpeedKts) + s.simTimeMs;
              (Abs(x) > MaxTimeMs ==> r == "NaN:NaN") &&
              (Abs(x) <= MaxTimeMs ==>
                 var t := ArrivalMs(s, TravelDistance(dist, behind, s.groundSpeedKts).value);
                 |r| == 5 && IndexOf(r, ':') == 2 && ParseClock(r, ':').Some? &&
                 ParseClock(r, ':').value.0 < 24 && ParseClock(r, ':').value.1 < 60 &&
                 ParseClock(r, ':').value.0 * 60 + ParseClock(r, ':').value.1 == (t / 60000) % 1440)
  {
    match TravelDistance(dist, behind, s.groundSpeedKts)
    case None => NoValue
    case Some(d) =>
      var x := HoursToMs(d / s.groundSpeedKts) + s.simTimeMs;
      if Abs(x) > MaxTimeMs then
        "NaN:NaN"
      else
        var t := ArrivalMs(s, d);
        var hours := (t / 3600000) % 24;
        var minutes := (t / 60000) % 60;
        DayClock(t);
        assert Pow10(2) == 100;
        var text := ClockText(hours, 2, ':', minutes);
        assert text[2] == ':';
        text
  }

  // ---------------------------------------------------------------------
  // Bearing and desired track

  /** A course in whole degrees, 0 shown as 360, zero-padded to three digits; no value for a negative input. */
  function CourseText(v: real): (r: string)
    ensures v < 0.0 <==> r == NoCourse
    ensures v >= 0.0 ==> IsDigits(r) && ParseNat(r) == (if Round(v) == 0 then 360 else Round(v))
    ensures v >= 0.0 ==>
              IsDigits(r) && 0 < ParseNat(r) && ParseNat(r) % 360 == Round(v) % 360 &&
              (v >= 0.5 ==> ParseNat(r) as real - 0.5 <= v < ParseNat(r) as real + 0.5)
    ensures 0.0 <= v < 999.5 ==> |r| == 3
  {
    if v < 0.0 then
      NoCourse
    else
      var rounded := Round(v);
      var shown: nat := if rounded == 0 then 360 else rounded;
      var text := ZeroPadded(shown, 3);
      assert text[0] != '_';
      text
  }

  /** The DTK field: like the bearing, but also no value when the leg is behind the aircraft. */
  function DesiredTrack(v: real, behind: bool): (r: string)
    ensures r == NoCourse <==> v < 0.0 || behind
    ensures !(v < 0.0 || behind) ==> r == CourseText(v)
  {
    if v < 0.0 || behind then NoCourse else CourseText(v)
  }

  // ---------------------------------------------------------------------
  // Labels

  /** The altitude-unit label: "FT" for a target altitude of at least 1 m on a leg not yet flown, else a blank. */
  function AltitudeUnits(targetAltitude: Option<real>, behind: bool): (r: string)
    ensures r == "FT" <==> !behind && targetAltitude.Some? && targetAltitude.value >= 1.0
    ensures r != "FT" ==> r == " "
  {
    var v := targetAltitude.GetOr(-1.0);
    if v < 1.0 || behind then " " else "FT"
  }

  /** A manual-sequence (heading) leg: a leg named MANSEQ of type FM or VM. */
  predicate IsManualSequence(leg: LegDefinition) {
    leg.name == Some("MANSEQ") && (leg.legType == FM || leg.legType == VM)
  }

  /** The fix-type suffix of the leg: " hdg" for a heading leg, else the label of exactly one approach fix type. */
  function FixTypeLabel(leg: LegDefinition, flags: nat): (r: string)
    ensures r == " hdg" <==> IsManualSequence(leg)
    ensures r == " faf" <==> !IsManualSequence(leg) && flags == FixFaf
    ensures r == " iaf" <==> !IsManualSequence(leg) && flags == FixIaf
    ensures r == " map" <==> !IsManualSequence(leg) && flags == FixMap
    ensures r == " mahp" <==> !IsManualSequence(leg) && flags == FixMahp
    ensures r == "" <==> !IsManualSequence(leg) && flags !in {FixFaf, FixIaf, FixMap, FixMahp}
  {
    if IsManualSequence(leg) then " hdg"
    else if flags == FixFaf then " faf"
    else if flags == FixIaf then " iaf"
    else if flags == FixMap then " map"
    else if flags == FixMahp then " mahp"
    else ""
  }

  // ---------------------------------------------------------------------
  // All four travel fields of a row

  datatype TravelFields = TravelFields(fuel: string, endurance: string, ete: string, eta: string)

  function RowTravelFields(s: Sensors, dist: string, behind: bool): (r: TravelFields)
    ensures TravelDistance(dist, behind, s.groundSpeedKts).None? ==>
              r == TravelFields(NoValue, NoValue, NoValue, NoValue)
    ensures TravelDistance(dist, behind, s.groundSpeedKts).Some? ==>
              r.ete != NoValue && r.eta != NoValue && (r.fuel == NoValue <==> s.fuelFlowGph <= 0.0)
    ensures r.endurance == NoValue <==> r.fuel == NoValue
  {
    TravelFields(FuelRemaining(s, dist, behind), Endurance(s, dist, behind), Ete(s, dist, behind), Eta(s, dist, behind))
  }
}

# Fix-info row of the wide flight-plan page, modelled in Dafny

WTG1000WideView adds a wide flight-plan page to the G1000 NXi MFD. Each row
of that page is a `FixInfoWide` component bound to one leg of the flight
plan. This project models what a row computes and proves properties of it:

- **Cumulative distance** (`cumulative_distance.dfy`). All rows share one
  running total, a page-global variable in the original. A row either
  re-anchors the total to the distance left on the active leg, or advances
  it by its own leg's length. It then shows the total with one decimal
  below 100 NM and none from 100 NM on.
  - The global is the field `total` of class `RunningDistance`, and a row
    evaluation is its method `Evaluate`.
  - `NextTotal` and `Display` specify one evaluation.
  - `RouteTotal` and `RouteDisplays` specify a pass over a whole route in
    order.
- **Telemetry fields** (`telemetry.dfy`). These are fuel remaining at the
  fix, endurance, time en route (ETE), arrival time (ETA), bearing, desired
  track (DTK), the altitude-unit label and the fix-type suffix.
  - Fuel, ETE and ETA read the distance back from the string the distance
    column shows, so they work on the rounded distance.
- **Row display state** (`leg_display.dfy`). Class `FixRow` holds the state
  that the row's leg-record subscription updates:
  - the courses fed to DTK and BRG;
  - the row's visibility and styles;
  - the altitude-constraint column, which keeps its old values while it is
    hidden.
  - `EnterRequest` says which information page ENTER opens.
- **JavaScript number formatting** (`js_format.dfy`). It models `Math.round`,
  `toFixed`, `toPrecision(4)`, `padStart` and `Number()` on the strings these
  produce. It proves round trips such as "parsing `x.toFixed(d)` gives `x`
  rounded to `d` decimals".
- `units.dfy` holds the unit conversions. `flight_plan.dfy` holds the leg
  records the row reads, and `wrappers.dfy` holds `Option`.

Numbers are `real`. `Math.round(x)` is `floor(x + 1/2)`. `toFixed` rounds the
magnitude half-up and keeps the sign.

## Model

All source paths are in `src/Components/UI/FPL/FixInfoWide.tsx`.

| member | source | states |
|---|---|---|
| Units.MetersToNm | src/Components/UI/FPL/FixInfoWide.tsx:95-108 | the NM value times 1852 is the metre value; the sign is kept |
| Units.MetersToFeet | src/Components/UI/FPL/FixInfoWide.tsx:285 | the foot value times 0.3048 is the metre value; positive exactly when the metres are |
| Units.GallonsToPounds | src/Components/UI/FPL/FixInfoWide.tsx:125 | pounds divided by 6.7 give back the gallons |
| Units.GphToPph | src/Components/UI/FPL/FixInfoWide.tsx:139 | pounds per hour divided by 6.7 give back gallons per hour; positive exactly when the flow is |
| Units.HoursToMs | src/Components/UI/FPL/FixInfoWide.tsx:182 | milliseconds divided by 3 600 000 give back the hours |
| JsFormat.Round | src/Components/UI/FPL/FixInfoWide.tsx:198 | `Math.round(x)` is the integer within half a unit of x, with halves going up |
| JsFormat.Remainder1 | src/Components/UI/FPL/FixInfoWide.tsx:140 | `x % 1` of a non-negative x lies in [0, 1) |
| JsFormat.DecimalString | src/Components/UI/FPL/FixInfoWide.tsx:141 | the digits of n in canonical form: reading them gives n, their count is the number of decimal digits of n, and they start with 0 only when n is 0, which is then the single digit "0" |
| JsFormat.ZeroPadded | src/Components/UI/FPL/FixInfoWide.tsx:199 | `padStart(width, '0')` of the digits of n: reading them gives n; they are at least `width` long, exactly `width` long when n fits, and the plain digits of n when n does not fit |
| JsFormat.PadStart | src/Components/UI/FPL/FixInfoWide.tsx:164-166 | `padStart(width, fill)` keeps the string as its tail, fills every position before it, and gives exactly `width` characters when the string is shorter |
| JsFormat.Trunc | src/Components/UI/FPL/FixInfoWide.tsx:182-183 | the whole number a Date keeps of a time value: its magnitude is within one unit below the magnitude of the value, and it keeps the sign |
| JsFormat.ParseNumber | src/Components/UI/FPL/FixInfoWide.tsx:120 | on the sign, digit and point strings `toFixed` writes, `Number(s)` has a value only for a non-empty string, and a negative one only when the string starts with '-'; a string starting with '-' never reads as positive |
| JsFormat.IntegerString | src/Components/UI/FPL/FixInfoWide.tsx:125 | `toFixed(0)` of an integer reads back as that integer, starts with '-' exactly for a negative integer, and its digits have no leading zero |
| JsFormat.RoundedTo | src/Components/UI/FPL/FixInfoWide.tsx:110 | x rounded to d decimals is a whole multiple of 10^-d within half of 10^-d of x, has the sign of x, and moves away from zero on a tie (the magnitude rounds half up) |
| JsFormat.FixedString | src/Components/UI/FPL/FixInfoWide.tsx:110 | `x.toFixed(d)` reads back as x rounded to d decimals, has exactly d fraction digits, starts with '-' exactly for a negative x, and its whole part has no leading zero |
| JsFormat.ToPrecision4 | src/Components/UI/FPL/FixInfoWide.tsx:159 | `Number(x.toPrecision(4))` differs from x by at most 1/2000 of \|x\| |
| JsFormat.ClockText | src/Components/UI/FPL/FixInfoWide.tsx:164-166 | two fields joined by a separator read back as the two numbers; the second field is two characters when below 100; the first is at least `width` characters, exactly `width` when the number fits, and without leading zeros when wider |
| CumulativeDistance.DistanceText | src/Components/UI/FPL/FixInfoWide.tsx:110 | the distance text reads back as the total rounded to 1 decimal below 100 NM and to 0 decimals from 100 NM on; it is never the no-distance sentinel |
| CumulativeDistance.ShowsNoDistance | src/Components/UI/FPL/FixInfoWide.tsx:93 | a row shows no distance exactly when its leg is behind or has no computed length of at least 0.1 m; a leg with no computed part never shows one |
| CumulativeDistance.Reanchors | src/Components/UI/FPL/FixInfoWide.tsx:94-101 | an active row always re-anchors; a non-active row re-anchors exactly when its name equals the received LNAV waypoint ident, so a row without a name, or any row before an ident arrives, re-anchors only when active |
| CumulativeDistance.Increment | src/Components/UI/FPL/FixInfoWide.tsx:102-108 | a collapsed airway exit adds the airway distance; a hold adds the distance of the last vector of its flight path, and 0 when it has no computed part; any other leg adds its computed distance, which is positive when shown; the TypeError case (a hold with an empty path) happens exactly when stated |
| CumulativeDistance.NextTotal | src/Components/UI/FPL/FixInfoWide.tsx:93-111 | a re-anchoring row sets the total to the active-leg distance in NM whatever came before; a row showing no distance leaves it unchanged; otherwise exactly one increment is added |
| CumulativeDistance.Display | src/Components/UI/FPL/FixInfoWide.tsx:93-111 | the row shows '____' exactly when its leg is behind or has no computed length of at least 0.1; it throws exactly for a non-anchoring hold with an empty path |
| CumulativeDistance.DisplayShowsTotal | src/Components/UI/FPL/FixInfoWide.tsx:110 | a shown distance reads back as the new total rounded to the shown decimals |
| CumulativeDistance.RunningDistance.constructor | src/Components/UI/FPL/FixInfoWide.tsx:95 | the shared total starts at the given value |
| CumulativeDistance.RunningDistance.Evaluate | src/Components/UI/FPL/FixInfoWide.tsx:91-115 | one row evaluation updates the shared total to `NextTotal` of the old total and returns `Display` of it |
| CumulativeDistance.RunningDistance.EvaluateRoute | src/Components/UI/FPL/FixInfoWide.tsx:91-115 | evaluating the rows of a route in order leaves the shared total at `RouteTotal` and returns `RouteDisplays`, both of the old total; the loop keeps the total equal to the pass over the rows so far |
| CumulativeDistance.RouteTotal | src/Components/UI/FPL/FixInfoWide.tsx:91-115 | a pass over no rows keeps the starting total; a pass whose last row re-anchors ends at the active-leg distance in NM |
| CumulativeDistance.RouteDisplays | src/Components/UI/FPL/FixInfoWide.tsx:91-115 | a pass in route order gives one result per row |
| CumulativeDistance.RouteStep | src/Components/UI/FPL/FixInfoWide.tsx:91-115 | evaluating one more row in order extends the pass: the total becomes `NextTotal` and the displays gain that row's `Display`, both from the total the earlier rows leave |
| CumulativeDistance.RouteSplitTotal | src/Components/UI/FPL/FixInfoWide.tsx:91-115 | a pass ends where a pass over the rest of the route ends, started from the total after the first i rows |
| CumulativeDistance.RouteSplit | src/Components/UI/FPL/FixInfoWide.tsx:91-115 | what a pass shows is what its first i rows show, followed by what the rest shows from the total they leave |
| CumulativeDistance.ReanchorForgetsHistory | src/Components/UI/FPL/FixInfoWide.tsx:94-101 | from a re-anchoring row on, a pass shows the same strings and ends with the same total whatever total it started from |
| CumulativeDistance.PlainRouteSum | src/Components/UI/FPL/FixInfoWide.tsx:102-108 | without re-anchoring, a pass adds exactly one increment per row that shows a distance |
| CumulativeDistance.ForwardAdvance | src/Components/UI/FPL/FixInfoWide.tsx:102-108 | non-negative increments add up to a non-negative advance |
| CumulativeDistance.TotalNondecreasing | src/Components/UI/FPL/FixInfoWide.tsx:102-108 | without re-anchoring and with non-negative increments, the total never decreases along the route |
| CumulativeDistance.OneMileAdvance | src/Components/UI/FPL/FixInfoWide.tsx:108-110 | evaluating a 1 NM track-to-fix leg adds 1 to any total and shows the new total |
| CumulativeDistance.TenthsApart | src/Components/UI/FPL/FixInfoWide.tsx:110 | totals below 100 NM more than 0.1 apart show different text |
| CumulativeDistance.RerunDrifts | src/Components/UI/FPL/FixInfoWide.tsx:100-110 | evaluating the same row twice in a row shows two different distances |
| CumulativeDistance.CumulativeAt | src/Components/UI/FPL/FixInfoWide.tsx:91-115 | a row's distance is its result in one in-order pass over the route, the same for every starting total once a re-anchoring row precedes it |
| CumulativeDistance.CumulativeStable | src/Components/UI/FPL/FixInfoWide.tsx:91-115 | evaluating a row with the total left by the rows before it gives `CumulativeAt`, whatever total the pass started from |
| Telemetry.TravelDistance | src/Components/UI/FPL/FixInfoWide.tsx:154-157 | fuel, ETE and ETA have a distance exactly when the row shows a non-negative distance, the leg is not behind and the ground speed is above 30 kt; that distance is the shown string read back |
| Telemetry.DistanceToFix | src/Components/UI/FPL/FixInfoWide.tsx:120 | `Number(dist)`, or -1 for the no-distance sentinel: any text the distance column shows reads back as the total it was made from, rounded to the shown decimals |
| Telemetry.TravelUsesShownDistance | src/Components/UI/FPL/FixInfoWide.tsx:120 | the fields see the running total rounded to the shown decimals, not the total itself |
| Telemetry.FuelRemaining | src/Components/UI/FPL/FixInfoWide.tsx:118-134 | '_____' exactly when there is no travel distance or the fuel flow is not positive; otherwise reads back as the pounds left at the fix, rounded |
| Telemetry.EnduranceHours | src/Components/UI/FPL/FixInfoWide.tsx:138-139 | the endurance in hours times the fuel flow in pounds per hour gives the fuel in pounds; it is negative exactly when the fuel is |
| Telemetry.MixedRadix | src/Components/UI/FPL/FixInfoWide.tsx:140-141 | whole units plus the rounded sixtieths of the fraction equal the value times 60, rounded; the sixtieths lie in 0..60 |
| Telemetry.SplitClock | src/Components/UI/FPL/FixInfoWide.tsx:140-145 | the page's split of a quantity reads as units and sixtieths that add up to the quantity in sixtieths, rounded; the second field can be 60 |
| Telemetry.CarryClock | src/Components/UI/FPL/FixInfoWide.tsx:140-145 | the split with the carry reads the same total with a second field below 60 |
| Telemetry.SplitAgrees | src/Components/UI/FPL/FixInfoWide.tsx:140-145 | where the page's second field is below 60, its split equals the split with the carry |
| Telemetry.EnduranceTextAsWritten | src/Components/UI/FPL/FixInfoWide.tsx:136-146 | '0+00' for negative hours; otherwise the page's own split: the whole hours, then the fraction of an hour times 60, rounded, which can be 60; the two add up to the endurance in minutes, rounded; the minutes field is always two characters and the hours have no leading zero |
| Telemetry.EnduranceText | src/Components/UI/FPL/FixInfoWide.tsx:136-146 | as above, with the minutes below 60; the minutes field is two characters, zero-padded |
| Telemetry.EnduranceTextAgrees | src/Components/UI/FPL/FixInfoWide.tsx:136-146 | where the page's minutes are below 60, its endurance text equals the corrected one |
| Telemetry.EnduranceShowsSixty | src/Components/UI/FPL/FixInfoWide.tsx:139-145 | 5.995 h of endurance reads as 5 hours and 60 minutes |
| Telemetry.EnduranceAsWritten | src/Components/UI/FPL/FixInfoWide.tsx:136-150 | '_____' exactly when the fuel field is '_____'; otherwise the as-written endurance text of the pounds left over the flow in pounds per hour, so '0+00' when negative and minutes up to 60 |
| Telemetry.Endurance | src/Components/UI/FPL/FixInfoWide.tsx:136-150 | '_____' exactly when the fuel field is; otherwise the corrected endurance text of the pounds left over the flow: '0+00' for a negative endurance, else hours and two-digit minutes below 60 that add up to the endurance in minutes, rounded |
| Telemetry.EteHours | src/Components/UI/FPL/FixInfoWide.tsx:158-159 | the hours to the fix are non-negative and within 1/2000 of distance over ground speed |
| Telemetry.FractionOfHour | src/Components/UI/FPL/FixInfoWide.tsx:161 | below one hour, `h % 1` is h |
| Telemetry.EteUnitsAsWritten | src/Components/UI/FPL/FixInfoWide.tsx:161-166 | the quantity the page splits is non-negative |
| Telemetry.EteUnits | src/Components/UI/FPL/FixInfoWide.tsx:161-166 | below one hour it is the ETE in minutes, from one hour on the ETE in hours |
| Telemetry.EteUnitsAgree | src/Components/UI/FPL/FixInfoWide.tsx:161-166 | the page's `(h % 1) * 60` and the minutes taken directly agree |
| Telemetry.EteClockAsWritten | src/Components/UI/FPL/FixInfoWide.tsx:160-167 | the page's own split of the quantity it splits (minutes below one hour, hours from one hour on): its whole units, then its fraction times 60, rounded, which can be 60; below one hour minutes:seconds adding up to the ETE in seconds, rounded, from one hour on hours+minutes adding up to the ETE in minutes, rounded; both fields zero-padded to two characters, so five characters below 100 h |
| Telemetry.EteClock | src/Components/UI/FPL/FixInfoWide.tsx:160-167 | as above, with the second field below 60; five characters, MM:SS or HH+MM, while the hours fit in two digits |
| Telemetry.EteClockAgrees | src/Components/UI/FPL/FixInfoWide.tsx:160-167 | where the page's second field is below 60, its ETE text equals the corrected one |
| Telemetry.EteAsWritten | src/Components/UI/FPL/FixInfoWide.tsx:152-174 | '_____' exactly when there is no travel distance; otherwise the as-written ETE text of the hours to the fix, whose second field can read 60 |
| Telemetry.Ete | src/Components/UI/FPL/FixInfoWide.tsx:152-174 | '_____' exactly when there is no travel distance; otherwise the corrected ETE text of the hours to the fix: zero-padded MM:SS or HH+MM with the second field below 60 |
| Telemetry.FourDigitsExact | src/Components/UI/FPL/FixInfoWide.tsx:159 | four significant digits keep 1.998 |
| Telemetry.ReadDistance | src/Components/UI/FPL/FixInfoWide.tsx:154 | the distance text "99.9" reads as 99.9 |
| Telemetry.EteShowsSixty | src/Components/UI/FPL/FixInfoWide.tsx:158-166 | 99.9 NM at 50 kt reads as 1 hour and 60 minutes |
| Telemetry.DayClock | src/Components/UI/FPL/FixInfoWide.tsx:184 | the hours and minutes of an instant together give its minute of the day |
| Telemetry.Eta | src/Components/UI/FPL/FixInfoWide.tsx:176-192 | '_____' exactly when there is no travel distance; 'NaN:NaN' for an instant a Date cannot hold; otherwise HH:MM, five characters with the colon third, hours below 24 and minutes below 60, giving the arrival minute of the day (UTC) |
| Telemetry.CourseText | src/Components/UI/FPL/FixInfoWide.tsx:194-201 | '___' exactly for a negative course; otherwise the digits of the rounded course, with 360 in place of 0; within half a degree of the course from 0.5 on; three characters below 999.5 |
| Telemetry.DesiredTrack | src/Components/UI/FPL/FixInfoWide.tsx:203-211 | the DTK is '___' exactly for a negative value or a leg behind, else the course text of the value |
| Telemetry.AltitudeUnits | src/Components/UI/FPL/FixInfoWide.tsx:215-221 | 'FT' exactly for a target altitude of at least 1 on a leg not behind, else a blank |
| Telemetry.FixTypeLabel | src/Components/UI/FPL/FixInfoWide.tsx:223-240 | ' hdg' exactly for a MANSEQ FM/VM leg; otherwise ' faf', ' iaf', ' map' or ' mahp' exactly for that single flag, and '' for anything else |
| Telemetry.RowTravelFields | src/Components/UI/FPL/FixInfoWide.tsx:118-192 | the four travel fields of a row with the corrected ETE and endurance (see Findings): without a travel distance all four are '_____'; with one, ETE and ETA have values and fuel has one exactly when the flow is positive; endurance has a value exactly when fuel does |
| LegDisplay.CourseInputs | src/Components/UI/FPL/FixInfoWide.tsx:272-284 | the active row gets the active leg's DTK and bearing; every other row feeds one course to both fields: -1 for a collapsed airway exit, the leg's course for a hold, and the initial DTK, or -1 without one, for any other leg |
| LegDisplay.CourseTexts | src/Components/UI/FPL/FixInfoWide.tsx:272-284 | the active row shows the active leg's DTK ('___' behind the aircraft) and bearing; DTK is '___' behind the aircraft; a non-active row not behind shows the same DTK and BRG; a collapsed airway exit shows '___' in both; a hold shows the text of its course; an ordinary row shows the text of its initial DTK, which is '___' exactly when it has no non-negative initial DTK |
| LegDisplay.AirwayIndent | src/Components/UI/FPL/FixInfoWide.tsx:312-316 | no indent exactly off airways; 5 px exactly for an airway exit; 10 px exactly for any other airway fix |
| LegDisplay.HiddenRow | src/Components/UI/FPL/FixInfoWide.tsx:300-310 | the row is hidden and disabled for a collapsed airway fix that is not the exit, a discontinuity or a direct-to leg, and shown otherwise |
| LegDisplay.AltitudeHidden | src/Components/UI/FPL/FixInfoWide.tsx:332-333 | the altitude column is hidden for a leg behind, a missed-approach leg, an origin or departure leg, or a runway fix (ident starting with 'R'), and shown otherwise |
| LegDisplay.AdvisoryStyle | src/Components/UI/FPL/FixInfoWide.tsx:340 | the advisory style is used exactly for an advisory altitude with no invalid constraint altitude |
| LegDisplay.ConstraintMeters | src/Components/UI/FPL/FixInfoWide.tsx:285 | the invalid constraint altitude wins over the target altitude, and -1 stands for neither |
| LegDisplay.NearestFoot | src/Components/UI/FPL/FixInfoWide.tsx:285 | rounding to whole feet lands within half a foot, and a half foot rounds up |
| LegDisplay.AltitudeFeet | src/Components/UI/FPL/FixInfoWide.tsx:285 | the column's altitude is the nearest whole foot to the constraint, a half foot going up as `Math.round` does |
| LegDisplay.ShownAltitude | src/Components/UI/FPL/FixInfoWide.tsx:340-350 | an advisory altitude is never negative and keeps a positive value; other altitudes are shown unchanged |
| LegDisplay.NoConstraintFeet | src/Components/UI/FPL/FixInfoWide.tsx:285 | with no altitude at all the column's value is -3 ft; the advisory style shows 0 |
| LegDisplay.FixRow.constructor | src/Components/UI/FPL/FixInfoWide.tsx:194-223 | a new row holds the leg's initial DTK, the first bearing reading, the target altitude in feet and the leg's fix-type flags |
| LegDisplay.FixRow.OnData | src/Components/UI/FPL/FixInfoWide.tsx:271-357 | after a new leg record, the DTK/BRG texts are `CourseTexts` of it, the row is hidden and disabled exactly for `HiddenRow`, the fix-type label is `FixTypeLabel` of the new flags, and the altitude column is hidden for `AltitudeHidden`, keeping its old values then and showing `ShownAltitude`, the unit label of the new target and the invalid flag otherwise |
| LegDisplay.FixRow.SetCourses | src/Components/UI/FPL/FixInfoWide.tsx:272-284 | the DTK and BRG fields take `CourseInputs` |
| LegDisplay.FixRow.SetStyles | src/Components/UI/FPL/FixInfoWide.tsx:289-330 | active and hold styles, visibility, indent, fix-type flags and user-constraint mark follow the leg record |
| LegDisplay.FixRow.SetAltitude | src/Components/UI/FPL/FixInfoWide.tsx:332-356 | hidden column: only the hidden flag changes; shown column: unit target, advisory-clamped altitude, advisory style and invalid flag |
| LegDisplay.EnterRequest | src/Components/UI/FPL/FixInfoWide.tsx:361-385 | ENTER opens a page exactly for an AF/CF/DF/IF/RF/TF leg whose fix is an airport, intersection, VOR or NDB; it opens the matching page with the fix identifier |

## Left out

- Rendering, the highlight animation, focus handling and name editing are
  presentation. The row's active, hold and advisory styles and its margin
  are kept as plain fields.
- The reactive plumbing of the avionics SDK is left out: subjects, the event
  bus and the order in which rows are re-evaluated. Sensor readings, the
  LNAV waypoint ident and the active leg's DTK, bearing and distance are
  parameters.
  - A computed subject recomputes only when its input changes. So a DTK
    whose course is unchanged keeps its old text when only the leg-behind
    flag changes. The model recomputes it.
  - The endurance field likewise stays as it was while the fuel string does
    not change.
- Telemetry.Eta: the host time zone is not modelled; hours and minutes are
  taken in UTC.
- NaN is not modelled. `Number()` of a string the model does not parse is
  `None`, and `isNaN` on the altitude-unit input cannot occur.
- JsFormat.ParseNumber: only the strings `toFixed` writes are parsed, an
  optional '-', digits, and an optional point followed by digits. `Number()`
  also reads "" as 0 and accepts white space, a leading '+', ".5", "5." and
  exponents; the model gives `None` for these. The distance column never
  shows such a string.
- Number-to-string forms with an exponent are not modelled: `toString` of
  values below 1e-6 or from 1e21 on, and `toFixed` from 1e21 on.
  - Telemetry.EnduranceTextAsWritten: the whole hours are `floor(hours)`,
    which is what `toString().split('.')[0]` gives when no exponent form
    occurs.
- The SDK unit tables are not part of this model. The factors are the
  standard ones and 6.7 lb per gallon of fuel.
- The values of `FixTypeFlags` are taken as the single bits 1, 2, 4, 8 and
  16. The DirectTo and MissedApproach leg flags are booleans.
- The running total, `window.legCumulativeDist`, is not initialised in this
  file, so it starts `undefined` and a `+=` before any re-anchoring row gives
  NaN. Such rows show "NaN", and their fuel, ETE and ETA fields show
  '_____', until a re-anchoring row sets the total. The model has no NaN: it
  takes the starting total as a parameter of `RunningDistance.constructor`
  and of a route pass.
- LegDisplay.EnterRequest: `ICAO.getFacilityType` and the view service are
  outside this model. The facility type is a parameter, and `None` stands
  for the lookup throwing.
- LegDisplay.FixRow.constructor: the row's initial visibility belongs to
  the UI control base class, which is not part of this model; the row is
  taken to start visible and enabled.
- The other files of the repository are page layout, dialogs, plugin
  registration and menus. They are not part of this model.

## Findings

| source | as written | input that shows it | evidently intended | confidence | as-written member | corrected member |
|---|---|---|---|---|---|---|
| src/Components/UI/FPL/FixInfoWide.tsx:158-166 | the ETE rounds the minutes (or seconds) of the fraction on their own, so the field can read 60 | 99.9 NM at 50 kt: 1.998 h shows "01+60" | carry into the hours: "02+00" | not executed | Telemetry.EteAsWritten, Telemetry.EteShowsSixty | Telemetry.Ete, Telemetry.EteClockAgrees |
| src/Components/UI/FPL/FixInfoWide.tsx:136-145 | endurance minutes are `((end % 1) * 60).toFixed(0)`, which can be 60 | 1199 lb at 200 lb/h: 5.995 h shows "5+60" | "6+00" | not executed | Telemetry.EnduranceAsWritten, Telemetry.EnduranceShowsSixty | Telemetry.Endurance, Telemetry.EnduranceTextAgrees |
| src/Components/UI/FPL/FixInfoWide.tsx:100-110 | the shared total is advanced on every evaluation and never reset, so re-evaluating a row with no re-anchoring row before it counts its leg again | a 1 NM track-to-fix row evaluated twice from total 0 shows "1.0" and then "2.0" | each row shows its distance from one in-order pass over the route | not executed | CumulativeDistance.Display, CumulativeDistance.RerunDrifts | CumulativeDistance.CumulativeAt, CumulativeDistance.CumulativeStable |

// The per-row state of the wide flight-plan page that is refreshed whenever
// the row's leg record changes: which courses feed the DTK and BRG columns,
// whether the row is shown, the altitude constraint column, and what the
// ENTER key opens.

module LegDisplay {
  import opened Wrappers
  import opened FlightPlan
  import opened Units
  import opened JsFormat
  import opened Telemetry

  // ---------------------------------------------------------------------
  // Courses

  /**
   * The values fed to the DTK and BRG fields for a row: the active leg's
   * own DTK and bearing, nothing (-1) for a collapsed airway exit, the hold
   * course for a hold, else the leg's initial DTK (or nothing) in both.
   */
  function CourseInputs(info: FixLegInfo, activeLegDtk: real, activeLegBearing: real): (r: (real, real))
    ensures info.isActive ==> r == (activeLegDtk, activeLegBearing)
    ensures !info.isActive ==> r.0 == r.1
    ensures !info.isActive && info.isAirwayExitFix && info.isCollapsed ==> r == (-1.0, -1.0)
    ensures !info.isActive && !(info.isAirwayExitFix && info.isCollapsed) && IsHold(info.legDefinition.legType) ==>
              r.0 == info.legDefinition.course
    ensures !info.isActive && !(info.isAirwayExitFix && info.isCollapsed) && !IsHold(info.legDefinition.legType) ==>
              r.0 == InitialDtk(info.legDefinition).GetOr(-1.0)
  {
    if info.isActive then
      (activeLegDtk, activeLegBearing)
    else if info.isAirwayExitFix && info.isCollapsed then
      (-1.0, -1.0)
    else if IsHold(info.legDefinition.legType) then
      (info.legDefinition.course, info.legDefinition.course)
    else
      var dtk := match info.legDefinition.calculated
        case Some(c) => c.initialDtk.GetOr(-1.0)
        case None => -1.0;
      (dtk, dtk)
  }

  /** The leg's initial DTK, when the leg has been calculated and has one. */
  function InitialDtk(leg: LegDefinition): (r: Option<real>)
    ensures r.Some? ==> leg.calculated.Some? && leg.calculated.value.initialDtk == r
  {
    match leg.calculated
    case Some(c) => c.initialDtk
    case None => None
  }

  /** The DTK and BRG texts of a row. */
  function CourseTexts(info: FixLegInfo, activeLegDtk: real, activeLegBearing: real): (r: (string, string))
    ensures info.isActive ==> r == (DesiredTrack(activeLegDtk, info.legIsBehind), CourseText(activeLegBearing))
    ensures info.legIsBehind ==> r.0 == NoCourse
    ensures !info.isActive && !info.legIsBehind ==> r.0 == r.1
    ensures !info.isActive && info.isAirwayExitFix && info.isCollapsed ==> r == (NoCourse, NoCourse)
    ensures !info.isActive && !(info.isAirwayExitFix && info.isCollapsed) && !IsHold(info.legDefinition.legType) ==>
              (r.1 == NoCourse <==> InitialDtk(info.legDefinition).None? || InitialDtk(info.legDefinition).value < 0.0)
    ensures !info.isActive && !(info.isAirwayExitFix && info.isCollapsed) && !IsHold(info.legDefinition.legType) ==>
              r.1 == CourseText(InitialDtk(info.legDefinition).GetOr(-1.0))
    ensures !info.isActive && !(info.isAirwayExitFix && info.isCollapsed) && IsHold(info.legDefinition.legType) ==>
              r.1 == CourseText(info.legDefinition.course)
  {
    var (dtk, brg) := CourseInputs(info, activeLegDtk, activeLegBearing);
    (DesiredTrack(dtk, info.legIsBehind), CourseText(brg))
  }

  // ---------------------------------------------------------------------
  // Row visibility

  /** A row is hidden and cannot be selected: inside a collapsed airway, a discontinuity, or a direct-to leg. */
  predicate HiddenRow(info: FixLegInfo): (hidden: bool)
    ensures info.isCollapsed && !info.isAirwayExitFix ==> hidden
    ensures IsDiscontinuity(info.legDefinition.legType) || info.legDefinition.directTo ==> hidden
    ensures !info.isCollapsed && !IsDiscontinuity(info.legDefinition.legType) && !info.legDefinition.directTo ==> !hidden
    ensures info.isAirwayExitFix && !IsDiscontinuity(info.legDefinition.legType) && !info.legDefinition.directTo ==> !hidden
  {
    (info.isCollapsed && !info.isAirwayExitFix)
    || IsDiscontinuity(info.legDefinition.legType)
    || info.legDefinition.directTo
  }

  /** The left margin of the row's highlight, in pixels: airway fixes are indented, exits less. */
  function AirwayIndent(info: FixLegInfo): (px: nat)
    ensures px == 0 <==> !info.isAirwayFix
    ensures px == 5 <==> info.isAirwayFix && info.isAirwayExitFix
    ensures px == 10 <==> info.isAirwayFix && !info.isAirwayExitFix
  {
    if info.isAirwayFix then (if info.isAirwayExitFix then 5 else 10) else 0
  }

  // ---------------------------------------------------------------------
  // Altitude constraint column

  /**
   * The altitude column is hidden for a leg already flown, for the origin and
   * departure segments, for a runway fix (identifier starting with 'R') and
   * for a missed-approach leg.
   */
  predicate AltitudeHidden(info: FixLegInfo): (hidden: bool)
    ensures info.legIsBehind || info.legDefinition.missedApproach ==> hidden
    ensures info.segmentType == Origin || info.segmentType == Departure ==> hidden
    ensures |info.legDefinition.fixIcao| > 0 && info.legDefinition.fixIcao[0] == 'R' ==> hidden
    ensures (!info.legIsBehind && !info.legDefinition.missedApproach &&
             info.segmentType != Origin && info.segmentType != Departure &&
             (|info.legDefinition.fixIcao| == 0 || info.legDefinition.fixIcao[0] != 'R')) ==> !hidden
  {
    info.legIsBehind
    || info.segmentType == Origin || info.segmentType == Departure
    || (|info.legDefinition.fixIcao| > 0 && info.legDefinition.fixIcao[0] == 'R')
    || info.legDefinition.missedApproach
  }

  /** The altitude the column shows, in metres: the invalid constraint if any, else the target, else -1. */
  function ConstraintMeters(info: FixLegInfo): (m: real)
    ensures info.invalidConstraintAltitude.Some? ==> m == info.invalidConstraintAltitude.value
    ensures info.invalidConstraintAltitude.None? && info.targetAltitude.Some? ==> m == info.targetAltitude.value
    ensures info.invalidConstraintAltitude.None? && info.targetAltitude.None? ==> m == -1.0
  {
    match info.invalidConstraintAltitude
    case Some(a) => a
    case None => info.targetAltitude.GetOr(-1.0)
  }

  /** Rounding to whole feet lands within half a foot of the altitude. */
  lemma NearestFoot(m: real)
    ensures Abs(Round(MetersToFeet(m)) as real * MetersPerFoot - m) <= MetersPerFoot / 2.0
    ensures Round(MetersToFeet(m)) as real * MetersPerFoot - m > -MetersPerFoot / 2.0
  {
    var ft := MetersToFeet(m);
    var n := Round(ft);
    assert ft - 0.5 < n as real <= ft + 0.5;
    assert n as real * MetersPerFoot - m == (n as real - ft) * MetersPerFoot;
  }

  /** The constraint altitude in whole feet: the nearest foot to the constraint in metres, a half foot going up. */
  function AltitudeFeet(info: FixLegInfo): (ft: int)
    ensures Abs(ft as real * MetersPerFoot - ConstraintMeters(info)) <= MetersPerFoot / 2.0
    ensures ft as real * MetersPerFoot - ConstraintMeters(info) > -MetersPerFoot / 2.0
  {
    NearestFoot(ConstraintMeters(info));
    Round(MetersToFeet(ConstraintMeters(info)))
  }

  /** An advisory altitude (one that is not a broken constraint) is shown in the advisory style. */
  predicate AdvisoryStyle(info: FixLegInfo): (advisory: bool)
    ensures advisory ==> info.isAdvisory
    ensures info.invalidConstraintAltitude.Some? ==> !advisory
    ensures info.isAdvisory && info.invalidConstraintAltitude.None? ==> advisory
  {
    info.isAdvisory && info.invalidConstraintAltitude.None?
  }

  /** The altitude the column shows: the advisory style never shows a negative altitude, the others show it as is. */
  function ShownAltitude(info: FixLegInfo): (ft: int)
    ensures AdvisoryStyle(info) ==> ft >= 0 && (AltitudeFeet(info) > 0 ==> ft == AltitudeFeet(info))
    ensures AdvisoryStyle(info) && AltitudeFeet(info) <= 0 ==> ft == 0
    ensures !AdvisoryStyle(info) ==> ft == AltitudeFeet(info)
  {
    var altitude := AltitudeFeet(info);
    if AdvisoryStyle(info) then (if altitude <= 0 then 0 else altitude) else altitude
  }

  /** Without any altitude the column's value is -1 m, which rounds to -3 ft; the advisory style shows 0 instead. */
  lemma NoConstraintFeet(info: FixLegInfo)
    requires info.invalidConstraintAltitude.None? && info.targetAltitude.None?
    ensures AltitudeFeet(info) == -3
    ensures info.isAdvisory ==> ShownAltitude(info) == 0
  {
    assert MetersToFeet(-1.0) * MetersPerFoot == -1.0;
    assert -3.5 < MetersToFeet(-1.0) < -3.0;
  }

  // ---------------------------------------------------------------------
  // The row

  /** The state of one row that the leg-record subscription updates. */
  class FixRow {
    /** The leg record the row last saw. */
    var data: FixLegInfo
    /** The values held by the DTK and BRG fields. */
    var dtkCourse: real
    var brgCourse: real
    /** The 'active-wpt' and 'fix-hold' styles. */
    var activeStyle: bool
    var holdStyle: bool
    var visible: bool
    var disabled: bool
    var indentPx: nat
    /** The value held by the fix-type label. */
    var fixTypeFlags: nat
    var userConstraint: bool
    var altitudeHidden: bool
    /** The target altitude fed to the altitude-unit label. */
    var unitsTarget: Option<real>
    var altitudeFeet: int
    var advisoryStyle: bool
    var invalidAltitude: bool

    /**
     * A row as created for `info`, before any change of the leg record: the
     * DTK is the leg's initial DTK, the bearing the first reading of the
     * active leg's bearing, the altitude the target altitude alone.
     */
    constructor(info: FixLegInfo, activeLegBearing: real)
      ensures data == info
      ensures dtkCourse == InitialDtk(info.legDefinition).GetOr(-1.0) && brgCourse == activeLegBearing
      ensures !activeStyle && !holdStyle && visible && !disabled && indentPx == 0
      ensures fixTypeFlags == info.legDefinition.fixTypeFlags
      ensures !userConstraint && !altitudeHidden && !advisoryStyle && !invalidAltitude
      ensures unitsTarget == info.targetAltitude
      ensures altitudeFeet == Round(MetersToFeet(info.targetAltitude.GetOr(-1.0)))
    {
      data := info;
      dtkCourse := InitialDtk(info.legDefinition).GetOr(-1.0);
      brgCourse := activeLegBearing;
      activeStyle, holdStyle := false, false;
      visible, disabled := true, false;
      indentPx := 0;
      fixTypeFlags := info.legDefinition.fixTypeFlags;
      userConstraint, altitudeHidden := false, false;
      unitsTarget := info.targetAltitude;
      altitudeFeet := Round(MetersToFeet(info.targetAltitude.GetOr(-1.0)));
      advisoryStyle, invalidAltitude := false, false;
    }

    /** The DTK text: it reads whether the leg is behind from the current leg record. */
    function DtkText(): string
      reads this
    {
      DesiredTrack(dtkCourse, data.legIsBehind)
    }

    function BearingText(): string
      reads this
    {
      CourseText(brgCourse)
    }

    function AltitudeUnitsText(): string
      reads this
    {
      AltitudeUnits(unitsTarget, data.legIsBehind)
    }

    function FixTypeText(): string
      reads this
    {
      FixTypeLabel(data.legDefinition, fixTypeFlags)
    }

    /**
     * The row's reaction to a new leg record `info`. When the altitude column
     * is hidden its unit label, value and styles keep what they showed.
     */
    method OnData(info: FixLegInfo, activeLegDtk: real, activeLegBearing: real)
      modifies this
      ensures data == info
      ensures (dtkCourse, brgCourse) == CourseInputs(info, activeLegDtk, activeLegBearing)
      ensures (DtkText(), BearingText()) == CourseTexts(info, activeLegDtk, activeLegBearing)
      ensures activeStyle == info.isActive && holdStyle == IsHold(info.legDefinition.legType)
      ensures visible == !HiddenRow(info) && disabled == HiddenRow(info)
      ensures indentPx == AirwayIndent(info)
      ensures fixTypeFlags == info.legDefinition.fixTypeFlags
      ensures userConstraint == info.isUserConstraint
      ensures altitudeHidden == AltitudeHidden(info)
      ensures FixTypeText() == FixTypeLabel(info.legDefinition, info.legDefinition.fixTypeFlags)
      ensures !AltitudeHidden(info) ==> AltitudeUnitsText() == AltitudeUnits(info.targetAltitude, info.legIsBehind)
      ensures AltitudeHidden(info) ==>
                unitsTarget == old(unitsTarget) && altitudeFeet == old(altitudeFeet) &&
                advisoryStyle == old(advisoryStyle) && invalidAltitude == old(invalidAltitude)
      ensures !AltitudeHidden(info) ==>
                unitsTarget == info.targetAltitude && altitudeFeet == ShownAltitude(info) &&
                advisoryStyle == AdvisoryStyle(info) &&
                invalidAltitude == info.invalidConstraintAltitude.Some?
    {
      data := info;
      SetCourses(info, activeLegDtk, activeLegBearing);
      var altitude := AltitudeFeet(info);
      SetStyles(info);
      SetAltitude(info, altitude);
    }

    /** The DTK and BRG fields take the courses chosen for the row. */
    method SetCourses(info: FixLegInfo, activeLegDtk: real, activeLegBearing: real)
      modifies this`dtkCourse, this`brgCourse
      ensures (dtkCourse, brgCourse) == CourseInputs(info, activeLegDtk, activeLegBearing)
    {
      var leg := info.legDefinition;
      if info.isActive {
        dtkCourse, brgCourse := activeLegDtk, activeLegBearing;
      } else if info.isAirwayExitFix && info.isCollapsed {
        dtkCourse, brgCourse := -1.0, -1.0;
      } else if IsHold(leg.legType) {
        dtkCourse, brgCourse := leg.course, leg.course;
      } else {
        var dtk := InitialDtk(leg).GetOr(-1.0);
        dtkCourse, brgCourse := dtk, dtk;
      }
    }

    /** The row's styles, visibility, indent, fix-type and user-constraint marks. */
    method SetStyles(info: FixLegInfo)
      modifies this`activeStyle, this`holdStyle, this`visible, this`disabled, this`indentPx
      modifies this`fixTypeFlags, this`userConstraint
      ensures activeStyle == info.isActive && holdStyle == IsHold(info.legDefinition.legType)
      ensures visible == !HiddenRow(info) && disabled == HiddenRow(info)
      ensures indentPx == AirwayIndent(info)
      ensures fixTypeFlags == info.legDefinition.fixTypeFlags
      ensures userConstraint == info.isUserConstraint
    {
      var leg := info.legDefinition;
      if info.isActive {
        activeStyle := true;
        holdStyle := false;
      } else {
        activeStyle := false;
      }

      if HiddenRow(info) {
        visible, disabled := false, true;
      } else {
        visible, disabled := true, false;
      }

      if info.isAirwayFix {
        indentPx := if info.isAirwayExitFix then 5 else 10;
      } else {
        indentPx := 0;
      }

      fixTypeFlags := leg.fixTypeFlags;
      holdStyle := IsHold(leg.legType);
      userConstraint := info.isUserConstraint;
    }

    /** The altitude column, given the constraint altitude in whole feet; left as it was when hidden. */
    method SetAltitude(info: FixLegInfo, altitude: int)
      requires altitude == AltitudeFeet(info)
      modifies this`altitudeHidden, this`unitsTarget, this`altitudeFeet, this`advisoryStyle, this`invalidAltitude
      ensures altitudeHidden == AltitudeHidden(info)
      ensures AltitudeHidden(info) ==>
                unitsTarget == old(unitsTarget) && altitudeFeet == old(altitudeFeet) &&
                advisoryStyle == old(advisoryStyle) && invalidAltitude == old(invalidAltitude)
      ensures !AltitudeHidden(info) ==>
                unitsTarget == info.targetAltitude && altitudeFeet == ShownAltitude(info) &&
                advisoryStyle == AdvisoryStyle(info) &&
                invalidAltitude == info.invalidConstraintAltitude.Some?
    {
      if AltitudeHidden(info) {
        altitudeHidden := true;
      } else {
        altitudeHidden := false;
        unitsTarget := info.targetAltitude;
        if info.isAdvisory && info.invalidConstraintAltitude.None? {
          advisoryStyle := true;
          altitudeFeet := if altitude <= 0 then 0 else altitude;
        } else {
          advisoryStyle := false;
          altitudeFeet := altitude;
        }
        invalidAltitude := info.invalidConstraintAltitude.Some?;
      }
    }
  }

  // ---------------------------------------------------------------------
  // ENTER on a row

  /** The leg types whose fix has an information page. */
  const ViewableLegTypes: seq<LegType> := [AF, CF, DF, IF, RF, TF]

  /** The facility types a fix identifier can name. */
  datatype FacilityType = Airport | Intersection | Vor | Ndb | Runway | User | Visual

  /** The information pages ENTER can open. */
  datatype InfoPage = AirportInformation | IntersectionInformation | VorInformation | NdbInformation

  /**
   * The page ENTER opens and the identifier it is given, if any. `facility`
   * is the facility type of the leg's fix identifier, None where looking it
   * up fails; ENTER is handled exactly when a page opens.
   */
  function EnterRequest(leg: LegDefinition, facility: Option<FacilityType>): (r: Option<(InfoPage, string)>)
    ensures r.Some? <==> leg.legType in ViewableLegTypes && facility.Some? && facility.value in {Airport, Intersection, Vor, Ndb}
    ensures r.Some? ==> r.value.1 == leg.fixIcao
    ensures r.Some? ==> (r.value.0 == AirportInformation <==> facility.value == Airport)
    ensures r.Some? ==> (r.value.0 == IntersectionInformation <==> facility.value == Intersection)
    ensures r.Some? ==> (r.value.0 == VorInformation <==> facility.value == Vor)
    ensures r.Some? ==> (r.value.0 == NdbInformation <==> facility.value == Ndb)
  {
    if leg.legType !in ViewableLegTypes then None
    else
      match facility
      case Some(Airport) => Some((AirportInformation, leg.fixIcao))
      case Some(Intersection) => Some((IntersectionInformation, leg.fixIcao))
      case Some(Vor) => Some((VorInformation, leg.fixIcao))
      case Some(Ndb) => Some((NdbInformation, leg.fixIcao))
      case _ => None
  }
}

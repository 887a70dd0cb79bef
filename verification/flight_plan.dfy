// The flight-plan leg data a row of the wide flight-plan page is bound to.
// These are the fields of the avionics SDK's `FixLegInfo` and
// `LegDefinition` records that the row reads; everything else is omitted.

module FlightPlan {
  import opened Wrappers

  /** ARINC 424 path terminators, plus the two discontinuity pseudo-legs. */
  datatype LegType =
    | Unknown | AF | CA | CD | CF | CI | CR | DF | FA | FC | FD | FM
    | HA | HF | HM | IF | PI | RF | TF | VA | VD | VI | VM | VR
    | Discontinuity | ThruDiscontinuity

  /** The hold leg types HF, HM and HA. */
  predicate IsHold(t: LegType) {
    t == HF || t == HM || t == HA
  }

  /** FlightPlanUtils.isDiscontinuityLeg */
  predicate IsDiscontinuity(t: LegType) {
    t == Discontinuity || t == ThruDiscontinuity
  }

  /** Values of the SDK's `FixTypeFlags` bit set. */
  const FixNone: nat := 0
  const FixIaf: nat := 1
  const FixIf: nat := 2
  const FixMap: nat := 4
  const FixFaf: nat := 8
  const FixMahp: nat := 16

  /** One vector of a leg's computed flight path (distance in metres). */
  datatype FlightPathVector = FlightPathVector(distance: real)

  /** The computed part of a leg: its length in metres, initial DTK and path. */
  datatype LegCalculations = LegCalculations(
    distance: real,
    initialDtk: Option<real>,
    flightPath: seq<FlightPathVector>)

  /**
   * A leg of the flight plan. `directTo` and `missedApproach` are the
   * DirectTo and MissedApproach bits of the leg's `LegDefinitionFlags`.
   */
  datatype LegDefinition = LegDefinition(
    name: Option<string>,
    legType: LegType,
    fixIcao: string,
    fixTypeFlags: nat,
    course: real,
    directTo: bool,
    missedApproach: bool,
    calculated: Option<LegCalculations>)

  datatype SegmentType =
    | Origin | Departure | Enroute | Arrival | Approach | Destination
    | MissedApproach | RandomDirectTo

  /** The per-row data record; altitudes are in metres, distances in metres. */
  datatype FixLegInfo = FixLegInfo(
    legDefinition: LegDefinition,
    isActive: bool,
    legIsBehind: bool,
    isCollapsed: bool,
    isAirwayFix: bool,
    isAirwayExitFix: bool,
    airwayDistance: Option<real>,
    segmentType: SegmentType,
    targetAltitude: Option<real>,
    invalidConstraintAltitude: Option<real>,
    isAdvisory: bool,
    isUserConstraint: bool)
}

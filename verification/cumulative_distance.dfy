// The cumulative-distance column of the wide flight-plan page.
//
// Every row maps its leg to a distance string, and all rows share one
// running total (a page-global variable in the original program).  A row
// either re-anchors that total to the distance remaining on the active leg,
// or advances it by its own leg's length, and then shows the total.  Here the
// global is the field `total` of a `RunningDistance` object, a row evaluation
// is its method `Evaluate`, and `NextTotal`/`Display` specify one evaluation.

module CumulativeDistance {
  import opened Wrappers
  import opened FlightPlan
  import opened Units
  import opened JsFormat

  /** What a row shows instead of a distance. */
  const NoDistance: string := "____"

  /** The outcome of one row evaluation: a distance string, or a TypeError. */
  datatype StepResult = Shown(text: string) | Threw

  /** `calculated?.distance ?? -1`, in metres. */
  function CalculatedDistance(leg: LegDefinition): real {
    match leg.calculated
    case Some(c) => c.distance
    case None => -1.0
  }

  /** The row shows no distance: its leg is behind the aircraft or has no computed length of at least 0.1 m. */
  predicate ShowsNoDistance(info: FixLegInfo): (none: bool)
    ensures info.legIsBehind || info.legDefinition.calculated.None? ==> none
    ensures !none <==>
              !info.legIsBehind && info.legDefinition.calculated.Some? && info.legDefinition.calculated.value.distance >= 0.1
  {
    info.legIsBehind || CalculatedDistance(info.legDefinition) < 0.1
  }

  /**
   * The row re-anchors the total: its leg is active, or its name equals the
   * current LNAV waypoint ident (`None` is the ident before any was received,
   * which equals no name).
   */
  predicate Reanchors(info: FixLegInfo, lnavWpt: Option<string>): (r: bool)
    ensures info.isActive ==> r
    ensures lnavWpt.None? || info.legDefinition.name.None? ==> (r <==> info.isActive)
    ensures !info.isActive ==> (r <==> info.legDefinition.name == lnavWpt && lnavWpt.Some?)
  {
    info.isActive || (lnavWpt.Some? && info.legDefinition.name == lnavWpt)
  }

  /** The row is the exit fix of an airway collapsed to one line. */
  predicate IsCollapsedAirwayExit(info: FixLegInfo) {
    info.isAirwayExitFix && info.isCollapsed
  }

  /** Decimals a total is shown with: one below 100 NM, none from 100 NM on. */
  function Decimals(total: real): nat {
    if total < 100.0 then 1 else 0
  }

  /** `total.toFixed(total < 100 ? 1 : 0)` */
  function DistanceText(total: real): (s: string)
    ensures ParseNumber(s) == Some(RoundedTo(total, Decimals(total)))
    ensures FractionDigits(s) == Decimals(total)
    ensures s != NoDistance
  {
    var s := FixedString(total, Decimals(total));
    assert s[0] != '_';
    s
  }

  /**
   * The amount, in NM, a row that advances the total adds to it: the airway's
   * aggregate distance for a collapsed airway exit fix, the last flight-path
   * vector for a hold, the leg's computed distance otherwise.  `None` is the
   * TypeError raised when a hold has a computed part with an empty path.
   */
  function Increment(info: FixLegInfo): (r: Option<real>)
    ensures IsCollapsedAirwayExit(info) ==>
              r.Some? && r.value * MetersPerNauticalMile == info.airwayDistance.GetOr(-1.0)
    ensures !IsCollapsedAirwayExit(info) && !IsHold(info.legDefinition.legType) ==>
              r.Some? && r.value * MetersPerNauticalMile == CalculatedDistance(info.legDefinition)
    ensures !IsCollapsedAirwayExit(info) && IsHold(info.legDefinition.legType) && info.legDefinition.calculated.None? ==>
              r == Some(0.0)
    ensures !IsCollapsedAirwayExit(info) && IsHold(info.legDefinition.legType) && info.legDefinition.calculated.Some? &&
            |info.legDefinition.calculated.value.flightPath| > 0 ==>
              var path := info.legDefinition.calculated.value.flightPath;
              r.Some? && r.value * MetersPerNauticalMile == path[|path| - 1].distance
    ensures r.None? <==>
              !IsCollapsedAirwayExit(info) && IsHold(info.legDefinition.legType) &&
              info.legDefinition.calculated.Some? && |info.legDefinition.calculated.value.flightPath| == 0
    ensures !ShowsNoDistance(info) && !IsCollapsedAirwayExit(info) && !IsHold(info.legDefinition.legType) ==>
              r.value > 0.0
  {
    var leg := info.legDefinition;
    if IsCollapsedAirwayExit(info) then
      Some(MetersToNm(info.airwayDistance.GetOr(-1.0)))
    else if IsHold(leg.legType) then
      match leg.calculated
      case None => Some(MetersToNm(0.0))
      case Some(c) =>
        if |c.flightPath| == 0 then None
        else Some(MetersToNm(c.flightPath[|c.flightPath| - 1].distance))
    else
      Some(MetersToNm(CalculatedDistance(leg)))
  }

  /** The running total after the row of `info` is evaluated with total `total` before it. */
  function NextTotal(total: real, info: FixLegInfo, lnavWpt: Option<string>, activeLegMeters: real): (r: real)
    ensures Reanchors(info, lnavWpt) ==> r * MetersPerNauticalMile == activeLegMeters
    ensures !Reanchors(info, lnavWpt) && (ShowsNoDistance(info) || Increment(info).None?) ==> r == total
    ensures !Reanchors(info, lnavWpt) && !ShowsNoDistance(info) && Increment(info).Some? ==>
              r - total == Increment(info).value
  {
    if Reanchors(info, lnavWpt) then
      MetersToNm(activeLegMeters)
    else if ShowsNoDistance(info) then
      total
    else
      match Increment(info)
      case Some(d) => total + d
      case None => total
  }

  /** What the row of `info` shows when evaluated with total `total` before it. */
  function Display(total: real, info: FixLegInfo, lnavWpt: Option<string>, activeLegMeters: real): (r: StepResult)
    ensures r == Shown(NoDistance) <==> ShowsNoDistance(info)
    ensures r == Threw <==>
              !ShowsNoDistance(info) && !Reanchors(info, lnavWpt) && Increment(info).None?
  {
    if ShowsNoDistance(info) then
      Shown(NoDistance)
    else if !Reanchors(info, lnavWpt) && Increment(info).None? then
      Threw
    else
      Shown(DistanceText(NextTotal(total, info, lnavWpt, activeLegMeters)))
  }

  /** A row that shows a distance shows the new running total, to one decimal below 100 NM and to none from 100 NM on. */
  lemma DisplayShowsTotal(total: real, info: FixLegInfo, lnavWpt: Option<string>, activeLegMeters: real)
    requires Display(total, info, lnavWpt, activeLegMeters).Shown?
    requires Display(total, info, lnavWpt, activeLegMeters) != Shown(NoDistance)
    ensures var t := NextTotal(total, info, lnavWpt, activeLegMeters);
            var text := Display(total, info, lnavWpt, activeLegMeters).text;
            ParseNumber(text) == Some(RoundedTo(t, Decimals(t))) && FractionDigits(text) == Decimals(t)
  {
    assert Display(total, info, lnavWpt, activeLegMeters).text == DistanceText(NextTotal(total, info, lnavWpt, activeLegMeters));
  }

  /** The page-global running total shared by all rows. */
  class RunningDistance {
    var total: real

    /** The total before the first evaluation. */
    constructor (initial: real)
      ensures total == initial
    {
      total := initial;
    }

    /** Evaluates one row: re-anchors or advances the total, and returns what the row shows. */
    method Evaluate(info: FixLegInfo, lnavWpt: Option<string>, activeLegMeters: real) returns (shown: StepResult)
      modifies this
      ensures total == NextTotal(old(total), info, lnavWpt, activeLegMeters)
      ensures shown == Display(old(total), info, lnavWpt, activeLegMeters)
    {
      var leg := info.legDefinition;
      if ShowsNoDistance(info) {
        if Reanchors(info, lnavWpt) {
          total := MetersToNm(activeLegMeters);
        }
        return Shown(NoDistance);
      }
      if Reanchors(info, lnavWpt) {
        total := MetersToNm(activeLegMeters);
      } else if IsCollapsedAirwayExit(info) {
        total := total + MetersToNm(info.airwayDistance.GetOr(-1.0));
      } else if IsHold(leg.legType) {
        var lastVector: real := 0.0;
        if leg.calculated.Some? {
          var path := leg.calculated.value.flightPath;
          if |path| == 0 {
            assert Increment(info).None?;
            return Threw;
          }
          lastVector := path[|path| - 1].distance;
        }
        assert Increment(info) == Some(MetersToNm(lastVector));
        total := total + MetersToNm(lastVector);
      } else {
        total := total + MetersToNm(CalculatedDistance(leg));
      }
      assert total == NextTotal(old(total), info, lnavWpt, activeLegMeters);
      shown := Shown(DistanceText(total));
    }

    /** Evaluates the rows of a route in order, as the page does on a full refresh. */
    method EvaluateRoute(legs: seq<FixLegInfo>, lnavWpt: Option<string>, activeLegMeters: real) returns (shown: seq<StepResult>)
      modifies this
      ensures total == RouteTotal(old(total), legs, lnavWpt, activeLegMeters)
      ensures shown == RouteDisplays(old(total), legs, lnavWpt, activeLegMeters)
    {
      shown := [];
      var i := 0;
      while i < |legs|
        invariant 0 <= i <= |legs|
        invariant total == RouteTotal(old(total), legs[..i], lnavWpt, activeLegMeters)
        invariant shown == RouteDisplays(old(total), legs[..i], lnavWpt, activeLegMeters)
      {
        RouteStep(old(total), legs, i, lnavWpt, activeLegMeters);
        var r := Evaluate(legs[i], lnavWpt, activeLegMeters);
        shown := shown + [r];
        i := i + 1;
      }
      assert legs[..i] == legs;
    }
  }

  // ---------------------------------------------------------------------
  // A pass over the rows in route order, starting from total `t0`

  /** The state after stepping through `xs` from `s0` with `next`. */
  function PassEnd<S, A>(s0: S, xs: seq<A>, next: (S, A) -> S): S
    decreases |xs|
  {
    if |xs| == 0 then s0 else PassEnd(next(s0, xs[0]), xs[1..], next)
  }

  /** What `show` gives for each element of `xs`, each seen with the state before it. */
  function PassShows<S, A, B>(s0: S, xs: seq<A>, next: (S, A) -> S, show: (S, A) -> B): (r: seq<B>)
    ensures |r| == |xs|
    decreases |xs|
  {
    if |xs| == 0 then [] else [show(s0, xs[0])] + PassShows(next(s0, xs[0]), xs[1..], next, show)
  }

  /** A pass ends where a pass over the rest ends, started from the state after the first `i` elements. */
  lemma {:induction false} PassEndSplit<S, A>(s0: S, xs: seq<A>, i: nat, next: (S, A) -> S)
    requires i <= |xs|
    ensures PassEnd(s0, xs, next) == PassEnd(PassEnd(s0, xs[..i], next), xs[i..], next)
    decreases i
  {
    if i > 0 {
      PassEndSplit(next(s0, xs[0]), xs[1..], i - 1, next);
      assert xs[1..][..i - 1] == xs[..i][1..] && xs[..i][0] == xs[0];
      assert xs[1..][i - 1..] == xs[i..];
    } else {
      assert xs[0..] == xs;
    }
  }

  lemma ConcatAssociative<T>(a: seq<T>, b: seq<T>, c: seq<T>)
    ensures a + (b + c) == (a + b) + c
  {
  }

  /** A pass shows what a pass over the first `i` elements shows, then what a pass over the rest shows. */
  lemma {:induction false} PassShowsSplit<S, A, B>(s0: S, xs: seq<A>, i: nat, next: (S, A) -> S, show: (S, A) -> B)
    requires i <= |xs|
    ensures PassShows(s0, xs, next, show) ==
            PassShows(s0, xs[..i], next, show) + PassShows(PassEnd(s0, xs[..i], next), xs[i..], next, show)
    decreases i
  {
    if i > 0 {
      var s1 := next(s0, xs[0]);
      var head := xs[..i];
      PassShowsSplit(s1, xs[1..], i - 1, next, show);
      assert xs[1..][..i - 1] == head[1..] && head[0] == xs[0];
      assert xs[1..][i - 1..] == xs[i..];
      var first := [show(s0, xs[0])];
      var a := PassShows(s1, head[1..], next, show);
      var b := PassShows(PassEnd(s0, head, next), xs[i..], next, show);
      ConcatAssociative(first, a, b);
    } else {
      assert xs[..0] == [] && xs[0..] == xs;
    }
  }

  /** One row evaluation's effect on the total, as a step of a pass. */
  function TotalStep(lnavWpt: Option<string>, activeLegMeters: real): (real, FixLegInfo) -> real {
    (t: real, info: FixLegInfo) => NextTotal(t, info, lnavWpt, activeLegMeters)
  }

  /** What one row evaluation shows, as a step of a pass. */
  function DisplayStep(lnavWpt: Option<string>, activeLegMeters: real): (real, FixLegInfo) -> StepResult {
    (t: real, info: FixLegInfo) => Display(t, info, lnavWpt, activeLegMeters)
  }

  /**
   * The running total after evaluating the rows of `legs` in order, from
   * total `t0`: `t0` for no rows, and the active-leg distance whenever the
   * last row re-anchors.
   */
  function RouteTotal(t0: real, legs: seq<FixLegInfo>, lnavWpt: Option<string>, activeLegMeters: real): (r: real)
    ensures |legs| == 0 ==> r == t0
    ensures |legs| > 0 && Reanchors(legs[|legs| - 1], lnavWpt) ==> r * MetersPerNauticalMile == activeLegMeters
  {
    var step := TotalStep(lnavWpt, activeLegMeters);
    if |legs| == 0 then PassEnd(t0, legs, step)
    else PassEndLast(t0, legs, step); PassEnd(t0, legs, step)
  }

  /** A pass ends with one step from where the pass over all but the last element ends. */
  lemma PassEndLast<S, A>(s0: S, xs: seq<A>, next: (S, A) -> S)
    requires |xs| > 0
    ensures PassEnd(s0, xs, next) == next(PassEnd(s0, xs[..|xs| - 1], next), xs[|xs| - 1])
  {
    var n := |xs| - 1;
    PassEndSplit(s0, xs, n, next);
    var last := xs[n..];
    assert last == [xs[n]] && last[1..] == [];
  }

  /** A pass shows, after what the pass over all but the last element shows, what the last element shows from where that pass ends. */
  lemma PassShowsLast<S, A, B>(s0: S, xs: seq<A>, next: (S, A) -> S, show: (S, A) -> B)
    requires |xs| > 0
    ensures PassShows(s0, xs, next, show) ==
            PassShows(s0, xs[..|xs| - 1], next, show) + [show(PassEnd(s0, xs[..|xs| - 1], next), xs[|xs| - 1])]
  {
    var n := |xs| - 1;
    PassShowsSplit(s0, xs, n, next, show);
    PassShowsSingle(PassEnd(s0, xs[..n], next), xs[n..], next, show);
  }

  /** A pass over one element shows what that element shows from the start. */
  lemma PassShowsSingle<S, A, B>(s0: S, xs: seq<A>, next: (S, A) -> S, show: (S, A) -> B)
    requires |xs| == 1
    ensures PassShows(s0, xs, next, show) == [show(s0, xs[0])]
  {
    assert PassShows(next(s0, xs[0]), xs[1..], next, show) == [];
  }

  /** What the rows of `legs` show when evaluated in order, from total `t0`. */
  function RouteDisplays(t0: real, legs: seq<FixLegInfo>, lnavWpt: Option<string>, activeLegMeters: real): (r: seq<StepResult>)
    ensures |r| == |legs|
  {
    PassShows(t0, legs, TotalStep(lnavWpt, activeLegMeters), DisplayStep(lnavWpt, activeLegMeters))
  }

  /** Evaluating one more row of a route in order: the pass over the first `i + 1` rows extends the pass over the first `i`. */
  lemma RouteStep(t0: real, legs: seq<FixLegInfo>, i: nat, lnavWpt: Option<string>, activeLegMeters: real)
    requires i < |legs|
    ensures var t := RouteTotal(t0, legs[..i], lnavWpt, activeLegMeters);
            RouteTotal(t0, legs[..i + 1], lnavWpt, activeLegMeters) == NextTotal(t, legs[i], lnavWpt, activeLegMeters) &&
            RouteDisplays(t0, legs[..i + 1], lnavWpt, activeLegMeters) ==
            RouteDisplays(t0, legs[..i], lnavWpt, activeLegMeters) + [Display(t, legs[i], lnavWpt, activeLegMeters)]
  {
    var front := legs[..i + 1];
    assert front[..|front| - 1] == legs[..i] && front[|front| - 1] == legs[i];
    PassEndLast(t0, front, TotalStep(lnavWpt, activeLegMeters));
    PassShowsLast(t0, front, TotalStep(lnavWpt, activeLegMeters), DisplayStep(lnavWpt, activeLegMeters));
  }

  /** A pass over a route ends where a pass over its rest ends, started from the total after its first `i` rows. */
  lemma RouteSplitTotal(t0: real, legs: seq<FixLegInfo>, i: nat, lnavWpt: Option<string>, activeLegMeters: real)
    requires i <= |legs|
    ensures RouteTotal(t0, legs, lnavWpt, activeLegMeters) ==
            RouteTotal(RouteTotal(t0, legs[..i], lnavWpt, activeLegMeters), legs[i..], lnavWpt, activeLegMeters)
  {
    PassEndSplit(t0, legs, i, TotalStep(lnavWpt, activeLegMeters));
  }

  /** A pass over a route shows what a pass over its first `i` rows shows, then what a pass over the rest shows. */
  lemma RouteSplit(t0: real, legs: seq<FixLegInfo>, i: nat, lnavWpt: Option<string>, activeLegMeters: real)
    requires i <= |legs|
    ensures RouteDisplays(t0, legs, lnavWpt, activeLegMeters) ==
            RouteDisplays(t0, legs[..i], lnavWpt, activeLegMeters) +
            RouteDisplays(RouteTotal(t0, legs[..i], lnavWpt, activeLegMeters), legs[i..], lnavWpt, activeLegMeters)
  {
    PassShowsSplit(t0, legs, i, TotalStep(lnavWpt, activeLegMeters), DisplayStep(lnavWpt, activeLegMeters));
  }

  /**
   * From a re-anchoring row on, a pass shows the same strings and ends with
   * the same total whatever total it started from.
   */
  lemma ReanchorForgetsHistory(t0: real, t1: real, legs: seq<FixLegInfo>, i: nat, lnavWpt: Option<string>, activeLegMeters: real)
    requires i < |legs| && Reanchors(legs[i], lnavWpt)
    ensures RouteDisplays(t0, legs, lnavWpt, activeLegMeters)[i..] == RouteDisplays(t1, legs, lnavWpt, activeLegMeters)[i..]
    ensures RouteTotal(t0, legs, lnavWpt, activeLegMeters) == RouteTotal(t1, legs, lnavWpt, activeLegMeters)
  {
    RouteSplit(t0, legs, i, lnavWpt, activeLegMeters);
    RouteSplit(t1, legs, i, lnavWpt, activeLegMeters);
    RouteSplitTotal(t0, legs, i, lnavWpt, activeLegMeters);
    RouteSplitTotal(t1, legs, i, lnavWpt, activeLegMeters);
    var m0 := RouteTotal(t0, legs[..i], lnavWpt, activeLegMeters);
    var m1 := RouteTotal(t1, legs[..i], lnavWpt, activeLegMeters);
    var rest := legs[i..];
    assert rest[0] == legs[i];
    assert NextTotal(m0, rest[0], lnavWpt, activeLegMeters) == NextTotal(m1, rest[0], lnavWpt, activeLegMeters);
    assert RouteDisplays(m0, rest, lnavWpt, activeLegMeters) == RouteDisplays(m1, rest, lnavWpt, activeLegMeters);
    assert |RouteDisplays(t0, legs[..i], lnavWpt, activeLegMeters)| == i;
    assert |RouteDisplays(t1, legs[..i], lnavWpt, activeLegMeters)| == i;
  }

  /** No row re-anchors and no row throws. */
  predicate PlainRoute(legs: seq<FixLegInfo>, lnavWpt: Option<string>) {
    forall k | 0 <= k < |legs| ::
      !Reanchors(legs[k], lnavWpt) && (ShowsNoDistance(legs[k]) || Increment(legs[k]).Some?)
  }

  /** The sum, in NM, of the increments of the rows that show a distance. */
  function Advance(legs: seq<FixLegInfo>): real
    decreases |legs|
  {
    if |legs| == 0 then 0.0
    else
      (if ShowsNoDistance(legs[0]) || Increment(legs[0]).None? then 0.0 else Increment(legs[0]).value) +
      Advance(legs[1..])
  }

  /** Without re-anchoring, a pass adds exactly one increment per row that shows a distance. */
  lemma {:induction false} PlainRouteSum(t0: real, legs: seq<FixLegInfo>, lnavWpt: Option<string>, activeLegMeters: real)
    requires PlainRoute(legs, lnavWpt)
    ensures RouteTotal(t0, legs, lnavWpt, activeLegMeters) == t0 + Advance(legs)
    decreases |legs|
  {
    if |legs| > 0 {
      assert PlainRoute(legs[1..], lnavWpt) by {
        forall k | 0 <= k < |legs[1..]|
          ensures !Reanchors(legs[1..][k], lnavWpt)
        {
          assert legs[1..][k] == legs[k + 1];
        }
      }
      PlainRouteSum(NextTotal(t0, legs[0], lnavWpt, activeLegMeters), legs[1..], lnavWpt, activeLegMeters);
    }
  }

  /** Every row's increment is non-negative. */
  predicate ForwardRoute(legs: seq<FixLegInfo>) {
    forall k | 0 <= k < |legs| ::
      ShowsNoDistance(legs[k]) || Increment(legs[k]).None? || Increment(legs[k]).value >= 0.0
  }

  lemma {:induction false} ForwardAdvance(legs: seq<FixLegInfo>)
    requires ForwardRoute(legs)
    ensures Advance(legs) >= 0.0
    decreases |legs|
  {
    if |legs| > 0 {
      assert ForwardRoute(legs[1..]) by {
        forall k | 0 <= k < |legs[1..]|
          ensures legs[1..][k] == legs[k + 1]
        {
        }
      }
      ForwardAdvance(legs[1..]);
    }
  }

  /** Without re-anchoring and with non-negative increments, the total never decreases along the route. */
  lemma TotalNondecreasing(t0: real, legs: seq<FixLegInfo>, i: nat, j: nat, lnavWpt: Option<string>, activeLegMeters: real)
    requires i <= j <= |legs| && PlainRoute(legs, lnavWpt) && ForwardRoute(legs)
    ensures RouteTotal(t0, legs[..i], lnavWpt, activeLegMeters) <= RouteTotal(t0, legs[..j], lnavWpt, activeLegMeters)
  {
    var front := legs[..j];
    assert front[..i] == legs[..i];
    assert PlainRoute(front, lnavWpt) && ForwardRoute(front) by {
      forall k | 0 <= k < |front|
        ensures front[k] == legs[k]
      {
      }
    }
    RouteSplitTotal(t0, front, i, lnavWpt, activeLegMeters);
    var mid := RouteTotal(t0, legs[..i], lnavWpt, activeLegMeters);
    var back := front[i..];
    assert PlainRoute(back, lnavWpt) && ForwardRoute(back) by {
      forall k | 0 <= k < |back|
        ensures back[k] == front[k + i]
      {
      }
    }
    PlainRouteSum(mid, back, lnavWpt, activeLegMeters);
    ForwardAdvance(back);
  }

  // ---------------------------------------------------------------------
  // Re-evaluating a row on its own

  /** A 1 NM track-to-fix leg that is neither active nor the LNAV waypoint. */
  function OneMileLeg(): FixLegInfo {
    FixLegInfo(
      LegDefinition(Some("ABC"), TF, "W    ABC", FixNone, 0.0, false, false,
        Some(LegCalculations(MetersPerNauticalMile, None, []))),
      false, false, false, false, false, None, Enroute, None, None, false, false)
  }

  /** Evaluating the 1 NM leg adds 1 NM to any total and shows the new total. */
  lemma OneMileAdvance(t: real)
    ensures NextTotal(t, OneMileLeg(), None, 0.0) == t + 1.0
    ensures Display(t, OneMileLeg(), None, 0.0) == Shown(DistanceText(t + 1.0))
  {
    var leg := OneMileLeg();
    assert !ShowsNoDistance(leg) && !Reanchors(leg, None) && !IsHold(leg.legDefinition.legType);
    assert CalculatedDistance(leg.legDefinition) == MetersPerNauticalMile;
  }

  /** Totals below 100 NM that are more than a tenth apart show different text. */
  lemma TenthsApart(a: real, b: real)
    requires a < 100.0 && b < 100.0 && a + 0.1 < b
    ensures DistanceText(a) != DistanceText(b)
  {
    assert Pow10(1) == 10;
    var x, y := RoundedTo(a, 1), RoundedTo(b, 1);
    assert Abs(x - a) * 10.0 <= 0.5 && Abs(y - b) * 10.0 <= 0.5;
    assert x < y;
  }

  /**
   * The total is not reset between evaluations, so a row that is evaluated
   * again without a re-anchoring row before it counts its own leg twice:
   * the 1 NM leg shows about 1.0, then about 2.0.
   */
  lemma RerunDrifts()
    ensures var leg := OneMileLeg();
            var first := Display(0.0, leg, None, 0.0);
            var second := Display(NextTotal(0.0, leg, None, 0.0), leg, None, 0.0);
            first.Shown? && second.Shown? && first != second
  {
    OneMileAdvance(0.0);
    OneMileAdvance(1.0);
    TenthsApart(1.0, 2.0);
  }

  /**
   * The distance a row evidently should show: the display of that row in one
   * in-order pass over the route, a function of the route alone.
   */
  function CumulativeAt(legs: seq<FixLegInfo>, i: nat, lnavWpt: Option<string>, activeLegMeters: real): (r: StepResult)
    requires i < |legs|
    ensures forall j: nat, t0: real | j <= i && Reanchors(legs[j], lnavWpt) ::
              r == RouteDisplays(t0, legs, lnavWpt, activeLegMeters)[i]
  {
    var r := RouteDisplays(0.0, legs, lnavWpt, activeLegMeters)[i];
    forall j: nat, t0: real | j <= i && Reanchors(legs[j], lnavWpt)
      ensures r == RouteDisplays(t0, legs, lnavWpt, activeLegMeters)[i]
    {
      ReanchorForgetsHistory(0.0, t0, legs, j, lnavWpt, activeLegMeters);
      assert RouteDisplays(0.0, legs, lnavWpt, activeLegMeters)[j..][i - j] == r;
    }
    r
  }

  /** Showing a row again gives the same string, whatever rows were evaluated in between. */
  lemma CumulativeStable(legs: seq<FixLegInfo>, i: nat, j: nat, lnavWpt: Option<string>, activeLegMeters: real, t0: real)
    requires j <= i < |legs| && Reanchors(legs[j], lnavWpt)
    ensures CumulativeAt(legs, i, lnavWpt, activeLegMeters) == RouteDisplays(t0, legs, lnavWpt, activeLegMeters)[i]
    ensures Display(RouteTotal(t0, legs[..i], lnavWpt, activeLegMeters), legs[i], lnavWpt, activeLegMeters) ==
            CumulativeAt(legs, i, lnavWpt, activeLegMeters)
  {
    RouteSplit(t0, legs, i, lnavWpt, activeLegMeters);
    var mid := RouteTotal(t0, legs[..i], lnavWpt, activeLegMeters);
    assert RouteDisplays(t0, legs, lnavWpt, activeLegMeters)[i] == RouteDisplays(mid, legs[i..], lnavWpt, activeLegMeters)[0];
    assert legs[i..][0] == legs[i];
  }
}

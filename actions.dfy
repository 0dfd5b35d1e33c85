/**
 * The pure part of convex/tripActions.ts: turning the routing provider's three
 * responses into per-mode second counts, the early exits of the refresh action,
 * and the fallback name of a stop. The provider itself is a parameter.
 */
module TripActions {
  import opened Schema
  import opened Tables

  /** The travel modes of a route request. */
  datatype TravelMode = TravelTransit | TravelWalk | TravelBicycle

  /** The order in which the refresh action requests routes. */
  const RequestOrder: seq<TravelMode> := [TravelTransit, TravelWalk, TravelBicycle]

  datatype LatLng = LatLng(latitude: Coord, longitude: Coord)

  /** One leg of a route; its duration's `seconds` when that is a string, and none otherwise. */
  datatype Leg = Leg(durationSeconds: Option<string>)

  datatype Route = Route(legs: Option<seq<Leg>>)

  /** A `computeRoutes` response: its optional list of routes. */
  datatype RouteResponse = RouteResponse(routes: Option<seq<Route>>)

  /** The argument of the `setTransitTimeEstimate` call the refresh action schedules. */
  datatype ScheduledEstimate = ScheduledEstimate(transitSeconds: Option<nat>, walkSeconds: Option<nat>, bicycleSeconds: Option<nat>)

  /** The `setStopName` call `getStopName` makes. */
  datatype StopNameUpdate = StopNameUpdate(stopId: StopId, name: string)

  // ---- parsing a leg's duration ----

  predicate IsDigit(c: char) {
    '0' <= c <= '9'
  }

  predicate AllDigits(s: string) {
    forall i :: 0 <= i < |s| ==> IsDigit(s[i])
  }

  function DigitValue(c: char): nat
    requires IsDigit(c)
  {
    (c as int) - ('0' as int)
  }

  function DigitChar(d: nat): (c: char)
    requires d < 10
    ensures IsDigit(c) && DigitValue(c) == d
  {
    (('0' as int) + d) as char
  }

  /** The decimal value of a digit string. */
  function DigitsValue(s: string): nat
    requires AllDigits(s)
    decreases |s|
  {
    if s == [] then 0 else 10 * DigitsValue(s[..|s| - 1]) + DigitValue(s[|s| - 1])
  }

  /** The shortest decimal representation of `n`. */
  function Decimal(n: nat): (s: string)
    ensures s != [] && AllDigits(s)
    decreases n
  {
    if n < 10 then [DigitChar(n)] else Decimal(n / 10) + [DigitChar(n % 10)]
  }

  /**
   * The number a leg's seconds string denotes: a non-empty string of decimal
   * digits parses to its value, anything else is rejected.
   */
  function ParseSeconds(s: string): (r: Option<nat>)
    ensures r.Some? <==> s != [] && AllDigits(s)
  {
    if s != [] && AllDigits(s) then Some(DigitsValue(s)) else None
  }

  /** Every count of seconds, written in decimal, parses back to itself. */
  lemma {:induction false} ParseDecimal(n: nat)
    ensures ParseSeconds(Decimal(n)) == Some(n)
    decreases n
  {
    var s := Decimal(n);
    if n >= 10 {
      ParseDecimal(n / 10);
      assert s[..|s| - 1] == Decimal(n / 10);
    } else {
      assert s[..|s| - 1] == [];
      assert DigitsValue(s) == 10 * DigitsValue([]) + DigitValue(s[0]);
    }
  }

  /** A leg's seconds: none when the duration is missing or does not parse. */
  function LegSeconds(leg: Leg): (r: Option<nat>)
    ensures leg.durationSeconds.None? ==> r.None?
    ensures leg.durationSeconds.Some? ==> r == ParseSeconds(leg.durationSeconds.value)
  {
    match leg.durationSeconds
    case None => None
    case Some(s) => ParseSeconds(s)
  }

  // ---- aggregating the legs of one mode ----

  /** `legs.map(...)`: each leg's seconds. */
  function LegsSeconds(legs: seq<Leg>): (r: seq<Option<nat>>)
    ensures |r| == |legs|
    ensures forall i :: 0 <= i < |legs| ==> r[i] == LegSeconds(legs[i])
  {
    if legs == [] then [] else [LegSeconds(legs[0])] + LegsSeconds(legs[1..])
  }

  /** `filter((s) => s != null)`: the present values, in order. */
  function PresentValues(xs: seq<Option<nat>>): (r: seq<nat>)
    ensures |r| <= |xs|
    ensures |r| == |xs| <==> forall i :: 0 <= i < |xs| ==> xs[i].Some?
    ensures forall v {:trigger v in r} :: v in r <==> Some(v) in xs
    ensures |r| == |xs| ==> forall i :: 0 <= i < |xs| ==> r[i] == xs[i].value
  {
    if xs == [] then []
    else if xs[0].Some? then [xs[0].value] + PresentValues(xs[1..])
    else PresentValues(xs[1..])
  }

  /** The total of the values: zero for none, and no smaller than any one of them. */
  function Sum(xs: seq<nat>): (r: nat)
    ensures xs == [] ==> r == 0
    ensures forall i :: 0 <= i < |xs| ==> xs[i] <= r
  {
    if xs == [] then 0 else xs[0] + Sum(xs[1..])
  }

  /** `reduce((acc, val) => acc + val, acc)`: a left-to-right fold from `acc`. */
  function Reduce(acc: nat, xs: seq<nat>): (r: nat)
    ensures acc <= r
    ensures xs == [] ==> r == acc
    decreases |xs|
  {
    if xs == [] then acc else Reduce(acc + xs[0], xs[1..])
  }

  /** The fold from zero is the sum. */
  lemma {:induction false} ReduceIsSum(acc: nat, xs: seq<nat>)
    ensures Reduce(acc, xs) == acc + Sum(xs)
    decreases |xs|
  {
    if xs != [] {
      ReduceIsSum(acc + xs[0], xs[1..]);
    }
  }

  /**
   * The seconds of one mode: none when any leg's duration is missing or does
   * not parse, otherwise the sum of the legs' seconds (zero for no legs).
   */
  function ModeSeconds(legs: seq<Leg>): (r: Option<nat>)
    ensures r.None? <==> exists i :: 0 <= i < |legs| && LegSeconds(legs[i]).None?
    ensures legs == [] ==> r == Some(0)
  {
    var legsSeconds := LegsSeconds(legs);
    var present := PresentValues(legsSeconds);
    if |legsSeconds| != |present| then None else Some(Sum(present))
  }

  /** Reference definition: the total of the legs' seconds, failing on the first leg that fails. */
  function TotalSeconds(legs: seq<Leg>): Option<nat> {
    if legs == [] then Some(0)
    else match (LegSeconds(legs[0]), TotalSeconds(legs[1..]))
      case (Some(a), Some(b)) => Some(a + b)
      case _ => None
  }

  /** The map/filter/length-check/reduce pipeline computes the reference total. */
  lemma {:induction false} ModeSecondsIsTotal(legs: seq<Leg>)
    ensures ModeSeconds(legs) == TotalSeconds(legs)
    decreases |legs|
  {
    if legs != [] {
      ModeSecondsIsTotal(legs[1..]);
      var xs := LegsSeconds(legs);
      assert xs[1..] == LegsSeconds(legs[1..]);
      if xs[0].Some? {
        assert PresentValues(xs) == [xs[0].value] + PresentValues(xs[1..]);
      }
    }
  }

  /**
   * `resp.routes?.[0].legs ?? []`: the legs of the first route, none when
   * `routes` is an empty list (the source then reads `legs` of `undefined` and
   * the action fails).
   */
  function FirstRouteLegs(resp: RouteResponse): (r: Option<seq<Leg>>)
    ensures resp.routes.None? ==> r == Some([])
    ensures resp.routes.Some? && resp.routes.value != [] ==> r == Some(resp.routes.value[0].legs.GetOr([]))
    ensures r.None? <==> resp.routes == Some([])
  {
    match resp.routes
    case None => Some([])
    case Some(rs) => if rs == [] then None else Some(rs[0].legs.GetOr([]))
  }

  /**
   * A response's seconds for its mode: none as a result exactly when the
   * action fails on it (an empty route list), zero for a response without
   * routes, otherwise the seconds of the first route's legs.
   */
  function ResponseSeconds(resp: RouteResponse): (r: Option<Option<nat>>)
    ensures r.None? <==> resp.routes == Some([])
    ensures resp.routes.None? ==> r == Some(Some(0))
    ensures resp.routes.Some? && resp.routes.value != [] ==>
      r == Some(ModeSeconds(resp.routes.value[0].legs.GetOr([])))
  {
    match FirstRouteLegs(resp)
    case None => None
    case Some(legs) => Some(ModeSeconds(legs))
  }

  // ---- the refresh action ----

  /**
   * `refreshTransitTimeEstimates`: look both stops up, request a route for each
   * travel mode in the order transit, walk, bicycle, aggregate each response,
   * and schedule the write of the three counts unless the results are to be
   * thrown away. The provider answers none for a request that is rejected;
   * the requests are awaited together, so one rejection fails the action.
   * None means no write is scheduled.
   */
  function RefreshTransitTimeEstimates(stops: seq<StopRow>, stopIdFirst: StopId, stopIdSecond: StopId,
                                       throwAwayResults: Option<bool>,
                                       computeRoutes: (LatLng, LatLng, TravelMode) -> Option<RouteResponse>): (r: Option<ScheduledEstimate>)
    ensures GetStopById(stops, stopIdFirst).None? || GetStopById(stops, stopIdSecond).None? ==> r.None?
    ensures throwAwayResults == Some(true) ==> r.None?
    ensures r.Some? ==>
      var first := GetStopById(stops, stopIdFirst).value;
      var second := GetStopById(stops, stopIdSecond).value;
      var origin := LatLng(first.lat, first.lng);
      var destination := LatLng(second.lat, second.lng);
      && computeRoutes(origin, destination, TravelTransit).Some?
      && computeRoutes(origin, destination, TravelWalk).Some?
      && computeRoutes(origin, destination, TravelBicycle).Some?
      && ResponseSeconds(computeRoutes(origin, destination, TravelTransit).value) == Some(r.value.transitSeconds)
      && ResponseSeconds(computeRoutes(origin, destination, TravelWalk).value) == Some(r.value.walkSeconds)
      && ResponseSeconds(computeRoutes(origin, destination, TravelBicycle).value) == Some(r.value.bicycleSeconds)
  {
    var first := GetStopById(stops, stopIdFirst);
    var second := GetStopById(stops, stopIdSecond);
    if first.None? || second.None? then None
    else
      var origin := LatLng(first.value.lat, first.value.lng);
      var destination := LatLng(second.value.lat, second.value.lng);
      var routeResps := seq(|RequestOrder|, i requires 0 <= i < |RequestOrder| =>
        computeRoutes(origin, destination, RequestOrder[i]));
      if exists i :: 0 <= i < |RequestOrder| && routeResps[i].None? then None
      else
        var routeDurationSeconds := seq(|RequestOrder|, i requires 0 <= i < |RequestOrder| =>
          ResponseSeconds(routeResps[i].value));
        if exists i :: 0 <= i < |RequestOrder| && routeDurationSeconds[i].None? then None
        else if throwAwayResults == Some(true) then None
        else
          Some(ScheduledEstimate(routeDurationSeconds[0].value, routeDurationSeconds[1].value, routeDurationSeconds[2].value))
  }

  /** The position of a travel mode in the request order. */
  function RequestIndex(m: TravelMode): (i: nat)
    ensures i < |RequestOrder| && RequestOrder[i] == m
  {
    match m
    case TravelTransit => 0
    case TravelWalk => 1
    case TravelBicycle => 2
  }

  /**
   * With both stops present and the results kept, a write is scheduled exactly
   * when every request succeeds and no response has an empty route list.
   */
  lemma RefreshSchedules(stops: seq<StopRow>, stopIdFirst: StopId, stopIdSecond: StopId,
                         throwAwayResults: Option<bool>,
                         computeRoutes: (LatLng, LatLng, TravelMode) -> Option<RouteResponse>)
    requires GetStopById(stops, stopIdFirst).Some? && GetStopById(stops, stopIdSecond).Some?
    requires throwAwayResults != Some(true)
    ensures var origin := LatLng(GetStopById(stops, stopIdFirst).value.lat, GetStopById(stops, stopIdFirst).value.lng);
      var destination := LatLng(GetStopById(stops, stopIdSecond).value.lat, GetStopById(stops, stopIdSecond).value.lng);
      RefreshTransitTimeEstimates(stops, stopIdFirst, stopIdSecond, throwAwayResults, computeRoutes).Some? <==>
        forall m :: computeRoutes(origin, destination, m).Some? && computeRoutes(origin, destination, m).value.routes != Some([])
  {
    var origin := LatLng(GetStopById(stops, stopIdFirst).value.lat, GetStopById(stops, stopIdFirst).value.lng);
    var destination := LatLng(GetStopById(stops, stopIdSecond).value.lat, GetStopById(stops, stopIdSecond).value.lng);
    if forall m :: computeRoutes(origin, destination, m).Some? && computeRoutes(origin, destination, m).value.routes != Some([]) {
      assert forall i :: 0 <= i < |RequestOrder| ==> computeRoutes(origin, destination, RequestOrder[i]).Some?;
      assert forall i :: 0 <= i < |RequestOrder| ==> ResponseSeconds(computeRoutes(origin, destination, RequestOrder[i]).value).Some?;
    } else {
      var m :| !(computeRoutes(origin, destination, m).Some? && computeRoutes(origin, destination, m).value.routes != Some([]));
      var i := RequestIndex(m);
      assert RequestOrder[i] == m;
    }
  }

  /**
   * One rejected request suppresses the whole write: the modes whose requests
   * succeeded are not written either.
   */
  lemma RejectedRequestWritesNothing(stops: seq<StopRow>, stopIdFirst: StopId, stopIdSecond: StopId,
                                     throwAwayResults: Option<bool>,
                                     computeRoutes: (LatLng, LatLng, TravelMode) -> Option<RouteResponse>, m: TravelMode)
    requires GetStopById(stops, stopIdFirst).Some? && GetStopById(stops, stopIdSecond).Some?
    requires computeRoutes(LatLng(GetStopById(stops, stopIdFirst).value.lat, GetStopById(stops, stopIdFirst).value.lng),
                           LatLng(GetStopById(stops, stopIdSecond).value.lat, GetStopById(stops, stopIdSecond).value.lng), m).None?
    ensures RefreshTransitTimeEstimates(stops, stopIdFirst, stopIdSecond, throwAwayResults, computeRoutes).None?
  {
  }

  // ---- getStopName ----

  /** `getStopName`: rename the stop to the provider's name for the place, or to `'Place'` when there is none. */
  function GetStopName(stopId: StopId, placeName: Option<string>): (r: StopNameUpdate)
    ensures r.stopId == stopId
    ensures placeName.Some? ==> r.name == placeName.value
    ensures placeName.None? ==> r.name == "Place"
  {
    StopNameUpdate(stopId, placeName.GetOr("Place"))
  }
}

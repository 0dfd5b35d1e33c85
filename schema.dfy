/**
 * The documents of the four tables the transit-estimate subsystem works on
 * (trips, stops, transitTimes, tripSteps) and the values stored in them.
 */
module Schema {

  datatype Option<+T> = None | Some(value: T) {
    /** The wrapped value, or `default` when there is none (JavaScript's `??`). */
    function GetOr(default: T): T {
      match this
      case Some(v) => v
      case None => default
    }
  }

  /** Document identifiers. The store hands out fresh ones on every insert. */
  type Id = nat
  type TripId = Id
  type StopId = Id
  type TransitTimeId = Id
  type TripStepId = Id

  /**
   * Latitude and longitude are floating-point numbers in the source; the model
   * never computes with them, so an opaque integer stands in for each.
   */
  type Coord = int

  /** The three trip modes an estimate is computed for, and that a user can select. */
  datatype Mode = Walk | Transit | Bicycle

  /** The modes, in the order the step rows of an estimate are written. */
  const TripModes: seq<Mode> := [Walk, Transit, Bicycle]

  /** The travel mode of one sub-leg (`stepMode`), with an `unknown` fallback. */
  datatype StepMode = StepTransit | StepBicycle | StepWalk | StepUnknown

  /** One sub-leg as it is handed to `setTransitTimeEstimate` (`stepSchema`). */
  datatype Step = Step(stepMode: StepMode, seconds: nat, polyline: Option<string>)

  /**
   * The value of a transitTimes document's `estimate` field:
   * `null` (Absent), a `list` of per-mode seconds, or a user `selection`.
   */
  datatype Estimate =
    | Absent
    | List(walkSeconds: Option<nat>, transitSeconds: Option<nat>, bicycleSeconds: Option<nat>)
    | Selection(mode: Mode, seconds: Option<nat>)

  datatype TripRow = TripRow(id: TripId, slug: string, stops: seq<StopId>)

  datatype StopRow = StopRow(id: StopId, name: Option<string>, lat: Coord, lng: Coord, tripId: TripId)

  datatype TransitTimeRow = TransitTimeRow(id: TransitTimeId, stopIdFirst: StopId, stopIdSecond: StopId, estimate: Estimate)

  datatype TripStepRow = TripStepRow(
    id: TripStepId,
    transitTimeId: TransitTimeId,
    tripMode: Mode,
    stepIndex: nat,
    stepMode: StepMode,
    seconds: nat,
    polyline: Option<string>)

  /** What `setTransitTimeEstimate` receives for one mode: its seconds and its steps. */
  datatype ModeEstimate = ModeEstimate(seconds: Option<nat>, steps: seq<Step>)

  /** The `estimate` argument of `setTransitTimeEstimate`. */
  datatype EstimateInput = EstimateInput(walk: ModeEstimate, transit: ModeEstimate, bicycle: ModeEstimate) {
    /** `params.estimate[mode]` */
    function Of(m: Mode): ModeEstimate {
      match m
      case Walk => walk
      case Transit => transit
      case Bicycle => bicycle
    }
  }

  /** Jobs handed to the scheduler; the model records them instead of running them. */
  datatype Job =
    | FetchStopName(stopId: StopId, placeId: string)
    | RefreshEstimate(stopIdFirst: StopId, stopIdSecond: StopId)
}

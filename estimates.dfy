/**
 * How the estimate mutations of convex/trips.ts change the transitTimes and
 * tripSteps tables, as functions from the old table to the new one, with the
 * properties each change has.
 */
module Estimates {
  import opened Schema
  import opened Tables

  /** At most one transitTimes row per ordered stop pair. */
  ghost predicate PairsUnique(tts: seq<TransitTimeRow>) {
    forall i, j :: 0 <= i < j < |tts| ==>
      !(tts[i].stopIdFirst == tts[j].stopIdFirst && tts[i].stopIdSecond == tts[j].stopIdSecond)
  }

  /** The row `j` belongs to the ordered pair (a, b). */
  predicate IsPair(tts: seq<TransitTimeRow>, j: nat, a: StopId, b: StopId)
    requires j < |tts|
  {
    tts[j].stopIdFirst == a && tts[j].stopIdSecond == b
  }

  /**
   * The transitTimes table after looking up the pair's row and either patching
   * its estimate or, when there is none, inserting a row with id `freshId`.
   */
  function UpsertEstimate(tts: seq<TransitTimeRow>, a: StopId, b: StopId, e: Estimate, freshId: TransitTimeId): (r: seq<TransitTimeRow>)
    ensures PairIndex(r, a, b).Some? && r[PairIndex(r, a, b).value].estimate == e
    ensures PairIndex(tts, a, b).None? <==> |r| == |tts| + 1
    ensures PairIndex(tts, a, b).None? ==> r[PairIndex(r, a, b).value].id == freshId
    ensures PairIndex(tts, a, b).Some? ==> |r| == |tts| && PairIndex(r, a, b) == PairIndex(tts, a, b)
    ensures forall j :: 0 <= j < |tts| ==> r[j].id == tts[j].id && IsPair(r, j, tts[j].stopIdFirst, tts[j].stopIdSecond)
    ensures forall j :: 0 <= j < |tts| && !IsPair(tts, j, a, b) ==> r[j] == tts[j]
  {
    var p := (t: TransitTimeRow) => t.stopIdFirst == a && t.stopIdSecond == b;
    match PairIndex(tts, a, b)
    case None =>
      FirstIndexAppend(tts, TransitTimeRow(freshId, a, b, e), p);
      tts + [TransitTimeRow(freshId, a, b, e)]
    case Some(i) =>
      FirstIndexUpdate(tts, i, tts[i].(estimate := e), p);
      tts[i := tts[i].(estimate := e)]
  }

  /**
   * After an upsert the pair has exactly one row, holding `e`; that row is the
   * old one (same id) if there was one and a new row with `freshId` otherwise;
   * every other row is unchanged and the table grows only when the pair was new.
   */
  lemma UpsertEstimateSpec(tts: seq<TransitTimeRow>, a: StopId, b: StopId, e: Estimate, freshId: TransitTimeId)
    requires PairsUnique(tts)
    ensures var r := UpsertEstimate(tts, a, b, e, freshId);
      && PairsUnique(r)
      && PairIndex(r, a, b).Some?
      && var i := PairIndex(r, a, b).value;
      && r[i].estimate == e
      && (forall j :: 0 <= j < |r| && IsPair(r, j, a, b) ==> j == i)
      && (match PairIndex(tts, a, b)
          case None => |r| == |tts| + 1 && r[i].id == freshId
          case Some(k) => |r| == |tts| && i == k && r[i].id == tts[k].id)
      && (forall j :: 0 <= j < |tts| && !IsPair(tts, j, a, b) ==> r[j] == tts[j])
  {
  }

  // ---- selectTransitTimeEstimateMode ----

  /** `estimate?.[`${mode}Seconds`] ?? null` */
  function SecondsOf(e: Estimate, m: Mode): (r: Option<nat>)
    ensures !e.List? ==> r.None?
    ensures e.List? && m == Walk ==> r == e.walkSeconds
    ensures e.List? && m == Transit ==> r == e.transitSeconds
    ensures e.List? && m == Bicycle ==> r == e.bicycleSeconds
  {
    match e
    case List(w, t, b) => (match m case Walk => w case Transit => t case Bicycle => b)
    case _ => None
  }

  /**
   * The estimate `selectTransitTimeEstimateMode` writes over `e`, or None when
   * its guard returns without writing.
   */
  function SelectedEstimate(e: Estimate, m: Mode): (r: Option<Estimate>)
    ensures r.None? <==> e.Selection?
    ensures e.Absent? ==> r == Some(Selection(m, None))
    ensures e.List? && m == Walk ==> r == Some(Selection(Walk, e.walkSeconds))
    ensures e.List? && m == Transit ==> r == Some(Selection(Transit, e.transitSeconds))
    ensures e.List? && m == Bicycle ==> r == Some(Selection(Bicycle, e.bicycleSeconds))
  {
    // only a `list` estimate carries the per-mode seconds the guard asks for
    if e != Absent && !e.List? then None
    else Some(Selection(m, SecondsOf(e, m)))
  }

  /** The transitTimes table after `selectTransitTimeEstimateMode(a, b, m)`. */
  function SelectInTable(tts: seq<TransitTimeRow>, a: StopId, b: StopId, m: Mode): (r: seq<TransitTimeRow>)
    ensures |r| == |tts|
    ensures forall j :: 0 <= j < |tts| ==> r[j].id == tts[j].id && IsPair(r, j, tts[j].stopIdFirst, tts[j].stopIdSecond)
    ensures forall j :: 0 <= j < |tts| && !IsPair(tts, j, a, b) ==> r[j] == tts[j]
    ensures PairIndex(tts, a, b).None? ==> r == tts
  {
    match PairIndex(tts, a, b)
    case None => tts
    case Some(i) =>
      match SelectedEstimate(tts[i].estimate, m)
      case None => tts
      case Some(e) => tts[i := tts[i].(estimate := e)]
  }

  /**
   * Selecting changes at most the estimate of the pair's row: nothing when
   * there is no row or it already holds a selection, otherwise the row now
   * holds the selection for `m`. Ids, pairs and all other rows stay as they were.
   */
  lemma SelectInTableSpec(tts: seq<TransitTimeRow>, a: StopId, b: StopId, m: Mode)
    requires PairsUnique(tts)
    ensures var r := SelectInTable(tts, a, b, m);
      && PairsUnique(r)
      && |r| == |tts|
      && PairIndex(r, a, b) == PairIndex(tts, a, b)
      && (forall j :: 0 <= j < |tts| ==> r[j].id == tts[j].id && IsPair(r, j, tts[j].stopIdFirst, tts[j].stopIdSecond))
      && (forall j :: 0 <= j < |tts| && !IsPair(tts, j, a, b) ==> r[j] == tts[j])
      && (match PairIndex(tts, a, b)
          case None => r == tts
          case Some(i) =>
            if tts[i].estimate.Selection? then r == tts
            else r[i].estimate == Selection(m, SecondsOf(tts[i].estimate, m)))
  {
  }

  /**
   * Once a pair holds a selection, selecting again changes nothing: a new mode
   * can only be chosen after the estimate is recomputed into a `list`.
   */
  lemma SelectAgainIsNoOp(tts: seq<TransitTimeRow>, a: StopId, b: StopId, m1: Mode, m2: Mode)
    requires PairsUnique(tts)
    ensures var once := SelectInTable(tts, a, b, m1);
      SelectInTable(once, a, b, m2) == once
  {
  }

  // ---- setTransitTimeEstimate: replacing the step rows ----

  /** The rows inserted for one mode: indices 0..n-1 and consecutive fresh ids from `firstId`. */
  function ModeRows(tt: TransitTimeId, m: Mode, steps: seq<Step>, firstId: Id): (r: seq<TripStepRow>)
    ensures |r| == |steps| && Contiguous(r)
    ensures forall k :: 0 <= k < |r| ==>
      && r[k].id == firstId + k && r[k].transitTimeId == tt && r[k].tripMode == m
      && r[k].stepMode == steps[k].stepMode && r[k].seconds == steps[k].seconds && r[k].polyline == steps[k].polyline
  {
    seq(|steps|, k requires 0 <= k < |steps| =>
      TripStepRow(firstId + k, tt, m, k, steps[k].stepMode, steps[k].seconds, steps[k].polyline))
  }

  /** The number of steps `e` holds for the modes `ms`. */
  function StepCount(e: EstimateInput, ms: seq<Mode>): nat
    decreases |ms|
  {
    if ms == [] then 0 else StepCount(e, ms[..|ms| - 1]) + |e.Of(ms[|ms| - 1]).steps|
  }

  /** The rows inserted for the modes `ms`, one mode after the other. */
  function RowsForModes(tt: TransitTimeId, e: EstimateInput, ms: seq<Mode>, firstId: Id): (r: seq<TripStepRow>)
    ensures |r| == StepCount(e, ms)
    ensures forall k :: 0 <= k < |r| ==> r[k].transitTimeId == tt && firstId <= r[k].id < firstId + StepCount(e, ms)
    decreases |ms|
  {
    if ms == [] then []
    else
      var init := ms[..|ms| - 1];
      var m := ms[|ms| - 1];
      RowsForModes(tt, e, init, firstId) + ModeRows(tt, m, e.Of(m).steps, firstId + StepCount(e, init))
  }

  /** The tripSteps table after the old steps of `tt` are deleted and those of `e` inserted. */
  function ReplaceSteps(steps: seq<TripStepRow>, tt: TransitTimeId, e: EstimateInput, firstId: Id): (r: seq<TripStepRow>)
    ensures |r| == |DeleteSteps(steps, tt)| + StepCount(e, TripModes)
    ensures r[..|DeleteSteps(steps, tt)|] == DeleteSteps(steps, tt)
    ensures forall k :: 0 <= k < |r| ==> (r[k].transitTimeId == tt <==> k >= |DeleteSteps(steps, tt)|)
    ensures forall k :: |DeleteSteps(steps, tt)| <= k < |r| ==> firstId <= r[k].id < firstId + StepCount(e, TripModes)
  {
    var kept := DeleteSteps(steps, tt);
    assert forall k :: 0 <= k < |kept| ==> kept[k].transitTimeId != tt by {
      forall k | 0 <= k < |kept| ensures kept[k].transitTimeId != tt {
        assert kept[k] in kept;
      }
    }
    kept + RowsForModes(tt, e, TripModes, firstId)
  }

  /** The id the first inserted step of mode `m` receives. */
  function FirstIdOf(e: EstimateInput, m: Mode, firstId: Id): Id {
    match m
    case Walk => firstId
    case Transit => firstId + |e.walk.steps|
    case Bicycle => firstId + |e.walk.steps| + |e.transit.steps|
  }

  /** The step indices of each (transit time, trip mode) group are 0, 1, ..., n-1 in order. */
  ghost predicate Contiguous(g: seq<TripStepRow>) {
    forall k :: 0 <= k < |g| ==> g[k].stepIndex == k
  }

  ghost predicate StepsContiguous(steps: seq<TripStepRow>) {
    forall tt, m :: Contiguous(Group(steps, tt, m))
  }

  /** Adding one step to the end of a mode's input adds one row to the end of its rows. */
  lemma ModeRowsSnoc(tt: TransitTimeId, m: Mode, steps: seq<Step>, k: nat, firstId: Id)
    requires k < |steps|
    ensures ModeRows(tt, m, steps[..k + 1], firstId) ==
            ModeRows(tt, m, steps[..k], firstId) +
            [TripStepRow(firstId + k, tt, m, k, steps[k].stepMode, steps[k].seconds, steps[k].polyline)]
  {
  }

  /** The rows for the three modes, spelled out. */
  lemma RowsForTripModes(tt: TransitTimeId, e: EstimateInput, firstId: Id)
    ensures RowsForModes(tt, e, TripModes, firstId) ==
            ModeRows(tt, Walk, e.walk.steps, FirstIdOf(e, Walk, firstId)) +
            ModeRows(tt, Transit, e.transit.steps, FirstIdOf(e, Transit, firstId)) +
            ModeRows(tt, Bicycle, e.bicycle.steps, FirstIdOf(e, Bicycle, firstId))
    ensures StepCount(e, TripModes) == |e.walk.steps| + |e.transit.steps| + |e.bicycle.steps|
  {
  }

  /** The group of `tt`, `m` in one mode's rows: all of them for that mode, none otherwise. */
  lemma GroupOfModeRows(tt: TransitTimeId, m': Mode, steps: seq<Step>, firstId: Id, tt2: TransitTimeId, m: Mode)
    ensures Group(ModeRows(tt, m', steps, firstId), tt2, m) ==
            if tt2 == tt && m == m' then ModeRows(tt, m', steps, firstId) else []
  {
    var rows := ModeRows(tt, m', steps, firstId);
    var p := (r: TripStepRow) => r.transitTimeId == tt2 && r.tripMode == m;
    if tt2 == tt && m == m' {
      FilterAll(rows, p);
    } else {
      FilterNone(rows, p);
    }
  }

  /** No inserted row belongs to another transit time. */
  lemma DeleteStepsOfModeRows(tt: TransitTimeId, m: Mode, steps: seq<Step>, firstId: Id)
    ensures DeleteSteps(ModeRows(tt, m, steps, firstId), tt) == []
  {
    FilterNone(ModeRows(tt, m, steps, firstId), (r: TripStepRow) => r.transitTimeId != tt);
  }

  /** The rows `ReplaceSteps` inserts, mode by mode. */
  lemma ReplaceStepsShape(steps: seq<TripStepRow>, tt: TransitTimeId, e: EstimateInput, firstId: Id)
    ensures ReplaceSteps(steps, tt, e, firstId) ==
            DeleteSteps(steps, tt) +
            ModeRows(tt, Walk, e.walk.steps, FirstIdOf(e, Walk, firstId)) +
            ModeRows(tt, Transit, e.transit.steps, FirstIdOf(e, Transit, firstId)) +
            ModeRows(tt, Bicycle, e.bicycle.steps, FirstIdOf(e, Bicycle, firstId))
  {
    RowsForTripModes(tt, e, firstId);
  }

  /** The group of four concatenated tables is the concatenation of their groups. */
  lemma GroupOfFour(a: seq<TripStepRow>, b: seq<TripStepRow>, c: seq<TripStepRow>, d: seq<TripStepRow>, tt: TransitTimeId, m: Mode)
    ensures Group(a + b + c + d, tt, m) == Group(a, tt, m) + Group(b, tt, m) + Group(c, tt, m) + Group(d, tt, m)
  {
    GroupAppend(a + b + c, d, tt, m);
    GroupAppend(a + b, c, tt, m);
    GroupAppend(a, b, tt, m);
  }

  /** The groups of the kept rows followed by the three modes' new rows. */
  lemma GroupOfInserted(steps: seq<TripStepRow>, tt: TransitTimeId, e: EstimateInput, firstId: Id, tt': TransitTimeId, m: Mode)
    ensures Group(DeleteSteps(steps, tt) +
                  ModeRows(tt, Walk, e.walk.steps, FirstIdOf(e, Walk, firstId)) +
                  ModeRows(tt, Transit, e.transit.steps, FirstIdOf(e, Transit, firstId)) +
                  ModeRows(tt, Bicycle, e.bicycle.steps, FirstIdOf(e, Bicycle, firstId)), tt', m) ==
            if tt' == tt then ModeRows(tt, m, e.Of(m).steps, FirstIdOf(e, m, firstId))
            else Group(steps, tt', m)
  {
    var del := DeleteSteps(steps, tt);
    var w := ModeRows(tt, Walk, e.walk.steps, FirstIdOf(e, Walk, firstId));
    var t := ModeRows(tt, Transit, e.transit.steps, FirstIdOf(e, Transit, firstId));
    var b := ModeRows(tt, Bicycle, e.bicycle.steps, FirstIdOf(e, Bicycle, firstId));
    GroupOfFour(del, w, t, b, tt', m);
    GroupAfterDelete(steps, tt, tt', m);
    GroupOfModeRows(tt, Walk, e.walk.steps, FirstIdOf(e, Walk, firstId), tt', m);
    GroupOfModeRows(tt, Transit, e.transit.steps, FirstIdOf(e, Transit, firstId), tt', m);
    GroupOfModeRows(tt, Bicycle, e.bicycle.steps, FirstIdOf(e, Bicycle, firstId), tt', m);
  }

  /**
   * After the replacement, the group of (tt, m) is exactly the rows built from
   * the given steps of mode `m`, and the group of every other transit time is
   * what it was.
   */
  lemma ReplaceStepsGroup(steps: seq<TripStepRow>, tt: TransitTimeId, e: EstimateInput, firstId: Id, tt': TransitTimeId, m: Mode)
    ensures Group(ReplaceSteps(steps, tt, e, firstId), tt', m) ==
            if tt' == tt then ModeRows(tt, m, e.Of(m).steps, FirstIdOf(e, m, firstId))
            else Group(steps, tt', m)
  {
    ReplaceStepsShape(steps, tt, e, firstId);
    GroupOfInserted(steps, tt, e, firstId, tt', m);
  }

  /**
   * For every mode, the steps of `tt` are exactly the given steps of that mode,
   * in input order, with `tripMode` the mode and `stepIndex` 0..n-1.
   */
  lemma ReplaceStepsContents(steps: seq<TripStepRow>, tt: TransitTimeId, e: EstimateInput, firstId: Id, m: Mode)
    ensures var g := Group(ReplaceSteps(steps, tt, e, firstId), tt, m);
      && |g| == |e.Of(m).steps|
      && forall k :: 0 <= k < |g| ==>
           && g[k].tripMode == m
           && g[k].stepIndex == k
           && g[k].stepMode == e.Of(m).steps[k].stepMode
           && g[k].seconds == e.Of(m).steps[k].seconds
           && g[k].polyline == e.Of(m).steps[k].polyline
  {
    ReplaceStepsGroup(steps, tt, e, firstId, tt, m);
  }

  /** The steps of every other transit time are untouched, in their order. */
  lemma ReplaceStepsUntouched(steps: seq<TripStepRow>, tt: TransitTimeId, e: EstimateInput, firstId: Id)
    ensures DeleteSteps(ReplaceSteps(steps, tt, e, firstId), tt) == DeleteSteps(steps, tt)
  {
    var del := DeleteSteps(steps, tt);
    var w := ModeRows(tt, Walk, e.walk.steps, FirstIdOf(e, Walk, firstId));
    var t := ModeRows(tt, Transit, e.transit.steps, FirstIdOf(e, Transit, firstId));
    var b := ModeRows(tt, Bicycle, e.bicycle.steps, FirstIdOf(e, Bicycle, firstId));
    ReplaceStepsShape(steps, tt, e, firstId);
    var p := (x: TripStepRow) => x.transitTimeId != tt;
    FilterAppend(del + w + t, b, p);
    FilterAppend(del + w, t, p);
    FilterAppend(del, w, p);
    FilterAll(del, p);
    DeleteStepsOfModeRows(tt, Walk, e.walk.steps, FirstIdOf(e, Walk, firstId));
    DeleteStepsOfModeRows(tt, Transit, e.transit.steps, FirstIdOf(e, Transit, firstId));
    DeleteStepsOfModeRows(tt, Bicycle, e.bicycle.steps, FirstIdOf(e, Bicycle, firstId));
  }

  /**
   * No old step of `tt` remains: every step of `tt` afterwards is newly inserted,
   * with an id from `firstId` on; and every id is below the next free one.
   */
  lemma ReplaceStepsFresh(steps: seq<TripStepRow>, tt: TransitTimeId, e: EstimateInput, firstId: Id)
    requires forall x :: x in steps ==> x.id < firstId
    ensures forall x :: x in ReplaceSteps(steps, tt, e, firstId) && x.transitTimeId == tt ==>
              x !in steps && firstId <= x.id
    ensures forall x :: x in ReplaceSteps(steps, tt, e, firstId) ==> x.id < firstId + StepCount(e, TripModes)
  {
  }

  /** Replacing the steps of one transit time keeps every group's indices contiguous. */
  lemma ReplaceStepsContiguous(steps: seq<TripStepRow>, tt: TransitTimeId, e: EstimateInput, firstId: Id)
    requires StepsContiguous(steps)
    ensures StepsContiguous(ReplaceSteps(steps, tt, e, firstId))
  {
    forall tt', m ensures Contiguous(Group(ReplaceSteps(steps, tt, e, firstId), tt', m)) {
      ReplaceStepsGroup(steps, tt, e, firstId, tt', m);
    }
  }
}

/**
 * The mutations of convex/trips.ts over an in-memory document store holding the
 * four tables trips, stops, transitTimes and tripSteps. Every insert takes the
 * next fresh id; lookups take the first matching document.
 */
module Trips {
  import opened Schema
  import opened Tables
  import opened Estimates
  import opened TripQueries

  /** `createTrip` draws at most this many candidate slugs. */
  const MaxSlugAttempts: nat := 10

  // ---- the store's invariant ----

  /** Every id in use is below the next fresh id. */
  ghost predicate IdsBelow(trips: seq<TripRow>, stops: seq<StopRow>, tts: seq<TransitTimeRow>, steps: seq<TripStepRow>, nextId: Id) {
    && (forall t :: t in trips ==> t.id < nextId)
    && (forall s :: s in stops ==> s.id < nextId)
    && (forall t :: t in tts ==> t.id < nextId)
    && (forall r :: r in steps ==> r.id < nextId)
  }

  ghost predicate TripIdsUnique(trips: seq<TripRow>) {
    forall i, j :: 0 <= i < j < |trips| ==> trips[i].id != trips[j].id
  }

  /** Slugs are unique: `createTrip` only inserts a slug no trip has. */
  ghost predicate SlugsUnique(trips: seq<TripRow>) {
    forall i, j :: 0 <= i < j < |trips| ==> trips[i].slug != trips[j].slug
  }

  /** The stop `s` exists and is a stop of trip `t`. */
  predicate BelongsTo(stops: seq<StopRow>, s: StopId, t: TripId) {
    var r := GetStopById(stops, s);
    r.Some? && r.value.tripId == t
  }

  /** Every id in a trip's ordered stop list names an existing stop of that trip. */
  ghost predicate StopListsResolve(trips: seq<TripRow>, stops: seq<StopRow>) {
    forall i, k :: 0 <= i < |trips| && 0 <= k < |trips[i].stops| ==> BelongsTo(stops, trips[i].stops[k], trips[i].id)
  }

  /** No trip lists a stop twice. */
  ghost predicate StopListsDistinct(trips: seq<TripRow>) {
    forall i :: 0 <= i < |trips| ==> Distinct(trips[i].stops)
  }

  ghost predicate Consistent(trips: seq<TripRow>, stops: seq<StopRow>, tts: seq<TransitTimeRow>, steps: seq<TripStepRow>, nextId: Id) {
    && IdsBelow(trips, stops, tts, steps, nextId)
    && TripIdsUnique(trips)
    && SlugsUnique(trips)
    && StopIdsUnique(stops)
    && StopListsResolve(trips, stops)
    && StopListsDistinct(trips)
    && PairsUnique(tts)
    && StepsContiguous(steps)
  }

  // ---- the table changes the mutations make ----

  /** The trips table after `removeStop` patched the stop's trip (if it still exists). */
  function RemoveFromTrip(trips: seq<TripRow>, tripId: TripId, stopId: StopId): (r: seq<TripRow>)
    ensures |r| == |trips|
    ensures forall j :: 0 <= j < |trips| ==> r[j].id == trips[j].id && r[j].slug == trips[j].slug
    ensures forall j :: 0 <= j < |trips| && trips[j].id != tripId ==> r[j] == trips[j]
    ensures TripIndex(trips, tripId).None? ==> r == trips
    ensures TripIndex(trips, tripId).Some? ==>
      var j := TripIndex(trips, tripId).value;
      forall x :: x in r[j].stops <==> x in trips[j].stops && x != stopId
  {
    match TripIndex(trips, tripId)
    case None => trips
    case Some(j) => trips[j := trips[j].(stops := Without(trips[j].stops, stopId))]
  }

  /** The candidate `createTrip` settles on: the first of the ten whose slug no trip has. */
  function FirstFreeSlug(trips: seq<TripRow>, candidates: seq<string>): (r: Option<nat>)
    requires |candidates| == MaxSlugAttempts
    ensures r.Some? ==> r.value < MaxSlugAttempts && TripIndexBySlug(trips, candidates[r.value]).None?
    ensures r.Some? ==> forall j :: 0 <= j < r.value ==> TripIndexBySlug(trips, candidates[j]).Some?
    ensures r.None? <==> forall j :: 0 <= j < MaxSlugAttempts ==> TripIndexBySlug(trips, candidates[j]).Some?
  {
    FirstIndex(candidates, (c: string) => TripIndexBySlug(trips, c).None?)
  }

  /** The `list` estimate `setTransitTimeEstimate` writes. */
  function ListOf(e: EstimateInput): (r: Estimate)
    ensures r.List?
    ensures forall m :: SecondsOf(r, m) == e.Of(m).seconds
  {
    List(e.walk.seconds, e.transit.seconds, e.bicycle.seconds)
  }

  /** The id of the pair's transitTimes row after an upsert that would insert with `freshId`. */
  function EstimateRowId(tts: seq<TransitTimeRow>, a: StopId, b: StopId, freshId: Id): Id {
    match PairIndex(tts, a, b)
    case None => freshId
    case Some(i) => tts[i].id
  }

  /** The next fresh id after an upsert of the pair. */
  function IdAfterUpsert(tts: seq<TransitTimeRow>, a: StopId, b: StopId, nextId: Id): Id {
    if PairIndex(tts, a, b).None? then nextId + 1 else nextId
  }

  // ---- each mutation keeps the invariant ----

  /** Every listed stop id is an id in use, so below the next fresh one. */
  lemma ListedStopsBelow(trips: seq<TripRow>, stops: seq<StopRow>, tts: seq<TransitTimeRow>, steps: seq<TripStepRow>, nextId: Id)
    requires Consistent(trips, stops, tts, steps, nextId)
    ensures forall i, x :: 0 <= i < |trips| && x in trips[i].stops ==> x < nextId
  {
  }

  /** A trip with a fresh id and an unused slug and no stops keeps the store consistent. */
  lemma CreateTripConsistent(trips: seq<TripRow>, stops: seq<StopRow>, tts: seq<TransitTimeRow>, steps: seq<TripStepRow>, nextId: Id, slug: string)
    requires Consistent(trips, stops, tts, steps, nextId)
    requires TripIndexBySlug(trips, slug).None?
    ensures Consistent(trips + [TripRow(nextId, slug, [])], stops, tts, steps, nextId + 1)
    ensures TripIndexBySlug(trips + [TripRow(nextId, slug, [])], slug) == Some(|trips|)
  {
    var t := TripRow(nextId, slug, []);
    var trips' := trips + [t];
    FirstIndexAppend(trips, t, (r: TripRow) => r.slug == slug);
    assert forall i :: 0 <= i < |trips| ==> trips'[i] == trips[i];
    assert forall i :: 0 <= i < |trips| ==> trips[i] in trips;
  }

  /** Appending a new stop of trip `i` to both the stops table and that trip's list keeps every list resolving. */
  lemma AddStopResolves(trips: seq<TripRow>, stops: seq<StopRow>, i: nat, s: StopRow)
    requires StopListsResolve(trips, stops)
    requires i < |trips| && s.tripId == trips[i].id && GetStopById(stops, s.id).None?
    ensures StopListsResolve(trips[i := trips[i].(stops := trips[i].stops + [s.id])], stops + [s])
  {
    var trips' := trips[i := trips[i].(stops := trips[i].stops + [s.id])];
    var stops' := stops + [s];
    forall x ensures GetStopById(stops', x) ==
                     if GetStopById(stops, x).Some? then GetStopById(stops, x)
                     else if x == s.id then Some(s) else None {
      GetStopAfterAppend(stops, s, x);
    }
    forall i', k | 0 <= i' < |trips'| && 0 <= k < |trips'[i'].stops|
      ensures BelongsTo(stops', trips'[i'].stops[k], trips'[i'].id)
    {
      if i' != i || k < |trips[i].stops| {
        assert trips'[i'].stops[k] == trips[i'].stops[k];
        assert BelongsTo(stops, trips[i'].stops[k], trips[i'].id);
      }
    }
  }

  /**
   * Appending a new stop of an existing trip to the stops table and its id to
   * the end of the trip's list keeps the store consistent.
   */
  lemma AddStopConsistent(trips: seq<TripRow>, stops: seq<StopRow>, tts: seq<TransitTimeRow>, steps: seq<TripStepRow>, nextId: Id,
                          tripId: TripId, name: Option<string>, lat: Coord, lng: Coord)
    requires Consistent(trips, stops, tts, steps, nextId)
    requires TripIndex(trips, tripId).Some?
    ensures var i := TripIndex(trips, tripId).value;
      Consistent(trips[i := trips[i].(stops := trips[i].stops + [nextId])],
                 stops + [StopRow(nextId, name, lat, lng, tripId)], tts, steps, nextId + 1)
  {
    var i := TripIndex(trips, tripId).value;
    var s := StopRow(nextId, name, lat, lng, tripId);
    var trips' := trips[i := trips[i].(stops := trips[i].stops + [nextId])];
    var stops' := stops + [s];
    ListedStopsBelow(trips, stops, tts, steps, nextId);
    assert GetStopById(stops, nextId).None? by {
      forall j | 0 <= j < |stops| ensures stops[j].id != nextId {
        assert stops[j] in stops;
      }
    }
    AddStopResolves(trips, stops, i, s);
    assert nextId !in trips[i].stops;
    forall j | 0 <= j < |stops| ensures stops'[j].id != nextId {
      assert stops[j] in stops;
    }
    assert forall i' :: 0 <= i' < |trips'| ==> trips'[i'].id == trips[i'].id && trips'[i'].slug == trips[i'].slug;
    assert forall t :: t in trips' ==> t.id < nextId by {
      forall t | t in trips' ensures t.id < nextId {
        var j :| 0 <= j < |trips'| && trips'[j] == t;
        assert trips[j] in trips;
      }
    }
  }

  /** One entry of a trip's list after `removeStop`: it is not the removed stop and still resolves to a stop of the trip. */
  lemma RemoveStopEntry(trips: seq<TripRow>, stops: seq<StopRow>, stopId: StopId, j: nat, k: nat)
    requires TripIdsUnique(trips) && StopListsResolve(trips, stops)
    requires StopIndex(stops, stopId).Some?
    requires var trips' := RemoveFromTrip(trips, stops[StopIndex(stops, stopId).value].tripId, stopId);
      j < |trips'| && k < |trips'[j].stops|
    ensures var trips' := RemoveFromTrip(trips, stops[StopIndex(stops, stopId).value].tripId, stopId);
      && trips'[j].stops[k] != stopId
      && BelongsTo(DeleteStop(stops, stopId), trips'[j].stops[k], trips'[j].id)
  {
    var t := stops[StopIndex(stops, stopId).value].tripId;
    var trips' := RemoveFromTrip(trips, t, stopId);
    var x := trips'[j].stops[k];
    assert GetStopById(stops, stopId) == Some(stops[StopIndex(stops, stopId).value]);
    assert trips'[j].id == trips[j].id;
    if TripIndex(trips, t) == Some(j) {
      WithoutSpec(trips[j].stops, stopId);
      assert x in Without(trips[j].stops, stopId);
      var k' :| 0 <= k' < |trips[j].stops| && trips[j].stops[k'] == x;
      assert BelongsTo(stops, trips[j].stops[k'], trips[j].id);
    } else {
      assert trips'[j] == trips[j];
      assert BelongsTo(stops, trips[j].stops[k], trips[j].id);
      assert trips[j].id != t;
    }
    GetStopAfterDelete(stops, stopId, x);
  }

  /** After `removeStop`, every trip's list still resolves to stops of that trip. */
  lemma RemoveStopResolves(trips: seq<TripRow>, stops: seq<StopRow>, stopId: StopId)
    requires TripIdsUnique(trips) && StopListsResolve(trips, stops)
    requires StopIndex(stops, stopId).Some?
    ensures StopListsResolve(RemoveFromTrip(trips, stops[StopIndex(stops, stopId).value].tripId, stopId), DeleteStop(stops, stopId))
  {
    var trips' := RemoveFromTrip(trips, stops[StopIndex(stops, stopId).value].tripId, stopId);
    forall j, k | 0 <= j < |trips'| && 0 <= k < |trips'[j].stops|
      ensures BelongsTo(DeleteStop(stops, stopId), trips'[j].stops[k], trips'[j].id)
    {
      RemoveStopEntry(trips, stops, stopId, j, k);
    }
  }

  /** After `removeStop`, no trip lists the removed stop and no list has a repeat. */
  lemma RemoveStopLists(trips: seq<TripRow>, stops: seq<StopRow>, stopId: StopId)
    requires TripIdsUnique(trips) && StopListsResolve(trips, stops) && StopListsDistinct(trips)
    requires StopIndex(stops, stopId).Some?
    ensures var trips' := RemoveFromTrip(trips, stops[StopIndex(stops, stopId).value].tripId, stopId);
      && StopListsDistinct(trips')
      && forall j :: 0 <= j < |trips'| ==> stopId !in trips'[j].stops
  {
    var t := stops[StopIndex(stops, stopId).value].tripId;
    var trips' := RemoveFromTrip(trips, t, stopId);
    assert GetStopById(stops, stopId) == Some(stops[StopIndex(stops, stopId).value]);
    forall j | 0 <= j < |trips'| ensures Distinct(trips'[j].stops) && stopId !in trips'[j].stops {
      WithoutSpec(trips[j].stops, stopId);
      if TripIndex(trips, t) != Some(j) {
        assert trips'[j] == trips[j] && trips[j].id != t;
        forall k | 0 <= k < |trips[j].stops| ensures trips[j].stops[k] != stopId {
          assert BelongsTo(stops, trips[j].stops[k], trips[j].id);
        }
      }
    }
  }

  /**
   * Deleting a stop and filtering it out of its trip's list keeps the store
   * consistent, and afterwards no trip lists the removed stop.
   */
  lemma RemoveStopConsistent(trips: seq<TripRow>, stops: seq<StopRow>, tts: seq<TransitTimeRow>, steps: seq<TripStepRow>, nextId: Id,
                             stopId: StopId)
    requires Consistent(trips, stops, tts, steps, nextId)
    requires StopIndex(stops, stopId).Some?
    ensures var t := stops[StopIndex(stops, stopId).value].tripId;
      var trips' := RemoveFromTrip(trips, t, stopId);
      && Consistent(trips', DeleteStop(stops, stopId), tts, steps, nextId)
      && (forall j :: 0 <= j < |trips'| ==> stopId !in trips'[j].stops)
  {
    var t := stops[StopIndex(stops, stopId).value].tripId;
    var trips' := RemoveFromTrip(trips, t, stopId);
    var stops' := DeleteStop(stops, stopId);
    DeleteStopSpec(stops, stopId);
    FilterStopIdsUnique(stops, (s: StopRow) => s.id != stopId);
    assert |trips'| == |trips|;
    assert forall j :: 0 <= j < |trips| ==> trips'[j].id == trips[j].id && trips'[j].slug == trips[j].slug;
    RemoveStopResolves(trips, stops, stopId);
    RemoveStopLists(trips, stops, stopId);
    assert forall x :: x in trips' ==> x.id < nextId by {
      forall x | x in trips' ensures x.id < nextId {
        var j :| 0 <= j < |trips'| && trips'[j] == x;
        assert trips[j] in trips;
      }
    }
  }

  /** Renaming a stop keeps the store consistent. */
  lemma SetStopNameConsistent(trips: seq<TripRow>, stops: seq<StopRow>, tts: seq<TransitTimeRow>, steps: seq<TripStepRow>, nextId: Id,
                              i: nat, name: string)
    requires Consistent(trips, stops, tts, steps, nextId)
    requires i < |stops|
    ensures Consistent(trips, stops[i := stops[i].(name := Some(name))], tts, steps, nextId)
  {
    var stops' := stops[i := stops[i].(name := Some(name))];
    forall x ensures GetStopById(stops', x).Some? == GetStopById(stops, x).Some?
      && (GetStopById(stops, x).Some? ==> GetStopById(stops', x).value.tripId == GetStopById(stops, x).value.tripId)
    {
      FirstIndexUpdate(stops, i, stops[i].(name := Some(name)), (s: StopRow) => s.id == x);
    }
    forall s | s in stops' ensures s.id < nextId {
      var j :| 0 <= j < |stops'| && stops'[j] == s;
      assert stops[j] in stops;
    }
    assert StopListsResolve(trips, stops') by {
      forall i', k | 0 <= i' < |trips| && 0 <= k < |trips[i'].stops|
        ensures BelongsTo(stops', trips[i'].stops[k], trips[i'].id)
      {
        assert BelongsTo(stops, trips[i'].stops[k], trips[i'].id);
      }
    }
  }

  /** Upserting an estimate with the next fresh id keeps the store consistent. */
  lemma UpsertConsistent(trips: seq<TripRow>, stops: seq<StopRow>, tts: seq<TransitTimeRow>, steps: seq<TripStepRow>, nextId: Id,
                         a: StopId, b: StopId, e: Estimate)
    requires Consistent(trips, stops, tts, steps, nextId)
    ensures Consistent(trips, stops, UpsertEstimate(tts, a, b, e, nextId), steps, IdAfterUpsert(tts, a, b, nextId))
    ensures EstimateRowId(tts, a, b, nextId) < IdAfterUpsert(tts, a, b, nextId)
    ensures var r := UpsertEstimate(tts, a, b, e, nextId);
      PairIndex(r, a, b).Some? && EstimateRowId(tts, a, b, nextId) == r[PairIndex(r, a, b).value].id
  {
  }

  /** Selecting a mode keeps the store consistent. */
  lemma SelectConsistent(trips: seq<TripRow>, stops: seq<StopRow>, tts: seq<TransitTimeRow>, steps: seq<TripStepRow>, nextId: Id,
                         a: StopId, b: StopId, m: Mode)
    requires Consistent(trips, stops, tts, steps, nextId)
    ensures Consistent(trips, stops, SelectInTable(tts, a, b, m), steps, nextId)
  {
  }

  /** Replacing the steps of a transit time with fresh rows keeps the store consistent. */
  lemma ReplaceStepsConsistent(trips: seq<TripRow>, stops: seq<StopRow>, tts: seq<TransitTimeRow>, steps: seq<TripStepRow>, nextId: Id,
                               tt: TransitTimeId, e: EstimateInput)
    requires Consistent(trips, stops, tts, steps, nextId)
    ensures Consistent(trips, stops, tts, ReplaceSteps(steps, tt, e, nextId), nextId + StepCount(e, TripModes))
  {
    ReplaceStepsFresh(steps, tt, e, nextId);
    ReplaceStepsContiguous(steps, tt, e, nextId);
  }

  /**
   * Adding a stop and then removing it restores the trips and stops tables:
   * the two mutations are inverse on the tables (only the id counter moved on).
   */
  lemma AddThenRemoveStop(trips: seq<TripRow>, stops: seq<StopRow>, tts: seq<TransitTimeRow>, steps: seq<TripStepRow>, nextId: Id,
                          tripId: TripId, name: Option<string>, lat: Coord, lng: Coord)
    requires Consistent(trips, stops, tts, steps, nextId)
    requires TripIndex(trips, tripId).Some?
    ensures var i := TripIndex(trips, tripId).value;
      var trips' := trips[i := trips[i].(stops := trips[i].stops + [nextId])];
      var stops' := stops + [StopRow(nextId, name, lat, lng, tripId)];
      && StopIndex(stops', nextId) == Some(|stops|)
      && DeleteStop(stops', nextId) == stops
      && RemoveFromTrip(trips', tripId, nextId) == trips
  {
    var i := TripIndex(trips, tripId).value;
    var s := StopRow(nextId, name, lat, lng, tripId);
    var trips' := trips[i := trips[i].(stops := trips[i].stops + [nextId])];
    var stops' := stops + [s];
    ListedStopsBelow(trips, stops, tts, steps, nextId);
    forall j | 0 <= j < |stops| ensures stops[j].id != nextId {
      assert stops[j] in stops;
    }
    FirstIndexAppend(stops, s, (r: StopRow) => r.id == nextId);
    var p := (r: StopRow) => r.id != nextId;
    FilterAppend(stops, [s], p);
    FilterAll(stops, p);
    assert Filter([s], p) == [];
    FirstIndexUpdate(trips, i, trips'[i], (t: TripRow) => t.id == tripId);
    WithoutAppended(trips[i].stops, nextId);
  }

  /** In a consistent store, `getBySlug` of an existing slug returns the trip's stops in the list's order. */
  lemma ConsistentTripViewOrder(trips: seq<TripRow>, stops: seq<StopRow>, tts: seq<TransitTimeRow>, steps: seq<TripStepRow>,
                                nextId: Id, slug: string)
    requires Consistent(trips, stops, tts, steps, nextId)
    requires TripIndexBySlug(trips, slug).Some?
    ensures GetBySlug(trips, stops, tts, slug).Some?
    ensures var v := GetBySlug(trips, stops, tts, slug).value;
      |v.stops| == |v.trip.stops| && forall k :: 0 <= k < |v.stops| ==> v.stops[k].id == v.trip.stops[k]
  {
    var i := TripIndexBySlug(trips, slug).value;
    assert forall k :: 0 <= k < |trips[i].stops| ==> BelongsTo(stops, trips[i].stops[k], trips[i].id);
    GetBySlugListsTripStops(trips, stops, tts, slug);
  }

  // ---- the store ----

  datatype CreateResult = Created(id: TripId, slug: string) | FailedToCreateTrip

  class Store {
    var trips: seq<TripRow>
    var stops: seq<StopRow>
    var transitTimes: seq<TransitTimeRow>
    var tripSteps: seq<TripStepRow>
    var nextId: Id

    ghost predicate Valid()
      reads this
    {
      Consistent(trips, stops, transitTimes, tripSteps, nextId)
    }

    /** An empty store. */
    constructor ()
      ensures Valid()
      ensures trips == [] && stops == [] && transitTimes == [] && tripSteps == []
      ensures nextId == 0
    {
      trips, stops, transitTimes, tripSteps := [], [], [], [];
      nextId := 0;
    }

    /**
     * `createTrip`: try the candidate slugs in order, at most ten of them, and
     * insert a trip with the first one no trip has, with no stops; fail, having
     * inserted nothing, when all ten are taken.
     */
    method CreateTrip(candidates: seq<string>) returns (r: CreateResult)
      requires Valid()
      requires |candidates| == MaxSlugAttempts
      modifies this
      ensures Valid()
      ensures match old(FirstFreeSlug(trips, candidates))
        case None =>
          r == FailedToCreateTrip && trips == old(trips) && nextId == old(nextId)
        case Some(k) =>
          && r == Created(old(nextId), candidates[k])
          && trips == old(trips) + [TripRow(old(nextId), candidates[k], [])]
          && TripIndexBySlug(trips, candidates[k]) == Some(|old(trips)|)
          && nextId == old(nextId) + 1
      ensures stops == old(stops) && transitTimes == old(transitTimes) && tripSteps == old(tripSteps)
    {
      var attempt := 0;
      while attempt < MaxSlugAttempts
        invariant 0 <= attempt <= MaxSlugAttempts
        invariant forall j :: 0 <= j < attempt ==> TripIndexBySlug(trips, candidates[j]).Some?
        invariant trips == old(trips) && stops == old(stops) && nextId == old(nextId)
        invariant transitTimes == old(transitTimes) && tripSteps == old(tripSteps)
      {
        var slug := candidates[attempt];
        if TripIndexBySlug(trips, slug).None? {
          assert FirstFreeSlug(trips, candidates) == Some(attempt);
          CreateTripConsistent(trips, stops, transitTimes, tripSteps, nextId, slug);
          var id := nextId;
          trips := trips + [TripRow(id, slug, [])];
          nextId := nextId + 1;
          return Created(id, slug);
        }
        attempt := attempt + 1;
      }
      return FailedToCreateTrip;
    }

    /** `setStopName`: patch the stop's name; patching a missing document fails and changes nothing. */
    method SetStopName(stopId: StopId, name: string) returns (patched: bool)
      requires Valid()
      modifies this
      ensures Valid()
      ensures patched == old(StopIndex(stops, stopId)).Some?
      ensures match old(StopIndex(stops, stopId))
        case None => stops == old(stops)
        case Some(i) => stops == old(stops)[i := old(stops)[i].(name := Some(name))]
      ensures trips == old(trips) && transitTimes == old(transitTimes) && tripSteps == old(tripSteps) && nextId == old(nextId)
    {
      var i := StopIndex(stops, stopId);
      if i.None? {
        return false;
      }
      SetStopNameConsistent(trips, stops, transitTimes, tripSteps, nextId, i.value, name);
      stops := stops[i.value := stops[i.value].(name := Some(name))];
      return true;
    }

    /**
     * `addStop`: on a missing trip, nothing changes. Otherwise insert one stop
     * tied to the trip, append its id to the end of the trip's stop list, and
     * schedule the place-name lookup when a place id was given.
     */
    method AddStop(tripId: TripId, name: Option<string>, lat: Coord, lng: Coord, googlePlaceId: Option<string>)
      returns (job: Option<Job>)
      requires Valid()
      modifies this
      ensures Valid()
      ensures match old(TripIndex(trips, tripId))
        case None =>
          trips == old(trips) && stops == old(stops) && nextId == old(nextId) && job == None
        case Some(i) =>
          && stops == old(stops) + [StopRow(old(nextId), name, lat, lng, tripId)]
          && trips == old(trips)[i := old(trips)[i].(stops := old(trips)[i].stops + [old(nextId)])]
          && nextId == old(nextId) + 1
          && job == if googlePlaceId.Some? then Some(FetchStopName(old(nextId), googlePlaceId.value)) else None
      ensures transitTimes == old(transitTimes) && tripSteps == old(tripSteps)
    {
      var ti := TripIndex(trips, tripId);
      if ti.None? {
        return None;
      }
      var i := ti.value;
      var trip := trips[i];
      AddStopConsistent(trips, stops, transitTimes, tripSteps, nextId, tripId, name, lat, lng);
      var newStopId := nextId;
      stops := stops + [StopRow(newStopId, name, lat, lng, trip.id)];
      nextId := nextId + 1;
      trips := trips[i := trip.(stops := trip.stops + [newStopId])];
      job := if googlePlaceId.Some? then Some(FetchStopName(newStopId, googlePlaceId.value)) else None;
    }

    /**
     * `removeStop`: on a missing stop, nothing changes. Otherwise delete the
     * stop and, if its trip exists, filter every occurrence of its id out of
     * the trip's stop list, keeping the order of the others.
     */
    method RemoveStop(stopId: StopId)
      requires Valid()
      modifies this
      ensures Valid()
      ensures match old(StopIndex(stops, stopId))
        case None => trips == old(trips) && stops == old(stops)
        case Some(i) =>
          && stops == DeleteStop(old(stops), stopId)
          && trips == RemoveFromTrip(old(trips), old(stops)[i].tripId, stopId)
          && forall j :: 0 <= j < |trips| ==> stopId !in trips[j].stops
      ensures transitTimes == old(transitTimes) && tripSteps == old(tripSteps) && nextId == old(nextId)
    {
      var si := StopIndex(stops, stopId);
      if si.None? {
        return;
      }
      var stop := stops[si.value];
      var ti := TripIndex(trips, stop.tripId);
      RemoveStopConsistent(trips, stops, transitTimes, tripSteps, nextId, stopId);
      stops := DeleteStop(stops, stopId);
      if ti.Some? {
        var trip := trips[ti.value];
        trips := trips[ti.value := trip.(stops := Without(trip.stops, stopId))];
      }
    }

    /**
     * The upsert shared by `initTransitTimeEstimate` and `setTransitTimeEstimate`:
     * patch the pair's row if it has one, otherwise insert one with a fresh id;
     * returns the row's id.
     */
    method UpsertRow(stopIdFirst: StopId, stopIdSecond: StopId, estimate: Estimate) returns (transitTimeId: TransitTimeId)
      requires Valid()
      modifies this
      ensures Valid()
      ensures transitTimes == UpsertEstimate(old(transitTimes), stopIdFirst, stopIdSecond, estimate, old(nextId))
      ensures nextId == IdAfterUpsert(old(transitTimes), stopIdFirst, stopIdSecond, old(nextId))
      ensures transitTimeId == EstimateRowId(old(transitTimes), stopIdFirst, stopIdSecond, old(nextId))
      ensures trips == old(trips) && stops == old(stops) && tripSteps == old(tripSteps)
    {
      UpsertConsistent(trips, stops, transitTimes, tripSteps, nextId, stopIdFirst, stopIdSecond, estimate);
      var existing := PairIndex(transitTimes, stopIdFirst, stopIdSecond);
      if existing.None? {
        transitTimeId := nextId;
        transitTimes := transitTimes + [TransitTimeRow(transitTimeId, stopIdFirst, stopIdSecond, estimate)];
        nextId := nextId + 1;
      } else {
        var i := existing.value;
        transitTimeId := transitTimes[i].id;
        transitTimes := transitTimes[i := transitTimes[i].(estimate := estimate)];
      }
    }

    /**
     * `initTransitTimeEstimate`: set the pair's estimate to absent, inserting a
     * row only when the pair has none, and schedule the refresh.
     */
    method InitTransitTimeEstimate(stopIdFirst: StopId, stopIdSecond: StopId) returns (job: Job)
      requires Valid()
      modifies this
      ensures Valid()
      ensures transitTimes == UpsertEstimate(old(transitTimes), stopIdFirst, stopIdSecond, Absent, old(nextId))
      ensures nextId == IdAfterUpsert(old(transitTimes), stopIdFirst, stopIdSecond, old(nextId))
      ensures job == RefreshEstimate(stopIdFirst, stopIdSecond)
      ensures trips == old(trips) && stops == old(stops) && tripSteps == old(tripSteps)
    {
      var _ := UpsertRow(stopIdFirst, stopIdSecond, Absent);
      job := RefreshEstimate(stopIdFirst, stopIdSecond);
    }

    /** The inner loop of `setTransitTimeEstimate`: insert one mode's steps with indices 0..n-1. */
    method InsertSteps(tt: TransitTimeId, mode: Mode, steps: seq<Step>)
      modifies this
      ensures tripSteps == old(tripSteps) + ModeRows(tt, mode, steps, old(nextId))
      ensures nextId == old(nextId) + |steps|
      ensures trips == old(trips) && stops == old(stops) && transitTimes == old(transitTimes)
    {
      var index := 0;
      while index < |steps|
        invariant 0 <= index <= |steps|
        invariant tripSteps == old(tripSteps) + ModeRows(tt, mode, steps[..index], old(nextId))
        invariant nextId == old(nextId) + index
        invariant trips == old(trips) && stops == old(stops) && transitTimes == old(transitTimes)
      {
        var step := steps[index];
        ModeRowsSnoc(tt, mode, steps, index, old(nextId));
        tripSteps := tripSteps + [TripStepRow(nextId, tt, mode, index, step.stepMode, step.seconds, step.polyline)];
        nextId := nextId + 1;
        index := index + 1;
      }
      assert steps[..index] == steps;
    }

    /** The outer loop of `setTransitTimeEstimate`: insert the steps of walk, transit and bicycle, in that order. */
    method InsertAllSteps(tt: TransitTimeId, estimate: EstimateInput)
      modifies this
      ensures tripSteps == old(tripSteps) + RowsForModes(tt, estimate, TripModes, old(nextId))
      ensures nextId == old(nextId) + StepCount(estimate, TripModes)
      ensures trips == old(trips) && stops == old(stops) && transitTimes == old(transitTimes)
    {
      var mi := 0;
      while mi < |TripModes|
        invariant 0 <= mi <= |TripModes|
        invariant tripSteps == old(tripSteps) + RowsForModes(tt, estimate, TripModes[..mi], old(nextId))
        invariant nextId == old(nextId) + StepCount(estimate, TripModes[..mi])
        invariant trips == old(trips) && stops == old(stops) && transitTimes == old(transitTimes)
      {
        var mode := TripModes[mi];
        InsertSteps(tt, mode, estimate.Of(mode).steps);
        assert TripModes[..mi + 1][..mi] == TripModes[..mi];
        mi := mi + 1;
      }
      assert TripModes[..mi] == TripModes;
    }

    /**
     * `setTransitTimeEstimate`: set the pair's estimate to the `list` of the
     * three given seconds (inserting a row only when the pair has none), delete
     * every step of that row, and insert the given steps mode by mode.
     */
    method SetTransitTimeEstimate(stopIdFirst: StopId, stopIdSecond: StopId, estimate: EstimateInput)
      requires Valid()
      modifies this
      ensures Valid()
      ensures transitTimes == UpsertEstimate(old(transitTimes), stopIdFirst, stopIdSecond, ListOf(estimate), old(nextId))
      ensures var firstStepId := IdAfterUpsert(old(transitTimes), stopIdFirst, stopIdSecond, old(nextId));
        && tripSteps == ReplaceSteps(old(tripSteps), EstimateRowId(old(transitTimes), stopIdFirst, stopIdSecond, old(nextId)), estimate, firstStepId)
        && nextId == firstStepId + StepCount(estimate, TripModes)
      ensures trips == old(trips) && stops == old(stops)
    {
      var transitTimeId := UpsertRow(stopIdFirst, stopIdSecond, ListOf(estimate));
      ReplaceStepsConsistent(trips, stops, transitTimes, tripSteps, nextId, transitTimeId, estimate);
      tripSteps := DeleteSteps(tripSteps, transitTimeId);
      InsertAllSteps(transitTimeId, estimate);
    }

    /**
     * `selectTransitTimeEstimateMode`: collapse the pair's estimate to a
     * selection of `mode`, unless the pair has no row or already holds a
     * selection. Trips, stops and steps are never touched.
     */
    method SelectTransitTimeEstimateMode(stopIdFirst: StopId, stopIdSecond: StopId, mode: Mode)
      requires Valid()
      modifies this
      ensures Valid()
      ensures transitTimes == SelectInTable(old(transitTimes), stopIdFirst, stopIdSecond, mode)
      ensures trips == old(trips) && stops == old(stops) && tripSteps == old(tripSteps) && nextId == old(nextId)
    {
      SelectConsistent(trips, stops, transitTimes, tripSteps, nextId, stopIdFirst, stopIdSecond, mode);
      var existing := PairIndex(transitTimes, stopIdFirst, stopIdSecond);
      if existing.None? {
        return;
      }
      var i := existing.value;
      var est := transitTimes[i].estimate;
      if est != Absent && !est.List? {
        return;
      }
      transitTimes := transitTimes[i := transitTimes[i].(estimate := Selection(mode, SecondsOf(est, mode)))];
    }
  }
}

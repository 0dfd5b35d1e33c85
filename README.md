# Transit estimates for a trip planner, in Dafny

A trip is a slug plus an ordered list of stops. For every ordered pair of stops
the backend keeps at most one *transit time* document. Its `estimate` is one of
three things:
- empty (`null`, here `Absent`);
- a `list` of seconds for walking, transit and cycling;
- a user's `selection` of one mode with that mode's seconds.

The route of each mode is also stored step by step in the tripSteps table.

This project models the Convex backend that maintains those tables. It also
models the action that asks a routing provider for the three durations. Then it
proves what each mutation does to the tables, what it leaves alone and which
invariant it keeps.

Files and modules:

- `schema.dfy`, module `Schema`: the documents of the four tables (trips, stops,
  transitTimes, tripSteps), the estimate and step values, and the jobs a mutation
  hands to the scheduler.
- `tables.dfy`, module `Tables`: the tables as sequences in insertion order.
  `filter(...).first()` is the first match and `filter(...).collect()` is a
  filter. Also the per-table lookups and deletions, with their lemmas.
- `estimates.dfy`, module `Estimates`: upsert, select and step replacement, as
  functions from the old table to the new one, with their specifications.
- `store.dfy`, module `Trips`: the store as a class whose fields are the four
  tables and the next fresh id, one method per mutation of `convex/trips.ts`,
  and the invariant `Consistent`. The invariant says:
  - ids are fresh, and trip ids, stop ids and slugs are unique;
  - every listed stop exists, belongs to its trip and is listed once;
  - each ordered pair has at most one estimate;
  - each mode's steps carry indices 0..n-1.

  Each mutation keeps the invariant, proved by the lemma next to it.
- `queries.dfy`, module `TripQueries`: `getBySlug`. The returned stops are
  sorted by their position in the trip's list. In a consistent store they are
  exactly that list (`Trips.ConsistentTripViewOrder`).
- `actions.dfy`, module `TripActions`: leg-duration parsing, the per-mode
  aggregation, the early exits of `refreshTransitTimeEstimates` and the name
  fallback of `getStopName`.

Ids are handed out by one counter `nextId` shared by all tables. Convex ids are
opaque, so all the model relies on is that each insert gets a fresh one. A job
the source schedules is returned as a value.

Where the code and the intended behaviour differ, the model follows the code:
- An unparsable leg duration makes that mode's seconds `null`,
  not 0.
- Selecting a mode on an empty estimate writes `selection(mode, null)`.
- `initTransitTimeEstimate` does not check that the two stops belong to the same
  trip, or that they exist.
- No step data is ever extracted from a routing response.
- The intended policy gives a mode with no route or leg data `null` seconds.
  The code gives 0 seconds when `routes`, or the first route's `legs`, is
  absent, because of the `?? []` fallback. The model follows the code
  (`TripActions.ResponseSeconds`, `TripActions.ModeSeconds`).
- The intended policy degrades leniently: a mode whose route fails should be
  stored as `null` while the other two are still stored. The code does not do
  this. The three route requests are awaited together, so one rejected request
  fails the whole refresh, and so does an empty route list for any mode.
  Nothing is written then, and the pair keeps the empty estimate that
  `initTransitTimeEstimate` stored (`TripActions.RejectedRequestWritesNothing`,
  `TripActions.RefreshSchedules`).

## Model

| member | source | states |
|---|---|---|
| Tables.FirstIndex | convex/trips.ts:96-99 | the index of the first document matching the filter, and none exactly when no document matches |
| Tables.Filter | convex/trips.ts:258-261 | the kept documents are exactly those of the table that pass the filter |
| Tables.TripIndex | convex/trips.ts:96-99 | the position of the first trip with the id; none exactly when no trip has it |
| Tables.TripIndexBySlug | convex/trips.ts:32-35 | the position of the first trip with the slug; none exactly when no trip has it |
| Tables.StopIndex | convex/trips.ts:126-129 | the position of the first stop with the id; none exactly when no stop has it |
| Tables.PairIndex | convex/trips.ts:161-169 | the position of the first transitTimes row of the ordered pair; none exactly when the pair has no row |
| Tables.GetStopById | convex/trips.ts:147-152 | a returned stop is in the table with the asked id; none exactly when no stop has that id |
| Tables.Without | convex/trips.ts:141 | the filtered list holds exactly the ids of the old list other than the removed one, and is no longer |
| Tables.DeleteStop | convex/trips.ts:138 | the remaining stops are exactly the old stops with another id |
| Tables.DeleteSteps | convex/trips.ts:257-262 | the remaining steps are exactly the old steps of other transit times |
| Tables.GetStopOfMember | convex/trips.ts:150 | with unique stop ids, looking up a stop's id finds that stop |
| Tables.WithoutSpec | convex/trips.ts:141 | filtering an id out of a stop list removes every occurrence, keeps every other id, changes nothing when the id is absent, and keeps a list without repeats |
| Tables.WithoutAppended | convex/trips.ts:109-111 | filtering out an id that was just appended to a list that lacked it restores the list |
| Tables.DeleteStopSpec | convex/trips.ts:138 | after deleting a stop its id is no longer found, exactly the other stops remain, and deleting a missing id changes nothing |
| Tables.GetStopAfterDelete | convex/trips.ts:138 | deleting one stop leaves the lookup of every other id unchanged |
| Tables.GetStopAfterAppend | convex/trips.ts:103-108 | inserting a stop leaves the lookup of existing ids unchanged and makes the new id find the new stop |
| Tables.FilterStopIdsUnique | convex/trips.ts:138 | deleting stops keeps stop ids unique |
| Tables.GroupAfterDelete | convex/trips.ts:257-262 | deleting the steps of one transit time empties its groups and leaves every other transit time's steps as they were |
| Estimates.UpsertEstimate | convex/trips.ts:161-178 | afterwards the pair's first row holds the new estimate; the table grows by one row exactly when the pair had none, and the inserted row carries the fresh id; an existing row keeps its place; every old row keeps its id and pair, and rows of other pairs are unchanged |
| Estimates.UpsertEstimateSpec | convex/trips.ts:161-178 | after the upsert the pair has exactly one row and it holds the new estimate; a row is inserted, with the fresh id, only when the pair had none; an existing row keeps its place and id; other rows are unchanged; pair uniqueness is kept |
| Estimates.SecondsOf | convex/trips.ts:316 | the seconds of the mode in a `list` estimate, and none for an estimate without per-mode seconds |
| Estimates.SelectedEstimate | convex/trips.ts:302-318 | a selection is refused exactly when the estimate already is one; an empty estimate becomes `selection(mode, null)`; a list becomes the selection with that mode's seconds |
| Estimates.SelectInTable | convex/trips.ts:293-318 | the table keeps its size and every row its id and pair; only the pair's row can change, and a missing pair leaves the table alone |
| Estimates.SelectInTableSpec | convex/trips.ts:293-318 | no row or a selection row leaves the table alone; otherwise only that row's estimate changes, to the selection of the mode; ids, pairs and size are kept |
| Estimates.SelectAgainIsNoOp | convex/trips.ts:302-311 | once a pair holds a selection, a second selection changes nothing |
| Estimates.ModeRows | convex/trips.ts:266-277 | one row per step of the mode, in order, of the transit time and mode, with `stepIndex` 0..n-1, consecutive ids from the first fresh one and the step's mode, seconds and polyline |
| Estimates.RowsForModes | convex/trips.ts:265-278 | the rows of the listed modes number as many as their steps, all belong to the transit time, and their ids lie in the block handed out from the first fresh id |
| Estimates.RowsForTripModes | convex/trips.ts:265-278 | the inserted rows are the walk rows, then the transit rows, then the bicycle rows, each with consecutive fresh ids; their number is the total number of steps |
| Estimates.ReplaceSteps | convex/trips.ts:257-278 | the new table starts with the old table's rows of other transit times, unchanged and in order; after them come as many rows as there are input steps; exactly those later rows belong to the transit time, and each has a fresh id from the first one handed out |
| Estimates.ReplaceStepsShape | convex/trips.ts:257-278 | the new step table is the old one without the transit time's steps, followed by the rows of the three modes |
| Estimates.ReplaceStepsGroup | convex/trips.ts:257-278 | afterwards the transit time's steps of a mode are exactly the rows built from that mode's input steps, and every other transit time's steps are unchanged |
| Estimates.ReplaceStepsContents | convex/trips.ts:264-278 | for each mode the new steps number as many as the input, in input order, with `tripMode` the mode, `stepIndex` 0..n-1, and the input's step mode, seconds and polyline |
| Estimates.ReplaceStepsUntouched | convex/trips.ts:257-262 | the steps of every other transit time remain, in their order |
| Estimates.ReplaceStepsFresh | convex/trips.ts:262-276 | no old step of the transit time remains: every one of its steps is new, with a fresh id |
| Estimates.ReplaceStepsContiguous | convex/trips.ts:264-278 | the replacement keeps every (transit time, mode) group's indices 0..n-1 |
| Trips.RemoveFromTrip | convex/trips.ts:139-143 | the trips table keeps its size, ids and slugs; only the stop's trip can change, its list losing exactly the removed id; a missing trip changes nothing |
| Trips.ListOf | convex/trips.ts:238-253 | the `list` estimate written carries, for every mode, that mode's input seconds |
| Trips.FirstFreeSlug | convex/trips.ts:63-74 | the chosen candidate is among the ten, its slug is unused and every earlier one is in use; none exactly when all ten are in use |
| Trips.CreateTripConsistent | convex/trips.ts:69-71 | inserting a trip with a fresh id, an unused slug and no stops keeps the invariant, and the slug then finds that trip |
| Trips.AddStopConsistent | convex/trips.ts:103-111 | inserting a stop of an existing trip and appending its id to the trip's list keeps the invariant |
| Trips.RemoveStopConsistent | convex/trips.ts:126-143 | deleting a stop and filtering it out of its trip's list keeps the invariant, and afterwards no trip lists the stop |
| Trips.SetStopNameConsistent | convex/trips.ts:78-83 | renaming a stop keeps the invariant |
| Trips.UpsertConsistent | convex/trips.ts:223-255 | an upsert keeps the invariant, and the pair's row afterwards has the id the mutation then uses for the steps |
| Trips.SelectConsistent | convex/trips.ts:312-318 | a selection keeps the invariant |
| Trips.ReplaceStepsConsistent | convex/trips.ts:257-278 | replacing a transit time's steps keeps the invariant, including contiguous step indices |
| Trips.AddThenRemoveStop | convex/trips.ts:103-143 | adding a stop and removing it again restores the trips and stops tables |
| Trips.Store.CreateTrip | convex/trips.ts:60-76 | tries the ten candidate slugs in order; inserts a trip with the first unused slug and no stops, returning its id and slug; when all ten collide it fails and nothing changes |
| Trips.Store.SetStopName | convex/trips.ts:78-83 | sets the stop's name; a missing stop changes nothing; other tables are untouched |
| Trips.Store.AddStop | convex/trips.ts:85-119 | a missing trip changes nothing; otherwise exactly one stop tied to the trip is inserted, the trip's list becomes the old list plus the new id at the end, and the name lookup is scheduled exactly when a place id was given |
| Trips.Store.RemoveStop | convex/trips.ts:121-145 | a missing stop changes nothing; otherwise the stop is deleted, its trip (if it exists) loses every occurrence of the id with the rest in order, and no trip lists it afterwards |
| Trips.Store.UpsertRow | convex/trips.ts:161-178 | the transitTimes table becomes the upsert of the estimate, the counter moves only on an insert, and the returned id is the pair's row |
| Trips.Store.InitTransitTimeEstimate | convex/trips.ts:154-188 | the pair's estimate becomes empty through the upsert, trips, stops and steps are untouched, and the refresh of the pair is scheduled |
| Trips.Store.InsertSteps | convex/trips.ts:266-277 | appends one row per step of the mode, with `stepIndex` the step's position and consecutive fresh ids |
| Trips.Store.InsertAllSteps | convex/trips.ts:265-278 | appends the rows of walk, transit and bicycle in that order |
| Trips.Store.SetTransitTimeEstimate | convex/trips.ts:203-280 | the pair's estimate becomes the `list` of the three seconds through the upsert, and the steps table becomes the replacement of that row's steps; trips and stops are untouched |
| Trips.Store.SelectTransitTimeEstimateMode | convex/trips.ts:282-320 | the transitTimes table becomes the guarded selection; trips, stops, steps and the counter are untouched |
| TripQueries.IndexOf | convex/trips.ts:53 | -1 exactly when the id is not listed, otherwise the first position holding it |
| TripQueries.SortBy | convex/trips.ts:52-54 | the result is a permutation of the input in ascending key order |
| TripQueries.SortByPosition | convex/trips.ts:52-54 | the stops are permuted into ascending position in the trip's list |
| TripQueries.StopsIn | convex/trips.ts:39-42 | exactly the stops whose id is in the trip's list |
| TripQueries.EstimatesFrom | convex/trips.ts:44-49 | exactly the estimates whose first stop is in the trip's list |
| TripQueries.GetBySlug | convex/trips.ts:22-58 | none exactly when no trip has the slug; otherwise the first trip with it, a permutation of its stops sorted by list position, and exactly the estimates leaving one of its stops |
| TripQueries.SortedPermutationUnique | convex/trips.ts:52-54 | a sorted permutation of a list strictly sorted by the same key is that list |
| TripQueries.GetBySlugListsTripStops | convex/trips.ts:32-55 | when stop ids are unique and the trip's list has no repeats and only existing stops, the returned stops are the trip's list: one stop per listed id, at that id's position |
| Trips.ConsistentTripViewOrder | convex/trips.ts:32-55 | in a consistent store, getBySlug of an existing slug returns exactly the trip's stops in list order |
| TripActions.ParseSeconds | convex/tripActions.ts:86-89 | a seconds string parses exactly when it is a non-empty string of decimal digits |
| TripActions.ParseDecimal | convex/tripActions.ts:86-89 | every number written in decimal parses back to itself |
| TripActions.LegSeconds | convex/tripActions.ts:85-91 | a leg without a string duration gives none; otherwise the parse of the string |
| TripActions.LegsSeconds | convex/tripActions.ts:85-91 | one result per leg, in order, each that leg's parsed seconds or none |
| TripActions.PresentValues | convex/tripActions.ts:92-93 | the kept values are exactly the present ones; all are kept exactly when none is missing, and then in order |
| TripActions.Sum | convex/tripActions.ts:97 | the total is zero for no values and at least each value |
| TripActions.Reduce | convex/tripActions.ts:97 | the fold is never below its start value, and is that value for no elements |
| TripActions.ReduceIsSum | convex/tripActions.ts:97 | the left fold `reduce((acc, val) => acc + val, acc)` equals `acc` plus the sum |
| TripActions.ModeSeconds | convex/tripActions.ts:83-99 | a mode's seconds are none exactly when some leg fails to parse; no legs gives 0 |
| TripActions.ModeSecondsIsTotal | convex/tripActions.ts:83-99 | the map, filter, length check and sum compute the total of the legs' seconds, failing when any leg fails |
| TripActions.FirstRouteLegs | convex/tripActions.ts:85-91 | no route list gives no legs; an empty route list makes the action fail; otherwise the first route's legs, or none |
| TripActions.ResponseSeconds | convex/tripActions.ts:84-98 | a response makes the action fail exactly when its route list is empty; no route list gives 0 seconds; otherwise the mode's seconds of the first route's legs |
| TripActions.RefreshTransitTimeEstimates | convex/tripActions.ts:32-125 | a missing stop or `throwAwayResults` schedules nothing; a scheduled write needs all three requests between the two stops' coordinates to succeed, and carries the transit, walk and bicycle seconds of those responses |
| TripActions.RefreshSchedules | convex/tripActions.ts:40-114 | with both stops present and results kept, a write is scheduled exactly when every request succeeds and no response has an empty route list |
| TripActions.RejectedRequestWritesNothing | convex/tripActions.ts:47-81 | one rejected request for any mode fails the action, so nothing is written, not even the modes whose requests succeeded |
| TripActions.GetStopName | convex/tripActions.ts:25-28 | the stop is renamed to the provider's name, or `Place` when the provider gives none |

## Left out

- The Google Maps and Routes clients (convex/tripActions.ts:10-13, 18-24, 50-81): the routing call is a function parameter that returns none for a rejected request (a network, quota or HTTP error), and the place-details result is the `placeName` parameter of `GetStopName`. No request itself is modelled. The model handles a rejected request as the uncaught `Promise.all` does: the action fails and writes nothing. When `placeDetails` rejects, or its response has no `result`, `getStopName` throws and no name is written. `GetStopName` models only the call that returns a response, so it always yields an update.
- The scheduler: `AddStop` and `InitTransitTimeEstimate` return the job they would schedule, and `RefreshTransitTimeEstimates` returns the write it would schedule. Running jobs later and asynchronously is not modelled.
- Concurrency: the parallelism of `Promise.all`, and races between overlapping refreshes of the same pair (last writer wins). Each mutation is one atomic step.
- `nanoid`: `CreateTrip` takes the ten candidate slugs as an input. The slug alphabet and length are not modelled.
- The handoff from `refreshTransitTimeEstimates` to `setTransitTimeEstimate`: convex/tripActions.ts:118-122 passes three flat seconds, while convex/trips.ts:207-220 expects a `walk`/`transit`/`bicycle` object with `steps` each. The two are modelled separately as they are written, and no steps are invented from a response.
- TripActions.ParseSeconds: it accepts exactly the non-empty digit strings, which stands in for the `!isNaN(Number(s))` check followed by `parseInt(s, 10)`. The source differs on other strings: `""` passes `Number` and `parseInt` gives NaN, so the mode's sum becomes NaN; `" 12"` gives 12; `"-5"` gives -5; `"1e3"` gives 1; `"0x10"` gives 0; `"12.5"` gives 12; `"Infinity"` passes `Number` and `parseInt` gives NaN. The model rejects all of these.
- TripActions.Leg: a duration whose `seconds` is not a string (or is absent) is `None`, as the `typeof` check treats it. Protobuf `Long` values are not modelled.
- TripActions.FirstRouteLegs: the source throws when `routes` is an empty array. The model treats that as the action failing and scheduling nothing.
- Numbers: seconds are `nat` and lat/lng are opaque integers. Float arithmetic is not modelled, and sums are exact (safe below 2^53 in the source).
- The re-mapping at convex/tripActions.ts:100-110: on values that are a natural number or none it is the identity, so the model assigns the three results directly. Its `console.warn` calls (and the one at line 94) are not modelled.
- Convex query internals: tables are sequences scanned in insertion order. `q.or()` with no arguments, for a trip without stops, is taken to match nothing. Ids are natural numbers from one counter.
- Argument validators (`v.id`, `v.number`, ...) are Dafny types. An id of the wrong table is not modelled.
- `ctx.db.patch` on a missing document throws in the source. `Trips.Store.SetStopName` returns `false` and changes nothing.
- The `type` tag of an estimate object is the datatype's constructor.
- `convex/schema.ts`, auth and access code, the UI and the InstantDB wrappers are not part of this model.
- Trips.Consistent: this is an invariant of stores built with these mutations. The source never checks it.

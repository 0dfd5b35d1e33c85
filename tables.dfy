/**
 * Tables are sequences of documents in insertion order, which is the order a
 * query without an index returns them in. `.filter(...).first()` is the first
 * document satisfying the filter; `.filter(...).collect()` is all of them, in
 * order; deleting documents keeps the others in order.
 */
module Tables {
  import opened Schema

  /** The position of the first element satisfying `p` (`.filter(p).first()`). */
  function FirstIndex<T>(s: seq<T>, p: T -> bool): (r: Option<nat>)
    ensures r.Some? ==> r.value < |s| && p(s[r.value]) && forall j :: 0 <= j < r.value ==> !p(s[j])
    ensures r.None? ==> forall j :: 0 <= j < |s| ==> !p(s[j])
    decreases |s|
  {
    if |s| == 0 then None
    else if p(s[0]) then Some(0)
    else match FirstIndex(s[1..], p) {
      case None => None
      case Some(k) => Some(k + 1)
    }
  }

  /** The first element satisfying `p`, if any. */
  function Find<T>(s: seq<T>, p: T -> bool): (r: Option<T>)
    ensures r.Some? ==> r.value in s && p(r.value)
    ensures r.None? ==> forall j :: 0 <= j < |s| ==> !p(s[j])
  {
    match FirstIndex(s, p)
    case None => None
    case Some(i) => Some(s[i])
  }

  /** The elements satisfying `p`, in their original order (`.filter(p)`). */
  function Filter<T(!new)>(s: seq<T>, p: T -> bool): (r: seq<T>)
    ensures |r| <= |s|
    ensures forall x :: x in r <==> x in s && p(x)
    decreases |s|
  {
    if |s| == 0 then [] else (if p(s[0]) then [s[0]] else []) + Filter(s[1..], p)
  }

  /** No element occurs twice. */
  ghost predicate Distinct<T>(s: seq<T>) {
    forall i, j :: 0 <= i < j < |s| ==> s[i] != s[j]
  }

  /** A list without repeats holds each of its elements exactly once. */
  lemma {:induction false} DistinctCount<T>(s: seq<T>, x: T)
    requires Distinct(s)
    ensures multiset(s)[x] == if x in s then 1 else 0
    decreases |s|
  {
    if s != [] {
      assert s == [s[0]] + s[1..];
      assert Distinct(s[1..]) by {
        forall i, j | 0 <= i < j < |s[1..]| ensures s[1..][i] != s[1..][j] {
          assert s[1..][i] == s[i + 1] && s[1..][j] == s[j + 1];
        }
      }
      assert s[0] !in s[1..];
      DistinctCount(s[1..], x);
    }
  }

  /** Two lists without repeats and with the same elements are permutations of each other. */
  lemma DistinctSameMultiset<T>(a: seq<T>, b: seq<T>)
    requires Distinct(a) && Distinct(b)
    requires forall x :: x in a <==> x in b
    ensures multiset(a) == multiset(b)
  {
    forall x ensures multiset(a)[x] == multiset(b)[x] {
      DistinctCount(a, x);
      DistinctCount(b, x);
    }
  }

  /** Appending after the first match does not move it; otherwise the new element may be it. */
  lemma {:induction false} FirstIndexAppend<T>(s: seq<T>, x: T, p: T -> bool)
    ensures FirstIndex(s + [x], p) ==
            if FirstIndex(s, p).Some? then FirstIndex(s, p)
            else if p(x) then Some(|s|) else None
    decreases |s|
  {
    if s == [] {
      assert s + [x] == [x];
      assert [x][1..] == [];
    } else {
      assert (s + [x])[0] == s[0];
      assert (s + [x])[1..] == s[1..] + [x];
      if !p(s[0]) {
        FirstIndexAppend(s[1..], x, p);
      }
    }
  }

  /** The first match of a non-empty sequence: its head, or the first match of its tail. */
  lemma FindCons<T>(s: seq<T>, p: T -> bool)
    requires s != []
    ensures Find(s, p) == if p(s[0]) then Some(s[0]) else Find(s[1..], p)
  {
  }

  /** Replacing an element by one that `p` judges alike leaves the first match where it was. */
  lemma FirstIndexUpdate<T>(s: seq<T>, i: nat, y: T, p: T -> bool)
    requires i < |s| && p(y) == p(s[i])
    ensures FirstIndex(s[i := y], p) == FirstIndex(s, p)
  {
    var r, r' := FirstIndex(s, p), FirstIndex(s[i := y], p);
    assert forall j :: 0 <= j < |s| ==> p(s[i := y][j]) == p(s[j]);
    if r.Some? {
      assert p(s[i := y][r.value]);
    }
    if r'.Some? {
      assert p(s[r'.value]);
    }
  }

  /** Filtering distributes over concatenation: it preserves relative order. */
  lemma {:induction false} FilterAppend<T(!new)>(a: seq<T>, b: seq<T>, p: T -> bool)
    ensures Filter(a + b, p) == Filter(a, p) + Filter(b, p)
    decreases |a|
  {
    if a == [] {
      assert a + b == b;
    } else {
      assert (a + b)[1..] == a[1..] + b;
      FilterAppend(a[1..], b, p);
    }
  }

  /** A filter every element passes changes nothing. */
  lemma {:induction false} FilterAll<T(!new)>(s: seq<T>, p: T -> bool)
    requires forall j :: 0 <= j < |s| ==> p(s[j])
    ensures Filter(s, p) == s
    decreases |s|
  {
    if s != [] {
      FilterAll(s[1..], p);
    }
  }

  /** A filter no element passes leaves nothing. */
  lemma {:induction false} FilterNone<T(!new)>(s: seq<T>, p: T -> bool)
    requires forall j :: 0 <= j < |s| ==> !p(s[j])
    ensures Filter(s, p) == []
    decreases |s|
  {
    if s != [] {
      FilterNone(s[1..], p);
    }
  }

  /** Filtering keeps a sequence free of repetitions. */
  lemma {:induction false} FilterDistinct<T(!new)>(s: seq<T>, p: T -> bool)
    requires Distinct(s)
    ensures Distinct(Filter(s, p))
    decreases |s|
  {
    if s != [] {
      FilterDistinct(s[1..], p);
      assert s[0] !in s[1..];
    }
  }

  /**
   * Filtering out elements that a lookup never matches does not change the
   * lookup's answer.
   */
  lemma {:induction false} FindFilter<T(!new)>(s: seq<T>, p: T -> bool, q: T -> bool)
    requires forall x :: q(x) ==> p(x)
    ensures Find(Filter(s, p), q) == Find(s, q)
    decreases |s|
  {
    if s != [] {
      FindFilter(s[1..], p, q);
      FindCons(s, q);
      var rest := Filter(s[1..], p);
      if p(s[0]) {
        assert Filter(s, p) == [s[0]] + rest;
        assert ([s[0]] + rest)[1..] == rest;
        FindCons([s[0]] + rest, q);
      } else {
        assert Filter(s, p) == rest;
      }
    }
  }

  // ---- lookups and deletions on the four tables ----

  /** `trips.filter(_id == id).first()` */
  function TripIndex(trips: seq<TripRow>, id: TripId): (r: Option<nat>)
    ensures r.Some? ==> r.value < |trips| && trips[r.value].id == id && forall j :: 0 <= j < r.value ==> trips[j].id != id
    ensures r.None? <==> forall j :: 0 <= j < |trips| ==> trips[j].id != id
  {
    FirstIndex(trips, (t: TripRow) => t.id == id)
  }

  /** `trips.filter(slug == slug).first()` */
  function TripIndexBySlug(trips: seq<TripRow>, slug: string): (r: Option<nat>)
    ensures r.Some? ==> r.value < |trips| && trips[r.value].slug == slug && forall j :: 0 <= j < r.value ==> trips[j].slug != slug
    ensures r.None? <==> forall j :: 0 <= j < |trips| ==> trips[j].slug != slug
  {
    FirstIndex(trips, (t: TripRow) => t.slug == slug)
  }

  /** `stops.filter(_id == id).first()`, and `db.get(id)` */
  function StopIndex(stops: seq<StopRow>, id: StopId): (r: Option<nat>)
    ensures r.Some? ==> r.value < |stops| && stops[r.value].id == id && forall j :: 0 <= j < r.value ==> stops[j].id != id
    ensures r.None? <==> forall j :: 0 <= j < |stops| ==> stops[j].id != id
  {
    FirstIndex(stops, (s: StopRow) => s.id == id)
  }

  /** The transitTimes row for the ordered pair (first, second), if any. */
  function PairIndex(tts: seq<TransitTimeRow>, first: StopId, second: StopId): (r: Option<nat>)
    ensures r.Some? ==> r.value < |tts| && tts[r.value].stopIdFirst == first && tts[r.value].stopIdSecond == second
    ensures r.Some? ==> forall j :: 0 <= j < r.value ==> !(tts[j].stopIdFirst == first && tts[j].stopIdSecond == second)
    ensures r.None? <==> forall j :: 0 <= j < |tts| ==> !(tts[j].stopIdFirst == first && tts[j].stopIdSecond == second)
  {
    FirstIndex(tts, (t: TransitTimeRow) => t.stopIdFirst == first && t.stopIdSecond == second)
  }

  /** `getStopById`: the stop document with that id, or null. */
  function GetStopById(stops: seq<StopRow>, id: StopId): (r: Option<StopRow>)
    ensures r.Some? ==> r.value in stops && r.value.id == id
    ensures r.None? <==> forall j :: 0 <= j < |stops| ==> stops[j].id != id
  {
    Find(stops, (s: StopRow) => s.id == id)
  }

  /** `ids.filter((s) => s !== x)` */
  function Without(ids: seq<StopId>, x: StopId): (r: seq<StopId>)
    ensures |r| <= |ids|
    ensures forall y :: y in r <==> y in ids && y != x
  {
    Filter(ids, (y: StopId) => y != x)
  }

  /** The stops table after `db.delete(id)`. */
  function DeleteStop(stops: seq<StopRow>, id: StopId): (r: seq<StopRow>)
    ensures |r| <= |stops|
    ensures forall s :: s in r <==> s in stops && s.id != id
  {
    Filter(stops, (s: StopRow) => s.id != id)
  }

  /** The tripSteps table after deleting every step of transit time `tt`. */
  function DeleteSteps(steps: seq<TripStepRow>, tt: TransitTimeId): (r: seq<TripStepRow>)
    ensures |r| <= |steps|
    ensures forall x :: x in r <==> x in steps && x.transitTimeId != tt
  {
    Filter(steps, (r: TripStepRow) => r.transitTimeId != tt)
  }

  /** The steps of transit time `tt` for trip mode `m`, in table order. */
  function Group(steps: seq<TripStepRow>, tt: TransitTimeId, m: Mode): seq<TripStepRow> {
    Filter(steps, (r: TripStepRow) => r.transitTimeId == tt && r.tripMode == m)
  }

  // ---- what the lookups and deletions promise ----

  /** Removing an id keeps the order of every other id and removes every occurrence. */
  lemma WithoutSpec(ids: seq<StopId>, x: StopId)
    ensures x !in Without(ids, x)
    ensures forall y :: y != x ==> (y in Without(ids, x) <==> y in ids)
    ensures x !in ids ==> Without(ids, x) == ids
    ensures Distinct(ids) ==> Distinct(Without(ids, x))
  {
    if x !in ids {
      FilterAll(ids, (y: StopId) => y != x);
    }
    if Distinct(ids) {
      FilterDistinct(ids, (y: StopId) => y != x);
    }
  }

  /** `Without` distributes over concatenation (relative order is preserved). */
  lemma WithoutAppend(a: seq<StopId>, b: seq<StopId>, x: StopId)
    ensures Without(a + b, x) == Without(a, x) + Without(b, x)
  {
    FilterAppend(a, b, (y: StopId) => y != x);
  }

  /** Appending an id and then removing it restores the list, when the id was new. */
  lemma WithoutAppended(ids: seq<StopId>, x: StopId)
    requires x !in ids
    ensures Without(ids + [x], x) == ids
  {
    WithoutAppend(ids, [x], x);
    WithoutSpec(ids, x);
    assert Without([x], x) == [];
  }

  /** No two stop documents share an id. */
  ghost predicate StopIdsUnique(stops: seq<StopRow>) {
    forall i, j :: 0 <= i < j < |stops| ==> stops[i].id != stops[j].id
  }

  /** With unique ids, looking a stop up by its own id finds that very stop. */
  lemma GetStopOfMember(stops: seq<StopRow>, x: StopRow)
    requires StopIdsUnique(stops) && x in stops
    ensures GetStopById(stops, x.id) == Some(x)
  {
  }

  /** Deleting stops keeps their ids unique. */
  lemma {:induction false} FilterStopIdsUnique(stops: seq<StopRow>, p: StopRow -> bool)
    requires StopIdsUnique(stops)
    ensures StopIdsUnique(Filter(stops, p))
    decreases |stops|
  {
    if stops != [] {
      var rest := Filter(stops[1..], p);
      assert StopIdsUnique(stops[1..]) by {
        forall i, j | 0 <= i < j < |stops[1..]| ensures stops[1..][i].id != stops[1..][j].id {
          assert stops[1..][i] == stops[i + 1] && stops[1..][j] == stops[j + 1];
        }
      }
      FilterStopIdsUnique(stops[1..], p);
      if p(stops[0]) {
        forall j | 0 <= j < |rest| ensures rest[j].id != stops[0].id {
          assert rest[j] in stops[1..];
          var k :| 0 <= k < |stops[1..]| && stops[1..][k] == rest[j];
          assert stops[k + 1] == rest[j];
        }
        var r := [stops[0]] + rest;
        assert Filter(stops, p) == r;
        forall i, j | 0 <= i < j < |r| ensures r[i].id != r[j].id {
          if i > 0 {
            assert r[i] == rest[i - 1] && r[j] == rest[j - 1];
          }
        }
      } else {
        assert Filter(stops, p) == rest;
      }
    }
  }

  /** After deleting a stop, every other stop is found exactly as before. */
  lemma GetStopAfterDelete(stops: seq<StopRow>, id: StopId, x: StopId)
    requires x != id
    ensures GetStopById(DeleteStop(stops, id), x) == GetStopById(stops, x)
  {
    FindFilter(stops, (s: StopRow) => s.id != id, (s: StopRow) => s.id == x);
  }

  /** Appending a stop does not change how the stops already there are found. */
  lemma GetStopAfterAppend(stops: seq<StopRow>, r: StopRow, x: StopId)
    ensures GetStopById(stops + [r], x) ==
            if GetStopById(stops, x).Some? then GetStopById(stops, x)
            else if r.id == x then Some(r) else None
  {
    FirstIndexAppend(stops, r, (s: StopRow) => s.id == x);
  }

  /** Deleting a stop deletes it, and nothing else. */
  lemma DeleteStopSpec(stops: seq<StopRow>, id: StopId)
    ensures GetStopById(DeleteStop(stops, id), id).None?
    ensures forall r :: r in DeleteStop(stops, id) <==> r in stops && r.id != id
    ensures (forall j :: 0 <= j < |stops| ==> stops[j].id != id) ==> DeleteStop(stops, id) == stops
  {
    var d := DeleteStop(stops, id);
    forall j | 0 <= j < |d| ensures d[j].id != id {
      assert d[j] in d;
    }
    if forall j :: 0 <= j < |stops| ==> stops[j].id != id {
      FilterAll(stops, (s: StopRow) => s.id != id);
    }
  }

  /** Groups of a concatenation are the concatenations of the groups. */
  lemma GroupAppend(a: seq<TripStepRow>, b: seq<TripStepRow>, tt: TransitTimeId, m: Mode)
    ensures Group(a + b, tt, m) == Group(a, tt, m) + Group(b, tt, m)
  {
    FilterAppend(a, b, (r: TripStepRow) => r.transitTimeId == tt && r.tripMode == m);
  }

  /** Deleting the steps of `tt` empties its groups and leaves every other group as it was. */
  lemma {:induction false} GroupAfterDelete(steps: seq<TripStepRow>, tt: TransitTimeId, tt': TransitTimeId, m: Mode)
    ensures Group(DeleteSteps(steps, tt), tt', m) == if tt' == tt then [] else Group(steps, tt', m)
    decreases |steps|
  {
    if steps != [] {
      GroupAfterDelete(steps[1..], tt, tt', m);
      var rest := DeleteSteps(steps[1..], tt);
      if steps[0].transitTimeId != tt {
        assert DeleteSteps(steps, tt) == [steps[0]] + rest;
        assert ([steps[0]] + rest)[1..] == rest;
      } else {
        assert DeleteSteps(steps, tt) == rest;
      }
    }
  }
}

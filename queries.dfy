/**
 * The read side of convex/trips.ts: `getBySlug`, which returns a trip with its
 * stops ordered by their position in the trip's stop list and the estimates
 * leaving any of those stops.
 */
module TripQueries {
  import opened Schema
  import opened Tables

  datatype TripView = TripView(trip: TripRow, stops: seq<StopRow>, estimates: seq<TransitTimeRow>)

  /** `Array.prototype.indexOf`: the first position of `x` in `xs`, or -1. */
  function IndexOf(xs: seq<StopId>, x: StopId): (r: int)
    ensures -1 <= r < |xs|
    ensures r == -1 <==> x !in xs
    ensures r >= 0 ==> xs[r] == x && forall j :: 0 <= j < r ==> xs[j] != x
  {
    match FirstIndex(xs, (y: StopId) => y == x)
    case None => -1
    case Some(i) => i
  }

  /** The sort key of a stop: its position in the trip's list. */
  function Position(order: seq<StopId>, s: StopRow): int {
    IndexOf(order, s.id)
  }

  ghost predicate SortedBy<T>(key: T -> int, ss: seq<T>) {
    forall i, j :: 0 <= i < j < |ss| ==> key(ss[i]) <= key(ss[j])
  }

  /** Insert `x` in front of the first element whose key is not below its own. */
  function InsertBy<T>(key: T -> int, x: T, ss: seq<T>): (r: seq<T>)
    ensures multiset(r) == multiset(ss) + multiset{x}
  {
    if ss == [] then [x]
    else if key(x) <= key(ss[0]) then [x] + ss
    else
      assert ss == [ss[0]] + ss[1..];
      [ss[0]] + InsertBy(key, x, ss[1..])
  }

  /** Inserting into a sorted list keeps it sorted. */
  lemma {:induction false} InsertKeepsSorted<T>(key: T -> int, x: T, ss: seq<T>)
    requires SortedBy(key, ss)
    ensures SortedBy(key, InsertBy(key, x, ss))
    decreases |ss|
  {
    if ss != [] && key(x) > key(ss[0]) {
      var rest := InsertBy(key, x, ss[1..]);
      InsertKeepsSorted(key, x, ss[1..]);
      forall y | y in rest ensures key(ss[0]) <= key(y) {
        assert y in multiset(rest);
        if y != x {
          assert y in multiset(ss[1..]);
          var k :| 0 <= k < |ss[1..]| && ss[1..][k] == y;
          assert ss[k + 1] == y;
        }
      }
      var r := [ss[0]] + rest;
      forall i, j | 0 <= i < j < |r| ensures key(r[i]) <= key(r[j]) {
        if i > 0 {
          assert r[i] == rest[i - 1] && r[j] == rest[j - 1];
        } else {
          assert r[j] in rest;
        }
      }
    }
  }

  /** Insertion sort: a permutation of `ss` in ascending order of `key`. */
  function SortBy<T>(key: T -> int, ss: seq<T>): (r: seq<T>)
    ensures multiset(r) == multiset(ss)
    ensures SortedBy(key, r)
  {
    if ss == [] then []
    else
      assert ss == [ss[0]] + ss[1..];
      InsertKeepsSorted(key, ss[0], SortBy(key, ss[1..]));
      InsertBy(key, ss[0], SortBy(key, ss[1..]))
  }

  /** `stops.sort((a, b) => indexOf(a) - indexOf(b))`: ordered by position in `order`. */
  function SortByPosition(order: seq<StopId>, ss: seq<StopRow>): (r: seq<StopRow>)
    ensures multiset(r) == multiset(ss)
    ensures forall i, j :: 0 <= i < j < |r| ==> Position(order, r[i]) <= Position(order, r[j])
  {
    SortBy((s: StopRow) => Position(order, s), ss)
  }

  /** The stops whose id is in the list. */
  function StopsIn(stops: seq<StopRow>, ids: seq<StopId>): (r: seq<StopRow>)
    ensures forall s :: s in r <==> s in stops && s.id in ids
  {
    Filter(stops, (s: StopRow) => s.id in ids)
  }

  /** The estimates whose first stop is in the list. */
  function EstimatesFrom(tts: seq<TransitTimeRow>, ids: seq<StopId>): (r: seq<TransitTimeRow>)
    ensures forall t :: t in r <==> t in tts && t.stopIdFirst in ids
  {
    Filter(tts, (t: TransitTimeRow) => t.stopIdFirst in ids)
  }

  /**
   * `getBySlug`: none when no trip has the slug; otherwise the first such trip,
   * every stop whose id is in its list (ordered by position there) and every
   * estimate whose first stop is in its list.
   */
  function GetBySlug(trips: seq<TripRow>, stops: seq<StopRow>, tts: seq<TransitTimeRow>, slug: string): (r: Option<TripView>)
    ensures r.None? <==> forall j :: 0 <= j < |trips| ==> trips[j].slug != slug
    ensures r.Some? ==>
      && r.value.trip.slug == slug
      && (exists i :: 0 <= i < |trips| && trips[i] == r.value.trip && forall j :: 0 <= j < i ==> trips[j].slug != slug)
      && multiset(r.value.stops) == multiset(StopsIn(stops, r.value.trip.stops))
      && (forall i, j :: 0 <= i < j < |r.value.stops| ==> Position(r.value.trip.stops, r.value.stops[i]) <= Position(r.value.trip.stops, r.value.stops[j]))
      && (forall s :: s in r.value.stops <==> s in stops && s.id in r.value.trip.stops)
      && (forall t :: t in r.value.estimates <==> t in tts && t.stopIdFirst in r.value.trip.stops)
  {
    match TripIndexBySlug(trips, slug)
    case None => None
    case Some(i) =>
      var trip := trips[i];
      var found := StopsIn(stops, trip.stops);
      var sorted := SortByPosition(trip.stops, found);
      assert forall s :: s in sorted <==> s in found by {
        forall s ensures s in sorted <==> s in found {
          assert s in multiset(sorted) <==> s in multiset(found);
        }
      }
      Some(TripView(trip, sorted, EstimatesFrom(tts, trip.stops)))
  }

  /** Permutations that start alike are permutations after their first element. */
  lemma TailsPermutation<T>(a: seq<T>, b: seq<T>)
    requires a != [] && b != [] && a[0] == b[0]
    requires multiset(a) == multiset(b)
    ensures multiset(a[1..]) == multiset(b[1..])
  {
    assert a == [a[0]] + a[1..] && b == [b[0]] + b[1..];
    assert multiset(a[1..]) == multiset(a) - multiset{a[0]};
    assert multiset(b[1..]) == multiset(b) - multiset{b[0]};
  }

  /** A sorted permutation of a strictly sorted list starts with the same element. */
  lemma SortedPermutationHead<T>(key: T -> int, a: seq<T>, b: seq<T>)
    requires a != [] && multiset(a) == multiset(b)
    requires SortedBy(key, a)
    requires forall i, j :: 0 <= i < j < |b| ==> key(b[i]) < key(b[j])
    ensures b != [] && a[0] == b[0]
  {
    assert a[0] in multiset(b);
    assert b[0] in multiset(a);
    var p :| 0 <= p < |a| && a[p] == b[0];
    var k :| 0 <= k < |b| && b[k] == a[0];
    assert key(a[0]) <= key(b[0]) by {
      if p > 0 {
        assert key(a[0]) <= key(a[p]);
      }
    }
  }

  /** A sorted permutation of a list sorted strictly by the same key is that list. */
  lemma {:induction false} SortedPermutationUnique<T>(key: T -> int, a: seq<T>, b: seq<T>)
    requires multiset(a) == multiset(b)
    requires SortedBy(key, a)
    requires forall i, j :: 0 <= i < j < |b| ==> key(b[i]) < key(b[j])
    ensures a == b
    decreases |a|
  {
    assert |a| == |multiset(a)| == |multiset(b)| == |b|;
    if a != [] {
      SortedPermutationHead(key, a, b);
      TailsPermutation(a, b);
      SortedPermutationUnique(key, a[1..], b[1..]);
      assert a == [a[0]] + a[1..] && b == [b[0]] + b[1..];
    }
  }

  /** The position of each listed id, in a list without repeats, is its index. */
  lemma PositionInDistinct(ids: seq<StopId>, k: nat, s: StopRow)
    requires Distinct(ids) && k < |ids| && s.id == ids[k]
    ensures Position(ids, s) == k
  {
  }

  /**
   * The stops of a list of ids without repeats, each id resolving, in list
   * order: a permutation of the stops whose id is listed, strictly ordered by
   * position in the list.
   */
  lemma ListedStops(stops: seq<StopRow>, ids: seq<StopId>) returns (expected: seq<StopRow>)
    requires StopIdsUnique(stops) && Distinct(ids)
    requires forall k :: 0 <= k < |ids| ==> GetStopById(stops, ids[k]).Some?
    ensures |expected| == |ids| && forall k :: 0 <= k < |ids| ==> expected[k].id == ids[k]
    ensures multiset(expected) == multiset(StopsIn(stops, ids))
    ensures forall a, b :: 0 <= a < b < |expected| ==> Position(ids, expected[a]) < Position(ids, expected[b])
  {
    var found := StopsIn(stops, ids);
    expected := seq(|ids|, k requires 0 <= k < |ids| => GetStopById(stops, ids[k]).value);
    forall k | 0 <= k < |ids| ensures Position(ids, expected[k]) == k {
      PositionInDistinct(ids, k, expected[k]);
    }
    assert Distinct(expected) by {
      forall a, b | 0 <= a < b < |expected| ensures expected[a] != expected[b] {
        assert Position(ids, expected[a]) == a && Position(ids, expected[b]) == b;
      }
    }
    assert Distinct(found) by {
      assert Distinct(stops) by {
        forall a, b | 0 <= a < b < |stops| ensures stops[a] != stops[b] {
          assert stops[a].id != stops[b].id;
        }
      }
      FilterDistinct(stops, (s: StopRow) => s.id in ids);
    }
    forall x ensures x in found <==> x in expected {
      if x in found {
        var k :| 0 <= k < |ids| && ids[k] == x.id;
        GetStopOfMember(stops, x);
        assert expected[k] == x;
      }
      if x in expected {
        var k :| 0 <= k < |expected| && expected[k] == x;
        assert x in stops && x.id == ids[k];
      }
    }
    DistinctSameMultiset(found, expected);
  }

  /**
   * When stop ids are unique and the trip's list has no repeats and only ids
   * of existing stops (as in every store the mutations build), `getBySlug`
   * returns the trip's stops exactly as its list orders them: one stop per
   * listed id, at the id's position.
   */
  lemma GetBySlugListsTripStops(trips: seq<TripRow>, stops: seq<StopRow>, tts: seq<TransitTimeRow>, slug: string)
    requires StopIdsUnique(stops)
    requires TripIndexBySlug(trips, slug).Some?
    requires var ids := trips[TripIndexBySlug(trips, slug).value].stops;
      Distinct(ids) && forall k :: 0 <= k < |ids| ==> GetStopById(stops, ids[k]).Some?
    ensures GetBySlug(trips, stops, tts, slug).Some?
    ensures var v := GetBySlug(trips, stops, tts, slug).value;
      |v.stops| == |v.trip.stops| && forall k :: 0 <= k < |v.stops| ==> v.stops[k].id == v.trip.stops[k]
  {
    var ids := trips[TripIndexBySlug(trips, slug).value].stops;
    var v := GetBySlug(trips, stops, tts, slug).value;
    assert v.stops == SortByPosition(ids, StopsIn(stops, ids));
    var expected := ListedStops(stops, ids);
    SortedPermutationUnique((s: StopRow) => Position(ids, s), v.stops, expected);
  }
}

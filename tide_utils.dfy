/**
 * The pure part of src/utils/tide-utils.ts: the tide-status classifier
 * `determineTideStatus` and the selection pipeline of `findNearestTideStation`
 * (filter malformed catalog entries, tag each with its distance, sort by
 * distance, take element 0). The clock and the haversine distance are
 * parameters; the catalog arrives as the outcome of the fetch.
 */
module TideUtils {
  import opened Wrappers

  // ---------------------------------------------------------------------------
  // Tide-status classifier
  // ---------------------------------------------------------------------------

  /** One NOAA prediction: its time `t` in epoch milliseconds and its water level `v`. */
  datatype Prediction = Prediction(t: int, v: real)

  datatype TideStatus = Rising | Falling | High | Low

  /** Two consecutive levels closer than this straddle a turning point. */
  const TURNING_THRESHOLD: real := 0.1

  function Abs(x: real): (r: real)
    ensures r >= 0.0 && (r == x || r == -x)
  {
    if x < 0.0 then -x else x
  }

  /** Sample `i` holds at `now`: t_i <= now < t_(i+1), with no upper edge for the last sample. */
  predicate Brackets(p: seq<Prediction>, now: int, i: int)
  {
    0 <= i < |p| && p[i].t <= now && (i + 1 < |p| ==> now < p[i + 1].t)
  }

  /** `i` is where `predictions.find` stops: the first sample that brackets `now`. */
  predicate FirstBracket(p: seq<Prediction>, now: int, i: int)
  {
    Brackets(p, now, i) && forall j :: 0 <= j < i ==> !Brackets(p, now, j)
  }

  /**
   * `predictions.find(...)` from index `from` on, followed by `indexOf`: the
   * objects of the array are distinct, so `indexOf` gives back the index at
   * which `find` stopped.
   */
  function FindCurrent(p: seq<Prediction>, now: int, from: nat): (r: Option<nat>)
    requires from <= |p|
    ensures r.Some? ==> from <= r.value < |p| && Brackets(p, now, r.value)
    ensures r.Some? ==> forall j :: from <= j < r.value ==> !Brackets(p, now, j)
    ensures r.None? ==> forall j :: from <= j < |p| ==> !Brackets(p, now, j)
    decreases |p| - from
  {
    if from == |p| then None
    else if Brackets(p, now, from) then Some(from)
    else FindCurrent(p, now, from + 1)
  }

  /** The comparison of the current level with the next one. */
  function HeightTrend(current: real, next: real): (r: TideStatus)
    ensures r == Rising <==> next - current >= TURNING_THRESHOLD
    ensures r == Falling <==> current - next >= TURNING_THRESHOLD
    ensures r == High <==> 0.0 < current - next < TURNING_THRESHOLD
    ensures r == Low <==> 0.0 <= next - current < TURNING_THRESHOLD
  {
    if Abs(next - current) < TURNING_THRESHOLD then
      (if current > next then High else Low)
    else if current < next then Rising else Falling
  }

  /**
   * `determineTideStatus(predictions)` evaluated at time `now`. Total: the
   * empty series, a one-sample series, a `now` that no sample brackets and a
   * bracketing last sample all give the default `Rising`.
   */
  function DetermineTideStatus(p: seq<Prediction>, now: int): (r: TideStatus)
    ensures |p| < 2 ==> r == Rising
    ensures (forall i :: 0 <= i < |p| ==> !Brackets(p, now, i)) ==> r == Rising
    ensures forall i :: FirstBracket(p, now, i) && i + 1 == |p| ==> r == Rising
    ensures forall i :: FirstBracket(p, now, i) && i + 1 < |p| ==> r == HeightTrend(p[i].v, p[i + 1].v)
  {
    match FindCurrent(p, now, 0)
    case None => Rising
    case Some(i) =>
      if |p| < 2 then Rising
      else if i + 1 >= |p| then Rising
      else HeightTrend(p[i].v, p[i + 1].v)
  }

  /** Any status other than the default comes from a real bracketing pair. */
  lemma StatusHasWitness(p: seq<Prediction>, now: int)
    ensures DetermineTideStatus(p, now) != Rising ==>
      exists i :: (FirstBracket(p, now, i) && i + 1 < |p| &&
                   DetermineTideStatus(p, now) == HeightTrend(p[i].v, p[i + 1].v))
  {
    var found := FindCurrent(p, now, 0);
    if found.Some? {
      var i := found.value;
      assert FirstBracket(p, now, i);
    }
  }

  /** `Falling` is only returned for a drop of at least the threshold. */
  lemma FallingIsADrop(p: seq<Prediction>, now: int)
    requires DetermineTideStatus(p, now) == Falling
    ensures exists i :: (FirstBracket(p, now, i) && i + 1 < |p| &&
                         p[i].v - p[i + 1].v >= TURNING_THRESHOLD)
  {
    StatusHasWitness(p, now);
  }

  /** The timestamps of the series strictly increase, as NOAA delivers them. */
  predicate Ascending(p: seq<Prediction>)
  {
    forall k :: 0 < k < |p| ==> p[k - 1].t < p[k].t
  }

  lemma {:induction false} AscendingBetween(p: seq<Prediction>, i: nat, j: nat)
    requires Ascending(p) && i < j < |p|
    ensures p[i].t < p[j].t
    decreases j - i
  {
    if i + 1 < j {
      AscendingBetween(p, i + 1, j);
    }
  }

  /** Once the first sample is at or before `now`, some sample brackets `now`. */
  lemma {:induction false} BracketExistsFrom(p: seq<Prediction>, now: int, i: nat)
    requires i < |p| && p[i].t <= now
    ensures exists j :: i <= j < |p| && Brackets(p, now, j)
    decreases |p| - i
  {
    if i + 1 < |p| && p[i + 1].t <= now {
      BracketExistsFrom(p, now, i + 1);
    } else {
      assert Brackets(p, now, i);
    }
  }

  /**
   * In a time-ordered series the sample that brackets `now` is unique, so the
   * status is the trend of that sample and its successor.
   */
  lemma AscendingSeriesStatus(p: seq<Prediction>, now: int, i: nat)
    requires Ascending(p) && Brackets(p, now, i) && i + 1 < |p|
    ensures DetermineTideStatus(p, now) == HeightTrend(p[i].v, p[i + 1].v)
  {
    FirstBracketOfAscending(p, now, i);
  }

  lemma FirstBracketOfAscending(p: seq<Prediction>, now: int, i: nat)
    requires Ascending(p) && Brackets(p, now, i)
    ensures FirstBracket(p, now, i)
  {
    forall j | 0 <= j < i
      ensures !Brackets(p, now, j)
    {
      if Brackets(p, now, j) {
        if j + 1 < i {
          AscendingBetween(p, j + 1, i);
        }
        assert false;
      }
    }
    assert FirstBracket(p, now, i);
  }

  /** Once the series has begun by `now`, the default arises only from a last bracketing sample. */
  lemma DefaultOnlyAtEnd(p: seq<Prediction>, now: int)
    requires Ascending(p) && |p| >= 2 && p[0].t <= now < p[|p| - 1].t
    ensures exists i :: (FirstBracket(p, now, i) && i + 1 < |p| &&
                         DetermineTideStatus(p, now) == HeightTrend(p[i].v, p[i + 1].v))
  {
    BracketExistsFrom(p, now, 0);
    var i :| 0 <= i < |p| && Brackets(p, now, i);
    assert i + 1 < |p|;
    AscendingSeriesStatus(p, now, i);
    FirstBracketOfAscending(p, now, i);
  }

  /** Levels 1.0 then 1.05 around `now`: a difference under 0.1 with a rise is a low tide. */
  lemma SmallRiseIsLow()
    ensures DetermineTideStatus([Prediction(0, 1.0), Prediction(3_600_000, 1.05)], 1_800_000) == Low
  {
    var p := [Prediction(0, 1.0), Prediction(3_600_000, 1.05)];
    assert FirstBracket(p, 1_800_000, 0);
  }

  /** Levels 1.0 then 2.0 around `now`: the tide is rising. */
  lemma LargeRiseIsRising()
    ensures DetermineTideStatus([Prediction(0, 1.0), Prediction(3_600_000, 2.0)], 1_800_000) == Rising
  {
    var p := [Prediction(0, 1.0), Prediction(3_600_000, 2.0)];
    assert FirstBracket(p, 1_800_000, 0);
  }

  // ---------------------------------------------------------------------------
  // Nearest-station selection
  // ---------------------------------------------------------------------------

  /** A property of a catalog entry as the JSON payload delivers it. */
  datatype JsValue = JsString(s: string) | JsNumber(n: real) | JsOther

  /** A catalog entry: null or another non-object, or an object with the four properties read. */
  datatype RawStation = NonObject | Object(id: JsValue, name: JsValue, lat: JsValue, lng: JsValue)

  /** A station after the filter: exactly the four copied fields. */
  datatype Station = Station(id: string, name: string, lat: real, lng: real)

  /** A station tagged with its distance (km) to the target coordinate. */
  datatype RankedStation = RankedStation(id: string, name: string, lat: real, lng: real, distance: real)

  const NO_VALID_STATIONS: string := "No valid tide stations found in NOAA data"
  const NEAREST_FAILED: string := "Failed to find nearest tide station: "

  /** The type guard of the filter. */
  predicate IsValidStation(e: RawStation)
  {
    e.Object? && e.id.JsString? && e.name.JsString? && e.lat.JsNumber? && e.lng.JsNumber?
  }

  /** The `map` after the filter: copies `id`, `name`, `lat`, `lng` and nothing else. */
  function CopyStation(e: RawStation): Station
    requires IsValidStation(e)
  {
    Station(e.id.s, e.name.s, e.lat.n, e.lng.n)
  }

  /** The number of entries that pass the type guard. */
  function CountValid(c: seq<RawStation>): nat
  {
    if c == [] then 0 else (if IsValidStation(c[0]) then 1 else 0) + CountValid(c[1..])
  }

  /** The filtered, copied catalog. */
  function ValidStations(c: seq<RawStation>): (r: seq<Station>)
    ensures |r| == CountValid(c)
  {
    if c == [] then []
    else (if IsValidStation(c[0]) then [CopyStation(c[0])] else []) + ValidStations(c[1..])
  }

  lemma CountValidSplit(c: seq<RawStation>, k: nat)
    requires 0 < k <= |c|
    ensures CountValid(c[..k]) == (if IsValidStation(c[0]) then 1 else 0) + CountValid(c[1..][..k - 1])
  {
    assert c[..k][1..] == c[1..][..k - 1];
  }

  /**
   * Every valid entry is kept, at the position given by the number of valid
   * entries before it: the filter keeps all of them, in catalog order.
   */
  lemma {:induction false} ValidStationsKeeps(c: seq<RawStation>, k: nat)
    requires k < |c| && IsValidStation(c[k])
    ensures CountValid(c[..k]) < |ValidStations(c)|
    ensures ValidStations(c)[CountValid(c[..k])] == CopyStation(c[k])
  {
    if k == 0 {
      assert c[..0] == [];
    } else {
      CountValidSplit(c, k);
      ValidStationsKeeps(c[1..], k - 1);
    }
  }

  /** Every kept station is the copy of a valid entry, found at its catalog position. */
  lemma {:induction false} ValidStationsOnly(c: seq<RawStation>, j: nat)
    requires j < |ValidStations(c)|
    ensures exists k :: (0 <= k < |c| && IsValidStation(c[k]) && CountValid(c[..k]) == j &&
                         ValidStations(c)[j] == CopyStation(c[k]))
  {
    assert c != [];
    if IsValidStation(c[0]) && j == 0 {
      assert c[..0] == [];
      assert IsValidStation(c[0]) && CountValid(c[..0]) == j;
    } else {
      var j' := if IsValidStation(c[0]) then j - 1 else j;
      ValidStationsOnly(c[1..], j');
      var k' :| 0 <= k' < |c[1..]| && IsValidStation(c[1..][k']) && CountValid(c[1..][..k']) == j' &&
        ValidStations(c[1..])[j'] == CopyStation(c[1..][k']);
      CountValidSplit(c, k' + 1);
      assert IsValidStation(c[k' + 1]) && CountValid(c[..k' + 1]) == j;
    }
  }

  /** A station with its distance from (`lat`, `lon`), as `calculateDistance` would give it. */
  function Ranked(s: Station, lat: real, lon: real, dist: (real, real, real, real) -> real): RankedStation
  {
    RankedStation(s.id, s.name, s.lat, s.lng, dist(lat, lon, s.lat, s.lng))
  }

  /** `stations.map(station => ({...station, distance}))`. */
  function WithDistances(stations: seq<Station>, lat: real, lon: real,
                         dist: (real, real, real, real) -> real): (r: seq<RankedStation>)
    ensures |r| == |stations|
    ensures forall i :: 0 <= i < |r| ==> r[i] == Ranked(stations[i], lat, lon, dist)
  {
    if stations == [] then []
    else [Ranked(stations[0], lat, lon, dist)] + WithDistances(stations[1..], lat, lon, dist)
  }

  predicate SortedByDistance(s: seq<RankedStation>)
  {
    forall i, j :: 0 <= i < j < |s| ==> s[i].distance <= s[j].distance
  }

  /** Inserts `x`, which came earlier in the input, ahead of every station at its distance or farther. */
  function InsertByDistance(x: RankedStation, s: seq<RankedStation>): (r: seq<RankedStation>)
    ensures |r| == |s| + 1
    ensures multiset(r) == multiset(s) + multiset{x}
  {
    if s == [] then [x]
    else if x.distance <= s[0].distance then [x] + s
    else
      assert s == [s[0]] + s[1..];
      [s[0]] + InsertByDistance(x, s[1..])
  }

  lemma {:induction false} InsertKeepsSorted(x: RankedStation, s: seq<RankedStation>)
    requires SortedByDistance(s)
    ensures SortedByDistance(InsertByDistance(x, s))
  {
    if s != [] && x.distance > s[0].distance {
      var rest := InsertByDistance(x, s[1..]);
      InsertKeepsSorted(x, s[1..]);
      assert s[0].distance <= rest[0].distance by {
        if s[1..] != [] && x.distance > s[1].distance {
          assert rest[0] == s[1];
        } else {
          assert rest[0] == x;
        }
      }
      var r := [s[0]] + rest;
      forall i, j | 0 <= i < j < |r|
        ensures r[i].distance <= r[j].distance
      {
        assert r[j] == rest[j - 1];
        if i > 0 {
          assert r[i] == rest[i - 1];
        } else {
          assert rest[0].distance <= rest[j - 1].distance;
        }
      }
    }
  }

  /**
   * `Array.prototype.sort` with comparator `a.distance - b.distance`: a stable
   * sort (ECMA-262, section 23.1.3.30), here an insertion sort that keeps
   * equally distant stations in input order.
   */
  function SortByDistance(s: seq<RankedStation>): (r: seq<RankedStation>)
    ensures |r| == |s|
    ensures multiset(r) == multiset(s)
    ensures SortedByDistance(r)
  {
    if s == [] then []
    else
      assert s == [s[0]] + s[1..];
      InsertKeepsSorted(s[0], SortByDistance(s[1..]));
      InsertByDistance(s[0], SortByDistance(s[1..]))
  }

  /** The first station of minimal distance. */
  function NearestIndex(s: seq<RankedStation>): (k: nat)
    requires |s| > 0
    ensures k < |s|
    ensures forall j :: 0 <= j < |s| ==> s[k].distance <= s[j].distance
    ensures forall j :: 0 <= j < k ==> s[k].distance < s[j].distance
  {
    if |s| == 1 then 0
    else
      var m := 1 + NearestIndex(s[1..]);
      if s[0].distance <= s[m].distance then 0 else m
  }

  /** Element 0 of the stable sort is the first station of minimal distance. */
  lemma {:induction false} SortHeadIsNearest(s: seq<RankedStation>)
    requires |s| > 0
    ensures SortByDistance(s)[0] == s[NearestIndex(s)]
  {
    if |s| > 1 {
      SortHeadIsNearest(s[1..]);
    }
  }

  /** `x` is an element of `s` at distance no greater than any other, and the first such. */
  predicate IsNearest(s: seq<RankedStation>, x: RankedStation)
  {
    exists k :: 0 <= k < |s| && s[k] == x &&
      (forall j :: 0 <= j < |s| ==> x.distance <= s[j].distance) &&
      (forall j :: 0 <= j < k ==> x.distance < s[j].distance)
  }

  /**
   * The selection of `findNearestTideStation` for target (`lat`, `lon`), given
   * the outcome of fetching the catalog. Every error is re-thrown with the
   * prefix "Failed to find nearest tide station: ".
   */
  function FindNearestTideStation(catalog: Result<seq<RawStation>>, lat: real, lon: real,
                                  dist: (real, real, real, real) -> real): (r: Result<RankedStation>)
    ensures catalog.Failure? ==> r == Failure(NEAREST_FAILED + catalog.error)
    ensures catalog.Success? && ValidStations(catalog.value) == [] ==>
      r == Failure(NEAREST_FAILED + NO_VALID_STATIONS)
    ensures catalog.Success? && ValidStations(catalog.value) != [] ==>
      r.Success? && IsNearest(WithDistances(ValidStations(catalog.value), lat, lon, dist), r.value)
    ensures r.Success? ==> r.value.distance == dist(lat, lon, r.value.lat, r.value.lng)
  {
    if catalog.Failure? then Failure(NEAREST_FAILED + catalog.error)
    else
      var stations := ValidStations(catalog.value);
      if stations == [] then Failure(NEAREST_FAILED + NO_VALID_STATIONS)
      else
        var ranked := WithDistances(stations, lat, lon, dist);
        SortHeadIsNearest(ranked);
        var k := NearestIndex(ranked);
        assert ranked[k] == SortByDistance(ranked)[0];
        Success(SortByDistance(ranked)[0])
  }

  /** The station returned is the copy of a valid catalog entry, tagged with its distance. */
  lemma NearestIsCatalogEntry(c: seq<RawStation>, lat: real, lon: real,
                              dist: (real, real, real, real) -> real)
    requires FindNearestTideStation(Success(c), lat, lon, dist).Success?
    ensures var s := FindNearestTideStation(Success(c), lat, lon, dist).value;
      exists k :: 0 <= k < |c| && IsValidStation(c[k]) &&
        Ranked(CopyStation(c[k]), lat, lon, dist) == s
  {
    var s := FindNearestTideStation(Success(c), lat, lon, dist).value;
    var ranked := WithDistances(ValidStations(c), lat, lon, dist);
    var j :| 0 <= j < |ranked| && ranked[j] == s &&
      (forall i :: 0 <= i < |ranked| ==> s.distance <= ranked[i].distance) &&
      (forall i :: 0 <= i < j ==> s.distance < ranked[i].distance);
    ValidStationsOnly(c, j);
  }
}

/**
 * src/durable-objects/tide-records.ts: the `tide_records` table of the tide
 * Durable Object, its gated `updateTideData`, `getTide`, and the
 * `updateTideData` mutation. The NOAA station catalog is the outcome
 * `catalog`, the prediction request is the parameter `fetchSeries`, the
 * haversine distance is `dist` and the clock is `now`.
 */
module TideRecords {
  import opened Wrappers
  import opened Records
  import opened TideUtils

  /** A station farther than this (km) is not used. */
  const MAX_STATION_DISTANCE: real := 100.0

  /** The readings stored per row: `height` and `status`. */
  datatype Tide = Tide(height: real, status: TideStatus)

  /** A row keyed by `station_id`. */
  type TideRow = Record<string, Tide>

  /** What `getTide` returns. */
  datatype TideView = TideView(height: real, status: TideStatus, timestamp: int, stationId: string)

  /** A row is written only for a station within range and a non-empty series. */
  predicate PassesGate(station: RankedStation, predictions: seq<Prediction>)
  {
    station.distance <= MAX_STATION_DISTANCE && |predictions| > 0
  }

  /** The row written for `station`: the first prediction's level and the status at `now`. */
  function TideRowFor(station: RankedStation, predictions: seq<Prediction>, now: int): (row: TideRow)
    requires |predictions| > 0
    ensures row.key == station.id && row.timestamp == now
    ensures row.payload.height == predictions[0].v
    ensures row.payload.status == DetermineTideStatus(predictions, now)
  {
    Record(station.id, Tide(predictions[0].v, DetermineTideStatus(predictions, now)), now)
  }

  function ToView(x: TideRow): TideView
  {
    TideView(x.payload.height, x.payload.status, x.timestamp, x.key)
  }

  class TideDurableObject {
    /** `this.sql`, reduced to its one table `tide_records`. */
    const sql: Table<string, Tide>

    /** Starts on the table durable storage already holds (empty on first use). */
    constructor (stored: seq<TideRow>)
      ensures fresh(sql) && sql.rows == stored
    {
      sql := new Table(stored);
    }

    /**
     * `getTide()`: the latest row of the whole table, whatever its station;
     * `null` on an empty table.
     */
    function GetTide(): (r: Option<TideView>)
      reads sql
      ensures r.None? <==> sql.rows == []
      ensures r.Some? ==> exists x :: x in sql.rows && ToView(x) == r.value
      ensures r.Some? ==> forall x :: x in sql.rows ==> x.timestamp <= r.value.timestamp
    {
      match Latest(sql.rows)
      case None => None
      case Some(x) => Some(ToView(x))
    }

    /**
     * The part of `updateTideData` after the station is resolved: when it
     * lies within 100 km, fetch its predictions; when there is at least one,
     * append a row stamped `now` and delete every row, of any station, older
     * than 24 hours. A failed fetch throws before any write.
     */
    method StoreNearestTide(station: RankedStation, fetchSeries: string -> Result<seq<Prediction>>, now: int)
      returns (r: Outcome)
      modifies sql
      ensures station.distance > MAX_STATION_DISTANCE ==> r == Pass && sql.rows == old(sql.rows)
      ensures station.distance <= MAX_STATION_DISTANCE && fetchSeries(station.id).Failure? ==>
        r == Fail(fetchSeries(station.id).error) && sql.rows == old(sql.rows)
      ensures station.distance <= MAX_STATION_DISTANCE && fetchSeries(station.id).Success? ==> r == Pass
      ensures station.distance <= MAX_STATION_DISTANCE && fetchSeries(station.id) == Success([]) ==>
        sql.rows == old(sql.rows)
      ensures fetchSeries(station.id).Success? && PassesGate(station, fetchSeries(station.id).value) ==>
        sql.rows == Retained(old(sql.rows) + [TideRowFor(station, fetchSeries(station.id).value, now)],
                             now - RETENTION_MS)
      ensures sql.rows != old(sql.rows) ==>
        fetchSeries(station.id).Success? && PassesGate(station, fetchSeries(station.id).value)
      ensures (fetchSeries(station.id).Success? && PassesGate(station, fetchSeries(station.id).value) &&
               forall x :: x in old(sql.rows) ==> x.timestamp < now) ==>
          GetTide() == Some(ToView(TideRowFor(station, fetchSeries(station.id).value, now)))
    {
      if station.distance <= MAX_STATION_DISTANCE {
        var series := fetchSeries(station.id);
        if series.Failure? {
          return Fail(series.error);
        }
        if |series.value| > 0 {
          ghost var before := sql.rows;
          var row := TideRowFor(station, series.value, now);
          sql.Insert(row);
          sql.DeleteOlderThan(now - RETENTION_MS);
          if forall x :: x in before ==> x.timestamp < now {
            ReadAfterWrite(before, row, now - RETENTION_MS);
          }
        }
      }
      r := Pass;
    }

    /**
     * `updateTideData(lat, lon)`: resolve the nearest station, then store its
     * tide as `StoreNearestTide` does. A failed lookup throws before any
     * write.
     */
    method UpdateTideData(lat: real, lon: real, catalog: Result<seq<RawStation>>,
                          dist: (real, real, real, real) -> real,
                          fetchSeries: string -> Result<seq<Prediction>>, now: int)
      returns (r: Outcome)
      modifies sql
      ensures var station := FindNearestTideStation(catalog, lat, lon, dist);
        station.Failure? ==> r == Fail(station.error) && sql.rows == old(sql.rows)
      ensures var station := FindNearestTideStation(catalog, lat, lon, dist);
        station.Success? && station.value.distance > MAX_STATION_DISTANCE ==>
          r == Pass && sql.rows == old(sql.rows)
      ensures var station := FindNearestTideStation(catalog, lat, lon, dist);
        station.Success? && station.value.distance <= MAX_STATION_DISTANCE ==>
          (r.Pass? <==> fetchSeries(station.value.id).Success?)
      ensures var station := FindNearestTideStation(catalog, lat, lon, dist);
        station.Success? && fetchSeries(station.value.id).Success? &&
        PassesGate(station.value, fetchSeries(station.value.id).value) ==>
          sql.rows == Retained(old(sql.rows) + [TideRowFor(station.value, fetchSeries(station.value.id).value, now)],
                               now - RETENTION_MS)
      ensures sql.rows != old(sql.rows) ==>
        var station := FindNearestTideStation(catalog, lat, lon, dist);
        station.Success? && fetchSeries(station.value.id).Success? &&
        PassesGate(station.value, fetchSeries(station.value.id).value)
      ensures var station := FindNearestTideStation(catalog, lat, lon, dist);
        (station.Success? && fetchSeries(station.value.id).Success? &&
         PassesGate(station.value, fetchSeries(station.value.id).value) &&
         forall x :: x in old(sql.rows) ==> x.timestamp < now) ==>
          GetTide() == Some(ToView(TideRowFor(station.value, fetchSeries(station.value.id).value, now)))
    {
      var station := FindNearestTideStation(catalog, lat, lon, dist);
      if station.Failure? {
        return Fail(station.error);
      }
      r := StoreNearestTide(station.value, fetchSeries, now);
    }

    /**
     * The `updateTideData` mutation: `false` when `updateTideData` threw,
     * `true` otherwise, a skipped write included.
     */
    method UpdateTideDataMutation(lat: real, lon: real, catalog: Result<seq<RawStation>>,
                                  dist: (real, real, real, real) -> real,
                                  fetchSeries: string -> Result<seq<Prediction>>, now: int)
      returns (ok: bool)
      modifies sql
      ensures var station := FindNearestTideStation(catalog, lat, lon, dist);
        ok <==> (station.Success? &&
                 (station.value.distance <= MAX_STATION_DISTANCE ==> fetchSeries(station.value.id).Success?))
      ensures !ok ==> sql.rows == old(sql.rows)
      ensures var station := FindNearestTideStation(catalog, lat, lon, dist);
        ok && fetchSeries(station.value.id).Success? &&
        PassesGate(station.value, fetchSeries(station.value.id).value) ==>
          sql.rows == Retained(old(sql.rows) + [TideRowFor(station.value, fetchSeries(station.value.id).value, now)],
                               now - RETENTION_MS)
      ensures sql.rows != old(sql.rows) ==>
        var station := FindNearestTideStation(catalog, lat, lon, dist);
        ok && fetchSeries(station.value.id).Success? &&
        PassesGate(station.value, fetchSeries(station.value.id).value)
    {
      var r := UpdateTideData(lat, lon, catalog, dist, fetchSeries, now);
      ok := r.Pass?;
    }
  }

  /**
   * After a write that passes the gate, with timestamps increasing, the
   * table's latest row carries the station's id, the first prediction's
   * level and the classifier's answer for the series at `now`.
   */
  lemma WrittenStatusIsClassified(station: RankedStation, predictions: seq<Prediction>, now: int,
                                  rows: seq<TideRow>)
    requires |predictions| > 0
    requires forall x :: x in rows ==> x.timestamp < now
    ensures var written := Retained(rows + [TideRowFor(station, predictions, now)], now - RETENTION_MS);
      Latest(written).Some? &&
      Latest(written).value.payload.status == DetermineTideStatus(predictions, now) &&
      Latest(written).value.payload.height == predictions[0].v &&
      Latest(written).value.key == station.id
  {
    ReadAfterWrite(rows, TideRowFor(station, predictions, now), now - RETENTION_MS);
  }
}

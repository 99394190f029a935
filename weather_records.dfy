/**
 * src/durable-objects/weather-records.ts: the `weather_records` table of the
 * weather Durable Object, its `updateWeatherData` and `getWeather` methods and
 * the resolvers `weatherAtLocation`, `allWeatherData`, `addLocation`, the
 * `updateWeatherData` mutation and `createWeatherRecord`. The upstream
 * Open-Meteo request is the parameter `fetch`; the clock is `now`.
 */
module WeatherRecords {
  import opened Wrappers
  import opened Records

  /**
   * A location key: the text `String(lat)`, `String(lon)` held in the
   * `latitude` and `longitude` columns. Two spellings of one coordinate are
   * two keys.
   */
  type Location = (string, string)

  /** The readings stored per row: `wind_speed` (knots) and `precipitation`. */
  datatype Conditions = Conditions(windSpeed: real, precipitation: real)

  type WeatherRow = Record<Location, Conditions>

  /** What `getWeather` returns. */
  datatype WeatherData = WeatherData(windSpeed: real, precipitation: real, timestamp: int)

  /** The GraphQL `Weather` object: `id`, `windSpeed`, `precipitation`, `timestamp`, `location`. */
  datatype WeatherEntry = WeatherEntry(id: string, windSpeed: real, precipitation: real,
                                       timestamp: int, location: Location)

  /** The entity id `${lat}|${lon}`. */
  function LocationId(loc: Location): string
  {
    loc.0 + "|" + loc.1
  }

  function ToData(x: WeatherRow): WeatherData
  {
    WeatherData(x.payload.windSpeed, x.payload.precipitation, x.timestamp)
  }

  /** One row of the `allWeatherData` cursor as the resolver pushes it. */
  function ToEntry(x: WeatherRow): WeatherEntry
  {
    WeatherEntry(LocationId(x.key), x.payload.windSpeed, x.payload.precipitation, x.timestamp, x.key)
  }

  // ---------------------------------------------------------------------------
  // ORDER BY latitude, longitude: SQLite's BINARY collation on text
  // ---------------------------------------------------------------------------

  /** Text order: character by character, a proper prefix first. */
  predicate TextLe(a: string, b: string)
  {
    a == [] || (b != [] && (a[0] < b[0] || (a[0] == b[0] && TextLe(a[1..], b[1..]))))
  }

  lemma {:induction false} TextLeTransitive(a: string, b: string, c: string)
    requires TextLe(a, b) && TextLe(b, c)
    ensures TextLe(a, c)
  {
    if a != [] && a[0] == b[0] && b[0] == c[0] {
      TextLeTransitive(a[1..], b[1..], c[1..]);
    }
  }

  lemma {:induction false} TextLeReflexive(a: string)
    ensures TextLe(a, a)
  {
    if a != [] {
      TextLeReflexive(a[1..]);
    }
  }

  lemma {:induction false} TextLeTotal(a: string, b: string)
    ensures TextLe(a, b) || TextLe(b, a)
  {
    if a != [] && b != [] && a[0] == b[0] {
      TextLeTotal(a[1..], b[1..]);
    }
  }

  lemma {:induction false} TextLeAntisymmetric(a: string, b: string)
    requires TextLe(a, b) && TextLe(b, a)
    ensures a == b
  {
    if a != [] {
      TextLeAntisymmetric(a[1..], b[1..]);
      assert a == [a[0]] + a[1..] && b == [b[0]] + b[1..];
    }
  }

  /** `ORDER BY latitude, longitude`. */
  predicate LocationLe(a: Location, b: Location)
  {
    (a.0 != b.0 && TextLe(a.0, b.0)) || (a.0 == b.0 && TextLe(a.1, b.1))
  }

  lemma LocationLeTransitive(a: Location, b: Location, c: Location)
    requires LocationLe(a, b) && LocationLe(b, c)
    ensures LocationLe(a, c)
  {
    if a.0 == b.0 && b.0 == c.0 {
      TextLeTransitive(a.1, b.1, c.1);
    } else if a.0 != b.0 && b.0 != c.0 {
      TextLeTransitive(a.0, b.0, c.0);
      if a.0 == c.0 {
        TextLeAntisymmetric(a.0, b.0);
      }
    }
  }

  lemma LocationLeTotal(a: Location, b: Location)
    ensures LocationLe(a, b) || LocationLe(b, a)
  {
    TextLeTotal(a.0, b.0);
    TextLeTotal(a.1, b.1);
  }

  lemma LocationLeBelowAll(a: Location, b: Location, rows: seq<WeatherRow>)
    requires LocationLe(a, b)
    requires forall x :: x in rows ==> LocationLe(b, x.key)
    ensures forall x :: x in rows ==> LocationLe(a, x.key)
  {
    forall x | x in rows
      ensures LocationLe(a, x.key)
    {
      LocationLeTransitive(a, b, x.key);
    }
  }

  /**
   * `SELECT DISTINCT latitude, longitude ... ORDER BY latitude, longitude
   * LIMIT 1`, then `.one()`: the first stored location, absent on an empty table.
   */
  function FirstLocation(rows: seq<WeatherRow>): (r: Option<Location>)
    ensures r.None? <==> rows == []
    ensures r.Some? ==> exists x :: x in rows && x.key == r.value
    ensures r.Some? ==> forall x :: x in rows ==> LocationLe(r.value, x.key)
  {
    if rows == [] then None
    else match FirstLocation(rows[1..])
      case None =>
        assert rows == [rows[0]];
        TextLeReflexive(rows[0].key.1);
        Some(rows[0].key)
      case Some(m) =>
        assert rows == [rows[0]] + rows[1..];
        LocationLeTotal(rows[0].key, m);
        if LocationLe(rows[0].key, m) then
          LocationLeBelowAll(rows[0].key, m, rows[1..]);
          TextLeReflexive(rows[0].key.1);
          Some(rows[0].key)
        else
          Some(m)
  }

  // ---------------------------------------------------------------------------
  // What the allWeatherData cursor yields
  // ---------------------------------------------------------------------------

  /** `e` shows a stored row that no row of its location is later than. */
  ghost predicate IsLatestEntry(rows: seq<WeatherRow>, e: WeatherEntry)
  {
    exists x :: x in rows && ToEntry(x) == e &&
      forall y :: y in rows && y.key == x.key ==> y.timestamp <= x.timestamp
  }

  ghost predicate LocationsDistinct(results: seq<WeatherEntry>)
  {
    forall i, j :: 0 <= i < j < |results| ==> results[i].location != results[j].location
  }

  /** `results` is the cursor of the latest-per-location query, row by row. */
  ghost predicate ListsLatestRows(rows: seq<WeatherRow>, results: seq<WeatherEntry>)
  {
    |results| == |LatestRows(rows)| &&
    forall i :: 0 <= i < |results| ==> results[i] == ToEntry(LatestRows(rows)[i])
  }

  lemma EntriesAreLatest(rows: seq<WeatherRow>, results: seq<WeatherEntry>)
    requires ListsLatestRows(rows, results)
    ensures forall i :: 0 <= i < |results| ==> IsLatestEntry(rows, results[i])
  {
    var cursor := LatestRows(rows);
    forall i | 0 <= i < |results|
      ensures IsLatestEntry(rows, results[i])
    {
      assert cursor[i] in cursor;
      LatestRowsSound(rows, cursor[i]);
    }
  }

  lemma EntriesCoverEveryLocation(rows: seq<WeatherRow>, results: seq<WeatherEntry>)
    requires ListsLatestRows(rows, results)
    ensures forall y :: y in rows ==> exists i :: 0 <= i < |results| && results[i].location == y.key
  {
    forall y | y in rows
      ensures exists i :: 0 <= i < |results| && results[i].location == y.key
    {
      EntryForLocation(rows, results, y);
    }
  }

  lemma EntryForLocation(rows: seq<WeatherRow>, results: seq<WeatherEntry>, y: WeatherRow)
    requires ListsLatestRows(rows, results) && y in rows
    ensures exists i :: 0 <= i < |results| && results[i].location == y.key
  {
    LatestRowsComplete(rows, y);
    var i :| 0 <= i < |LatestRows(rows)| && LatestRows(rows)[i].key == y.key;
    assert results[i].location == y.key;
  }

  lemma EntriesOnePerLocation(rows: seq<WeatherRow>, results: seq<WeatherEntry>)
    requires ListsLatestRows(rows, results)
    ensures DistinctTimesPerKey(rows) ==> LocationsDistinct(results)
  {
    var cursor := LatestRows(rows);
    if DistinctTimesPerKey(rows) {
      LatestRowsOnePerKey(rows);
      forall i, j | 0 <= i < j < |results|
        ensures results[i].location != results[j].location
      {
        assert results[i].location == cursor[i].key && results[j].location == cursor[j].key;
      }
    }
  }

  /** The `for (const row of cursor)` loop: one entity pushed per row, in cursor order. */
  method PushEntries(cursor: seq<WeatherRow>) returns (results: seq<WeatherEntry>)
    ensures |results| == |cursor|
    ensures forall i :: 0 <= i < |results| ==> results[i] == ToEntry(cursor[i])
  {
    results := [];
    for n := 0 to |cursor|
      invariant |results| == n
      invariant forall i :: 0 <= i < n ==> results[i] == ToEntry(cursor[i])
    {
      results := results + [ToEntry(cursor[n])];
    }
  }

  // ---------------------------------------------------------------------------
  // The Durable Object
  // ---------------------------------------------------------------------------

  class WeatherDurableObject {
    /** `this.sql`, reduced to its one table `weather_records`. */
    const sql: Table<Location, Conditions>

    /** Starts on the table durable storage already holds (empty on first use). */
    constructor (stored: seq<WeatherRow>)
      ensures fresh(sql) && sql.rows == stored
    {
      sql := new Table(stored);
    }

    /**
     * `getWeather(lat, lon)`: the readings of the latest row of the location,
     * `null` when the location has no row.
     */
    function GetWeather(loc: Location): (r: Option<WeatherData>)
      reads sql
      ensures r.None? <==> forall x :: x in sql.rows ==> x.key != loc
      ensures r.Some? ==> exists x :: x in sql.rows && x.key == loc && ToData(x) == r.value
      ensures r.Some? ==> forall x :: x in sql.rows && x.key == loc ==> x.timestamp <= r.value.timestamp
    {
      match LatestFor(sql.rows, loc)
      case None => None
      case Some(x) => Some(ToData(x))
    }

    /** The `weatherAtLocation` query: `getWeather` wrapped as a `Weather` entity. */
    function WeatherAtLocation(loc: Location): (r: Option<WeatherEntry>)
      reads sql
      ensures r.None? <==> GetWeather(loc).None?
      ensures r.Some? ==> r.value.id == LocationId(loc) && r.value.location == loc
      ensures r.Some? ==>
        GetWeather(loc) == Some(WeatherData(r.value.windSpeed, r.value.precipitation, r.value.timestamp))
    {
      match GetWeather(loc)
      case None => None
      case Some(w) => Some(WeatherEntry(LocationId(loc), w.windSpeed, w.precipitation, w.timestamp, loc))
    }

    /**
     * The `allWeatherData` query: every row that holds the greatest timestamp
     * of its location, pushed one by one from the cursor.
     */
    method AllWeatherData() returns (results: seq<WeatherEntry>)
      ensures |results| == |LatestRows(sql.rows)|
      ensures forall i :: 0 <= i < |results| ==> results[i] == ToEntry(LatestRows(sql.rows)[i])
      ensures forall i :: 0 <= i < |results| ==> IsLatestEntry(sql.rows, results[i])
      ensures forall y :: y in sql.rows ==> exists i :: 0 <= i < |results| && results[i].location == y.key
      ensures DistinctTimesPerKey(sql.rows) ==> LocationsDistinct(results)
    {
      var cursor := LatestRows(sql.rows);
      results := PushEntries(cursor);
      EntriesAreLatest(sql.rows, results);
      EntriesCoverEveryLocation(sql.rows, results);
      EntriesOnePerLocation(sql.rows, results);
    }

    /**
     * `updateWeatherData(lat, lon)`: fetch the current readings first, then
     * append one row stamped `now` and delete every row, of any location,
     * older than 24 hours. A failed fetch throws before the table is touched.
     */
    method UpdateWeatherData(loc: Location, fetch: Location -> Result<Conditions>, now: int) returns (r: Outcome)
      modifies sql
      ensures fetch(loc).Failure? ==> r == Fail(fetch(loc).error) && sql.rows == old(sql.rows)
      ensures fetch(loc).Success? ==> r == Pass
      ensures fetch(loc).Success? ==>
        sql.rows == Retained(old(sql.rows) + [Record(loc, fetch(loc).value, now)], now - RETENTION_MS)
      ensures fetch(loc).Success? ==>
        sql.rows == Retained(old(sql.rows), now - RETENTION_MS) + [Record(loc, fetch(loc).value, now)]
      ensures fetch(loc).Success? && (forall x :: x in old(sql.rows) ==> x.timestamp < now) ==>
        GetWeather(loc) == Some(WeatherData(fetch(loc).value.windSpeed, fetch(loc).value.precipitation, now))
    {
      var weather := fetch(loc);
      if weather.Failure? {
        return Fail(weather.error);
      }
      ghost var before := sql.rows;
      var row := Record(loc, weather.value, now);
      sql.Insert(row);
      sql.DeleteOlderThan(now - RETENTION_MS);
      InsertThenEvict(before, row, now - RETENTION_MS);
      if forall x :: x in before ==> x.timestamp < now {
        ReadAfterWrite(before, row, now - RETENTION_MS);
      }
      r := Pass;
    }

    /** The `addLocation` mutation: `true` when `updateWeatherData` resolved, `false` when it threw. */
    method AddLocation(loc: Location, fetch: Location -> Result<Conditions>, now: int) returns (ok: bool)
      modifies sql
      ensures ok <==> fetch(loc).Success?
      ensures !ok ==> sql.rows == old(sql.rows)
      ensures ok ==>
        sql.rows == Retained(old(sql.rows) + [Record(loc, fetch(loc).value, now)], now - RETENTION_MS)
    {
      var r := UpdateWeatherData(loc, fetch, now);
      ok := r.Pass?;
    }

    /**
     * The `updateWeatherData` mutation: refresh the one location that sorts
     * first by (latitude, longitude) as text. On an empty table `.one()`
     * throws and the answer is `false`. The key is re-read through
     * `parseFloat` and `String`, which give back the stored text.
     */
    method RefreshFirstLocation(fetch: Location -> Result<Conditions>, now: int) returns (ok: bool)
      modifies sql
      ensures old(sql.rows) == [] ==> !ok && sql.rows == old(sql.rows)
      ensures old(sql.rows) != [] ==>
        var loc := FirstLocation(old(sql.rows)).value;
        && (ok <==> fetch(loc).Success?)
        && (!ok ==> sql.rows == old(sql.rows))
        && (ok ==> sql.rows == Retained(old(sql.rows) + [Record(loc, fetch(loc).value, now)], now - RETENTION_MS))
    {
      var first := FirstLocation(sql.rows);
      if first.None? {
        return false;
      }
      var r := UpdateWeatherData(first.value, fetch, now);
      ok := r.Pass?;
    }

    /**
     * The `createWeatherRecord` mutation: append one row with the given
     * readings stamped `now`, with no eviction, and return it as an entity.
     */
    method CreateWeatherRecord(loc: Location, windSpeed: real, precipitation: real, now: int)
      returns (e: WeatherEntry)
      modifies sql
      ensures sql.rows == old(sql.rows) + [Record(loc, Conditions(windSpeed, precipitation), now)]
      ensures e == WeatherEntry(LocationId(loc), windSpeed, precipitation, now, loc)
      ensures (forall x :: x in old(sql.rows) ==> x.timestamp < now) ==> WeatherAtLocation(loc) == Some(e)
    {
      ghost var before := sql.rows;
      var row := Record(loc, Conditions(windSpeed, precipitation), now);
      sql.Insert(row);
      if forall x :: x in before ==> x.timestamp < now {
        AppendedIsLatest(before, row);
      }
      e := WeatherEntry(LocationId(loc), windSpeed, precipitation, now, loc);
    }
  }
}

# Tide and weather cache: a verified model

This project models the core of a Cloudflare Workers service. Given coordinates, the service finds the nearest NOAA tide station, classifies the current tide from the station's predictions, and stores the result. It also stores current wind and precipitation readings per location. Each kind of record lives in the SQL table of one Durable Object. Every write appends one row, and a write that refreshes data then deletes every row older than 24 hours.

The model has five modules:

- `TideUtils` (`tide_utils.dfy`) is pure. It holds the tide-status classifier `determineTideStatus`. It also holds the selection pipeline of `findNearestTideStation`: drop malformed catalog entries, tag each remaining station with its distance, stable-sort by distance and take element 0. Heights and distances are `real`, so the 0.1 threshold is exact. Timestamps are epoch milliseconds. The clock `now` and the haversine distance `dist` are parameters.
- `Records` (`records.dfy`) holds the common table shape. `Record<K, P>` is one row with its key columns, payload columns and timestamp. The class `Table` is the SQL table: a `seq` of rows in insertion order, changed only by `Insert` and `DeleteOlderThan`. The queries are functions over that sequence: latest row overall, latest row of one key, and latest rows of every key. The lemmas cover eviction, read-after-write and the latest-per-key query.
- `WeatherRecords` (`weather_records.dfy`) is the class `WeatherDurableObject`. Its methods and functions are `updateWeatherData`, `getWeather`, and the resolvers `weatherAtLocation`, `allWeatherData`, `addLocation`, `updateWeatherData` (the mutation, here `RefreshFirstLocation`) and `createWeatherRecord`. A location key is the text pair `String(lat)`, `String(lon)`. The Open-Meteo request is the parameter `fetch`.
- `TideRecords` (`tide_records.dfy`) is the class `TideDurableObject`. It has the gated write `updateTideData` (split into the station lookup and `StoreNearestTide`), `getTide` and the `updateTideData` mutation. The station catalog arrives as the outcome `catalog` of its fetch. The prediction request is the parameter `fetchSeries`.
- `Wrappers` (`wrappers.dfy`) holds `Option`, `Result` and `Outcome`. A thrown error is a `Failure`/`Fail` that carries the error's message.

No read path refreshes data: `getWeather`, `weatherAtLocation`, `allWeatherData` and `getTide` only read the table; data is refreshed only by the mutations.

## Model

| member | source | states |
|---|---|---|
| `TideUtils.FindCurrent` | src/utils/tide-utils.ts:247-254 | The index `find` stops at brackets `now` (t_i <= now < t_(i+1), no upper edge for the last sample), and no earlier index does; absent exactly when no index brackets `now` |
| `TideUtils.HeightTrend` | src/utils/tide-utils.ts:267-277 | Rising iff next - current >= 0.1; Falling iff current - next >= 0.1; High iff 0 < current - next < 0.1; Low iff 0 <= next - current < 0.1 (equal levels are Low) |
| `TideUtils.DetermineTideStatus` | src/utils/tide-utils.ts:240-278 | Total. Rising for fewer than 2 samples, for no bracketing sample, and when the first bracketing sample is the last; otherwise the trend of the first bracketing sample and its successor |
| `TideUtils.StatusHasWitness` | src/utils/tide-utils.ts:256-277 | Any status other than Rising comes from a first bracketing sample that has a successor, and is the trend of that pair |
| `TideUtils.FallingIsADrop` | src/utils/tide-utils.ts:271-277 | Falling implies the bracketing pair drops by at least 0.1 |
| `TideUtils.BracketExistsFrom` | src/utils/tide-utils.ts:247-254 | If some sample is at or before `now`, a sample at or after it brackets `now`, so `find` does not come back empty |
| `TideUtils.AscendingBetween` | src/utils/tide-utils.ts:247-254 | In a series whose adjacent timestamps increase, every earlier sample is strictly earlier |
| `TideUtils.AscendingSeriesStatus` | src/utils/tide-utils.ts:247-277 | For a time-ordered series, the status is the trend of whichever sample brackets `now` and its successor |
| `TideUtils.DefaultOnlyAtEnd` | src/utils/tide-utils.ts:256-265 | For a time-ordered series of 2 or more samples with t_0 <= now < t_last, the default never applies: the status is the trend of a bracketing pair |
| `TideUtils.SmallRiseIsLow` | src/utils/tide-utils.ts:271-275 | Levels 1.0 then 1.05 around `now` give Low |
| `TideUtils.LargeRiseIsRising` | src/utils/tide-utils.ts:277 | Levels 1.0 then 2.0 around `now` give Rising |
| `TideUtils.ValidStations` | src/utils/tide-utils.ts:65-84 | The filtered catalog has as many stations as the catalog has entries passing the type guard |
| `TideUtils.ValidStationsKeeps` | src/utils/tide-utils.ts:65-84 | Every entry with string id, string name, numeric lat and numeric lng is kept, as a copy of those four fields, at the position given by the number of valid entries before it (catalog order) |
| `TideUtils.ValidStationsOnly` | src/utils/tide-utils.ts:65-84 | Every kept station is the copy of a valid catalog entry, found at its catalog position |
| `TideUtils.WithDistances` | src/utils/tide-utils.ts:91-97 | One tagged station per filtered station, at the same position, each carrying its own fields and its distance to the target |
| `TideUtils.InsertByDistance` | src/utils/tide-utils.ts:99-102 | One insertion step of the sort adds exactly the one station |
| `TideUtils.InsertKeepsSorted` | src/utils/tide-utils.ts:99-102 | An insertion step keeps the list ascending by distance |
| `TideUtils.SortByDistance` | src/utils/tide-utils.ts:99-102 | The sort returns a permutation of its input, ascending by distance |
| `TideUtils.NearestIndex` | src/utils/tide-utils.ts:99-102 | The index of a station of minimal distance, with every earlier station strictly farther |
| `TideUtils.SortHeadIsNearest` | src/utils/tide-utils.ts:99-102 | Element 0 of the stable sort is the first station of minimal distance (ties go to the earliest entry) |
| `TideUtils.FindNearestTideStation` | src/utils/tide-utils.ts:43-117 | A failed catalog fetch re-throws with prefix "Failed to find nearest tide station: "; an empty filtered catalog fails with that prefix and "No valid tide stations found in NOAA data"; otherwise it succeeds with a station of the tagged list that no station is nearer than, the first such, whose `distance` is its distance to the target |
| `TideUtils.NearestIsCatalogEntry` | src/utils/tide-utils.ts:65-108 | The station returned is the copy of a valid catalog entry, tagged with its own distance |
| `Records.Latest` | src/durable-objects/tide-records.ts:112-119 | `ORDER BY timestamp DESC LIMIT 1`: absent iff the table is empty; else a stored row that no row is later than |
| `Records.WithKey` | src/durable-objects/weather-records.ts:205-211 | The rows kept are exactly the stored rows of the given key |
| `Records.LatestFor` | src/durable-objects/weather-records.ts:205-215 | Absent iff no row has the key; else a stored row of that key that no row of the key is later than |
| `Records.KeepLatest` | src/durable-objects/weather-records.ts:40-54 | Keeps exactly the rows whose timestamp equals the maximum timestamp of their key |
| `Records.LatestRows` | src/durable-objects/weather-records.ts:40-54 | The `allWeatherData` query returns exactly the stored rows that no row of their key is later than |
| `Records.Retained` | src/durable-objects/weather-records.ts:194-200 | `DELETE ... WHERE timestamp < cutoff` leaves exactly the rows at or after the cutoff |
| `Records.Table.Insert` | src/durable-objects/weather-records.ts:184-192 | The table becomes the old rows followed by the new row |
| `Records.Table.DeleteOlderThan` | src/durable-objects/weather-records.ts:194-200 | The table becomes the old rows at or after the cutoff, in order, of every key |
| `Records.RetainedAppend` | src/durable-objects/weather-records.ts:184-200 | Eviction treats each row on its own: it distributes over concatenation |
| `Records.InsertThenEvict` | src/durable-objects/weather-records.ts:184-200 | Insert then evict at a cutoff no later than the new row gives the surviving old rows, in order, then the new row; no other row changes |
| `Records.RetainedIdempotent` | src/durable-objects/weather-records.ts:197-200 | A second eviction at the same cutoff removes nothing |
| `Records.AppendedIsLatest` | src/durable-objects/weather-records.ts:117-125 | A row later than every stored row is, once appended, the latest of its key and of the table |
| `Records.ReadAfterWrite` | src/durable-objects/weather-records.ts:184-215 | With timestamps increasing, after append and 24-hour eviction the latest row of the new row's key, and of the table, is the new row |
| `Records.LatestRowsSound` | src/durable-objects/weather-records.ts:40-54 | Every row of the latest-per-key query is a stored row that no row of its key is later than |
| `Records.LatestRowsComplete` | src/durable-objects/weather-records.ts:40-54 | Every key of the table has a row in the latest-per-key query |
| `Records.LatestRowsOnePerKey` | src/durable-objects/weather-records.ts:40-54 | When no two rows of a key share a timestamp, the latest-per-key query has one row per key |
| `WeatherRecords.TextLeTransitive` | src/durable-objects/weather-records.ts:91-94 | The text order of `ORDER BY latitude, longitude` is transitive |
| `WeatherRecords.TextLeReflexive` | src/durable-objects/weather-records.ts:91-94 | Every text is ordered before or equal to itself |
| `WeatherRecords.TextLeTotal` | src/durable-objects/weather-records.ts:91-94 | Any two texts are ordered one way or the other |
| `WeatherRecords.TextLeAntisymmetric` | src/durable-objects/weather-records.ts:91-94 | Two texts ordered both ways are equal |
| `WeatherRecords.LocationLeTransitive` | src/durable-objects/weather-records.ts:91-94 | The (latitude, longitude) order is transitive |
| `WeatherRecords.LocationLeTotal` | src/durable-objects/weather-records.ts:91-94 | Any two locations are ordered one way or the other |
| `WeatherRecords.FirstLocation` | src/durable-objects/weather-records.ts:89-96 | Absent iff the table is empty (`.one()` throws); else a stored location that sorts first by (latitude, longitude) as text |
| `WeatherRecords.PushEntries` | src/durable-objects/weather-records.ts:56-67 | The loop pushes exactly one entity per cursor row, at that row's position, with its id, readings, timestamp and location |
| `WeatherRecords.EntriesAreLatest` | src/durable-objects/weather-records.ts:37-69 | Each entry pushed by `allWeatherData` shows a stored row that no row of its location is later than |
| `WeatherRecords.EntriesCoverEveryLocation` | src/durable-objects/weather-records.ts:37-69 | Every stored location has an entry |
| `WeatherRecords.EntriesOnePerLocation` | src/durable-objects/weather-records.ts:37-69 | With distinct timestamps per location, no two entries share a location |
| `WeatherRecords.WeatherDurableObject.constructor` | src/durable-objects/weather-records.ts:17-19 | The object starts on the table durable storage holds |
| `WeatherRecords.WeatherDurableObject.GetWeather` | src/durable-objects/weather-records.ts:203-225 | Null iff no row has the location's text; else the wind, precipitation and timestamp of a row of that location that no row of it is later than |
| `WeatherRecords.WeatherDurableObject.WeatherAtLocation` | src/durable-objects/weather-records.ts:25-35 | Null iff `getWeather` is null; else id `${lat}|${lon}`, the location, and the readings and timestamp `getWeather` returns |
| `WeatherRecords.WeatherDurableObject.AllWeatherData` | src/durable-objects/weather-records.ts:37-74 | One entry per row of the latest-per-location query, in cursor order; each shows a latest row of its location; every location appears; one entry per location when its timestamps are distinct |
| `WeatherRecords.WeatherDurableObject.UpdateWeatherData` | src/durable-objects/weather-records.ts:180-201 | A failed fetch throws with the table unchanged; else one row (location, wind, precipitation, now) is appended and every row of any location older than now - 24h is deleted, the rest unchanged and in order; with timestamps increasing `getWeather` then returns the new readings |
| `WeatherRecords.WeatherDurableObject.AddLocation` | src/durable-objects/weather-records.ts:77-85 | True iff the fetch succeeded; false leaves the table unchanged; true leaves it as `updateWeatherData` does |
| `WeatherRecords.WeatherDurableObject.RefreshFirstLocation` | src/durable-objects/weather-records.ts:86-109 | False with the table unchanged on an empty table; else refreshes only the location that sorts first, true iff its fetch succeeded |
| `WeatherRecords.WeatherDurableObject.CreateWeatherRecord` | src/durable-objects/weather-records.ts:110-138 | Appends one row with the given readings stamped now, with no eviction, and returns id `${lat}|${lon}` with those values; with timestamps increasing `weatherAtLocation` then returns that same entity |
| `TideRecords.TideRowFor` | src/durable-objects/tide-records.ts:86-97 | The written row carries the station id, the level of the first prediction (not of the bracketing one), the classifier's status for the series, and timestamp now |
| `TideRecords.TideDurableObject.constructor` | src/durable-objects/tide-records.ts:21-23 | The object starts on the table durable storage holds |
| `TideRecords.TideDurableObject.GetTide` | src/durable-objects/tide-records.ts:110-130 | Null iff the table is empty; else a row, of whatever station, that no row is later than |
| `TideRecords.TideDurableObject.StoreNearestTide` | src/durable-objects/tide-records.ts:83-105 | Table unchanged unless distance <= 100 and the fetched series is non-empty; a failed fetch throws; a passing write appends the row and deletes every row older than now - 24h; with timestamps increasing `getTide` then returns the new row |
| `TideRecords.TideDurableObject.UpdateTideData` | src/durable-objects/tide-records.ts:80-108 | A failed station lookup throws with the table unchanged; a station beyond 100 km resolves with the table unchanged; within range a failed fetch throws; nothing is written unless the gate passes; with timestamps increasing, after a write `getTide` returns it |
| `TideRecords.TideDurableObject.UpdateTideDataMutation` | src/durable-objects/tide-records.ts:32-39 | False iff the lookup or the fetch threw, with the table unchanged; true otherwise, a skipped write included; the table changes only on a true result that passed the gate, and then holds the old rows plus the new row, less every row older than now - 24h |
| `TideRecords.WrittenStatusIsClassified` | src/durable-objects/tide-records.ts:86-126 | After a passing write, the latest row read back carries the station id, the first prediction's level and the classifier's status |

## Left out

- `calculateDistance` (src/utils/tide-utils.ts:17-34) is haversine over floating point. It is the parameter `dist`, about which nothing is assumed: not symmetry, not zero distance.
- The HTTP requests are inputs. The station catalog request, with its status check and JSON shape check (src/utils/tide-utils.ts:49-63), is the `catalog` outcome. `fetchTideData` is `fetchSeries`. `fetchWeatherData` is `fetch`. `fetchTideExtremes` is not called by the core.
- Floating point: heights, distances and readings are exact reals. Rounding in `nextHeight - currentHeight` can move a pair that lies within one rounding error of the 0.1 threshold to the other side.
- NaN: `parseFloat` of a malformed level, `new Date` of a malformed time and a NaN coordinate (`typeof NaN` is `"number"`) are not modelled. Timestamps are integers and levels are reals.
- One clock reading per operation. The source reads the clock separately for the classifier, for the row's timestamp and for the eviction cutoff, a few milliseconds apart. `setHours(getHours() - 24)` is taken as exactly 24 hours, which holds in the UTC time zone that Workers run in.
- Storage faults are not modelled: an in-memory sequence cannot fail. So the model does not cover `getWeather` and `getTide` returning null on a storage error, `allWeatherData` returning `[]` on one, or `createWeatherRecord` throwing "Failed to create weather record".
- `Records.Latest`: among rows that share the greatest timestamp, SQL promises no order. The model picks the last inserted (the reverse scan of the timestamp index), and no contract relies on that choice.
- `WeatherRecords.WeatherDurableObject.AllWeatherData`: rows come in table order; SQL promises no order for this query.
- `location` in the `allWeatherData` entries and the `updateWeatherData` mutation's re-parse use `parseFloat`. The model keeps the stored text. Stored text always comes from `String(number)`, and `String(parseFloat(String(x)))` is `String(x)` for every finite number.
- The `id INTEGER PRIMARY KEY AUTOINCREMENT` column is never read and is not modelled.
- `TideUtils.FindNearestTideStation`: the `!nearest` check (src/utils/tide-utils.ts:104-106) cannot fire after the non-empty check. `station?.distance !== undefined` (src/durable-objects/tide-records.ts:83) always holds, because every tagged station has a distance.
- `TideUtils.SortByDistance`: the sort is an insertion sort that places a station ahead of equally distant later ones. The contracts state permutation, order and the head element. They do not state full stability.
- The `"unknown"` value of `TideStatus` is declared in the source but never produced.
- The `weather` query resolver (src/durable-objects/weather-records.ts:36) is `getWeather` itself.
- GraphQL schema setup, Apollo handlers, routing, the `fetch` dispatch of each Durable Object, `initializeDb`'s DDL, `console` logging, and the one-request-at-a-time isolation of Durable Objects are not modelled.

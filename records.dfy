/**
 * The append-only SQL tables of the two Durable Objects (`weather_records`,
 * `tide_records`), as a sequence of rows in insertion order, and the queries
 * run on them: latest row overall, latest row of one key, latest rows of every
 * key, and the 24-hour eviction `DELETE ... WHERE timestamp < ?`.
 */
module Records {
  import opened Wrappers

  /** The retention horizon: 24 hours in milliseconds. */
  const RETENTION_MS: int := 24 * 60 * 60 * 1000

  /**
   * One row: its key columns, its payload columns and its `timestamp`. The
   * ISO-8601 text of `toISOString()` is fixed-width, so comparing it as text
   * orders it in time; here it is the instant in epoch milliseconds.
   */
  datatype Record<K, P> = Record(key: K, payload: P, timestamp: int)

  /** `ORDER BY timestamp DESC LIMIT 1`: a row of greatest timestamp, absent for an empty table. */
  function Latest<K(==,!new), P(==,!new)>(rows: seq<Record<K, P>>): (r: Option<Record<K, P>>)
    ensures r.None? <==> rows == []
    ensures r.Some? ==> r.value in rows
    ensures r.Some? ==> forall x :: x in rows ==> x.timestamp <= r.value.timestamp
  {
    if rows == [] then None
    else match Latest(rows[1..])
      case None => Some(rows[0])
      case Some(m) => if rows[0].timestamp > m.timestamp then Some(rows[0]) else Some(m)
  }

  /** `WHERE <key columns> = ?`. */
  function WithKey<K(==,!new), P(==,!new)>(rows: seq<Record<K, P>>, k: K): (r: seq<Record<K, P>>)
    ensures forall x :: x in r <==> x in rows && x.key == k
  {
    if rows == [] then []
    else (if rows[0].key == k then [rows[0]] else []) + WithKey(rows[1..], k)
  }

  /** The latest row of key `k`, absent when no row has that key. */
  function LatestFor<K(==,!new), P(==,!new)>(rows: seq<Record<K, P>>, k: K): (r: Option<Record<K, P>>)
    ensures r.None? <==> forall x :: x in rows ==> x.key != k
    ensures r.Some? ==> r.value in rows && r.value.key == k
    ensures r.Some? ==> forall x :: x in rows && x.key == k ==> x.timestamp <= r.value.timestamp
  {
    var own := WithKey(rows, k);
    assert own != [] ==> own[0] in own;
    Latest(own)
  }

  /** `SELECT MAX(timestamp) ... WHERE <key> = k`, NULL (absent) when the key has no row. */
  function MaxTimestamp<K(==,!new), P(==,!new)>(rows: seq<Record<K, P>>, k: K): Option<int>
  {
    match LatestFor(rows, k)
    case None => None
    case Some(x) => Some(x.timestamp)
  }

  /** The rows of `rows`, in order, whose timestamp is the greatest of their key within `all`. */
  function KeepLatest<K(==,!new), P(==,!new)>(all: seq<Record<K, P>>, rows: seq<Record<K, P>>): (r: seq<Record<K, P>>)
    ensures forall x :: x in r <==> x in rows && MaxTimestamp(all, x.key) == Some(x.timestamp)
    ensures |r| <= |rows|
  {
    if rows == [] then []
    else
      (if MaxTimestamp(all, rows[0].key) == Some(rows[0].timestamp) then [rows[0]] else [])
        + KeepLatest(all, rows[1..])
  }

  /** `SELECT ... FROM t w1 WHERE timestamp = (SELECT MAX(timestamp) FROM t w2 WHERE <same key>)`. */
  function LatestRows<K(==,!new), P(==,!new)>(rows: seq<Record<K, P>>): (r: seq<Record<K, P>>)
    ensures forall x :: x in r <==>
      x in rows && (forall y :: y in rows && y.key == x.key ==> y.timestamp <= x.timestamp)
  {
    var r := KeepLatest(rows, rows);
    forall x | x in rows && (forall y :: y in rows && y.key == x.key ==> y.timestamp <= x.timestamp)
      ensures x in r
    {
      var m := LatestFor(rows, x.key).value;
      assert m.timestamp == x.timestamp;
    }
    r
  }

  /** What `DELETE ... WHERE timestamp < cutoff` leaves, in the same order. */
  function Retained<K(==,!new), P(==,!new)>(rows: seq<Record<K, P>>, cutoff: int): (r: seq<Record<K, P>>)
    ensures forall x :: x in r <==> x in rows && cutoff <= x.timestamp
    ensures |r| <= |rows|
  {
    if rows == [] then []
    else (if cutoff <= rows[0].timestamp then [rows[0]] else []) + Retained(rows[1..], cutoff)
  }

  /** The SQL table: rows in insertion order, written only by INSERT and DELETE. */
  class Table<K(==,!new), P(==,!new)> {
    var rows: seq<Record<K, P>>

    /** The table as durable storage holds it when the object starts. */
    constructor (stored: seq<Record<K, P>>)
      ensures rows == stored
    {
      rows := stored;
    }

    /** `INSERT INTO t (...) VALUES (...)`. */
    method Insert(x: Record<K, P>)
      modifies this
      ensures rows == old(rows) + [x]
    {
      rows := rows + [x];
    }

    /** `DELETE FROM t WHERE timestamp < cutoff`: every key, not only the one just written. */
    method DeleteOlderThan(cutoff: int)
      modifies this
      ensures rows == Retained(old(rows), cutoff)
    {
      rows := Retained(rows, cutoff);
    }
  }

  // ---------------------------------------------------------------------------
  // Eviction
  // ---------------------------------------------------------------------------

  /** Eviction treats each row on its own: it distributes over concatenation. */
  lemma {:induction false} RetainedAppend<K(!new), P(!new)>(a: seq<Record<K, P>>, b: seq<Record<K, P>>, cutoff: int)
    ensures Retained(a + b, cutoff) == Retained(a, cutoff) + Retained(b, cutoff)
  {
    if a == [] {
      assert a + b == b;
    } else {
      assert (a + b)[1..] == a[1..] + b;
      RetainedAppend(a[1..], b, cutoff);
    }
  }

  /**
   * Insert then evict at a cutoff no later than the new row: the old rows
   * at or after the cutoff stay in their order and the new row follows them.
   */
  lemma InsertThenEvict<K(!new), P(!new)>(rows: seq<Record<K, P>>, x: Record<K, P>, cutoff: int)
    requires cutoff <= x.timestamp
    ensures Retained(rows + [x], cutoff) == Retained(rows, cutoff) + [x]
  {
    RetainedAppend(rows, [x], cutoff);
  }

  /** Evicting twice at the same cutoff removes nothing more. */
  lemma {:induction false} RetainedIdempotent<K(!new), P(!new)>(rows: seq<Record<K, P>>, cutoff: int)
    ensures Retained(Retained(rows, cutoff), cutoff) == Retained(rows, cutoff)
  {
    if rows != [] {
      var head := if cutoff <= rows[0].timestamp then [rows[0]] else [];
      RetainedAppend(head, Retained(rows[1..], cutoff), cutoff);
      RetainedIdempotent(rows[1..], cutoff);
    }
  }

  // ---------------------------------------------------------------------------
  // Read after write
  // ---------------------------------------------------------------------------

  /** A row later than every stored row is the latest of its key once appended. */
  lemma AppendedIsLatest<K(!new), P(!new)>(rows: seq<Record<K, P>>, x: Record<K, P>)
    requires forall y :: y in rows ==> y.timestamp < x.timestamp
    ensures LatestFor(rows + [x], x.key) == Some(x)
    ensures Latest(rows + [x]) == Some(x)
  {
    var r := LatestFor(rows + [x], x.key);
    assert x in rows + [x];
    assert r.value in rows || r.value == x;
    var g := Latest(rows + [x]);
    assert g.value in rows || g.value == x;
  }

  /**
   * Append then evict at a cutoff no later than the new row, with timestamps
   * increasing: a read of the new row's key, and the read of the whole table,
   * return the new row.
   */
  lemma ReadAfterWrite<K(!new), P(!new)>(rows: seq<Record<K, P>>, x: Record<K, P>, cutoff: int)
    requires forall y :: y in rows ==> y.timestamp < x.timestamp
    requires cutoff <= x.timestamp
    ensures LatestFor(Retained(rows + [x], cutoff), x.key) == Some(x)
    ensures Latest(Retained(rows + [x], cutoff)) == Some(x)
  {
    InsertThenEvict(rows, x, cutoff);
    AppendedIsLatest(Retained(rows, cutoff), x);
  }

  // ---------------------------------------------------------------------------
  // Latest row of every key
  // ---------------------------------------------------------------------------

  /** Each row returned is a stored row whose timestamp no row of its key exceeds. */
  lemma LatestRowsSound<K(!new), P(!new)>(rows: seq<Record<K, P>>, x: Record<K, P>)
    requires x in LatestRows(rows)
    ensures x in rows
    ensures forall y :: y in rows && y.key == x.key ==> y.timestamp <= x.timestamp
  {
  }

  /** Every key of the table has a row among those returned. */
  lemma LatestRowsComplete<K(!new), P(!new)>(rows: seq<Record<K, P>>, y: Record<K, P>)
    requires y in rows
    ensures exists i :: 0 <= i < |LatestRows(rows)| && LatestRows(rows)[i].key == y.key
  {
    var m := LatestFor(rows, y.key).value;
    assert m in LatestRows(rows);
    var i :| 0 <= i < |LatestRows(rows)| && LatestRows(rows)[i] == m;
  }

  /** No two rows of one key share a timestamp. */
  predicate DistinctTimesPerKey<K(==,!new), P(==,!new)>(rows: seq<Record<K, P>>)
  {
    forall i, j :: 0 <= i < j < |rows| && rows[i].key == rows[j].key ==> rows[i].timestamp != rows[j].timestamp
  }

  /** No two rows share a key. */
  ghost predicate KeysDistinct<K, P>(rows: seq<Record<K, P>>)
  {
    forall i, j :: 0 <= i < j < |rows| ==> rows[i].key != rows[j].key
  }

  /** A kept row of the tail never shares its key with a kept head of distinct-time rows. */
  lemma KeptHeadKeyIsUnique<K(!new), P(!new)>(all: seq<Record<K, P>>, rows: seq<Record<K, P>>, x: Record<K, P>)
    requires DistinctTimesPerKey(rows) && rows != []
    requires MaxTimestamp(all, rows[0].key) == Some(rows[0].timestamp)
    requires x in KeepLatest(all, rows[1..])
    ensures x.key != rows[0].key
  {
  }

  lemma DistinctTimesTail<K(!new), P(!new)>(rows: seq<Record<K, P>>)
    requires DistinctTimesPerKey(rows) && rows != []
    ensures DistinctTimesPerKey(rows[1..])
  {
    var tail := rows[1..];
    forall i, j | 0 <= i < j < |tail| && tail[i].key == tail[j].key
      ensures tail[i].timestamp != tail[j].timestamp
    {
      assert tail[i] == rows[i + 1] && tail[j] == rows[j + 1];
    }
  }

  /** Putting a row in front of rows with distinct keys keeps them distinct when its key is new. */
  lemma ConsKeysDistinct<K(!new), P(!new)>(x: Record<K, P>, rest: seq<Record<K, P>>)
    requires KeysDistinct(rest)
    requires forall y :: y in rest ==> y.key != x.key
    ensures KeysDistinct([x] + rest)
  {
    var r := [x] + rest;
    forall i, j | 0 <= i < j < |r|
      ensures r[i].key != r[j].key
    {
      assert r[j] == rest[j - 1];
      if i > 0 {
        assert r[i] == rest[i - 1];
      } else {
        assert r[j] in rest;
      }
    }
  }

  lemma {:induction false} KeepLatestOnePerKey<K(!new), P(!new)>(all: seq<Record<K, P>>, rows: seq<Record<K, P>>)
    requires DistinctTimesPerKey(rows)
    ensures KeysDistinct(KeepLatest(all, rows))
  {
    if rows != [] {
      DistinctTimesTail(rows);
      KeepLatestOnePerKey(all, rows[1..]);
      var rest := KeepLatest(all, rows[1..]);
      if MaxTimestamp(all, rows[0].key) == Some(rows[0].timestamp) {
        forall y | y in rest
          ensures y.key != rows[0].key
        {
          KeptHeadKeyIsUnique(all, rows, y);
        }
        ConsKeysDistinct(rows[0], rest);
        assert KeepLatest(all, rows) == [rows[0]] + rest;
      } else {
        assert KeepLatest(all, rows) == [] + rest;
      }
    }
  }

  /** With distinct timestamps per key, the latest-per-key query yields one row per key. */
  lemma LatestRowsOnePerKey<K(!new), P(!new)>(rows: seq<Record<K, P>>)
    requires DistinctTimesPerKey(rows)
    ensures KeysDistinct(LatestRows(rows))
  {
    KeepLatestOnePerKey(rows, rows);
  }
}

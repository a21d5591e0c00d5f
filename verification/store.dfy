/**
 * The contents of the SQLite database, seen as values: each topic table is
 * a map from key to row, the database a map from table name to table; and
 * the lazy-expiry batch a map from (table, key) to a pending expiry.
 */
module Store {
  import opened Types
  import opened Expiry

  /** One row of a topic table: columns `v`, `created_at`, `expiry` and `ttl`; the key `k` is the map key. */
  datatype Row = Row(value: seq<byte>, createdAt: U64, expiry: U64, ttl: U64)

  type Table = map<string, Row>

  type Db = map<string, Table>

  /** (table name, key), the key of `lazy_expiry_update`. */
  type PendingKey = (string, string)

  type Pending = map<PendingKey, U64>

  /**
   * The row that `set` writes with `replace into ... (k, v, expiry, ttl)`:
   * `created_at` takes its default, the current time; the ttl is clamped
   * and the expiry derived from it.
   */
  function StoredRow(value: seq<byte>, now: U64, ttl: U64, maxTtl: Option<U64>): (r: Row)
    ensures r.value == value && r.createdAt == now
    ensures r.ttl == ClampTtl(ttl, maxTtl)
    ensures r.expiry <= I64_MAX && r.expiry == Min(now + r.ttl, I64_MAX) && r.expiry == ExpiryAt(now, r.ttl)
  {
    var t := ClampTtl(ttl, maxTtl);
    Row(value, now, ExpiryAt(now, t), t)
  }

  /**
   * `select v, created_at, ttl from T where k = ?`. The statement fails
   * when the store fails or the table does not exist; otherwise it finds
   * the row exactly when one exists, expired or not.
   */
  function Lookup(db: Db, table: string, key: string, storeOk: bool): (r: Result<Option<Row>>)
    ensures r.Err? <==> !storeOk || table !in db
    ensures r.Ok? ==> (r.value.Some? <==> key in db[table])
    ensures r.Ok? && r.value.Some? ==> r.value.value == db[table][key]
  {
    if !storeOk || table !in db then Err
    else if key in db[table] then Ok(Some(db[table][key]))
    else Ok(None)
  }

  /** `delete from T where expiry < now`: the rows kept are exactly those with `expiry >= now`. */
  function Sweep(t: Table, now: U64): (r: Table)
    ensures forall k :: k in r <==> k in t && t[k].expiry >= now
    ensures forall k :: k in r ==> r[k] == t[k]
  {
    map k | k in t && t[k].expiry >= now :: t[k]
  }

  /** The database after the tables named in `swept` have each been swept at time `now`. */
  function SweepTables(db: Db, swept: set<string>, now: U64): (r: Db)
    ensures r.Keys == db.Keys
    ensures forall t :: t in r ==> r[t] == if t in swept then Sweep(db[t], now) else db[t]
  {
    map t | t in db :: if t in swept then Sweep(db[t], now) else db[t]
  }

  /** Whether the pending refresh of `(t, k)` is written by a flush: it exists and its update statement succeeds. */
  predicate Applies(pending: Pending, rejected: set<PendingKey>, t: string, k: string)
  {
    (t, k) in pending && (t, k) !in rejected
  }

  /**
   * The database after a flush has run `update T set expiry = ? where k = ?`
   * for every pending entry; `rejected` holds the entries whose statement
   * failed (logged and dropped). An entry for a missing table or key
   * matches no row.
   */
  function Refreshed(db: Db, pending: Pending, rejected: set<PendingKey>): (r: Db)
    ensures r.Keys == db.Keys
    ensures forall t :: t in r ==> r[t].Keys == db[t].Keys
    ensures forall t, k :: t in r && k in r[t] ==>
      var old_ := db[t][k];
      r[t][k] == if Applies(pending, rejected, t, k) then old_.(expiry := pending[(t, k)]) else old_
  {
    map t | t in db :: RefreshedTable(db[t], t, pending, rejected)
  }

  function RefreshedTable(table: Table, t: string, pending: Pending, rejected: set<PendingKey>): (r: Table)
    ensures r.Keys == table.Keys
  {
    map k | k in table :: if Applies(pending, rejected, t, k) then table[k].(expiry := pending[(t, k)]) else table[k]
  }

  /** After `set` has written `key`, a read of `key` finds exactly the row written. */
  lemma ReadYourWrite(db: Db, t: string, key: string, row: Row)
    requires t in db
    ensures Lookup(db[t := db[t][key := row]], t, key, true) == Ok(Some(row))
  {
  }

  /** After `delete`, a read of the key finds nothing. */
  lemma ReadAfterDelete(db: Db, t: string, key: string)
    requires t in db
    ensures Lookup(db[t := db[t] - {key}], t, key, true) == Ok(None)
  {
  }

  /** A refresh dropped from the batch (as `set` does) leaves that row alone at the next flush. */
  lemma SupersededRefreshIgnored(db: Db, pending: Pending, rejected: set<PendingKey>, t: string, k: string)
    requires t in db && k in db[t]
    ensures Refreshed(db, pending - {(t, k)}, rejected)[t][k] == db[t][k]
  {
  }

  /**
   * A row whose refreshed expiry has been flushed survives every sweep up
   * to that expiry and is removed by every later one.
   */
  lemma FlushedRefreshKeepsRowAlive(db: Db, pending: Pending, t: string, k: string, now: U64)
    requires t in db && k in db[t] && (t, k) in pending
    ensures k in Sweep(Refreshed(db, pending, {})[t], now) <==> now <= pending[(t, k)]
  {
  }
}

/**
 * The cache controller, its topic handles and their key updaters, as
 * objects whose fields the operations update in place. The SQLite
 * connection is the field `db`; the lazy-expiry batch, the field `pending`;
 * each topic's lock registry, its field `listeners`. The current time and
 * whether the store accepts a statement are parameters.
 */
module SqliteCache {
  import opened Types
  import opened Expiry
  import opened Store
  import opened TableNaming
  import opened LockRegistry

  /**
   * `CacheConfig`: the flush interval in milliseconds, how many flushes
   * make one garbage collection, and the optional ttl cap in whole seconds.
   */
  datatype Config = Config(flushIntervalMillis: nat, flushGcRatio: U64, maxTtl: Option<U64>)

  /** `CacheConfig::default()`: every 10 s, collect every 30th flush, no ttl cap. */
  function DefaultConfig(): (c: Config)
    ensures c.flushIntervalMillis == 10_000 && c.flushGcRatio == 30 && c.maxTtl == None
    ensures c.flushGcRatio > 0
    ensures c.flushIntervalMillis * c.flushGcRatio == 300_000
  {
    Config(10_000, 30, None)
  }

  /** `Value`: the stored bytes and when they were written. */
  datatype Value = Value(data: seq<byte>, createdAt: U64)

  function AsValue(row: Option<Row>): Option<Value>
  {
    if row.Some? then Some(Value(row.value.value, row.value.createdAt)) else None
  }

  /** The tables the garbage collector sweeps: those whose names begin with "topic_". */
  function TopicTables(db: Db): (ts: set<string>)
    ensures forall t :: t in ts <==> t in db && HasTopicPrefix(t)
  {
    set t | t in db && HasTopicPrefix(t)
  }

  /** Every table in `swept` is a topic table whose delete succeeded. */
  ghost predicate SweepsTopics(swept: set<string>, failing: set<string>)
  {
    forall t :: t in swept ==> HasTopicPrefix(t) && t !in failing
  }

  /** What `get_for_update` returns from one pass: the caller must wait for a wake-up, holds the lock, or failed. */
  datatype LockOutcome =
    | Wait
    | Locked(updater: KeyUpdater, value: Option<Value>)
    | Failed

  class Cache {
    const config: Config
    var db: Db
    var pending: Pending

    constructor (config: Config, db: Db)
      ensures this.config == config && this.db == db && pending == map[]
    {
      this.config := config;
      this.db := db;
      pending := map[];
    }

    /**
     * `Cache::new`: the gc ratio must be positive (the source asserts it);
     * fails when the store refuses to switch to write-ahead logging.
     */
    static method New(config: Config, conn: Db, walOk: bool) returns (r: Result<Cache>)
      requires config.flushGcRatio > 0
      ensures r.Ok? <==> walOk
      ensures r.Ok? ==> fresh(r.value) && r.value.config == config && r.value.db == conn && r.value.pending == map[]
    {
      if !walOk {
        return Err;
      }
      var c := new Cache(config, conn);
      r := Ok(c);
    }

    /**
     * `Cache::flush`: takes the whole batch, leaving it empty, and writes
     * each pending expiry into its row; `rejected` holds the entries whose
     * update failed, which are dropped.
     */
    method Flush(rejected: set<PendingKey>)
      modifies this
      ensures pending == map[]
      ensures db == Refreshed(old(db), old(pending), rejected)
    {
      var batch := pending;
      pending := map[];
      ghost var db0 := db;
      var todo := batch.Keys;
      while todo != {}
        invariant todo <= batch.Keys
        invariant pending == map[]
        invariant db.Keys == db0.Keys
        invariant forall t :: t in db ==> db[t].Keys == db0[t].Keys
        invariant forall t, k :: t in db && k in db[t] ==>
          db[t][k] == if Applies(batch, rejected, t, k) && (t, k) !in todo
                      then db0[t][k].(expiry := batch[(t, k)]) else db0[t][k]
        decreases todo
      {
        var e :| e in todo;
        var (t, k) := e;
        if e !in rejected && t in db && k in db[t] {
          db := db[t := db[t][k := db[t][k].(expiry := batch[e])]];
        }
        todo := todo - {e};
      }
      ghost var want := Refreshed(db0, batch, rejected);
      forall t | t in db
        ensures db[t] == want[t]
      {
        assert db[t].Keys == want[t].Keys;
      }
    }

    /**
     * `Cache::gc`: lists the topic tables and deletes from each the rows
     * whose expiry is before `now`. `listOk` says whether listing the
     * tables succeeds; a table in `failing` makes its delete fail, which
     * ends the pass with an error, the tables swept before it staying swept.
     */
    method Gc(now: U64, listOk: bool, failing: set<string>) returns (r: Outcome)
      modifies this
      ensures pending == old(pending)
      ensures r.Pass? <==> listOk && forall t :: t in old(db) && HasTopicPrefix(t) ==> t !in failing
      ensures r.Pass? ==> db == SweepTables(old(db), TopicTables(old(db)), now)
      ensures !listOk ==> db == old(db)
      ensures exists swept :: swept <= old(db).Keys && SweepsTopics(swept, failing) && db == SweepTables(old(db), swept, now)
    {
      ghost var db0 := db;
      if !listOk {
        assert db == SweepTables(db0, {}, now);
        return Fail;
      }
      var tables := TopicTables(db);
      var todo := tables;
      while todo != {}
        invariant todo <= tables
        invariant pending == old(pending)
        invariant forall u :: u in tables && u !in todo ==> u !in failing
        invariant db == SweepTables(db0, tables - todo, now)
        decreases todo
      {
        var t :| t in todo;
        if t in failing {
          ghost var swept := tables - todo;
          assert swept <= db0.Keys && db == SweepTables(db0, swept, now);
          assert SweepsTopics(swept, failing);
          return Fail;
        }
        db := db[t := Sweep(db[t], now)];
        todo := todo - {t};
      }
      r := Pass;
    }

    /**
     * `Cache::topic`: creates the topic's table if it does not exist yet
     * and returns a new handle with an empty lock registry. `ddlOk` says
     * whether the schema statements succeed.
     */
    method Topic(name: seq<byte>, ddlOk: bool) returns (r: Result<Topic>)
      modifies this
      ensures pending == old(pending)
      ensures !ddlOk ==> r == Err && db == old(db)
      ensures ddlOk ==> (r.Ok? && fresh(r.value)
        && r.value.cache == this && r.value.tableName == TableName(name) && r.value.listeners == map[]
        && db == if TableName(name) in old(db) then old(db) else old(db)[TableName(name) := map[]])
    {
      if !ddlOk {
        return Err;
      }
      var t := TableName(name);
      if t !in db {
        db := db[t := map[]];
      }
      var topic := new Topic(this, t);
      r := Ok(topic);
    }
  }

  class Topic {
    const cache: Cache
    const tableName: string
    var listeners: Registry

    constructor (cache: Cache, tableName: string)
      ensures this.cache == cache && this.tableName == tableName && listeners == map[]
    {
      this.cache := cache;
      this.tableName := tableName;
      listeners := map[];
    }

    /**
     * `Topic::get`: the row's data and creation time when the key has a
     * row, whatever its expiry; on a hit, records the refreshed expiry
     * `now + ttl` for the key in the batch, replacing any earlier one.
     * Never writes a row.
     */
    method Get(key: string, now: U64, storeOk: bool) returns (r: Result<Option<Value>>)
      modifies cache
      ensures cache.db == old(cache.db)
      ensures var found := Lookup(old(cache.db), tableName, key, storeOk);
        && r == (if found.Ok? then Ok(AsValue(found.value)) else Err)
        && cache.pending == if found.Ok? && found.value.Some?
                            then old(cache.pending)[(tableName, key) := ExpiryAt(now, found.value.value.ttl)]
                            else old(cache.pending)
    {
      var found := Lookup(cache.db, tableName, key, storeOk);
      if found.Err? {
        return Err;
      }
      if found.value.Some? {
        cache.pending := cache.pending[(tableName, key) := ExpiryAt(now, found.value.value.ttl)];
      }
      r := Ok(AsValue(found.value));
    }

    /**
     * `Topic::set`: replaces the whole row of `key` (clamped ttl, expiry
     * from `now`, creation time `now`) and then drops the pending refresh
     * of that key only. When the statement fails nothing changes.
     */
    method Set(key: string, value: seq<byte>, ttl: U64, now: U64, storeOk: bool) returns (r: Outcome)
      modifies cache
      ensures r.Pass? <==> storeOk && tableName in old(cache.db)
      ensures r.Fail? ==> cache.db == old(cache.db) && cache.pending == old(cache.pending)
      ensures r.Pass? ==>
        && cache.db == old(cache.db)[tableName := old(cache.db)[tableName][key := StoredRow(value, now, ttl, cache.config.maxTtl)]]
        && cache.pending == old(cache.pending) - {(tableName, key)}
    {
      if !storeOk || tableName !in cache.db {
        return Fail;
      }
      var row := StoredRow(value, now, ttl, cache.config.maxTtl);
      cache.db := cache.db[tableName := cache.db[tableName][key := row]];
      cache.pending := cache.pending - {(tableName, key)};
      r := Pass;
    }

    /** `Topic::delete`: removes the key's row if there is one; a missing row is not an error. The batch is left alone. */
    method Delete(key: string, storeOk: bool) returns (r: Outcome)
      modifies cache
      ensures cache.pending == old(cache.pending)
      ensures r.Pass? <==> storeOk && tableName in old(cache.db)
      ensures r.Fail? ==> cache.db == old(cache.db)
      ensures r.Pass? ==> cache.db == old(cache.db)[tableName := old(cache.db)[tableName] - {key}]
    {
      if !storeOk || tableName !in cache.db {
        return Fail;
      }
      cache.db := cache.db[tableName := cache.db[tableName] - {key}];
      r := Pass;
    }

    /** One pass of the acquisition loop of `get_for_update`, `w` naming the caller's wake-up channel. */
    method TryLock(key: string, w: Waiter) returns (granted: bool)
      modifies this
      ensures Acquisition(listeners, granted) == Acquire(old(listeners), key, w)
    {
      var a := Acquire(listeners, key, w);
      listeners, granted := a.reg, a.granted;
    }

    /**
     * One call of `get_for_update` up to its first suspension: a locked key
     * queues the caller (who waits for a wake-up and calls again); a free
     * key is locked and read as `get` reads it. If that read fails the
     * lock is released again, so that the key does not stay locked.
     */
    method GetForUpdate(key: string, w: Waiter, now: U64, storeOk: bool) returns (r: LockOutcome)
      modifies this, cache
      ensures cache.db == old(cache.db)
      ensures key in old(listeners) ==>
        r == Wait && listeners == old(listeners)[key := old(listeners)[key] + [w]] && cache.pending == old(cache.pending)
      ensures key !in old(listeners) ==>
        var found := Lookup(old(cache.db), tableName, key, storeOk);
        && (found.Err? ==> r == Failed && listeners == old(listeners) && cache.pending == old(cache.pending))
        && (found.Ok? ==>
              && r.Locked? && fresh(r.updater) && r.updater.topic == this && r.updater.key == key
              && r.value == AsValue(found.value)
              && listeners == old(listeners)[key := []]
              && cache.pending == if found.value.Some?
                                  then old(cache.pending)[(tableName, key) := ExpiryAt(now, found.value.value.ttl)]
                                  else old(cache.pending))
    {
      var granted := TryLock(key, w);
      if !granted {
        return Wait;
      }
      var updater := new KeyUpdater(this, key);
      var data := Get(key, now, storeOk);
      if data.Err? {
        var _ := updater.Drop();
        return Failed;
      }
      r := Locked(updater, data.value);
    }

    /** `get_for_update` as written: when the read after locking fails, the error returns and the key stays locked. */
    method GetForUpdateAsWritten(key: string, w: Waiter, now: U64, storeOk: bool) returns (r: LockOutcome)
      modifies this, cache
      ensures cache.db == old(cache.db)
      ensures key in old(listeners) ==>
        r == Wait && listeners == old(listeners)[key := old(listeners)[key] + [w]] && cache.pending == old(cache.pending)
      ensures key !in old(listeners) ==>
        var found := Lookup(old(cache.db), tableName, key, storeOk);
        && listeners == old(listeners)[key := []]
        && (found.Err? ==> r == Failed && cache.pending == old(cache.pending))
        && (found.Ok? ==>
              && r.Locked? && fresh(r.updater) && r.updater.topic == this && r.updater.key == key
              && r.value == AsValue(found.value)
              && cache.pending == if found.value.Some?
                                  then old(cache.pending)[(tableName, key) := ExpiryAt(now, found.value.value.ttl)]
                                  else old(cache.pending))
    {
      var granted := TryLock(key, w);
      if !granted {
        return Wait;
      }
      var data := Get(key, now, storeOk);
      if data.Err? {
        return Failed;
      }
      var updater := new KeyUpdater(this, key);
      r := Locked(updater, data.value);
    }
  }

  /** Exclusive update rights over one key of one topic handle. */
  class KeyUpdater {
    const topic: Topic
    const key: string

    constructor (topic: Topic, key: string)
      ensures this.topic == topic && this.key == key
    {
      this.topic := topic;
      this.key := key;
    }

    /**
     * Dropping the updater: removes the key's entry, which must exist (the
     * source unwraps it), and wakes every waiter it held.
     */
    method Drop() returns (woken: seq<Waiter>)
      requires key in topic.listeners
      modifies topic
      ensures Release(topic.listeners, woken) == Unlock(old(topic.listeners), key)
    {
      var rel := Unlock(topic.listeners, key);
      topic.listeners := rel.reg;
      woken := rel.woken;
    }

    /**
     * `KeyUpdater::write`: `set` with the given value and ttl, then the
     * release of the lock, which happens whether or not `set` succeeded.
     */
    method Write(value: seq<byte>, ttl: U64, now: U64, storeOk: bool) returns (r: Outcome, woken: seq<Waiter>)
      requires key in topic.listeners
      modifies topic, topic.cache
      ensures Release(topic.listeners, woken) == Unlock(old(topic.listeners), key)
      ensures r.Pass? <==> storeOk && topic.tableName in old(topic.cache.db)
      ensures r.Fail? ==> topic.cache.db == old(topic.cache.db) && topic.cache.pending == old(topic.cache.pending)
      ensures r.Pass? ==>
        && topic.cache.db == old(topic.cache.db)[topic.tableName :=
             old(topic.cache.db)[topic.tableName][key := StoredRow(value, now, ttl, topic.cache.config.maxTtl)]]
        && topic.cache.pending == old(topic.cache.pending) - {(topic.tableName, key)}
    {
      r := topic.Set(key, value, ttl, now, storeOk);
      woken := Drop();
    }
  }
}

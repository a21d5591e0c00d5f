# sqlite-cache, modelled in Dafny

A model of the core of `sqlite-cache`: a persistent key/value cache whose
entries expire, kept in one SQLite database and divided into topics. Each
topic is a table of rows `(k, v, created_at, expiry, ttl)`. Reads refresh an
entry's expiry lazily: they record the new expiry in an in-memory batch, and
a background loop writes the batch out on every flush and deletes expired
rows on every `flush_gc_ratio`-th flush. A per-key lock registry on each
topic handle lets one task at a time recompute a missing entry
(`get_for_update` → `write`), while the others wait and retry.

The model is split by component:

| file | module | what it holds |
|---|---|---|
| types.dfy | `Types` | `u64` bounds, `i64::MAX`, bytes, `Option`, `Result`, `Outcome` |
| expiry.dfy | `Expiry` | ttl clamping and expiry arithmetic of `set` and `get` |
| base32.dfy | `Base32` | unpadded base32 (section 6 of RFC 4648), its decoder and the round trip |
| naming.dfy | `TableNaming` | topic table names and the garbage collector's table filter |
| store.dfy | `Store` | rows, tables and the database as maps; row read, sweep and flush results |
| registry.dfy | `LockRegistry` | acquire and release on the per-key lock registry |
| protocol.dfy | `LockProtocol` | many tasks running the cache-fill protocol; its invariant |
| cache.dfy | `SqliteCache` | classes `Cache`, `Topic`, `KeyUpdater`: the operations, updating state in place |
| maintenance.dfy | `Maintenance` | the background loop and its flush/gc counter |
| scenarios.dfy | `Scenarios` | the call sequences of the repository's tests, replayed on the model |

The SQLite connection becomes the field `Cache.db`, a map from table name to
a map from key to row. The lazy-expiry batch becomes `Cache.pending`, keyed
by `(table, key)`. The lock registry becomes `Topic.listeners`, a map from
key to the list of waiting tasks. The current time is a parameter. So is the
store's answer to each statement: `storeOk`, `ddlOk` and `walOk` say whether
a statement succeeds; `rejected` and `failing` name the flush entries and
tables whose statements fail.

Three points of the code's behaviour that the model keeps as they are:
- `get_for_update` reads the entry with `get`, so it also records a pending
  refresh (src/lib.rs:214).
- `get` recomputes the expiry from the stored ttl and does not clamp it
  again to `max_ttl`.
- Each topic handle has its own lock registry. Two handles for one topic
  name do not exclude each other.

## Model

| member | source | states |
|---|---|---|
| `Expiry.ClampTtl` | src/lib.rs:230-235 | the stored ttl is the least of the requested ttl, `max_ttl` (when configured) and `i64::MAX` |
| `Expiry.ExpiryAt` | src/lib.rs:236-241 | the expiry is at most `i64::MAX` and equals `min(now + ttl, i64::MAX)`: the `u64` saturation never shows |
| `Expiry.ExpiredExactlyAfterTtl` | src/lib.rs:230-241 | a row written at `now` is past its expiry at time `t` exactly when its clamped ttl has elapsed by `t` or `t` exceeds `i64::MAX` |
| `Expiry.ExpiryMonotonic` | src/lib.rs:176-181 | a refresh computed later never gives an earlier expiry |
| `Base32.Encode` | src/lib.rs:124 | the encoding of n bytes has ceil(8n/5) characters, all from A-Z and 2-7 |
| `Base32.EncodeDecodeRoundTrip` | src/lib.rs:124 | decoding the unpadded base32 text gives back the bytes |
| `Base32.EncodeInjective` | src/lib.rs:124 | distinct byte strings have distinct encodings |
| `TableNaming.TableName` | src/lib.rs:124 | every table name begins with `topic_` |
| `TableNaming.TableNameIdentifierSafe` | src/lib.rs:124-138 | table names consist of letters, digits and `_` only, so they are safe in the DDL and DML text |
| `TableNaming.TableNameInjective` | src/lib.rs:124 | distinct topic names never share a table |
| `TableNaming.TopicTablesAreSwept` | src/lib.rs:106 | every topic table passes both the LIKE filter as written and the exact-prefix filter |
| `TableNaming.LikeTopicPattern` | src/lib.rs:106 | the LIKE filter as written holds of a name exactly when it has six or more characters and the first five are the letters of `topic`, each in either case (the sixth is the `_` wildcard); it holds of every name the exact-prefix filter selects |
| `TableNaming.HasTopicPrefix` | src/lib.rs:106 | the exact-prefix filter selects every topic's table |
| `TableNaming.CorrectionKeepsTopics` | src/lib.rs:106 | a table selected by the LIKE filter but not by the exact-prefix filter is no topic's table |
| `TableNaming.LikeSelectsForeignTables` | src/lib.rs:106 | the LIKE filter as written selects `topics` and `TOPIC1`, which no topic can be named |
| `Store.StoredRow` | src/lib.rs:224-242 | the row `set` writes holds the value, `created_at = now`, the ttl `ClampTtl(ttl, max_ttl)`, that is `min(ttl, max_ttl, i64::MAX)`, and `expiry = min(now + ttl', i64::MAX)` from that stored ttl (`ExpiryAt`) |
| `Store.Lookup` | src/lib.rs:156-166 | the read fails exactly when the store fails or the table is missing; otherwise it finds a row exactly when the key has one, whatever its expiry |
| `Store.Sweep` | src/lib.rs:111-114 | the rows kept are exactly those with `expiry >= now`, unchanged |
| `Store.SweepTables` | src/lib.rs:110-116 | the swept tables are each swept; every other table is unchanged; no table appears or disappears |
| `Store.Refreshed` | src/lib.rs:84-92 | a flush sets the expiry of each row that has a pending entry whose update succeeds; it changes nothing else, and entries for missing rows are no-ops |
| `Store.ReadYourWrite` | src/lib.rs:224-242 | after `set` writes a key, a read finds that row |
| `Store.ReadAfterDelete` | src/lib.rs:253-261 | after `delete`, a read of the key finds nothing |
| `Store.SupersededRefreshIgnored` | src/lib.rs:243-249 | once `set` has dropped a key's pending refresh, the next flush leaves that row alone |
| `Store.FlushedRefreshKeepsRowAlive` | src/lib.rs:84-88 | after a refresh is flushed, the row survives every sweep up to the refreshed expiry and no later one |
| `LockRegistry.Acquire` | src/lib.rs:196-204 | the caller is granted iff the key has no entry; then the key has an empty entry; otherwise exactly the caller is appended to its waiters; other keys are unchanged |
| `LockRegistry.Unlock` | src/lib.rs:269-273 | the key's entry is removed, all its waiters are handed back to be woken, and other keys are unchanged |
| `LockRegistry.UnlockUndoesAcquire` | src/lib.rs:269-273 | taking a free key and dropping the updater unused restores the registry and wakes no one |
| `LockProtocol.Step` | src/lib.rs:193-222 | one pass of `get_for_update`, or one release by a holder (src/lib.rs:269-273), with the release on a failed read: the set of tasks never changes; an attempt on a locked key appends the caller to that key's waiters; one on a free key locks it with no waiters for the caller, or, when the read fails, leaves registry and caller as before; a holder's release removes exactly its key, makes the holder idle and wakes every task listed under the key so that it retries; other keys and other tasks' phases are unchanged, and any other event changes nothing |
| `LockProtocol.StepAsWritten` | src/lib.rs:193-214 | the same step as written: every task's phase is as in `Step`, and the registry too, except after a failed read on a free key, where the key's empty entry stays |
| `LockProtocol.InitInv` | src/lib.rs:144 | a new handle's empty registry satisfies the protocol invariant |
| `LockProtocol.StepPreservesInv` | src/lib.rs:193-212 | every acquisition attempt and every release keeps the invariant: one holder per key, a holder for every locked key, and every waiting task listed under the key it waits on |
| `LockProtocol.RunPreservesInv` | src/lib.rs:193-212 | the invariant holds after any sequence of events |
| `LockProtocol.ReachableStatesSafe` | src/lib.rs:193-212 | in every reachable state each key has at most one holder, each locked key has a holder, and no waiting task can miss its wake-up |
| `LockProtocol.StepAsWrittenKeepsSafety` | src/lib.rs:193-214 | as written too, every step keeps: held keys locked, one holder per key, and the registry listing exactly the waiting tasks under their keys |
| `LockProtocol.RunAsWrittenKeepsSafety` | src/lib.rs:193-214 | as written, that safety holds after any sequence of events |
| `LockProtocol.AsWrittenMutualExclusion` | src/lib.rs:193-214 | in every state the code as written can reach, each key has at most one holder, every held key is locked, and every waiting task is listed under its key |
| `LockProtocol.StrandedForever` | src/lib.rs:203-214 | as written, a key locked with no holder stays locked with no holder whatever happens next |
| `LockProtocol.FailedReadLeaksLock` | src/lib.rs:203-214 | as written, one failed read after locking makes the next task wait, and no task can ever hold that key again |
| `LockProtocol.FailedReadReleasesLock` | src/lib.rs:214 | with the lock released on a failed read, the next task asking for the key gets it |
| `SqliteCache.DefaultConfig` | src/lib.rs:28-36 | the defaults are a 10-second flush interval, a gc every 30th flush and no ttl cap; so they pass the ratio check and collect every 300 seconds |
| `SqliteCache.TopicTables` | src/lib.rs:106-108 | the tables listed for collection are exactly the tables whose names begin with `topic_` |
| `SqliteCache.Cache.constructor` | src/lib.rs:70-76 | a new controller holds the configuration and the connection, and its batch is empty |
| `SqliteCache.Cache.New` | src/lib.rs:65-80 | requires a positive gc ratio; succeeds exactly when write-ahead logging can be enabled, with an empty batch |
| `SqliteCache.Cache.Flush` | src/lib.rs:82-93 | the batch is left empty and the database becomes `Refreshed` of the old database and the old batch |
| `SqliteCache.Cache.Gc` | src/lib.rs:95-121 | succeeds iff the listing succeeds and no topic table's delete fails; then every topic table is swept at `now`; a failed listing changes nothing; a failing delete ends the pass with only topic tables swept before it whose deletes succeeded, the rest unchanged; the batch is untouched |
| `SqliteCache.Cache.Topic` | src/lib.rs:123-147 | creates the table only if it is missing, and never touches an existing one; returns a new handle on `topic_` + base32 with an empty registry; on a DDL failure nothing changes |
| `SqliteCache.Topic.constructor` | src/lib.rs:140-145 | a new handle is bound to its cache and table and has an empty registry |
| `SqliteCache.Topic.Get` | src/lib.rs:156-187 | returns the row's data and `created_at` exactly when a row exists; on a hit it records `now + ttl` (capped) as the key's pending expiry, overwriting the earlier one; on a miss or error the batch is unchanged; rows are never modified |
| `SqliteCache.Topic.Set` | src/lib.rs:224-251 | replaces the key's whole row with the clamped row and drops only that key's pending refresh; all other rows and pending entries are unchanged; on failure nothing changes |
| `SqliteCache.Topic.Delete` | src/lib.rs:253-261 | removes the key's row if present; an absent key is no error and changes nothing; the batch is untouched |
| `SqliteCache.Topic.TryLock` | src/lib.rs:196-204 | one pass of the acquisition loop is `Acquire` on the registry |
| `SqliteCache.Topic.GetForUpdate` | src/lib.rs:189-222 | a locked key queues the caller and changes nothing else; a free key is locked and read as `get` reads it, returning a new updater for the key; if that read fails the lock is released again |
| `SqliteCache.Topic.GetForUpdateAsWritten` | src/lib.rs:189-222 | as written: a locked key queues the caller; on a free key the entry is created and stays whatever the read gives; a failed read fails with the batch unchanged, a successful one returns a fresh updater for the key with the value `get` reads and refreshes the batch as `get` does |
| `SqliteCache.KeyUpdater.constructor` | src/lib.rs:216-219 | an updater is bound to its topic handle and key |
| `SqliteCache.KeyUpdater.Drop` | src/lib.rs:269-274 | requires the key's entry, as the source's `unwrap` does; the release is `Unlock` on the registry |
| `SqliteCache.KeyUpdater.Write` | src/lib.rs:277-280 | the store changes as `set` changes it, and the lock is released whether or not `set` succeeded |
| `Maintenance.Serviced` | src/lib.rs:290-300 | the loop serves exactly the timeouts before the first stop signal or failed upgrade |
| `Maintenance.ModSucc` | src/lib.rs:303-305 | incrementing a counter modulo the ratio wraps to zero exactly when it reaches the ratio |
| `Maintenance.ServeRound` | src/lib.rs:302-308 | one served round: the database becomes the flush of the batch (`Refreshed`); when the round collects, then some topic tables, only ones whose delete succeeds, are swept at the round's time: none when the listing fails, and all of them when the listing succeeds and no delete fails; the batch is left empty |
| `Maintenance.PeriodicTask` | src/lib.rs:283-313 | the loop serves exactly the live timeouts before the first stop; the database after each served round is the previous one flushed (the first round with the batch it finds, later ones with the empty batch) and, exactly after every `flush_gc_ratio`-th flush, collected as in `ServeRound` (nothing swept when the listing fails); the counter stays below the ratio and equals the flush count modulo the ratio |
| `Scenarios.GetUpdateScenario` | src/lib_test.rs:22-38 | a fresh key reads as absent, is handed out for update with no value, reads back as written, and reads as absent after `delete` |
| `Scenarios.QueueBehindHolder` | src/lib_test.rs:49-62 | on a handle with no locked key, the first request for "hello" gets the lock and the next two queue behind it in order; the table is untouched |
| `Scenarios.UpdateLockScenario` | src/lib_test.rs:42-67 | while one task holds a key, two later requests queue; the holder's write wakes both; the retrying task gets the lock and the written value |

## Left out

- Threads, mutexes, `mpsc` channels, `Arc`/`Weak` reference counting, and the stop/acknowledge handshake in `Drop for CacheImpl` (src/lib.rs:57-62). The operations run one after another. `Maintenance.PeriodicTask` takes a finite sequence of ticks instead of a timer, and ends when the sequence does. Because no `get` or `set` can run between its rounds, every round after the first flushes an empty batch.
- The `await` inside `get_for_update`. `SqliteCache.Topic.GetForUpdate` performs one pass of the loop. A waiting caller calls again once a release hands back its id. In `LockProtocol` this is the `Woken` phase.
- Cancelling a waiting `get_for_update` future. `LockProtocol` has no cancel event. `Scenarios.UpdateLockScenario` shows that the abandoned waiter stays in the list until a release.
- SQL text, prepared statements, the WAL pragma and the `sqlite_master` query. Tables are maps. The listing is the set of table names, visited in an arbitrary order.
- `Cache::topic` runs its DDL batch as one atomic step. A batch that fails halfway and leaves its transaction open is not modelled.
- `SystemTime::now()` and sub-second durations. Times and ttls are whole seconds, after `as_secs`. SQLite's `strftime('%s', 'now')` default for `created_at` is the same `now`.
- Rows written by other software with negative integers, which `get` would fail to read as `u64`.
- `tracing` logging, error contents, and the row count that `gc` only logs.
- Turning topic names into UTF-8. The model takes the bytes of the name, as `as_bytes()` returns them.
- Rust's move semantics for `KeyUpdater`, which guarantee that it is dropped exactly once. `SqliteCache.KeyUpdater.Drop` requires the entry instead.
- The benchmark harness (benches/cache_benchmark.rs).
- SqliteCache.Cache.Gc: selects the tables with the corrected exact-prefix filter, not the LIKE filter as written (see Findings).
- SqliteCache.TopicTables: is the corrected listing, the tables whose names begin with exactly `topic_`. The LIKE listing as written is `TableNaming.LikeTopicPattern` (see Findings).
- TableNaming.HasTopicPrefix: is the corrected filter. The code as written filters with LIKE (see Findings).
- Maintenance.ServeRound: collects with the corrected filter of `SqliteCache.Cache.Gc`. `Maintenance.PeriodicTask` does too.
- SqliteCache.Topic.GetForUpdate: releases the lock when the read after locking fails. The code as written does not (src/lib.rs:214); that version is `SqliteCache.Topic.GetForUpdateAsWritten` (see Findings).
- LockProtocol.Step: releases the lock when the read after locking fails, as the corrected `get_for_update` does; the code as written is `LockProtocol.StepAsWritten` (see Findings).
- LockProtocol.StepPreservesInv: is about the corrected `Step`. For the code as written, only the safety part holds (`LockProtocol.StepAsWrittenKeepsSafety`).
- LockProtocol.RunPreservesInv: is about the corrected `Run`. For the code as written, see `LockProtocol.RunAsWrittenKeepsSafety`.
- LockProtocol.ReachableStatesSafe: is about the corrected protocol. As written, a locked key can be left without a holder (`LockProtocol.FailedReadLeaksLock`); mutual exclusion still holds (`LockProtocol.AsWrittenMutualExclusion`).
- LockProtocol.FailedReadReleasesLock: is about the corrected protocol; as written the key stays locked (`LockProtocol.FailedReadLeaksLock`).

## Findings

| source | as written | input that shows it | evidently intended | confidence | as-written member | corrected member |
|---|---|---|---|---|---|---|
| src/lib.rs:203-214 | `get_for_update` inserts the key's registry entry. If the following `self.get(key)?` fails, it returns before any `KeyUpdater` exists, so nothing ever removes the entry | a `get_for_update` on a free key whose read fails (store error), then a `get_for_update` on the same key | the lock is released when the read after locking fails | not executed; high | `LockProtocol.FailedReadLeaksLock` | `LockProtocol.ReachableStatesSafe` |
| src/lib.rs:106 | `name like 'topic_%'`: in LIKE, `_` matches any character and ASCII case is ignored | an application table named `topics` or `TOPIC1` in the same database. Its rows with `expiry < now` are deleted. Without an `expiry` column, its delete fails and ends every gc pass | only tables whose names begin with exactly `topic_` | not executed; medium | `TableNaming.LikeSelectsForeignTables` | `TableNaming.CorrectionKeepsTopics` |

In the first finding, the class-level versions are
`SqliteCache.Topic.GetForUpdateAsWritten` (as written) and
`SqliteCache.Topic.GetForUpdate` (corrected). The corrected version builds
the updater before the read and drops it when the read fails.
`LockProtocol.Step` models the corrected version, and
`LockProtocol.StepAsWritten` the one as written. In the second finding,
`SqliteCache.Cache.Gc` uses the corrected filter, `TableNaming.HasTopicPrefix`.

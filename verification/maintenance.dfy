/**
 * The background maintenance loop (`periodic_task`): every flush interval
 * it either receives the stop signal and ends, or times out, flushes the
 * lazy-expiry batch and, on every `flush_gc_ratio`-th flush, collects
 * expired rows.
 */
module Maintenance {
  import opened Types
  import opened Store
  import opened SqliteCache
  import opened TableNaming

  /**
   * What one wait of the loop yields: the stop signal, or a timeout; on a
   * timeout, whether the controller is still alive (the weak reference
   * upgrades), the current time, and how the store answers the flush and
   * garbage-collection statements of this round.
   */
  datatype Tick =
    | Stop
    | Timeout(alive: bool, now: U64, rejected: set<PendingKey>, listOk: bool, failing: set<string>)

  /** How many rounds the loop serves: the timeouts before the first stop signal or dead controller. */
  function Serviced(ticks: seq<Tick>): (n: nat)
    ensures n <= |ticks|
    ensures forall i :: 0 <= i < n ==> ticks[i].Timeout? && ticks[i].alive
    ensures n < |ticks| ==> ticks[n].Stop? || !ticks[n].alive
  {
    if ticks == [] || ticks[0].Stop? || !ticks[0].alive then 0
    else 1 + Serviced(ticks[1..])
  }

  lemma MulNonNeg(a: int, b: int)
    requires a >= 0 && b >= 0
    ensures a * b >= 0
  {
  }

  /** Quotient and remainder are the only decomposition `n == q * r + m` with `0 <= m < r`. */
  lemma DivModUnique(n: int, r: int, q: int, m: int)
    requires r > 0 && 0 <= m < r && n == q * r + m
    ensures n / r == q && n % r == m
  {
    var q', m' := n / r, n % r;
    assert n == q' * r + m';
    assert (q - q') * r == m' - m;
    if q > q' {
      MulNonNeg(q - q' - 1, r);
    } else if q < q' {
      MulNonNeg(q' - q - 1, r);
    }
  }

  /** Counting modulo `r`: one more wraps to zero exactly when it reaches `r`. */
  lemma ModSucc(i: nat, r: nat)
    requires r > 0
    ensures (i + 1) % r == if i % r + 1 == r then 0 else i % r + 1
    ensures (i + 1) / r == if i % r + 1 == r then i / r + 1 else i / r
  {
    var q, m := i / r, i % r;
    if m + 1 == r {
      DivModUnique(i + 1, r, q + 1, 0);
    } else {
      DivModUnique(i + 1, r, q, m + 1);
    }
  }

  /**
   * One served round of the loop on the database: `flush` writes `batch`
   * into `before`; when the round collects, `gc` then sweeps some of the
   * topic tables at the round's time, only ones whose delete succeeds, and
   * none when its listing fails, and all of them when its listing succeeds
   * and no topic table's delete fails.
   */
  ghost predicate Round(before: Db, batch: Pending, tick: Tick, gc: bool, after: Db)
  {
    tick.Timeout? &&
    var flushed := Refreshed(before, batch, tick.rejected);
    if !gc then after == flushed
    else
      && (exists swept :: swept <= flushed.Keys && SweepsTopics(swept, tick.failing)
            && after == SweepTables(flushed, swept, tick.now))
      && (!tick.listOk ==> after == flushed)
      && (tick.listOk && (forall t :: t in TopicTables(flushed) ==> t !in tick.failing) ==>
            after == SweepTables(flushed, TopicTables(flushed), tick.now))
  }

  /** The body of one served round: a flush, then a garbage collection when `gc` says so. */
  method ServeRound(cache: Cache, tick: Tick, gc: bool)
    requires tick.Timeout?
    modifies cache
    ensures Round(old(cache.db), old(cache.pending), tick, gc, cache.db)
    ensures cache.pending == map[]
    ensures cache.db.Keys == old(cache.db.Keys)
  {
    cache.Flush(tick.rejected);
    if gc {
      var _ := cache.Gc(tick.now, tick.listOk, tick.failing);
    }
  }

  /**
   * `periodic_task` over a finite run of ticks. `gcRuns[i]` says whether
   * the i-th flush was followed by a garbage collection; `counter` is the
   * final `gc_ratio_counter`; `dbs` is the database before the first round
   * and after each served round. The loop flushes once per served round
   * (the first round writes the batch it finds, later rounds the empty
   * batch the previous flush left) and collects exactly on every
   * `flush_gc_ratio`-th flush; a stop signal or dead controller ends it
   * before any further flush.
   */
  method PeriodicTask(cache: Cache, ticks: seq<Tick>) returns (gcRuns: seq<bool>, counter: U64, ghost dbs: seq<Db>)
    requires cache.config.flushGcRatio > 0
    modifies cache
    ensures |gcRuns| == Serviced(ticks)
    ensures forall i :: 0 <= i < |gcRuns| ==> (gcRuns[i] <==> (i + 1) % cache.config.flushGcRatio == 0)
    ensures counter < cache.config.flushGcRatio && counter == |gcRuns| % cache.config.flushGcRatio
    ensures |dbs| == |gcRuns| + 1 && dbs[0] == old(cache.db) && cache.db == dbs[|gcRuns|]
    ensures forall i :: 0 <= i < |gcRuns| ==>
      Round(dbs[i], if i == 0 then old(cache.pending) else map[], ticks[i], gcRuns[i], dbs[i + 1])
    ensures |gcRuns| == 0 ==> cache.pending == old(cache.pending)
    ensures |gcRuns| > 0 ==> cache.pending == map[]
    ensures cache.db.Keys == old(cache.db.Keys)
  {
    var ratio := cache.config.flushGcRatio;
    counter := 0;
    gcRuns := [];
    dbs := [cache.db];
    var i := 0;
    while i < |ticks|
      invariant i <= Serviced(ticks) && |gcRuns| == i
      invariant forall j :: 0 <= j < i ==> (gcRuns[j] <==> (j + 1) % ratio == 0)
      invariant counter < ratio && counter == i % ratio
      invariant |dbs| == i + 1 && dbs[0] == old(cache.db) && cache.db == dbs[i]
      invariant forall j :: 0 <= j < i ==>
        Round(dbs[j], if j == 0 then old(cache.pending) else map[], ticks[j], gcRuns[j], dbs[j + 1])
      invariant i == 0 ==> cache.pending == old(cache.pending)
      invariant i > 0 ==> cache.pending == map[]
      invariant cache.db.Keys == old(cache.db.Keys)
    {
      var tick := ticks[i];
      if tick.Stop? || !tick.alive {
        break;
      }
      ModSucc(i, ratio);
      counter := counter + 1;
      var gc := counter == ratio;
      if gc {
        counter := 0;
      }
      ghost var before, batch := cache.db, cache.pending;
      ServeRound(cache, tick, gc);
      ghost var dbs' := dbs + [cache.db];
      assert forall j :: 0 <= j <= i ==> dbs'[j] == dbs[j];
      gcRuns := gcRuns + [gc];
      dbs := dbs';
      i := i + 1;
    }
  }
}

/**
 * The sequences of calls that the repository's tests perform
 * (src/lib_test.rs), replayed on the model with a store that accepts every
 * statement; their results follow from the operations' contracts alone.
 */
module Scenarios {
  import opened Types
  import opened SqliteCache
  import opened LockRegistry
  import Store

  /** The bytes of an ASCII string. */
  function Bytes(s: string): (b: seq<byte>)
    requires forall i :: 0 <= i < |s| ==> s[i] as int < 256
    ensures |b| == |s| && forall i :: 0 <= i < |s| ==> b[i] == s[i] as int
  {
    if s == [] then [] else [s[0] as int as byte] + Bytes(s[1..])
  }

  /**
   * `test_get_update` (topics "test-topic" and "test-topic-2"): a fresh key reads as absent, is handed out for
   * update with no value, reads back as written, and reads as absent again
   * after `delete`.
   */
  method GetUpdateScenario(name: seq<byte>, otherName: seq<byte>, now: U64) returns (first: Option<Value>, locked: Option<Value>, written: Option<Value>, deleted: Option<Value>)
    ensures first == None && locked == None
    ensures written == Some(Value(Bytes("world"), now))
    ensures deleted == None
  {
    var c := Cache.New(DefaultConfig(), map[], true);
    var cache := c.value;
    var t := cache.Topic(name, true);
    var topic := t.value;
    var _ := cache.Topic(otherName, true);

    var g := topic.Get("hello", now, true);
    first := g.value;
    var lk := topic.GetForUpdate("hello", 0, now, true);
    locked := lk.value;
    var _, _ := lk.updater.Write(Bytes("world"), 1, now, true);
    g := topic.Get("hello", now, true);
    written := g.value;
    var _ := topic.Delete("hello", true);
    g := topic.Get("hello", now, true);
    deleted := g.value;
  }

  /**
   * The first half of `test_update_lock`: on a handle with no locked key,
   * task 1 takes "hello" and tasks 2 and 3 queue behind it, in that order.
   */
  method QueueBehindHolder(topic: Topic, now: U64) returns (first: LockOutcome, second: LockOutcome, third: LockOutcome)
    requires topic.listeners == map[]
    requires topic.tableName in topic.cache.db
    modifies topic, topic.cache
    ensures first.Locked? && first.updater.topic == topic && first.updater.key == "hello"
    ensures second == Wait && third == Wait
    ensures topic.listeners == map["hello" := [2, 3]]
    ensures topic.cache.db == old(topic.cache.db)
  {
    first := topic.GetForUpdate("hello", 1, now, true);
    assert topic.listeners == map["hello" := []];
    assert [] + [2] == [2];
    second := topic.GetForUpdate("hello", 2, now, true);
    assert topic.listeners == map["hello" := [2]];
    assert [2] + [3] == [2, 3];
    third := topic.GetForUpdate("hello", 3, now, true);
  }

  /**
   * `test_update_lock` (topic "test-topic"): while one task holds "hello", a second attempt
   * (later abandoned) and a third one both queue; the holder's write wakes
   * both, and the third, retrying, gets the lock and the written value.
   */
  method UpdateLockScenario(name: seq<byte>, now: U64) returns (second: LockOutcome, third: LockOutcome, woken: seq<Waiter>, retried: Option<Value>)
    ensures second == Wait && third == Wait
    ensures woken == [2, 3]
    ensures retried == Some(Value(Bytes("world"), now))
  {
    var c := Cache.New(DefaultConfig(), map[], true);
    var cache := c.value;
    var t := cache.Topic(name, true);
    var topic := t.value;

    var first;
    first, second, third := QueueBehindHolder(topic, now);
    var _, w := first.updater.Write(Bytes("world"), 1, now, true);
    woken := w;
    assert topic.listeners == map[];
    assert cache.db[topic.tableName]["hello"] == Store.StoredRow(Bytes("world"), now, 1, None);
    var again := topic.GetForUpdate("hello", 3, now, true);
    retried := again.value;
  }
}

/**
 * Table names of topics (`Cache::topic`) and the name filter that the
 * garbage collector (`Cache::gc`) applies to the tables of the database.
 */
module TableNaming {
  import opened Types
  import Base32

  const TABLE_PREFIX: string := "topic_"

  /** `format!("topic_{}", BASE32_NOPAD.encode(name.as_bytes()))`. */
  function TableName(topic: seq<byte>): (t: string)
    ensures |t| >= |TABLE_PREFIX| && t[..|TABLE_PREFIX|] == TABLE_PREFIX
  {
    TABLE_PREFIX + Base32.Encode(topic)
  }

  /** Letters, digits and underscores only: usable unquoted as an SQL identifier. */
  predicate IdentifierSafe(t: string)
  {
    forall i :: 0 <= i < |t| ==> 'a' <= t[i] <= 'z' || 'A' <= t[i] <= 'Z' || '0' <= t[i] <= '9' || t[i] == '_'
  }

  lemma TableNameIdentifierSafe(topic: seq<byte>)
    ensures IdentifierSafe(TableName(topic))
  {
  }

  /** Distinct topic names never share a table. */
  lemma TableNameInjective(a: seq<byte>, b: seq<byte>)
    requires TableName(a) == TableName(b)
    ensures a == b
  {
    var n := |TABLE_PREFIX|;
    assert Base32.Encode(a) == TableName(a)[n..];
    assert Base32.Encode(b) == TableName(b)[n..];
    Base32.EncodeInjective(a, b);
  }

  function AsciiLower(c: char): char
  {
    if 'A' <= c <= 'Z' then (c as int - 'A' as int + 'a' as int) as char else c
  }

  /**
   * SQLite's `name like 'topic_%'` as the garbage collector writes it: LIKE
   * ignores ASCII case and `_` matches any one character, so the filter
   * holds of every name of six or more characters whose first five spell
   * "topic" in any case.
   */
  predicate LikeTopicPattern(name: string): (r: bool)
    ensures r <==> |name| >= 6 && forall i :: 0 <= i < 5 ==> name[i] == "topic"[i] || name[i] == "TOPIC"[i]
    ensures HasTopicPrefix(name) ==> r
  {
    |name| >= 6 && forall i :: 0 <= i < 5 ==> AsciiLower(name[i]) == "topic"[i]
  }

  /** The filter the garbage collector is meant to apply: names beginning with exactly "topic_". */
  predicate HasTopicPrefix(name: string): (r: bool)
    ensures forall topic :: TableName(topic) == name ==> r
  {
    |name| >= |TABLE_PREFIX| && name[..|TABLE_PREFIX|] == TABLE_PREFIX
  }

  /** Every topic table passes both filters, so every topic is swept. */
  lemma TopicTablesAreSwept(topic: seq<byte>)
    ensures HasTopicPrefix(TableName(topic))
    ensures LikeTopicPattern(TableName(topic))
  {
  }

  /** Every table that the LIKE filter selects and the exact-prefix filter does not is no topic's table. */
  lemma CorrectionKeepsTopics(name: string)
    requires LikeTopicPattern(name) && !HasTopicPrefix(name)
    ensures forall topic :: TableName(topic) != name
  {
  }

  /**
   * The LIKE filter as written also selects tables that are not topics,
   * such as a table "topics" or "TOPIC1" that the application keeps in the
   * same database.
   */
  lemma LikeSelectsForeignTables()
    ensures LikeTopicPattern("topics") && !HasTopicPrefix("topics")
    ensures LikeTopicPattern("TOPIC1") && !HasTopicPrefix("TOPIC1")
    ensures forall topic :: TableName(topic) != "topics" && TableName(topic) != "TOPIC1"
  {
    assert "topics"[..6] != TABLE_PREFIX by { assert "topics"[5] != TABLE_PREFIX[5]; }
    assert "TOPIC1"[..6] != TABLE_PREFIX by { assert "TOPIC1"[0] != TABLE_PREFIX[0]; }
    forall topic
      ensures TableName(topic) != "topics" && TableName(topic) != "TOPIC1"
    {
      TopicTablesAreSwept(topic);
    }
  }
}

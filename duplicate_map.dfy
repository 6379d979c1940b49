/**
 * SlicePanel.DuplicateMap: the table from a slice usage to the tree nodes that
 * show it, shared by every node of one slice tree. Keys are compared through
 * their usage info rather than by object identity, and the table is stamped
 * with the PSI modification count it was last rebuilt under; `put` rebuilds it
 * whenever the count it reads differs from the stamp.
 *
 * The model keys the table by the usage info itself (type parameter `Info`),
 * which is exactly the equivalence the hashing strategy induces on keys. The
 * modification count is read by the caller and passed in.
 */
module DuplicateMaps {
  import opened Options

  /**
   * A SliceUsage as a key: `ref` stands for the object's identity, `usageInfo`
   * for what getUsageInfo() returns; only the latter is hashed and compared.
   */
  datatype SliceUsage<Info> = SliceUsage(ref: nat, usageInfo: Info)

  /** The table's abstract state: its entries and the stamp it was rebuilt under. */
  datatype Snapshot<Info, V> = Snapshot(table: map<Info, V>, timeStamp: int)

  /** One call put(key, value) made while the modification count read `count`. */
  datatype PutCall<Info, V> = PutCall(key: SliceUsage<Info>, value: V, count: int)

  /** The stamp of a map no put has been made on yet. */
  const NEVER_STAMPED: int := -1

  /** What get returns: the value stored in the key's slot, or null. */
  function Lookup<K, V>(m: map<K, V>, k: K): Option<V> {
    if k in m then Some(m[k]) else None
  }

  // ---------------------------------------------------------------------------
  // Specification of put
  // ---------------------------------------------------------------------------

  /**
   * The table just before the plain put: unchanged when the count equals the
   * stamp; otherwise emptied (the rebuild copies from a map it has just
   * created, so nothing survives) and stamped with the new count.
   */
  function Rebuilt<Info, V>(s: Snapshot<Info, V>, count: int): Snapshot<Info, V> {
    if count != s.timeStamp then Snapshot(map[], count) else s
  }

  /** The state after one put. */
  function AfterPut<Info, V>(s: Snapshot<Info, V>, c: PutCall<Info, V>): Snapshot<Info, V> {
    var r := Rebuilt(s, c.count);
    Snapshot(r.table[c.key.usageInfo := c.value], r.timeStamp)
  }

  /** What one put returns: the value previously in the key's slot of the rebuilt table. */
  function PutReturn<Info, V>(s: Snapshot<Info, V>, c: PutCall<Info, V>): Option<V> {
    Lookup(Rebuilt(s, c.count).table, c.key.usageInfo)
  }

  /** The state after a series of puts, made in order. */
  function AfterPuts<Info, V>(s: Snapshot<Info, V>, calls: seq<PutCall<Info, V>>): Snapshot<Info, V>
    decreases |calls|
  {
    if calls == [] then s else AfterPuts(AfterPut(s, calls[0]), calls[1..])
  }

  /** A series of plain map updates, with no stamp involved: the reference the lemmas compare to. */
  function Assign<Info, V>(m: map<Info, V>, calls: seq<PutCall<Info, V>>): map<Info, V>
    decreases |calls|
  {
    if calls == [] then m else Assign(m[calls[0].key.usageInfo := calls[0].value], calls[1..])
  }

  /** The usage infos the calls put under. */
  function InfosOf<Info, V>(calls: seq<PutCall<Info, V>>): set<Info> {
    set i | 0 <= i < |calls| :: calls[i].key.usageInfo
  }

  // ---------------------------------------------------------------------------
  // The map object
  // ---------------------------------------------------------------------------

  class DuplicateMap<Info(==), V> {
    var table: map<Info, V>
    var timeStamp: int

    /** A new map is empty and carries the never-stamped mark -1. */
    constructor ()
      ensures table == map[] && timeStamp == NEVER_STAMPED
    {
      table := map[];
      timeStamp := NEVER_STAMPED;
    }

    /**
     * put(key, value) after the modification count was read as `count`. On a
     * stamp change every earlier entry is discarded; otherwise the key's slot
     * is overwritten and every other slot kept. The previous value of the slot
     * is returned, None standing for null.
     */
    method Put(key: SliceUsage<Info>, value: V, count: int) returns (previous: Option<V>)
      modifies this
      ensures timeStamp == count
      ensures count != old(timeStamp) ==> table == map[key.usageInfo := value] && previous == None
      ensures count == old(timeStamp) ==>
                && table == old(table)[key.usageInfo := value]
                && previous == Lookup(old(table), key.usageInfo)
      ensures Snapshot(table, timeStamp) == AfterPut(old(Snapshot(table, timeStamp)), PutCall(key, value, count))
      ensures previous == PutReturn(old(Snapshot(table, timeStamp)), PutCall(key, value, count))
    {
      if count != timeStamp {
        // The rebuild walks the entries of the map it has just created, so the
        // walk sees no entry and `rebuilt` stays empty.
        var rebuilt: map<Info, V> := map[];
        table := map[];
        table := table + rebuilt;
        timeStamp := count;
      }
      previous := Lookup(table, key.usageInfo);
      table := table[key.usageInfo := value];
    }

    /** The inherited get: reads the key's slot and never looks at the stamp. */
    method Get(key: SliceUsage<Info>) returns (value: Option<V>)
      ensures value.Some? <==> key.usageInfo in table
      ensures value.Some? ==> value.value == table[key.usageInfo]
    {
      value := Lookup(table, key.usageInfo);
    }
  }

  // ---------------------------------------------------------------------------
  // Properties of series of puts
  // ---------------------------------------------------------------------------

  /** Two keys with equal usage info share one slot: the second put overwrites the first. */
  lemma EqualUsageInfoSharesSlot<Info, V>(s: Snapshot<Info, V>, k1: SliceUsage<Info>, k2: SliceUsage<Info>,
                                          v1: V, v2: V, count: int)
    requires k1.usageInfo == k2.usageInfo
    ensures var first := AfterPut(s, PutCall(k1, v1, count));
            var second := AfterPut(first, PutCall(k2, v2, count));
            && PutReturn(first, PutCall(k2, v2, count)) == Some(v1)
            && second.table.Keys == first.table.Keys
            && second.table[k1.usageInfo] == v2
  {
  }

  /** Puts compose: a series split in two acts as the two halves in turn. */
  lemma {:induction false} AfterPutsAppend<Info, V>(s: Snapshot<Info, V>, a: seq<PutCall<Info, V>>,
                                                    b: seq<PutCall<Info, V>>)
    ensures AfterPuts(s, a + b) == AfterPuts(AfterPuts(s, a), b)
    decreases |a|
  {
    if a == [] {
      assert a + b == b;
    } else {
      assert (a + b)[1..] == a[1..] + b;
      AfterPutsAppend(AfterPut(s, a[0]), a[1..], b);
    }
  }

  /** After any non-empty series of puts the stamp is the count the last put read. */
  lemma {:induction false} StampIsLastCount<Info, V>(s: Snapshot<Info, V>, calls: seq<PutCall<Info, V>>)
    requires calls != []
    ensures AfterPuts(s, calls).timeStamp == calls[|calls| - 1].count
    decreases |calls|
  {
    if |calls| > 1 {
      StampIsLastCount(AfterPut(s, calls[0]), calls[1..]);
    }
  }

  /** While the count stays equal to the stamp, puts are plain map updates and the stamp is kept. */
  lemma {:induction false} SteadyStampIsPlainMap<Info, V>(s: Snapshot<Info, V>, calls: seq<PutCall<Info, V>>)
    requires forall i | 0 <= i < |calls| :: calls[i].count == s.timeStamp
    ensures AfterPuts(s, calls) == Snapshot(Assign(s.table, calls), s.timeStamp)
    decreases |calls|
  {
    if calls != [] {
      SteadyStampIsPlainMap(AfterPut(s, calls[0]), calls[1..]);
    }
  }

  /**
   * Only the entries put since the last stamp change survive: if the j-th put
   * read a count different from the stamp at that point and every later put
   * read the same count, the final table is exactly what those puts assign,
   * starting from an empty table.
   */
  lemma OnlyLatestEpochSurvives<Info, V>(s: Snapshot<Info, V>, calls: seq<PutCall<Info, V>>, j: nat)
    requires j < |calls|
    requires calls[j].count != AfterPuts(s, calls[..j]).timeStamp
    requires forall k | j <= k < |calls| :: calls[k].count == calls[j].count
    ensures AfterPuts(s, calls) == Snapshot(Assign(map[], calls[j..]), calls[j].count)
  {
    var before := AfterPuts(s, calls[..j]);
    assert calls == calls[..j] + calls[j..];
    AfterPutsAppend(s, calls[..j], calls[j..]);
    var c := calls[j];
    var start := AfterPut(before, c);
    assert start == Snapshot(map[c.key.usageInfo := c.value], c.count);
    var rest := calls[j + 1..];
    assert calls[j..][1..] == rest;
    SteadyStampIsPlainMap(start, rest);
  }

  /** A fresh map's first put with any count but -1 leaves exactly the one new entry. */
  lemma FirstPutStartsEmpty<Info, V>(old_table: map<Info, V>, c: PutCall<Info, V>)
    requires c.count != NEVER_STAMPED
    ensures AfterPut(Snapshot(old_table, NEVER_STAMPED), c) == Snapshot(map[c.key.usageInfo := c.value], c.count)
  {
  }

  /** The keys after plain updates are the old keys plus every key put under. */
  lemma {:induction false} AssignKeys<Info, V>(m: map<Info, V>, calls: seq<PutCall<Info, V>>)
    ensures Assign(m, calls).Keys == m.Keys + InfosOf(calls)
    decreases |calls|
  {
    if calls != [] {
      var c := calls[0];
      AssignKeys(m[c.key.usageInfo := c.value], calls[1..]);
      assert InfosOf(calls) == {c.key.usageInfo} + InfosOf(calls[1..]) by {
        forall x | x in InfosOf(calls) ensures x in {c.key.usageInfo} + InfosOf(calls[1..]) {
          var i :| 0 <= i < |calls| && calls[i].key.usageInfo == x;
          if i > 0 { assert calls[1..][i - 1] == calls[i]; }
        }
        forall x | x in InfosOf(calls[1..]) ensures x in InfosOf(calls) {
          var i :| 0 <= i < |calls[1..]| && calls[1..][i].key.usageInfo == x;
          assert calls[i + 1] == calls[1..][i];
        }
      }
    }
  }

  /** A slot nobody puts under keeps what it held. */
  lemma {:induction false} AssignUntouched<Info, V>(m: map<Info, V>, calls: seq<PutCall<Info, V>>, info: Info)
    requires forall i | 0 <= i < |calls| :: calls[i].key.usageInfo != info
    ensures Lookup(Assign(m, calls), info) == Lookup(m, info)
    decreases |calls|
  {
    if calls != [] {
      var c := calls[0];
      assert forall k | 0 <= k < |calls[1..]| :: calls[1..][k] == calls[k + 1];
      AssignUntouched(m[c.key.usageInfo := c.value], calls[1..], info);
    }
  }

  /** A slot holds the value of the last put under its usage info. */
  lemma {:induction false} AssignLastWins<Info, V>(m: map<Info, V>, calls: seq<PutCall<Info, V>>, j: nat)
    requires j < |calls|
    requires forall k | j < k < |calls| :: calls[k].key.usageInfo != calls[j].key.usageInfo
    ensures Lookup(Assign(m, calls), calls[j].key.usageInfo) == Some(calls[j].value)
    decreases |calls|
  {
    var c := calls[0];
    var rest := calls[1..];
    if j > 0 {
      assert rest[j - 1] == calls[j];
      assert forall k | j - 1 < k < |rest| :: rest[k] == calls[k + 1];
      AssignLastWins(m[c.key.usageInfo := c.value], rest, j - 1);
    } else {
      assert forall k | 0 <= k < |rest| :: rest[k] == calls[k + 1];
      AssignUntouched(m[c.key.usageInfo := c.value], rest, c.key.usageInfo);
    }
  }
}

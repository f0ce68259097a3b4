/**
  The storage engine as the service sees it: a map from binary keys to a
  value-state.  A delete is an upsert of a tombstone, never a removal.  The
  engine's internals (persistence, flushing, compaction) are not part of
  this model; `Dao` keeps only the map and a log of the calls made to it.
*/
module Store {
  import opened Wrappers
  import opened Utf8

  type Key = seq<byte>

  datatype ValueState = Present(bytes: seq<byte>) | Tombstone

  datatype Entry = Entry(key: Key, value: ValueState)

  /** The engine's upsert: the entry's key now holds the entry's value-state
      and every other key keeps what it had. */
  function Apply(m: map<Key, ValueState>, e: Entry): (r: map<Key, ValueState>)
    ensures r.Keys == m.Keys + {e.key}
    ensures r[e.key] == e.value
    ensures forall k :: k in m && k != e.key ==> r[k] == m[k]
  {
    m[e.key := e.value]
  }

  /** The engine's read contract: a missing key and a tombstoned key both
      read as absent; otherwise the stored entry comes back. */
  function Visible(m: map<Key, ValueState>, k: Key): (r: Option<Entry>)
    ensures r.Some? <==> k in m && m[k].Present?
    ensures r.Some? ==> r.value.key == k && r.value.value == m[k]
  {
    if k in m && m[k].Present? then Some(Entry(k, m[k])) else None
  }

  /** A read that does not hide tombstones: what a `get` without the
      contract above would hand back. */
  function Raw(m: map<Key, ValueState>, k: Key): (r: Option<Entry>)
    ensures r.Some? <==> k in m
    ensures r.Some? ==> r.value == Entry(k, m[k])
  {
    if k in m then Some(Entry(k, m[k])) else None
  }

  /** A call made to the engine, as a test double would record it. */
  datatype Call = GetCall(key: Key) | UpsertCall(entry: Entry) | CloseCall

  /** The engine handle the service opens at start and closes at stop. */
  class Dao {
    var entries: map<Key, ValueState>
    var open: bool
    /** Bytes held in memory before the engine flushes them to disk. */
    const flushThreshold: int
    ghost var calls: seq<Call>

    /** Opens the engine over what it recovers from its working directory. */
    constructor Open(recovered: map<Key, ValueState>, threshold: int)
      ensures entries == recovered && open && calls == [] && flushThreshold == threshold
    {
      entries := recovered;
      flushThreshold := threshold;
      open := true;
      calls := [];
    }

    method Get(key: Key) returns (r: Option<Entry>)
      requires open
      modifies this`calls
      ensures r == Visible(entries, key)
      ensures calls == old(calls) + [GetCall(key)]
    {
      r := Visible(entries, key);
      calls := calls + [GetCall(key)];
    }

    method Upsert(e: Entry)
      requires open
      modifies this`entries, this`calls
      ensures entries == Apply(old(entries), e)
      ensures calls == old(calls) + [UpsertCall(e)]
    {
      entries := Apply(entries, e);
      calls := calls + [UpsertCall(e)];
    }

    /** Closing keeps the entries (the engine persists them) and forbids
        any further call. */
    method Close()
      requires open
      modifies this`open, this`calls
      ensures !open
      ensures calls == old(calls) + [CloseCall]
    {
      open := false;
      calls := calls + [CloseCall];
    }
  }
}

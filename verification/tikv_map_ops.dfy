/** Map state over the TiKV backend (`backend/tikv/map_ops.rs`). A map entry
    lives under the composite key `metakeys ++ user key`; the handle's id is
    passed as a column family that the backend ignores. */
module TikvMapOps {
  import opened Wrappers
  import opened Bytes
  import opened Handles
  import opened Tikv

  function EntryKey(h: Handle, key: Bytes): Bytes {
    SerializeMetakeysAndKey(h, key)
  }

  /** `map_get`: absent when the composite key is absent, otherwise the
      decoded stored bytes. */
  function MapGet<V>(t: Backend, h: Handle, key: Bytes, sd: Serde<V>): (r: Result<Option<V>>)
    ensures r == Ok(None) <==> EntryKey(h, key) !in t.kv
    ensures r.Ok? && r.value.Some? ==> sd.decode(t.kv[EntryKey(h, key)]) == r.value
    ensures r.Err? ==> r.error == Deserialization && sd.decode(t.kv[EntryKey(h, key)]).None?
  {
    match Get(t, EntryKey(h, key))
    case None => Ok(None)
    case Some(bytes) =>
      match Deserialize(sd, bytes)
      case Ok(v) => Ok(Some(v))
      case Err(e) => Err(e)
  }

  /** `map_fast_insert`: store the entry without reading the old value. Only
      that entry changes. */
  function MapFastInsert<V>(t: Backend, h: Handle, key: Bytes, sd: Serde<V>, v: V): (r: Step<(), Backend>)
    ensures r.result.Ok?
    ensures Get(r.state, EntryKey(h, key)) == Some(sd.encode(v))
    ensures forall j :: j != EntryKey(h, key) ==> Get(r.state, j) == Get(t, j)
    ensures r.state == t.(kv := r.state.kv)
  {
    Step(Ok(()), Put(t, EntryKey(h, key), sd.encode(v)))
  }

  /** `map_fast_insert_by_ref` differs only in taking its arguments by
      reference. */
  function MapFastInsertByRef<V>(t: Backend, h: Handle, key: Bytes, sd: Serde<V>, v: V): (r: Step<(), Backend>)
    ensures r == MapFastInsert(t, h, key, sd, v)
  {
    Step(Ok(()), Put(t, EntryKey(h, key), sd.encode(v)))
  }

  /** `map_insert`: return what `map_get` returned, then store the entry. When
      the old value cannot be decoded the call fails before writing. */
  function MapInsert<V>(t: Backend, h: Handle, key: Bytes, sd: Serde<V>, v: V): (r: Step<Option<V>, Backend>)
    ensures r.result == MapGet(t, h, key, sd)
    ensures r.result.Ok? ==> r.state == MapFastInsert(t, h, key, sd, v).state
    ensures r.result.Err? ==> r.state == t
  {
    match Get(t, EntryKey(h, key))
    case None => Step(Ok(None), Put(t, EntryKey(h, key), sd.encode(v)))
    case Some(bytes) =>
      match Deserialize(sd, bytes)
      case Ok(prior) => Step(Ok(Some(prior)), Put(t, EntryKey(h, key), sd.encode(v)))
      case Err(e) => Step(Err(e), t)
  }

  /** `map_fast_remove`: delete the entry without reading it. */
  function MapFastRemove(t: Backend, h: Handle, key: Bytes): (r: Step<(), Backend>)
    ensures r.result.Ok?
    ensures Get(r.state, EntryKey(h, key)) == None
    ensures forall j :: j != EntryKey(h, key) ==> Get(r.state, j) == Get(t, j)
    ensures r.state == t.(kv := r.state.kv)
  {
    Step(Ok(()), Remove(t, EntryKey(h, key)))
  }

  /** `map_remove`: return what `map_get` returned, then delete the entry.
      When the old value cannot be decoded the call fails before deleting. */
  function MapRemove<V>(t: Backend, h: Handle, key: Bytes, sd: Serde<V>): (r: Step<Option<V>, Backend>)
    ensures r.result == MapGet(t, h, key, sd)
    ensures r.result.Ok? ==> r.state == MapFastRemove(t, h, key).state
    ensures r.result.Err? ==> r.state == t
  {
    match Get(t, EntryKey(h, key))
    case None => Step(Ok(None), Remove(t, EntryKey(h, key)))
    case Some(bytes) =>
      match Deserialize(sd, bytes)
      case Ok(prior) => Step(Ok(Some(prior)), Remove(t, EntryKey(h, key)))
      case Err(e) => Step(Err(e), t)
  }

  /** `map_contains`: whether the backend holds the composite key. */
  function MapContains(t: Backend, h: Handle, key: Bytes): (r: bool)
    ensures r <==> Get(t, EntryKey(h, key)).Some?
  {
    Contains(t, EntryKey(h, key))
  }

  /** `map_contains` holds exactly when `map_get` does not report the entry
      absent (a stored value that fails to decode is still present). */
  lemma MapContainsIffGet<V>(t: Backend, h: Handle, key: Bytes, sd: Serde<V>)
    ensures MapContains(t, h, key) <==> MapGet(t, h, key, sd) != Ok(None)
  {
  }

  /** `map_clear` deletes the handle's metakey prefix through the backend's
      `remove_prefix`, which is unimplemented, so it always fails. */
  function MapClear(t: Backend, h: Handle): (r: Result<()>)
    ensures r == Err(Unimplemented)
  {
    match RemovePrefix(t, SerializeMetakeys(h))
    case Ok(_) => Ok(())
    case Err(e) => Err(e)
  }

  /** Insert then get returns the inserted value; remove then get returns
      nothing; other entries are untouched. */
  lemma MapInsertThenGet<V(!new)>(t: Backend, h: Handle, key: Bytes, sd: Serde<V>, v: V, other: Bytes)
    requires RoundTrips(sd)
    ensures MapGet(MapFastInsert(t, h, key, sd, v).state, h, key, sd) == Ok(Some(v))
    ensures MapInsert(t, h, key, sd, v).result.Ok? ==>
              MapGet(MapInsert(t, h, key, sd, v).state, h, key, sd) == Ok(Some(v))
    ensures MapGet(MapFastRemove(t, h, key).state, h, key, sd) == Ok(None)
    ensures other != key ==>
              MapGet(MapFastInsert(t, h, key, sd, v).state, h, other, sd) == MapGet(t, h, other, sd)
  {
    DeserializeEncoded(sd, v);
  }

  /** All handles share one keyspace: handles that differ only in id address
      the same entries. */
  lemma MapStateIgnoresId<V>(t: Backend, h1: Handle, h2: Handle, key: Bytes, sd: Serde<V>)
    requires h1.itemKey == h2.itemKey && h1.namespace == h2.namespace
    ensures MapGet(t, h1, key, sd) == MapGet(t, h2, key, sd)
    ensures MapContains(t, h1, key) == MapContains(t, h2, key)
  {
  }
}

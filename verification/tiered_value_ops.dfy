/** Value state over the tiered store (`backend/tiered/value_ops.rs`).

    Every call derives its storage key from the handle's metakeys alone and
    goes through the store operations of `Tiered`; the handle's id is passed
    on as a column family that the tiered store ignores. */
module TieredValueOps {
  import opened Wrappers
  import opened Bytes
  import opened Handles
  import opened Tiered

  /** The storage key of a value-state handle. */
  function ValueKey(h: Handle): Bytes {
    SerializeMetakeys(h)
  }

  /** `value_get`: absent when no layer holds the key, otherwise the decoded
      stored bytes. The store changes exactly as the underlying `get` changes
      it: one hit counter is bumped, whatever the outcome. */
  function ValueGet<T>(s: Store, h: Handle, sd: Serde<T>): (r: Step<Option<T>, Store>)
    ensures SameLayers(r.state, s)
    ensures r.state == Get(s, ValueKey(h)).store
    ensures r.result == Ok(None) <==> Get(s, ValueKey(h)).value.None?
    ensures r.result.Ok? && r.result.value.Some? ==>
              sd.decode(Get(s, ValueKey(h)).value.value) == r.result.value
    ensures r.result.Err? ==>
              r.result.error == Deserialization && sd.decode(Get(s, ValueKey(h)).value.value).None?
  {
    var f := Get(s, ValueKey(h));
    match f.value
    case None => Step(Ok(None), f.store)
    case Some(bytes) =>
      match Deserialize(sd, bytes)
      case Ok(v) => Step(Ok(Some(v)), f.store)
      case Err(e) => Step(Err(e), f.store)
  }

  /** `value_set`: read the old value, then store the new one. The result is
      exactly what `value_get` would have returned; when decoding the old value
      fails, the call returns before writing. */
  function ValueSet<T>(s: Store, h: Handle, sd: Serde<T>, v: T): (r: Step<Option<T>, Store>)
    ensures r.result == ValueGet(s, h, sd).result
    ensures r.result.Ok? ==> r.state == Put(ValueGet(s, h, sd).state, ValueKey(h), sd.encode(v))
    ensures r.result.Err? ==> r.state == ValueGet(s, h, sd).state
  {
    var key := ValueKey(h);
    var f := Get(s, key);
    match f.value
    case None => Step(Ok(None), Put(f.store, key, sd.encode(v)))
    case Some(bytes) =>
      match Deserialize(sd, bytes)
      case Ok(prior) => Step(Ok(Some(prior)), Put(f.store, key, sd.encode(v)))
      case Err(e) => Step(Err(e), f.store)
  }

  /** `value_fast_set`: store the new value without reading the old one. Its
      effect on the layers is always that of the put `value_set` makes, even
      when the old value would not decode; the hit counters, which it does not
      touch, and the configuration stay as they were. */
  function ValueFastSet<T>(s: Store, h: Handle, sd: Serde<T>, v: T): (r: Step<(), Store>)
    ensures r.result.Ok?
    ensures r.state.hits == s.hits
    ensures r.state == s.(active := r.state.active, frozen := r.state.frozen)
    ensures SameLayers(r.state, Put(ValueGet(s, h, sd).state, ValueKey(h), sd.encode(v)))
    ensures ValueSet(s, h, sd, v).result.Ok? ==> SameLayers(r.state, ValueSet(s, h, sd, v).state)
  {
    Step(Ok(()), Put(s, ValueKey(h), sd.encode(v)))
  }

  /** `value_fast_set_by_ref` differs from `value_fast_set` only in taking the
      value by reference. */
  function ValueFastSetByRef<T>(s: Store, h: Handle, sd: Serde<T>, v: T): (r: Step<(), Store>)
    ensures r == ValueFastSet(s, h, sd, v)
  {
    Step(Ok(()), Put(s, ValueKey(h), sd.encode(v)))
  }

  /** `value_clear`: removes the key through `Tiered::remove`, that is, from
      the embedded engine only. */
  function ValueClear(s: Store, h: Handle): (r: Step<(), Store>)
    ensures r.result.Ok?
    ensures ValueKey(h) !in r.state.local
    ensures r.state == Remove(s, ValueKey(h))
  {
    Step(Ok(()), Remove(s, ValueKey(h)))
  }

  /** Read-your-write through `value_set` (the Rust test sets 420 and reads
      420, then sets 69 and reads 69). */
  lemma ValueSetThenGet<T(!new)>(s: Store, h: Handle, sd: Serde<T>, v: T)
    requires RoundTrips(sd)
    ensures ValueSet(s, h, sd, v).result.Ok? ==>
              ValueGet(ValueSet(s, h, sd, v).state, h, sd).result == Ok(Some(v))
  {
    DeserializeEncoded(sd, v);
  }

  /** Read-your-write through `value_fast_set`. */
  lemma ValueFastSetThenGet<T(!new)>(s: Store, h: Handle, sd: Serde<T>, v: T)
    requires RoundTrips(sd)
    ensures ValueGet(ValueFastSet(s, h, sd, v).state, h, sd).result == Ok(Some(v))
  {
    DeserializeEncoded(sd, v);
  }

  /** After `value_clear` the value is gone only if no layer other than the
      embedded engine held it: a value still in the active cache, a frozen
      snapshot or the remote store is read back, and a copy in either cache
      layer is read back unchanged. */
  lemma ValueClearThenGet<T>(s: Store, h: Handle, sd: Serde<T>)
    ensures var k := ValueKey(h);
            ValueGet(ValueClear(s, h).state, h, sd).result == Ok(None)
            <==> k !in s.active && (forall i :: 0 <= i < |s.frozen| ==> k !in s.frozen[i]) && k !in s.remote
    ensures ValueKey(h) in s.active || (exists i :: 0 <= i < |s.frozen| && ValueKey(h) in s.frozen[i]) ==>
              ValueGet(ValueClear(s, h).state, h, sd).result == ValueGet(s, h, sd).result
  {
  }

  /** The storage key depends on the metakeys only: two handles that differ in
      id (or kind, or registration) but agree on item key and namespace read
      and write the same state. */
  lemma ValueStateIgnoresId<T>(s: Store, h1: Handle, h2: Handle, sd: Serde<T>, v: T)
    requires h1.itemKey == h2.itemKey && h1.namespace == h2.namespace
    ensures ValueGet(s, h1, sd) == ValueGet(s, h2, sd)
    ensures ValueSet(s, h1, sd, v) == ValueSet(s, h2, sd, v)
    ensures ValueFastSet(s, h1, sd, v) == ValueFastSet(s, h2, sd, v)
    ensures ValueClear(s, h1) == ValueClear(s, h2)
  {
  }
}

# arcon state backends: tiered store, TiKV map state and write-back cache

This project models three sequential pieces of the `arcon_state` crate of
arcon, a Rust streaming runtime.

1. **The tiered backend** (`backend/tiered/mod.rs`). It has four layers:
   - a bounded in-memory *active cache*;
   - a FIFO queue of *frozen snapshots* of that cache, waiting for write-back;
   - an embedded RocksDB engine (`local`);
   - a remote TiKV store (`remote`).

   `put` writes to the active cache. When the cache is full, `put` first freezes a copy of it onto the back of the queue. `get` consults the layers in order: active cache, frozen snapshots front to back, embedded engine, remote store. `remove`, `remove_prefix` and `contains` work on the embedded engine only. A background writer pops snapshots and writes each one to both persistent layers; here that writer is the explicit atomic step `DrainOne`.
2. **Value state over the tiered store** (`backend/tiered/value_ops.rs`). Typed `get`/`set`/`fast_set`/`clear` of one value, stored under the handle's encoded metakeys.
3. **The TiKV backend** (`backend/tikv/*.rs`).
   - One key/value map.
   - Map state under composite keys (`metakeys ++ user key`).
   - The plain bounded write-back cache of `hashmap_get` / `hashmap_fast_insert`. On overflow, every cached pair is written back and the cache is cleared before the new entry is admitted.

Every storage engine is a `map<Bytes, Bytes>`, and every operation is a pure function on an immutable record (`Tiered.Store`, `Tikv.Backend`). When a call can fail after changing state, it returns a `Step(result, state)`: a `get` bumps its hit counter before the decode can fail. Rust panics and `unimplemented!()` become `Err(Panic)` and `Err(Unimplemented)`. Neither backend consults the column-family argument of its data operations, so all handles share one keyspace. The model keeps that, and proves what follows from it (`ValueStateIgnoresId`, `MapStateIgnoresId`).

The model is checked against two reference definitions:
- `TieredView.View` overlays the layers so that the newest write of each key wins. Against it, `Put` is a map update and `DrainOne` changes nothing. By induction, every trace of puts and drains moves the view exactly as a single map moves (`RunRefinesReplay`).
- `TikvCacheOps.CacheView` overlays the backend with its cache. A cached read never changes it, and a cached insert is a map update of it.

The bytewise lexicographic order of RocksDB's default comparator is defined in `Bytes`; the maps and the algebra of overriding one with another are in `KeyValue`. With the order, the model proves exactly when the `[p, p with last byte + 1)` range used by prefix deletion is the set of keys that start with `p`.

Files: `wrappers.dfy` (Option, Result, Step, errors), `bytes.dfy` (bytes, key order, range lemmas), `key_value.dfy` (key/value maps, override algebra, batch write loop), `handles.dfy` (codec and handles), `tiered.dfy`, `tiered_view.dfy`, `tiered_value_ops.dfy`, `tikv.dfy`, `tikv_map_ops.dfy`, `tikv_cache_ops.dfy`.

## Model

| member | source | states |
|---|---|---|
| `Bytes.IncrementLast` | arcon/arcon_state/src/backend/tiered/mod.rs:331-336 | The range end keeps every byte of the prefix except the last. The last byte goes up by one, and 0xFF wraps to 0x00 (u8 arithmetic in a release build). |
| `Bytes.PrefixRangeExact` | arcon/arcon_state/src/backend/tiered/mod.rs:328-340 | For a non-empty prefix whose last byte is below 0xFF, a key lies in `[p, IncrementLast(p))` under bytewise order exactly when it starts with `p`. This is the assumption behind the comment at lines 328-331. |
| `Bytes.EndBelowStart` | arcon/arcon_state/src/backend/tiered/mod.rs:331-336 | With a last byte of 0xFF, the computed end sorts strictly below the start. |
| `Bytes.WrappedRangeEmpty` | arcon/arcon_state/src/backend/tiered/mod.rs:331-340 | With a last byte of 0xFF, no key lies in the deleted range. |
| `KeyValue.PutAll` | arcon/arcon_state/src/backend/tiered/mod.rs:435-444 | Writing a batch entry by entry ends with the store overridden by the batch: the keys are the union, batch values win, and every other value is kept. |
| `Handles.Deserialize` | arcon/arcon_state/src/backend/tiered/value_ops.rs:29 | A decode failure is a deserialization error, never "absent"; a success returns exactly what the codec decodes. |
| `Handles.DeserializeEncoded` | arcon/arcon_state/src/backend/tiered/value_ops.rs:43-51 | Under the codec's round-trip law, decoding what `serialize` produced gives back the value. |
| `Handles.SerializeMetakeys` | arcon/arcon_state/src/backend/tiered/value_ops.rs:16 | The value-state key is as wide as the two metakey types together. |
| `Handles.SerializeMetakeysAndKey` | arcon/arcon_state/src/backend/tikv/map_ops.rs:29 | The composite map key starts with the handle's metakeys, and the user key follows them. |
| `Handles.MetakeysInjective` | arcon/arcon_state/src/backend/tiered/value_ops.rs:25 | Two handles with the same metakey types share a value key if and only if their item keys and namespaces agree. |
| `Handles.CompositeKeyInjective` | arcon/arcon_state/src/backend/tikv/map_ops.rs:29 | Composite keys are equal if and only if item key, namespace and user key all agree, so distinct entries never collide. |
| `Tiered.Create` | arcon/arcon_state/src/backend/tiered/mod.rs:382-485 | A new store has the given capacity and counters, an empty active cache, an empty frozen queue and no column families. It is not restored, and it holds the capacity invariant whenever the capacity is positive. |
| `Tiered.Restore` | arcon/arcon_state/src/backend/tiered/mod.rs:487-523 | A restored store is marked restored and its embedded engine holds the checkpoint. Otherwise it is laid out as a created one: empty caches, the given capacity and counters, no column families. It holds the capacity invariant whenever the capacity is positive. |
| `Tiered.RestoredFlagKept` | arcon/arcon_state/src/backend/tiered/mod.rs:525-527 | `was_restored` is true for a restored store and false for a created one. Put, get, drain, remove and prefix removal never change its answer. |
| `Tiered.Checkpoint` | arcon/arcon_state/src/backend/tiered/mod.rs:529-530 | Checkpointing is unsupported. |
| `Tiered.FindFrozen` | arcon/arcon_state/src/backend/tiered/mod.rs:247-253 | The frozen scan finds a key if and only if some snapshot holds it. It answers with the value of the first (oldest) snapshot holding it. |
| `Tiered.Get` | arcon/arcon_state/src/backend/tiered/mod.rs:242-266 | Exactly one hit counter goes up by one, and nothing else in the store changes. LAYER1 counts an active or frozen hit, LAYER2 a local hit, and LAYER3 the remote fallback even when it misses. An active entry always answers first. The result is absent if and only if no layer holds the key. |
| `Tiered.Contains` | arcon/arcon_state/src/backend/tiered/mod.rs:348-352 | Membership is decided by the embedded engine alone. A key it reports is always readable by `get`. For a key no cache layer holds, it holds exactly when `get` answers from the embedded engine (LAYER2). |
| `Tiered.Put` | arcon/arcon_state/src/backend/tiered/mod.rs:283-312 | The capacity bound is preserved. With room, the pair is inserted. When full, the whole prior active cache is appended to the back of the queue and the active cache becomes exactly `{k: v}`, even if `k` was cached. The persistent layers are untouched. |
| `Tiered.DrainOne` | arcon/arcon_state/src/backend/tiered/mod.rs:432-445 | The front snapshot only is popped, so the queue shrinks by one. Each of its entries lands in both the embedded engine and the remote store. Every other key is unchanged in both, and the active cache is untouched. An empty queue changes nothing. |
| `Tiered.DrainOneBatched` | arcon/arcon_state/src/backend/tiered/mod.rs:432-445 | The writer's entry-by-entry batch loop ends in the same store as `DrainOne`. |
| `Tiered.Remove` | arcon/arcon_state/src/backend/tiered/mod.rs:316-321 | Only the embedded engine loses `k`. Its other keys are kept, and the caches and the remote store are unchanged. |
| `Tiered.RemovePrefix` | arcon/arcon_state/src/backend/tiered/mod.rs:323-345 | An empty prefix panics, and only then. Otherwise exactly the local keys in `[p, IncrementLast(p))` are deleted, the survivors keep their values, and no other layer changes. |
| `Tiered.RemovePrefixDeletesPrefixed` | arcon/arcon_state/src/backend/tiered/mod.rs:323-345 | For a non-empty prefix whose last byte is below 0xFF, prefix deletion leaves exactly the local keys that do not start with the prefix. |
| `Tiered.RemovePrefixWrapsToNothing` | arcon/arcon_state/src/backend/tiered/mod.rs:331-340 | For a prefix ending in 0xFF, prefix deletion leaves the store unchanged. |
| `Tiered.CommonOptions` | arcon/arcon_state/src/backend/tiered/mod.rs:362-375 | The prefix extractor is as wide as the encoded metakeys, and there is no merge operator. |
| `Tiered.HandleOptions` | arcon/arcon_state/src/backend/tiered/mod.rs:546-599 | Every registered kind uses the common prefix width. Vector, reducer and aggregator state, and only those, get an associative merge operator. |
| `Tiered.CreateColumnFamily` | arcon/arcon_state/src/backend/tiered/mod.rs:354-359 | The family exists afterwards. An existing family is left untouched; an absent one gets the given options. No other family changes. |
| `Tiered.RegisterHandle` | arcon/arcon_state/src/backend/tiered/mod.rs:546-599 | The handle is marked registered and nothing else about it changes. Its column family is created with the options for its kind, and the data layers are untouched. |
| `Tiered.RegisterHandleIdempotent` | arcon/arcon_state/src/backend/tiered/mod.rs:354-359 | Registering an already registered handle changes neither store nor handle. |
| `TieredView.FindFrozenReadsReversedMerge` | arcon/arcon_state/src/backend/tiered/mod.rs:247-253 | The oldest-first scan answers what the frozen snapshots answer when they are overlaid newest-first. |
| `TieredView.GetReadsAsWrittenView` | arcon/arcon_state/src/backend/tiered/mod.rs:242-266 | The store's read returns what the layer overlay returns, with the older snapshot winning. |
| `TieredView.FindFrozenNewest` | arcon/arcon_state/src/backend/tiered/mod.rs:247-253 | The corrected frozen scan answers what the snapshots answer when the newest one wins. |
| `TieredView.GetNewest` | arcon/arcon_state/src/backend/tiered/mod.rs:242-266 | The corrected read returns the newest-write-wins view of the key. It bumps the same counter as the store's read. |
| `TieredView.ReadsAgreeOnSingleSnapshot` | arcon/arcon_state/src/backend/tiered/mod.rs:247-253 | While at most one snapshot waits for write-back, the as-written and corrected reads agree. |
| `TieredView.PutUpdatesView` | arcon/arcon_state/src/backend/tiered/mod.rs:283-312 | A put, whether it freezes or not, is a single-key update of the whole store's view. |
| `TieredView.DrainPreservesView` | arcon/arcon_state/src/backend/tiered/mod.rs:432-445 | Write-back of the front snapshot leaves the view unchanged. |
| `TieredView.RunRefinesReplay` | arcon/arcon_state/src/backend/tiered/mod.rs:283-312 | Any interleaving of puts and write-back steps moves the view as the same puts move one plain map. |
| `TieredView.LatestWriteWins` | arcon/arcon_state/src/backend/tiered/mod.rs:678-683 | After `put(k, v)` and any later puts of other keys and write-back steps, the corrected read returns `v`. |
| `TieredView.StaleReadAfterTwoFreezes` | arcon/arcon_state/src/backend/tiered/mod.rs:247-253 | Concrete trace with capacity 1: the store's read of `k` answers the superseded value, the corrected read the latest one. After one write-back the store's read changes its answer. |
| `TieredView.RemoveLeavesCopies` | arcon/arcon_state/src/backend/tiered/mod.rs:316-321 | After `remove(k)`, `k` is still readable if and only if the active cache, a frozen snapshot or the remote store holds it. |
| `TieredView.RemoveThenGetStillHits` | arcon/arcon_state/src/backend/tiered/mod.rs:678-688 | In the unit test's scenario (put, remove, get), the get returns the put value instead of nothing. |
| `TieredView.RemoveEverywhere` | arcon/arcon_state/src/backend/tiered/mod.rs:316-321 | The corrected delete removes exactly `k` from the view and from every layer (active map, each frozen snapshot, embedded engine, remote). Every other key keeps its value in every layer, the number of snapshots and the non-layer fields stay as they were, and a valid store stays valid. |
| `TieredView.RemoveEverywhereThenGetNone` | arcon/arcon_state/src/backend/tiered/mod.rs:684-688 | After the corrected delete, both reads report `k` absent and every other key reads as before. |
| `TieredView.RemovePrefixChecked` | arcon/arcon_state/src/backend/tiered/mod.rs:323-345 | The corrected prefix deletion rejects an empty prefix with an argument error. Otherwise it deletes exactly the local keys that start with the prefix, whatever its last byte, and keeps everything else. |
| `TieredView.RemovePrefixAgrees` | arcon/arcon_state/src/backend/tiered/mod.rs:323-345 | For a non-empty prefix whose last byte is below 0xFF, the as-written and corrected prefix deletions coincide. |
| `TieredView.RemovePrefixDiffers` | arcon/arcon_state/src/backend/tiered/mod.rs:331-336 | The two disagree on an empty prefix (panic versus rejection). They also disagree on a prefix ending in 0xFF: a prefixed key survives the as-written deletion only. |
| `TieredView.FillActive` | arcon/arcon_state/src/backend/tiered/mod.rs:284-286 | Puts of fresh distinct keys into a cache with room grow the cache by one each and never freeze. |
| `TieredView.OverflowFreezesOnce` | arcon/arcon_state/src/backend/tiered/mod.rs:283-312 | From empty caches, `cap + 1` puts of distinct keys leave one frozen snapshot of `cap` entries and one active entry. |
| `TieredValueOps.ValueGet` | arcon/arcon_state/src/backend/tiered/value_ops.rs:21-34 | The read is absent exactly when no layer holds the metakey-encoded key. Otherwise it returns the decoded stored bytes, or a deserialization error when they do not decode. The store changes exactly as the store's `get` changes it: one hit counter goes up, and nothing else changes. |
| `TieredValueOps.ValueSet` | arcon/arcon_state/src/backend/tiered/value_ops.rs:36-53 | Returns exactly what `value_get` returns just before. On success it then puts the encoded value on the store `value_get` left. On a decode error it writes nothing. |
| `TieredValueOps.ValueFastSet` | arcon/arcon_state/src/backend/tiered/value_ops.rs:55-66 | Always succeeds. It always leaves the layers as the put of the encoded value on the store would, even where `value_set` would fail to decode the old value, and then it agrees with a successful `value_set`. Hit counters and configuration are untouched. |
| `TieredValueOps.ValueFastSetByRef` | arcon/arcon_state/src/backend/tiered/value_ops.rs:68-79 | Same result and store as `value_fast_set`. |
| `TieredValueOps.ValueClear` | arcon/arcon_state/src/backend/tiered/value_ops.rs:12-19 | The key leaves the embedded engine, and that is all the store's `remove` does. |
| `TieredValueOps.ValueSetThenGet` | arcon/arcon_state/src/backend/tiered/mod.rs:752-757 | After a successful `set(v)`, `get` returns `v`. |
| `TieredValueOps.ValueFastSetThenGet` | arcon/arcon_state/src/backend/tiered/value_ops.rs:55-66 | After `fast_set(v)`, `get` returns `v`. |
| `TieredValueOps.ValueClearThenGet` | arcon/arcon_state/src/backend/tiered/value_ops.rs:12-19 | After `clear`, the value reads as absent if and only if no cache layer and not the remote store held it. A value still in the active cache or in a frozen snapshot is read back unchanged. |
| `TieredValueOps.ValueStateIgnoresId` | arcon/arcon_state/src/backend/tiered/value_ops.rs:16-17 | Handles that agree on item key and namespace read and write the same value, whatever their id. |
| `Tikv.Create` | arcon/arcon_state/src/backend/tikv/mod.rs:121-151 | A new client sees the cluster's contents and is not restored. Every cache of its bundle is empty, and its size is 500 000. |
| `Tikv.CreatedNotRestored` | arcon/arcon_state/src/backend/tikv/mod.rs:160-163 | `was_restored` is false for a created client, also after puts and removes. |
| `Tikv.Get` | arcon/arcon_state/src/backend/tikv/mod.rs:41-52 | Present exactly when the map holds the key, with its value. |
| `Tikv.Put` | arcon/arcon_state/src/backend/tikv/mod.rs:55-70 | The key reads back the value, no other key changes, and nothing but the map changes. |
| `Tikv.Remove` | arcon/arcon_state/src/backend/tikv/mod.rs:91-98 | The key reads as absent, and no other key changes. |
| `Tikv.Contains` | arcon/arcon_state/src/backend/tikv/mod.rs:105-113 | Holds exactly when `get` finds the key. |
| `Tikv.RemovePrefix` | arcon/arcon_state/src/backend/tikv/mod.rs:100-102 | Unsupported. |
| `Tikv.Restore` | arcon/arcon_state/src/backend/tikv/mod.rs:153-158 | Unsupported. |
| `Tikv.Checkpoint` | arcon/arcon_state/src/backend/tikv/mod.rs:165-167 | Unsupported. |
| `Tikv.RegisterHandle` | arcon/arcon_state/src/backend/tikv/mod.rs:169-202 | The handle is marked registered and nothing else about it changes. |
| `Tikv.PutGetRemove` | arcon/arcon_state/src/backend/tikv/mod.rs:249-268 | Put then get returns the value. Remove then get returns nothing. Other keys keep their values. |
| `TikvMapOps.MapGet` | arcon/arcon_state/src/backend/tikv/map_ops.rs:24-38 | Absent exactly when the composite key is absent; otherwise the decoded value, or a deserialization error. |
| `TikvMapOps.MapFastInsert` | arcon/arcon_state/src/backend/tikv/map_ops.rs:40-53 | The composite key maps to the encoded value, no other key changes, and the call succeeds. |
| `TikvMapOps.MapFastInsertByRef` | arcon/arcon_state/src/backend/tikv/map_ops.rs:55-68 | Same result and store as `map_fast_insert`. |
| `TikvMapOps.MapInsert` | arcon/arcon_state/src/backend/tikv/map_ops.rs:70-91 | Returns what `map_get` returns. On success it has the store effect of `map_fast_insert`; on a decode error it changes nothing. |
| `TikvMapOps.MapFastRemove` | arcon/arcon_state/src/backend/tikv/map_ops.rs:139-148 | The composite key becomes absent, and no other key changes. |
| `TikvMapOps.MapRemove` | arcon/arcon_state/src/backend/tikv/map_ops.rs:121-137 | Returns what `map_get` returns. On success it has the store effect of `map_fast_remove`; on a decode error it changes nothing. |
| `TikvMapOps.MapContains` | arcon/arcon_state/src/backend/tikv/map_ops.rs:150-157 | Holds exactly when the backend finds the composite key. |
| `TikvMapOps.MapContainsIffGet` | arcon/arcon_state/src/backend/tikv/map_ops.rs:150-157 | `map_contains` holds exactly when `map_get` does not report the entry absent. |
| `TikvMapOps.MapClear` | arcon/arcon_state/src/backend/tikv/map_ops.rs:16-22 | Always fails, because it delegates to the unimplemented `remove_prefix`. |
| `TikvMapOps.MapInsertThenGet` | arcon/arcon_state/src/backend/tikv/map_ops.rs:40-91 | After inserting `v`, `map_get` returns `v`. After a fast remove it returns nothing. Other user keys of the same handle read as before. |
| `TikvMapOps.MapStateIgnoresId` | arcon/arcon_state/src/backend/tikv/map_ops.rs:24-38 | Handles that agree on item key and namespace see the same entries, whatever their id. |
| `TikvCacheOps.WriteBack` | arcon/arcon_state/src/backend/tikv/cache_ops.rs:32-37 | Afterwards the cache is empty. Every cached pair is in the backend, every other key reads as before, and the combined view is unchanged. |
| `TikvCacheOps.WriteBackLoop` | arcon/arcon_state/src/backend/tikv/cache_ops.rs:33-36 | The pair-by-pair `put` loop followed by `clear` ends where `WriteBack` ends. |
| `TikvCacheOps.Admit` | arcon/arcon_state/src/backend/tikv/cache_ops.rs:32-38 | The entry is cached afterwards. A full cache is written back and cleared first; otherwise the backend is untouched. The size bound is preserved. |
| `TikvCacheOps.AdmitUpdatesView` | arcon/arcon_state/src/backend/tikv/cache_ops.rs:32-38 | Admission, with or without write-back, is a single-key update of the combined view. |
| `TikvCacheOps.HashmapGet` | arcon/arcon_state/src/backend/tikv/cache_ops.rs:14-43 | The answer is nothing exactly when neither cache nor backend holds the key, and an error exactly when the bytes found do not decode. Cached key: decoded from the cache with flag `true`, nothing changes. Cache miss with a backend hit: decoded from the backend with flag `false`, and the entry is admitted. Miss everywhere: nothing changes. A decode error changes nothing. The size bound is preserved. |
| `TikvCacheOps.HashmapFastInsert` | arcon/arcon_state/src/backend/tikv/cache_ops.rs:45-69 | The encoded value is cached. An already cached key is overwritten in place with no write-back and no backend write. A new key is admitted, with write-back when the cache is full. The size bound is preserved. |
| `TikvCacheOps.HashmapGetPreservesView` | arcon/arcon_state/src/backend/tikv/cache_ops.rs:14-43 | A cached read never changes what backend and cache hold together. |
| `TikvCacheOps.FastInsertUpdatesView` | arcon/arcon_state/src/backend/tikv/cache_ops.rs:45-69 | A cached insert is a single-key update of what backend and cache hold together. |
| `TikvCacheOps.FastInsertThenGet` | arcon/arcon_state/src/backend/tikv/cache_ops.rs:51-66 | After `hashmap_fast_insert(k, v)`, `hashmap_get(k)` returns `(v, true)` and changes nothing. |
| `TikvCacheOps.CacheNeverLosesEntries` | arcon/arcon_state/src/backend/tikv/cache_ops.rs:32-38 | Every entry of the combined view survives a cached read, either still cached or written back, with its value. |
| `TikvCacheOps.FastInsertNotVisibleToMapGet` | arcon/arcon_state/src/backend/tikv/cache_ops.rs:56-66 | A new key inserted into a cache with room is invisible to `map_get` until a later write-back. |
| `TikvCacheOps.LruGet` | arcon/arcon_state/src/backend/tikv/cache_ops.rs:71-85 | Reads the backend only and returns what `map_get` returns. |
| `TikvCacheOps.TinyLfuGet` | arcon/arcon_state/src/backend/tikv/cache_ops.rs:87-101 | Reads the backend only and returns what `map_get` returns. |
| `TikvCacheOps.HybridGet` | arcon/arcon_state/src/backend/tikv/cache_ops.rs:103-117 | Reads the backend only and returns what `map_get` returns. |

## Findings

| source | as written | input that shows it | evidently intended | confidence | as-written member | corrected member |
|---|---|---|---|---|---|---|
| arcon/arcon_state/src/backend/tiered/mod.rs:247-253 | `get` scans the frozen queue front (oldest) to back and returns the first hit | capacity 1; `put(k,[10])`, `put(k,[11])`, `put(j,[10])`: `get(k)` returns `[10]` | the most recently written value, `[11]`: newest snapshot first | high; not executed | `TieredView.StaleReadAfterTwoFreezes` | `TieredView.LatestWriteWins` |
| arcon/arcon_state/src/backend/tiered/mod.rs:316-321 | `remove` deletes from the embedded engine only; caches and remote keep their copies | `put(k,v)`, `remove(k)`, `get(k)` returns `v` (the unit test at lines 684-688 expects nothing) | the key is gone from every layer | high; not executed | `TieredView.RemoveThenGetStillHits` | `TieredView.RemoveEverywhereThenGetNone` |
| arcon/arcon_state/src/backend/tiered/mod.rs:335-336 | an empty prefix reaches `last_mut().expect(..)`, whose message claims the case was handled above; nothing handles it | `remove_prefix(cf, [])` panics | the empty case rejected before the range is built | high; not executed | `TieredView.RemovePrefixDiffers` | `TieredView.RemovePrefixChecked` |
| arcon/arcon_state/src/backend/tiered/mod.rs:334-336 | the last byte is incremented as a `u8`; 0xFF wraps (release) so the range end sorts below its start | prefix `[0xFF]` with local key `[0xFF, 1]`: the key survives | every key with the prefix deleted | high; not executed | `Tiered.RemovePrefixWrapsToNothing` | `TieredView.RemovePrefixChecked` |

The rest of the model keeps the as-written behaviour: `Tiered.Get`, `Tiered.Remove` and `Tiered.RemovePrefix` are what the value operations are built on. The corrected members exist beside them and are related to them by the lemmas above.

## Left out

- The background writer thread, the `Mutex`/`RefCell`/`UnsafeCell` sharing, the tokio runtimes, and the busy-wait in `flush`. Draining is the atomic step `DrainOne`. `flush` (tiered/mod.rs:126-158) is not modelled.
- The RocksDB and TiKV clients are plain maps. Write options, block-based options and bloom filters are left out, and so are engine and network errors: `get` treats a local error as a miss, and `Tikv` unwraps every remote call.
- Environment variables. `CACHE_SIZE` becomes the `cap` parameter; `TIKV_ADDR` and the directory paths are unmodelled. The `TIERED_LAYER1..3` counters are the unbounded `hits` fields of the store; their parse from and write to the environment, and their 32-bit overflow, are not modelled.
- Tiered.Put: the frozen copy re-reads `CACHE_SIZE` for its own capacity. The model assumes the setting did not change since `create`, so the copy holds the whole active cache; a smaller setting would evict entries of the copy.
- A capacity of 0. The model states its invariants for `cap >= 1`; with 0 every put would freeze.
- Tiered.RemovePrefix: a debug build panics on a last byte of 0xFF instead of wrapping. The model follows a release build; either way nothing with that prefix is deleted.
- `protobuf` serialization is a codec record (`Handles.Serde`) with the round-trip law as a premise of the read-your-write lemmas. Encoding never fails in the model. `serialize_metakeys` and `serialize_metakeys_and_key` are not part of this model beyond their shape (fixed-width metakeys, then the user key); their encoding errors are not modelled.
- The LRU recency of the active cache: it never evicts, because `put` inserts only below capacity.
- The `lru` and `tinylfu` caches of the TiKV bundle: no operation reads or writes them, so only their (empty) contents are recorded.
- `map_insert_all` and `map_insert_all_by_ref` (tikv/map_ops.rs:93-119), which do not compile. The unimplemented `map_iter`, `map_keys`, `map_values`, `map_len` and `map_is_empty` (tikv/map_ops.rs:159-192) are also left out.
- The TiKV vector, reducer and aggregator operations: every one of them is `unimplemented!()`.
- Checkpoint and restore file copying: `Tiered.Restore` keeps only the restored flag and the checkpoint's contents. The benchmark helpers (`layers_bench`, `measure`, `make_key`, `make_value`) and metrics recording are left out.

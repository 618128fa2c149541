/** The eviction-policy cache operations of the TiKV backend
    (`backend/tikv/cache_ops.rs`).

    The plain bounded policy keeps serialized entries in `cache.hash`. A miss
    that the backend can answer is admitted into the cache; when the cache is
    full at that point, every cached pair is first written back to the
    backend and the cache is cleared (a batch write-back, not single-entry
    eviction). The LRU, approximate-LFU and hybrid reads consult the backend
    only and never touch their cache structures. */
module TikvCacheOps {
  import opened Wrappers
  import opened Bytes
  import opened KeyValue
  import opened Handles
  import opened Tikv
  import opened TikvMapOps

  /** The cache never holds more entries than its size. */
  predicate CacheBounded(t: Backend) {
    t.cache.size >= 1 && |t.cache.hash| <= t.cache.size
  }

  /** What the backend and its write-back cache hold together: a cached entry
      shadows the backend's copy until it is written back. */
  function CacheView(t: Backend): KV {
    t.kv + t.cache.hash
  }

  /** Write every cached pair to the backend, then clear the cache. */
  function WriteBack(t: Backend): (r: Backend)
    ensures r.cache.hash == map[]
    ensures forall k :: k in t.cache.hash ==> Get(r, k) == Some(t.cache.hash[k])
    ensures forall k :: k !in t.cache.hash ==> Get(r, k) == Get(t, k)
    ensures CacheView(r) == CacheView(t)
    ensures r == t.(kv := r.kv, cache := t.cache.(hash := map[]))
  {
    t.(kv := t.kv + t.cache.hash, cache := t.cache.(hash := map[]))
  }

  /** The write-back loop as the Rust code runs it, one `put` per cached
      pair, ending where `WriteBack` ends. */
  method WriteBackLoop(t: Backend) returns (r: Backend)
    ensures r == WriteBack(t)
  {
    var kv := PutAll(t.kv, t.cache.hash);
    r := t.(kv := kv, cache := t.cache.(hash := map[]));
  }

  /** Cache `k ↦ bytes`, writing the whole cache back first when it is full. */
  function Admit(t: Backend, k: Bytes, bytes: Bytes): (r: Backend)
    ensures k in r.cache.hash && r.cache.hash[k] == bytes
    ensures |t.cache.hash| >= t.cache.size ==>
              r.kv == t.kv + t.cache.hash && r.cache.hash == map[k := bytes]
    ensures |t.cache.hash| < t.cache.size ==>
              r.kv == t.kv && r.cache.hash == t.cache.hash[k := bytes]
    ensures r == t.(kv := r.kv, cache := t.cache.(hash := r.cache.hash))
    ensures CacheBounded(t) ==> CacheBounded(r)
  {
    var flushed := if |t.cache.hash| >= t.cache.size then WriteBack(t) else t;
    flushed.(cache := flushed.cache.(hash := flushed.cache.hash[k := bytes]))
  }

  /** Admitting an entry is an update of the cache view. */
  lemma AdmitUpdatesView(t: Backend, k: Bytes, bytes: Bytes)
    ensures CacheView(Admit(t, k, bytes)) == CacheView(t)[k := bytes]
  {
    var r := Admit(t, k, bytes);
    assert CacheView(r).Keys == CacheView(t)[k := bytes].Keys;
  }

  /** `hashmap_get`: a cached entry is answered from the cache with hit flag
      `true`; otherwise a backend hit is admitted to the cache and answered
      with hit flag `false`; a miss everywhere, and only that, answers
      nothing. A value that fails to decode, and only that, is an error, and
      it changes nothing. */
  function HashmapGet<V>(t: Backend, h: Handle, key: Bytes, sd: Serde<V>): (r: Step<Option<(V, bool)>, Backend>)
    ensures CacheBounded(t) ==> CacheBounded(r.state)
    ensures r.result == Ok(None) <==> EntryKey(h, key) !in t.cache.hash && EntryKey(h, key) !in t.kv
    ensures EntryKey(h, key) in t.cache.hash ==>
              (r.result.Err? <==> sd.decode(t.cache.hash[EntryKey(h, key)]).None?)
    ensures EntryKey(h, key) !in t.cache.hash && EntryKey(h, key) in t.kv ==>
              (r.result.Err? <==> sd.decode(t.kv[EntryKey(h, key)]).None?)
    ensures EntryKey(h, key) in t.cache.hash ==> r.state == t
    ensures EntryKey(h, key) in t.cache.hash && r.result.Ok? ==>
              r.result.value.Some? && r.result.value.value.1
              && sd.decode(t.cache.hash[EntryKey(h, key)]) == Some(r.result.value.value.0)
    ensures EntryKey(h, key) !in t.cache.hash && EntryKey(h, key) !in t.kv ==> r == Step(Ok(None), t)
    ensures EntryKey(h, key) !in t.cache.hash && r.result.Ok? && r.result.value.Some? ==>
              !r.result.value.value.1
              && EntryKey(h, key) in t.kv && sd.decode(t.kv[EntryKey(h, key)]) == Some(r.result.value.value.0)
              && r.state == Admit(t, EntryKey(h, key), t.kv[EntryKey(h, key)])
    ensures r.result.Err? ==> r.result.error == Deserialization && r.state == t
  {
    var k := EntryKey(h, key);
    if k in t.cache.hash then
      match Deserialize(sd, t.cache.hash[k])
      case Ok(v) => Step(Ok(Some((v, true))), t)
      case Err(e) => Step(Err(e), t)
    else
      match Get(t, k)
      case None => Step(Ok(None), t)
      case Some(bytes) =>
        match Deserialize(sd, bytes)
        case Ok(v) => Step(Ok(Some((v, false))), Admit(t, k, bytes))
        case Err(e) => Step(Err(e), t)
  }

  /** `hashmap_fast_insert`: an already-cached key is overwritten in place
      with no write-back; a new key is admitted, writing the whole cache back
      first when it is full. The backend sees the new value only at a later
      write-back. */
  function HashmapFastInsert<V>(t: Backend, h: Handle, key: Bytes, sd: Serde<V>, v: V): (r: Step<(), Backend>)
    ensures r.result.Ok?
    ensures CacheBounded(t) ==> CacheBounded(r.state)
    ensures EntryKey(h, key) in r.state.cache.hash && r.state.cache.hash[EntryKey(h, key)] == sd.encode(v)
    ensures EntryKey(h, key) in t.cache.hash ==>
              r.state == t.(cache := t.cache.(hash := t.cache.hash[EntryKey(h, key) := sd.encode(v)]))
    ensures EntryKey(h, key) !in t.cache.hash ==> r.state == Admit(t, EntryKey(h, key), sd.encode(v))
  {
    var k := EntryKey(h, key);
    var bytes := sd.encode(v);
    if k in t.cache.hash then
      Step(Ok(()), t.(cache := t.cache.(hash := t.cache.hash[k := bytes])))
    else
      Step(Ok(()), Admit(t, k, bytes))
  }

  /** A read through the cache never changes what backend and cache hold
      together: admission copies a backend value, and write-back moves cached
      values into the backend. */
  lemma HashmapGetPreservesView<V>(t: Backend, h: Handle, key: Bytes, sd: Serde<V>)
    ensures CacheView(HashmapGet(t, h, key, sd).state) == CacheView(t)
  {
    var k := EntryKey(h, key);
    if k !in t.cache.hash && k in t.kv {
      AdmitUpdatesView(t, k, t.kv[k]);
      assert CacheView(t)[k := t.kv[k]] == CacheView(t);
    }
  }

  /** A cached insert is an update of what backend and cache hold together. */
  lemma FastInsertUpdatesView<V>(t: Backend, h: Handle, key: Bytes, sd: Serde<V>, v: V)
    ensures CacheView(HashmapFastInsert(t, h, key, sd, v).state)
            == CacheView(t)[EntryKey(h, key) := sd.encode(v)]
  {
    var k := EntryKey(h, key);
    if k !in t.cache.hash {
      AdmitUpdatesView(t, k, sd.encode(v));
    } else {
      var r := HashmapFastInsert(t, h, key, sd, v).state;
      assert CacheView(r).Keys == CacheView(t)[k := sd.encode(v)].Keys;
    }
  }

  /** After `hashmap_fast_insert(k, v)`, `hashmap_get(k)` answers `(v, true)`
      from the cache. */
  lemma FastInsertThenGet<V(!new)>(t: Backend, h: Handle, key: Bytes, sd: Serde<V>, v: V)
    requires RoundTrips(sd)
    ensures var t' := HashmapFastInsert(t, h, key, sd, v).state;
            HashmapGet(t', h, key, sd) == Step(Ok(Some((v, true))), t')
  {
    DeserializeEncoded(sd, v);
  }

  /** Write-back completeness: a read never loses a cached entry. Every entry
      of the cache view is, after `hashmap_get`, either still cached or in the
      backend, with the value the view gave it. */
  lemma CacheNeverLosesEntries<V>(t: Backend, h: Handle, key: Bytes, sd: Serde<V>, k: Bytes)
    requires k in CacheView(t)
    ensures var r := HashmapGet(t, h, key, sd).state;
            (k in r.cache.hash && r.cache.hash[k] == CacheView(t)[k])
            || (k !in r.cache.hash && k in r.kv && r.kv[k] == CacheView(t)[k])
  {
    HashmapGetPreservesView(t, h, key, sd);
  }

  /** `lru_get`, `tiny_lfu_get` and `hybrid_get` all read the backend only:
      each returns what `map_get` returns. */
  function LruGet<V>(t: Backend, h: Handle, key: Bytes, sd: Serde<V>): (r: Result<Option<V>>)
    ensures r == MapGet(t, h, key, sd)
  {
    match Get(t, EntryKey(h, key))
    case None => Ok(None)
    case Some(bytes) =>
      match Deserialize(sd, bytes)
      case Ok(v) => Ok(Some(v))
      case Err(e) => Err(e)
  }

  function TinyLfuGet<V>(t: Backend, h: Handle, key: Bytes, sd: Serde<V>): (r: Result<Option<V>>)
    ensures r == MapGet(t, h, key, sd)
  {
    match Get(t, EntryKey(h, key))
    case None => Ok(None)
    case Some(bytes) =>
      match Deserialize(sd, bytes)
      case Ok(v) => Ok(Some(v))
      case Err(e) => Err(e)
  }

  function HybridGet<V>(t: Backend, h: Handle, key: Bytes, sd: Serde<V>): (r: Result<Option<V>>)
    ensures r == MapGet(t, h, key, sd)
  {
    match Get(t, EntryKey(h, key))
    case None => Ok(None)
    case Some(bytes) =>
      match Deserialize(sd, bytes)
      case Ok(v) => Ok(Some(v))
      case Err(e) => Err(e)
  }

  /** Cached writes are invisible to the direct map read until written back:
      `map_get` after `hashmap_fast_insert` of a new key into a cache with
      room still returns the backend's old value. */
  lemma FastInsertNotVisibleToMapGet<V>(t: Backend, h: Handle, key: Bytes, sd: Serde<V>, v: V)
    requires EntryKey(h, key) !in t.cache.hash && |t.cache.hash| < t.cache.size
    ensures MapGet(HashmapFastInsert(t, h, key, sd, v).state, h, key, sd) == MapGet(t, h, key, sd)
  {
  }
}

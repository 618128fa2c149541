/** The TiKV backend (`backend/tikv/mod.rs`): one remote key/value map, a
    restored flag, and the bundle of caches that the cache operations use.

    The column-family argument is commented out of every data operation in
    the Rust code, so every handle reads and writes one shared keyspace and
    the argument is absent here. */
module Tikv {
  import opened Wrappers
  import opened Bytes
  import opened KeyValue
  import opened Handles

  /** The cache bundle. `hash` is the plain bounded write-back cache; `lru`
      and `tinylfu` are created with the same size but never read or written
      by any operation, so only their contents are recorded. */
  datatype CacheBundle = CacheBundle(size: nat, hash: KV, lru: KV, tinylfu: KV)

  datatype Backend = Backend(kv: KV, restored: bool, name: string, cache: CacheBundle)

  /** The fixed capacity `create` gives every cache of the bundle. */
  const CacheSize: nat := 500_000

  /** `Tikv::create`: a client over the cluster's current contents, not
      restored, with empty caches of `CacheSize` entries. */
  function Create(cluster: KV, name: string): (r: Backend)
    ensures r.kv == cluster && r.name == name
    ensures !r.restored
    ensures r.cache.size == 500_000 && r.cache.hash == map[]
    ensures r.cache.lru == map[] && r.cache.tinylfu == map[]
  {
    Backend(cluster, false, name, CacheBundle(CacheSize, map[], map[], map[]))
  }

  function WasRestored(t: Backend): bool {
    t.restored
  }

  /** A freshly created backend reports that it was not restored, and no
      operation of this model ever sets the flag. */
  lemma CreatedNotRestored(cluster: KV, name: string, k: Bytes, v: Bytes)
    ensures !WasRestored(Create(cluster, name))
    ensures !WasRestored(Put(Create(cluster, name), k, v))
    ensures !WasRestored(Remove(Create(cluster, name), k))
  {
  }

  function Get(t: Backend, k: Bytes): (r: Option<Bytes>)
    ensures r.Some? <==> k in t.kv
    ensures r.Some? ==> r.value == t.kv[k]
  {
    Lookup(t.kv, k)
  }

  function Put(t: Backend, k: Bytes, v: Bytes): (r: Backend)
    ensures Get(r, k) == Some(v)
    ensures forall j :: j != k ==> Get(r, j) == Get(t, j)
    ensures r == t.(kv := r.kv)
  {
    t.(kv := t.kv[k := v])
  }

  function Remove(t: Backend, k: Bytes): (r: Backend)
    ensures Get(r, k) == None
    ensures forall j :: j != k ==> Get(r, j) == Get(t, j)
    ensures r == t.(kv := r.kv)
  {
    t.(kv := t.kv - {k})
  }

  /** `contains` is a `get` whose result is checked for presence. */
  function Contains(t: Backend, k: Bytes): (r: bool)
    ensures r <==> Get(t, k).Some?
  {
    k in t.kv
  }

  /** `remove_prefix`, `restore` and `checkpoint` are `unimplemented!()`. */
  function RemovePrefix(t: Backend, p: Bytes): (r: Result<Backend>)
    ensures r == Err(Unimplemented)
  {
    Err(Unimplemented)
  }

  function Restore(cluster: KV, name: string): (r: Result<Backend>)
    ensures r == Err(Unimplemented)
  {
    Err(Unimplemented)
  }

  function Checkpoint(t: Backend): (r: Result<()>)
    ensures r == Err(Unimplemented)
  {
    Err(Unimplemented)
  }

  /** Every `register_*_handle` of this backend only marks the handle. */
  function RegisterHandle(h: Handle): (r: Handle)
    ensures r.registered
    ensures r.(registered := h.registered) == h
  {
    h.(registered := true)
  }

  /** The backend's own unit test: a put is read back, a remove makes the key
      absent, and no other key is affected by either. */
  lemma PutGetRemove(t: Backend, k: Bytes, v: Bytes, j: Bytes)
    ensures Get(Put(t, k, v), k) == Some(v)
    ensures Get(Remove(Put(t, k, v), k), k) == None
    ensures !Contains(Remove(Put(t, k, v), k), k)
    ensures j != k ==> Get(Remove(Put(t, k, v), k), j) == Get(t, j)
  {
  }
}

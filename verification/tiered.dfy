/** The tiered state backend (`backend/tiered/mod.rs`): a bounded in-memory
    active cache, a FIFO queue of frozen snapshots awaiting write-back, an
    embedded engine (RocksDB, `local`) and a remote store (TiKV, `remote`).

    Everything the Rust code does through shared mutable cells is modelled as
    pure transitions on an immutable `Store`. The background writer thread
    becomes the explicit step `DrainOne`. The column-family argument of the
    data operations is never consulted by the Rust code, so it is absent here:
    all handles share one keyspace. */
module Tiered {
  import opened Wrappers
  import opened Bytes
  import opened KeyValue
  import opened Handles

  /** The three diagnostic hit counters (`TIERED_LAYER1..3`). */
  datatype Layer = Layer1 | Layer2 | Layer3
  datatype Hits = Hits(layer1: nat, layer2: nat, layer3: nat)

  function Count(h: Hits, l: Layer): nat {
    match l
    case Layer1 => h.layer1
    case Layer2 => h.layer2
    case Layer3 => h.layer3
  }

  function Bump(h: Hits, l: Layer): Hits {
    match l
    case Layer1 => h.(layer1 := h.layer1 + 1)
    case Layer2 => h.(layer2 := h.layer2 + 1)
    case Layer3 => h.(layer3 := h.layer3 + 1)
  }

  /** Column-family options: the fixed prefix-extractor width and the name of
      the associative merge operator, if any. */
  datatype CfOptions = CfOptions(prefixLen: nat, mergeOperator: Option<string>)

  datatype Store = Store(
    cap: nat,                        // capacity of the active cache
    active: KV,                      // the active cache
    frozen: seq<KV>,                 // frozen snapshots, front = oldest
    local: KV,                       // the embedded engine
    remote: KV,                      // the remote store
    hits: Hits,
    restored: bool,
    families: map<string, CfOptions>)

  /** The active cache never holds more than its capacity. */
  predicate Valid(s: Store) {
    s.cap >= 1 && |s.active| <= s.cap
  }

  /** The four storage layers, and nothing else, agree. */
  predicate SameLayers(a: Store, b: Store) {
    a.active == b.active && a.frozen == b.frozen && a.local == b.local && a.remote == b.remote
  }

  // ---------------------------------------------------------------------------
  // Lifecycle

  /** `Tiered::create`: empty caches over whatever the embedded engine directory
      and the remote cluster already hold. The capacity is the `CACHE_SIZE`
      setting and `hits` the current values of the counters. */
  function Create(cap: nat, local: KV, remote: KV, hits: Hits): (r: Store)
    ensures cap >= 1 ==> Valid(r)
    ensures r.cap == cap && r.hits == hits
    ensures r.active == map[] && r.frozen == [] && r.families == map[]
    ensures r.local == local && r.remote == remote
    ensures !r.restored
  {
    Store(cap, map[], [], local, remote, hits, false, map[])
  }

  /** `Tiered::restore`: the checkpoint's files become the embedded engine's
      contents, and the new instance reports that it was restored. */
  function Restore(cap: nat, checkpoint: KV, remote: KV, hits: Hits): (r: Store)
    ensures r.restored
    ensures r.local == checkpoint
    ensures r.active == map[] && r.frozen == []
    ensures SameLayers(r, Create(cap, checkpoint, remote, hits))
    ensures r.cap == cap && r.hits == hits && r.families == map[]
    ensures cap >= 1 ==> Valid(r)
  {
    Create(cap, checkpoint, remote, hits).(restored := true)
  }

  function WasRestored(s: Store): bool {
    s.restored
  }

  /** `was_restored` tells a restored store from a created one, and no data
      operation changes the answer. */
  lemma RestoredFlagKept(cap: nat, checkpoint: KV, remote: KV, hits: Hits, s: Store, k: Bytes, v: Bytes, p: Bytes)
    ensures WasRestored(Restore(cap, checkpoint, remote, hits))
    ensures !WasRestored(Create(cap, checkpoint, remote, hits))
    ensures WasRestored(Put(s, k, v)) == WasRestored(s)
    ensures WasRestored(Get(s, k).store) == WasRestored(s)
    ensures WasRestored(DrainOne(s)) == WasRestored(s)
    ensures WasRestored(Remove(s, k)) == WasRestored(s)
    ensures RemovePrefix(s, p).Ok? ==> WasRestored(RemovePrefix(s, p).value) == WasRestored(s)
  {
  }

  /** `Tiered::checkpoint` is `unimplemented!()`. */
  function Checkpoint(s: Store): (r: Result<()>)
    ensures r == Err(Unimplemented)
  {
    Err(Unimplemented)
  }

  // ---------------------------------------------------------------------------
  // Reads

  /** Search the frozen queue front (oldest) to back, as the Rust loop over
      `cachelist.iter_mut()` does; the first snapshot holding `k` answers. */
  function FindFrozen(frozen: seq<KV>, k: Bytes): (r: Option<Bytes>)
    ensures r.Some? <==> exists i :: 0 <= i < |frozen| && k in frozen[i]
    ensures r.Some? ==> exists i :: 0 <= i < |frozen| && k in frozen[i] && r.value == frozen[i][k]
                                      && forall j :: 0 <= j < i ==> k !in frozen[j]
    decreases |frozen|
  {
    if |frozen| == 0 then None
    else if k in frozen[0] then Some(frozen[0][k])
    else
      var r := FindFrozen(frozen[1..], k);
      assert forall i :: 0 < i < |frozen| ==> frozen[i] == frozen[1..][i - 1];
      r
  }

  /** The outcome of `Tiered::get`: the value found, the counter it bumped,
      and the store with that counter bumped. */
  datatype Fetched = Fetched(value: Option<Bytes>, layer: Layer, store: Store)

  /** Which layer answers a read of `k`, and what it answers, before any
      counter is touched. Frozen snapshots are consulted oldest first. */
  function Probe(s: Store, k: Bytes): (Option<Bytes>, Layer) {
    if k in s.active then (Some(s.active[k]), Layer1)
    else if FindFrozen(s.frozen, k).Some? then (FindFrozen(s.frozen, k), Layer1)
    else if k in s.local then (Some(s.local[k]), Layer2)
    else (Lookup(s.remote, k), Layer3)
  }

  /** `Tiered::get`. A read of the embedded engine that errors is treated as a
      miss by the Rust code; engine errors are not modelled, so a miss here is
      an absent key. The remote fallback bumps LAYER3 whether or not it finds
      the key. */
  function Get(s: Store, k: Bytes): (r: Fetched)
    ensures SameLayers(r.store, s) && r.store == s.(hits := r.store.hits)
    ensures forall l :: Count(r.store.hits, l) == Count(s.hits, l) + (if l == r.layer then 1 else 0)
    ensures k in s.active ==> r.value == Some(s.active[k]) && r.layer == Layer1
    ensures r.layer == Layer1 <==> (k in s.active || exists i :: 0 <= i < |s.frozen| && k in s.frozen[i])
    ensures r.layer == Layer2 ==> k in s.local && r.value == Some(s.local[k])
    ensures r.layer == Layer3 ==> r.value == Lookup(s.remote, k) && k !in s.local
    ensures r.value.None? <==> k !in s.active && (forall i :: 0 <= i < |s.frozen| ==> k !in s.frozen[i])
                                && k !in s.local && k !in s.remote
  {
    var (v, l) := Probe(s, k);
    Fetched(v, l, s.(hits := Bump(s.hits, l)))
  }

  /** `Tiered::contains` consults the embedded engine only. It therefore
      agrees with `get` only about keys that no cache layer holds: a key
      found by `contains` is always readable, but a cached key may be read
      while `contains` denies it. */
  function Contains(s: Store, k: Bytes): (r: bool)
    ensures r <==> k in s.local
    ensures r ==> Get(s, k).value.Some?
    ensures k !in s.active && (forall i :: 0 <= i < |s.frozen| ==> k !in s.frozen[i]) ==>
              (r <==> Get(s, k).layer == Layer2)
  {
    k in s.local
  }

  // ---------------------------------------------------------------------------
  // Writes

  /** `Tiered::put`. While the active cache has room the pair goes straight
      in. Once it is full, a copy of the whole active cache is appended to the
      back of the frozen queue, the active cache is cleared, and only then is
      the pair inserted, even when `k` was already cached. */
  function Put(s: Store, k: Bytes, v: Bytes): (r: Store)
    ensures Valid(s) ==> Valid(r)
    ensures k in r.active && r.active[k] == v
    ensures |s.active| < s.cap ==> r.frozen == s.frozen && r.active == s.active[k := v]
    ensures |s.active| >= s.cap ==> r.frozen == s.frozen + [s.active] && r.active == map[k := v]
    ensures r.local == s.local && r.remote == s.remote && r == s.(active := r.active, frozen := r.frozen)
  {
    if |s.active| < s.cap then
      s.(active := s.active[k := v])
    else
      s.(frozen := s.frozen + [s.active], active := map[k := v])
  }

  /** One round of the background writer: pop the oldest snapshot and write
      every entry of it into both the embedded engine and the remote store.
      With an empty queue the writer only waits, which changes nothing. */
  function DrainOne(s: Store): (r: Store)
    ensures |s.frozen| == 0 ==> r == s
    ensures |s.frozen| > 0 ==> |r.frozen| == |s.frozen| - 1 && r.frozen == s.frozen[1..]
    ensures |s.frozen| > 0 ==> forall k :: k in s.frozen[0] ==>
              k in r.local && r.local[k] == s.frozen[0][k] && k in r.remote && r.remote[k] == s.frozen[0][k]
    ensures |s.frozen| > 0 ==> forall k :: k !in s.frozen[0] ==>
              Lookup(r.local, k) == Lookup(s.local, k) && Lookup(r.remote, k) == Lookup(s.remote, k)
    ensures r.active == s.active && r == s.(frozen := r.frozen, local := r.local, remote := r.remote)
  {
    if |s.frozen| == 0 then s
    else
      var snapshot := s.frozen[0];
      s.(frozen := s.frozen[1..], local := s.local + snapshot, remote := s.remote + snapshot)
  }

  /** The writer's statement-level loop: it fills a write batch and a pair
      list from the snapshot entry by entry, writes the batch to the embedded
      engine and the pairs to the remote store. It ends in the same store as
      `DrainOne`. */
  method DrainOneBatched(s: Store) returns (r: Store)
    ensures r == DrainOne(s)
  {
    if |s.frozen| == 0 {
      return s;
    }
    var snapshot := s.frozen[0];
    var local := PutAll(s.local, snapshot);
    var remote := PutAll(s.remote, snapshot);
    r := s.(frozen := s.frozen[1..], local := local, remote := remote);
  }

  /** `Tiered::remove` deletes from the embedded engine only; the caches and
      the remote store keep any copy they hold. */
  function Remove(s: Store, k: Bytes): (r: Store)
    ensures k !in r.local
    ensures forall j :: j != k ==> Lookup(r.local, j) == Lookup(s.local, j)
    ensures r == s.(local := r.local)
  {
    s.(local := s.local - {k})
  }

  /** `Tiered::remove_prefix` as written: `delete_range(p, IncrementLast(p))`
      on the embedded engine. An empty prefix makes `last_mut().expect(..)`
      panic. */
  function RemovePrefix(s: Store, p: Bytes): (r: Result<Store>)
    ensures r.Err? <==> |p| == 0
    ensures r.Err? ==> r.error == Panic
    ensures r.Ok? ==> r.value == s.(local := r.value.local)
    ensures r.Ok? ==> forall k :: k in r.value.local <==> k in s.local && !InRange(k, p, IncrementLast(p))
    ensures r.Ok? ==> forall k :: k in r.value.local ==> r.value.local[k] == s.local[k]
  {
    if |p| == 0 then Err(Panic)
    else
      var end := IncrementLast(p);
      Ok(s.(local := map k | k in s.local && !InRange(k, p, end) :: s.local[k]))
  }

  /** For a non-empty prefix whose last byte is below 0xFF, prefix deletion
      removes exactly the local keys that start with the prefix and nothing
      else, in no other layer. */
  lemma RemovePrefixDeletesPrefixed(s: Store, p: Bytes)
    requires |p| > 0 && p[|p| - 1] < 255
    ensures RemovePrefix(s, p).Ok?
    ensures RemovePrefix(s, p).value.local == map k | k in s.local && !(p <= k) :: s.local[k]
    ensures SameLayers(RemovePrefix(s, p).value, s.(local := RemovePrefix(s, p).value.local))
  {
    var r := RemovePrefix(s, p).value.local;
    var expected := map k | k in s.local && !(p <= k) :: s.local[k];
    forall k | k in s.local
      ensures k in r <==> k in expected
    {
      PrefixRangeExact(p, k);
    }
    assert r == expected;
  }

  /** With a last byte of 0xFF the end of the range wraps below its start, so
      prefix deletion deletes nothing at all. */
  lemma RemovePrefixWrapsToNothing(s: Store, p: Bytes)
    requires |p| > 0 && p[|p| - 1] == 255
    ensures RemovePrefix(s, p) == Ok(s)
  {
    var r := RemovePrefix(s, p).value.local;
    forall k | k in s.local
      ensures k in r
    {
      WrappedRangeEmpty(p, k);
    }
    assert r == s.local;
  }

  // ---------------------------------------------------------------------------
  // Column families and handle registration

  /** `common_options`: a fixed-length prefix extractor as wide as the two
      metakeys together. */
  function CommonOptions(h: Handle): (r: CfOptions)
    ensures WellFormed(h) ==> r.prefixLen == |SerializeMetakeys(h)|
    ensures r.mergeOperator.None?
  {
    CfOptions(h.ikSize + h.nsSize, None)
  }

  /** The options each `register_*_handle` builds: the common ones, plus an
      associative merge operator for vector, reducer and aggregator state. */
  function HandleOptions(h: Handle): (r: CfOptions)
    ensures r.prefixLen == CommonOptions(h).prefixLen
    ensures r.mergeOperator.None? <==> h.kind == ValueKind || h.kind == MapKind
  {
    match h.kind
    case ValueKind => CommonOptions(h)
    case MapKind => CommonOptions(h)
    case VecKind => CommonOptions(h).(mergeOperator := Some("vec_merge"))
    case ReducerKind => CommonOptions(h).(mergeOperator := Some("reducer_merge"))
    case AggregatorKind => CommonOptions(h).(mergeOperator := Some("aggregator_merge"))
  }

  /** `create_column_family`: creates the family only when it is absent, so an
      existing family keeps the options it was created with. */
  function CreateColumnFamily(s: Store, name: string, opts: CfOptions): (r: Store)
    ensures name in r.families
    ensures name in s.families ==> r == s
    ensures name !in s.families ==> r.families[name] == opts
    ensures r.families.Keys == s.families.Keys + {name}
    ensures forall n :: n in s.families ==> r.families[n] == s.families[n]
    ensures r == s.(families := r.families)
  {
    if name in s.families then s
    else s.(families := s.families[name := opts])
  }

  datatype Registration = Registration(store: Store, handle: Handle)

  /** `register_{value,map,vec,reducer,aggregator}_handle`: mark the handle
      registered and create its column family with the options for its kind. */
  function RegisterHandle(s: Store, h: Handle): (r: Registration)
    ensures r.handle == h.(registered := true)
    ensures r.store == CreateColumnFamily(s, h.id, HandleOptions(h))
    ensures SameLayers(r.store, s)
  {
    Registration(CreateColumnFamily(s, h.id, HandleOptions(h)), h.(registered := true))
  }

  /** Registering a handle a second time changes nothing: neither the stored
      data nor the column family's options. */
  lemma RegisterHandleIdempotent(s: Store, h: Handle)
    ensures var once := RegisterHandle(s, h);
            RegisterHandle(once.store, once.handle) == once
  {
  }
}

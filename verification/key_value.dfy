/** The key/value maps that stand in for the storage engines and cache
    layers, and the algebra of overriding one map with another that every
    layered read and every batch write reduces to. */
module KeyValue {
  import opened Wrappers
  import opened Bytes

  /** A key/value store: the embedded engine, the remote store, one cache layer. */
  type KV = map<Bytes, Bytes>

  function Lookup(m: KV, k: Bytes): (r: Option<Bytes>)
    ensures r.Some? <==> k in m
    ensures r.Some? ==> r.value == m[k]
  {
    if k in m then Some(m[k]) else None
  }

  /** Deleting `k` from a map drops `k`, keeps every other key's value and
      does not grow the map. */
  lemma RemoveKeepsOthers(m: KV, k: Bytes)
    ensures k !in m - {k}
    ensures forall j :: j != k ==> Lookup(m - {k}, j) == Lookup(m, j)
    ensures |m - {k}| <= |m|
  {
  }

  /** Overriding is associative. */
  lemma OverrideAssoc(a: KV, b: KV, c: KV)
    ensures (a + b) + c == a + (b + c)
  {
    var l := (a + b) + c;
    var r := a + (b + c);
    assert l.Keys == r.Keys;
    forall k | k in l
      ensures l[k] == r[k]
    {
    }
  }

  /** Writing the same batch on top of both of two stacked stores is the same
      as writing it once on top of the stack. */
  lemma OverrideBoth(a: KV, b: KV, f: KV)
    ensures (a + f) + (b + f) == (a + b) + f
  {
    var l := (a + f) + (b + f);
    var r := (a + b) + f;
    assert l.Keys == r.Keys;
    forall k | k in l
      ensures l[k] == r[k]
    {
    }
  }

  /** A single-key update is an override by a one-entry map. */
  lemma UpdateIsOverride(a: KV, k: Bytes, v: Bytes)
    ensures a[k := v] == a + map[k := v]
  {
  }

  /** Deleting a key from two stores and stacking them is the same as
      deleting it from the stack. */
  lemma OverrideRemove(a: KV, b: KV, k: Bytes)
    ensures (a - {k}) + (b - {k}) == (a + b) - {k}
  {
    var l := (a - {k}) + (b - {k});
    var r := (a + b) - {k};
    assert l.Keys == r.Keys;
    forall j | j in l
      ensures l[j] == r[j]
    {
    }
  }

  /** Writing every entry of a batch into a store one `put` at a time, in
      whatever order the batch is iterated: the result is the store overridden
      by the batch. Batches are maps, so no key is written twice and the
      iteration order cannot matter. */
  method PutAll(target: KV, batch: KV) returns (r: KV)
    ensures r.Keys == target.Keys + batch.Keys
    ensures forall k :: k in batch ==> r[k] == batch[k]
    ensures forall k :: k in target && k !in batch ==> r[k] == target[k]
  {
    r := target;
    var pending := batch.Keys;
    while pending != {}
      invariant pending <= batch.Keys
      invariant r.Keys == target.Keys + (batch.Keys - pending)
      invariant forall k :: k in batch.Keys - pending ==> r[k] == batch[k]
      invariant forall k :: k in target && k !in batch.Keys - pending ==> r[k] == target[k]
      decreases pending
    {
      var k :| k in pending;
      r := r[k := batch[k]];
      pending := pending - {k};
    }
  }
}

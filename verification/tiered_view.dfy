/** The tiered store seen as one key/value map, and the three places where
    `backend/tiered/mod.rs` departs from that view.

    `View` overlays the layers in the order a read should consult them in
    reverse: the remote store, then the embedded engine, then the frozen
    snapshots oldest to newest, then the active cache, each overriding the
    previous. Against this reference:
    - `Put` updates the view and `DrainOne` leaves it unchanged, so a read that
      follows the view always returns the latest write (`LatestWriteWins`);
    - the Rust `get` scans the frozen queue oldest first, which answers with a
      superseded value once a key sits in two snapshots
      (`StaleReadAfterTwoFreezes`); `GetNewest` is the corrected read;
    - the Rust `remove` deletes from the embedded engine only, so the key stays
      readable (`RemoveLeavesCopies`); `RemoveEverywhere` is the corrected delete;
    - the Rust `remove_prefix` panics on an empty prefix and deletes nothing
      when the last byte is 0xFF; `RemovePrefixChecked` is the corrected one. */
module TieredView {
  import opened Wrappers
  import opened Bytes
  import opened KeyValue
  import opened Tiered

  // ---------------------------------------------------------------------------
  // The reference view

  /** Snapshots overlaid in order: a later snapshot overrides an earlier one. */
  function Merge(snapshots: seq<KV>): KV
    decreases |snapshots|
  {
    if |snapshots| == 0 then map[]
    else Merge(snapshots[..|snapshots| - 1]) + snapshots[|snapshots| - 1]
  }

  /** A key is in the overlay exactly when some snapshot holds it. */
  lemma {:induction false} MergeKeys(snapshots: seq<KV>, k: Bytes)
    ensures k in Merge(snapshots) <==> exists i :: 0 <= i < |snapshots| && k in snapshots[i]
    decreases |snapshots|
  {
    if |snapshots| > 0 {
      var init := snapshots[..|snapshots| - 1];
      MergeKeys(init, k);
      assert forall i :: 0 <= i < |init| ==> init[i] == snapshots[i];
    }
  }

  function Reverse(xs: seq<KV>): (r: seq<KV>)
    ensures |r| == |xs|
    ensures forall i :: 0 <= i < |xs| ==> r[i] == xs[|xs| - 1 - i]
  {
    if |xs| == 0 then [] else Reverse(xs[1..]) + [xs[0]]
  }

  /** What the store holds as a whole, when the newest write of each key wins. */
  function View(s: Store): KV {
    Persisted(s) + Merge(s.frozen) + s.active
  }

  /** The two persistent layers, the embedded engine read before the remote
      store. */
  function Persisted(s: Store): KV {
    s.remote + s.local
  }

  /** What the Rust `get` actually reads: the same overlay, except that an
      older frozen snapshot overrides a newer one. */
  function AsWrittenView(s: Store): KV {
    Persisted(s) + Merge(Reverse(s.frozen)) + s.active
  }

  lemma MergeSnoc(xs: seq<KV>, m: KV)
    ensures Merge(xs + [m]) == Merge(xs) + m
  {
    assert (xs + [m])[..|xs|] == xs;
  }

  lemma {:induction false} MergeCons(m: KV, xs: seq<KV>)
    ensures Merge([m] + xs) == m + Merge(xs)
    decreases |xs|
  {
    if |xs| == 0 {
      assert [m] + xs == [] + [m];
      MergeSnoc([], m);
    } else {
      var init := xs[..|xs| - 1];
      var last := xs[|xs| - 1];
      assert [m] + xs == ([m] + init) + [last];
      assert xs == init + [last];
      MergeSnoc([m] + init, last);
      MergeSnoc(init, last);
      MergeCons(m, init);
      OverrideAssoc(m, Merge(init), last);
    }
  }

  /** The oldest-first scan of the Rust `get` reads the reversed overlay. */
  lemma {:induction false} FindFrozenReadsReversedMerge(frozen: seq<KV>, k: Bytes)
    ensures FindFrozen(frozen, k) == Lookup(Merge(Reverse(frozen)), k)
    decreases |frozen|
  {
    if |frozen| > 0 {
      FindFrozenReadsReversedMerge(frozen[1..], k);
      MergeSnoc(Reverse(frozen[1..]), frozen[0]);
    }
  }

  /** The Rust `get` answers from `AsWrittenView`. */
  lemma GetReadsAsWrittenView(s: Store, k: Bytes)
    ensures Get(s, k).value == Lookup(AsWrittenView(s), k)
  {
    FindFrozenReadsReversedMerge(s.frozen, k);
  }

  // ---------------------------------------------------------------------------
  // The corrected read

  /** Search the frozen queue back (newest) to front. */
  function FindFrozenNewest(frozen: seq<KV>, k: Bytes): (r: Option<Bytes>)
    ensures r == Lookup(Merge(frozen), k)
    decreases |frozen|
  {
    if |frozen| == 0 then None
    else if k in frozen[|frozen| - 1] then Some(frozen[|frozen| - 1][k])
    else FindFrozenNewest(frozen[..|frozen| - 1], k)
  }

  /** The read that returns the latest write: like `Get`, but the most
      recently frozen snapshot is consulted first. The counters move as in `Get`. */
  function GetNewest(s: Store, k: Bytes): (r: Fetched)
    ensures r.value == Lookup(View(s), k)
    ensures r.store == s.(hits := Bump(s.hits, r.layer))
    ensures r.layer == Get(s, k).layer
  {
    var frozenHit := FindFrozenNewest(s.frozen, k);
    MergeKeys(s.frozen, k);
    var (v, l) :=
      if k in s.active then (Some(s.active[k]), Layer1)
      else if frozenHit.Some? then (frozenHit, Layer1)
      else if k in s.local then (Some(s.local[k]), Layer2)
      else (Lookup(s.remote, k), Layer3);
    Fetched(v, l, s.(hits := Bump(s.hits, l)))
  }

  /** Both reads agree while at most one snapshot awaits write-back. */
  lemma ReadsAgreeOnSingleSnapshot(s: Store, k: Bytes)
    requires |s.frozen| <= 1
    ensures Get(s, k).value == GetNewest(s, k).value
  {
    GetReadsAsWrittenView(s, k);
    assert Reverse(s.frozen) == s.frozen;
  }

  // ---------------------------------------------------------------------------
  // How the transitions move the view

  /** A put is a map update of the view. */
  lemma PutUpdatesView(s: Store, k: Bytes, v: Bytes)
    ensures View(Put(s, k, v)) == View(s)[k := v]
  {
    var below := Persisted(s) + Merge(s.frozen);
    UpdateIsOverride(below + s.active, k, v);
    if |s.active| < s.cap {
      UpdateIsOverride(s.active, k, v);
      OverrideAssoc(below, s.active, map[k := v]);
    } else {
      MergeSnoc(s.frozen, s.active);
      OverrideAssoc(Persisted(s), Merge(s.frozen), s.active);
      assert Persisted(Put(s, k, v)) == Persisted(s);
    }
  }

  /** Write-back is invisible: draining a snapshot into the embedded engine
      and the remote store leaves the view unchanged. */
  lemma DrainPreservesView(s: Store)
    ensures View(DrainOne(s)) == View(s)
  {
    if |s.frozen| > 0 {
      var f := s.frozen[0];
      var rest := s.frozen[1..];
      assert s.frozen == [f] + rest;
      MergeCons(f, rest);
      OverrideBoth(s.remote, s.local, f);
      OverrideAssoc(Persisted(s), f, Merge(rest));
      assert Persisted(DrainOne(s)) == Persisted(s) + f;
    }
  }

  /** The steps a trace of the store is made of. */
  datatype Op = PutOp(key: Bytes, value: Bytes) | DrainOp

  function Apply(s: Store, op: Op): Store {
    match op
    case PutOp(k, v) => Put(s, k, v)
    case DrainOp => DrainOne(s)
  }

  function Run(s: Store, ops: seq<Op>): Store
    decreases |ops|
  {
    if |ops| == 0 then s else Run(Apply(s, ops[0]), ops[1..])
  }

  /** The single-map reference semantics of a trace: puts update, the
      writer's steps do nothing. */
  function Replay(m: KV, ops: seq<Op>): KV
    decreases |ops|
  {
    if |ops| == 0 then m
    else
      match ops[0]
      case PutOp(k, v) => Replay(m[k := v], ops[1..])
      case DrainOp => Replay(m, ops[1..])
  }

  /** Every trace of puts and write-back steps moves the view exactly as the
      single-map reference moves. */
  lemma {:induction false} RunRefinesReplay(s: Store, ops: seq<Op>)
    ensures View(Run(s, ops)) == Replay(View(s), ops)
    decreases |ops|
  {
    if |ops| > 0 {
      match ops[0] {
        case PutOp(k, v) => PutUpdatesView(s, k, v);
        case DrainOp => DrainPreservesView(s);
      }
      RunRefinesReplay(Apply(s, ops[0]), ops[1..]);
    }
  }

  lemma {:induction false} RunAppend(s: Store, a: seq<Op>, b: seq<Op>)
    ensures Run(s, a + b) == Run(Run(s, a), b)
    decreases |a|
  {
    if |a| > 0 {
      assert (a + b)[0] == a[0];
      assert (a + b)[1..] == a[1..] + b;
      RunAppend(Apply(s, a[0]), a[1..], b);
    } else {
      assert a + b == b;
    }
  }

  predicate WritesKey(op: Op, k: Bytes) {
    op.PutOp? && op.key == k
  }

  lemma {:induction false} ReplayKeepsUntouched(m: KV, ops: seq<Op>, k: Bytes)
    requires forall i :: 0 <= i < |ops| ==> !WritesKey(ops[i], k)
    ensures Lookup(Replay(m, ops), k) == Lookup(m, k)
    decreases |ops|
  {
    if |ops| > 0 {
      assert !WritesKey(ops[0], k);
      match ops[0]
      case PutOp(j, v) => ReplayKeepsUntouched(m[j := v], ops[1..], k);
      case DrainOp => ReplayKeepsUntouched(m, ops[1..], k);
    }
  }

  /** Read-your-latest-write: after `put(k, v)`, followed by any number of
      write-back steps and puts of other keys, the corrected read of `k`
      returns `v`. */
  lemma LatestWriteWins(s: Store, k: Bytes, v: Bytes, after: seq<Op>)
    requires forall i :: 0 <= i < |after| ==> !WritesKey(after[i], k)
    ensures GetNewest(Run(Put(s, k, v), after), k).value == Some(v)
  {
    RunRefinesReplay(Put(s, k, v), after);
    ReplayKeepsUntouched(View(Put(s, k, v)), after, k);
    PutUpdatesView(s, k, v);
  }

  /** The Rust `get` returns a superseded value. With capacity 1, the puts
      `k := a`, `k := b`, `j := a` freeze `{k: a}` and then `{k: b}`; the
      oldest-first scan then answers `a` although `b` was written last, and a
      write-back step that pops `{k: a}` changes the answer to `b`. */
  lemma StaleReadAfterTwoFreezes()
    ensures var k: Bytes := [1];
            var j: Bytes := [2];
            var a: Bytes := [10];
            var b: Bytes := [11];
            var s := Run(Create(1, map[], map[], Hits(0, 0, 0)), [PutOp(k, a), PutOp(k, b), PutOp(j, a)]);
            && Get(s, k).value == Some(a)
            && GetNewest(s, k).value == Some(b)
            && Get(DrainOne(s), k).value == Some(b)
  {
    var k: Bytes := [1];
    var j: Bytes := [2];
    var a: Bytes := [10];
    var b: Bytes := [11];
    var s0 := Create(1, map[], map[], Hits(0, 0, 0));
    var ops := [PutOp(k, a), PutOp(k, b), PutOp(j, a)];
    var s1 := Put(s0, k, a);
    var s2 := Put(s1, k, b);
    var s3 := Put(s2, j, a);
    assert ops[1..] == [PutOp(k, b), PutOp(j, a)];
    assert ops[1..][1..] == [PutOp(j, a)];
    assert ops[1..][1..][1..] == [];
    assert Run(s3, []) == s3;
    assert Run(s2, [PutOp(j, a)]) == s3;
    assert Run(s1, [PutOp(k, b), PutOp(j, a)]) == s3;
    var s := Run(s0, ops);
    assert s == s3;
    assert s.frozen == [map[k := a], map[k := b]];
    assert s.active == map[j := a];
    LatestWriteWins(s0.(active := map[k := a]), k, b, [PutOp(j, a)]);
    assert Put(s0, k, a) == s0.(active := map[k := a]);
  }

  // ---------------------------------------------------------------------------
  // Deletion

  /** The Rust `remove` leaves `k` readable exactly when some layer other than
      the embedded engine still holds it. */
  lemma RemoveLeavesCopies(s: Store, k: Bytes)
    ensures Get(Remove(s, k), k).value.Some?
            <==> k in s.active || (exists i :: 0 <= i < |s.frozen| && k in s.frozen[i]) || k in s.remote
  {
  }

  /** The scenario of the backend's own unit test: put, remove, get. The get
      still returns the value, from the active cache. */
  lemma RemoveThenGetStillHits(cap: nat, local: KV, remote: KV, hits: Hits, k: Bytes, v: Bytes)
    requires cap >= 1
    ensures Get(Remove(Put(Create(cap, local, remote, hits), k, v), k), k).value == Some(v)
  {
  }

  function RemoveFromEach(snapshots: seq<KV>, k: Bytes): (r: seq<KV>)
    ensures |r| == |snapshots|
    ensures forall i :: 0 <= i < |r| ==> r[i] == snapshots[i] - {k}
    ensures forall i :: 0 <= i < |r| ==> k !in r[i]
    ensures forall i, j :: 0 <= i < |r| && j != k ==> Lookup(r[i], j) == Lookup(snapshots[i], j)
  {
    var r := seq(|snapshots|, i requires 0 <= i < |snapshots| => snapshots[i] - {k});
    forall i | 0 <= i < |r|
      ensures k !in r[i]
      ensures forall j :: j != k ==> Lookup(r[i], j) == Lookup(snapshots[i], j)
    {
      RemoveKeepsOthers(snapshots[i], k);
    }
    r
  }

  lemma {:induction false} MergeRemoveFromEach(snapshots: seq<KV>, k: Bytes)
    ensures Merge(RemoveFromEach(snapshots, k)) == Merge(snapshots) - {k}
    decreases |snapshots|
  {
    if |snapshots| > 0 {
      var n := |snapshots|;
      assert RemoveFromEach(snapshots, k)[..n - 1] == RemoveFromEach(snapshots[..n - 1], k);
      MergeRemoveFromEach(snapshots[..n - 1], k);
      OverrideRemove(Merge(snapshots[..n - 1]), snapshots[n - 1], k);
    }
  }

  /** The delete the unit test at `tiered/mod.rs:684-688` expects: `k` leaves
      every layer, so a following `get` finds nothing. */
  function RemoveEverywhere(s: Store, k: Bytes): (r: Store)
    ensures View(r) == View(s) - {k}
    ensures r == s.(active := r.active, frozen := r.frozen, local := r.local, remote := r.remote)
    ensures k !in r.active && k !in r.local && k !in r.remote
    ensures |r.frozen| == |s.frozen|
    ensures forall i :: 0 <= i < |r.frozen| ==> k !in r.frozen[i]
    ensures forall j :: j != k ==>
              Lookup(r.active, j) == Lookup(s.active, j) && Lookup(r.local, j) == Lookup(s.local, j)
              && Lookup(r.remote, j) == Lookup(s.remote, j)
    ensures forall i, j :: 0 <= i < |r.frozen| && j != k ==> Lookup(r.frozen[i], j) == Lookup(s.frozen[i], j)
    ensures Valid(s) ==> Valid(r)
  {
    var r := s.(active := s.active - {k}, frozen := RemoveFromEach(s.frozen, k),
                local := s.local - {k}, remote := s.remote - {k});
    assert View(r) == View(s) - {k} by {
      MergeRemoveFromEach(s.frozen, k);
      OverrideRemove(s.remote, s.local, k);
      OverrideRemove(Persisted(s), Merge(s.frozen), k);
      OverrideRemove(Persisted(s) + Merge(s.frozen), s.active, k);
    }
    RemoveKeepsOthers(s.active, k);
    RemoveKeepsOthers(s.local, k);
    RemoveKeepsOthers(s.remote, k);
    r
  }

  /** After the corrected delete both reads report the key absent, and keys
      other than `k` read as before. */
  lemma RemoveEverywhereThenGetNone(s: Store, k: Bytes, j: Bytes)
    ensures Get(RemoveEverywhere(s, k), k).value == None
    ensures GetNewest(RemoveEverywhere(s, k), k).value == None
    ensures j != k ==> GetNewest(RemoveEverywhere(s, k), j).value == GetNewest(s, j).value
  {
    GetReadsAsWrittenView(RemoveEverywhere(s, k), k);
  }

  /** Prefix deletion with the empty-prefix case handled, as the `expect`
      message at `tiered/mod.rs:335-336` says it is: an empty prefix is
      rejected as an invalid argument, and otherwise every local key that starts with the
      prefix is deleted, whatever its last byte. */
  function RemovePrefixChecked(s: Store, p: Bytes): (r: Result<Store>)
    ensures r.Err? <==> |p| == 0
    ensures r.Err? ==> r.error == InvalidArgument
    ensures r.Ok? ==> r.value == s.(local := r.value.local)
    ensures r.Ok? ==> forall k :: k in r.value.local <==> k in s.local && !(p <= k)
    ensures r.Ok? ==> forall k :: k in r.value.local ==> r.value.local[k] == s.local[k]
  {
    if |p| == 0 then Err(InvalidArgument)
    else Ok(s.(local := map k | k in s.local && !(p <= k) :: s.local[k]))
  }

  /** The Rust prefix deletion agrees with the corrected one on every
      non-empty prefix whose last byte is below 0xFF. */
  lemma RemovePrefixAgrees(s: Store, p: Bytes)
    requires |p| > 0 && p[|p| - 1] < 255
    ensures RemovePrefix(s, p) == RemovePrefixChecked(s, p)
  {
    RemovePrefixDeletesPrefixed(s, p);
  }

  /** Where they disagree: an empty prefix panics instead of being rejected,
      and a prefix ending in 0xFF leaves its keys in place. */
  lemma RemovePrefixDiffers(s: Store, p: Bytes, k: Bytes)
    ensures |p| == 0 ==> RemovePrefix(s, p) == Err(Panic) && RemovePrefixChecked(s, p) == Err(InvalidArgument)
    ensures |p| > 0 && p[|p| - 1] == 255 && k in s.local && p <= k ==>
              k in RemovePrefix(s, p).value.local && k !in RemovePrefixChecked(s, p).value.local
  {
    if |p| > 0 && p[|p| - 1] == 255 {
      RemovePrefixWrapsToNothing(s, p);
    }
  }

  // ---------------------------------------------------------------------------
  // Filling and freezing

  predicate DistinctPuts(ops: seq<Op>) {
    && (forall i :: 0 <= i < |ops| ==> ops[i].PutOp?)
    && (forall i, j :: 0 <= i < j < |ops| ==> ops[i].key != ops[j].key)
  }

  lemma {:induction false} FillActive(s: Store, ops: seq<Op>)
    requires DistinctPuts(ops)
    requires |s.active| + |ops| <= s.cap
    requires forall i :: 0 <= i < |ops| ==> ops[i].key !in s.active
    ensures Run(s, ops).frozen == s.frozen && Run(s, ops).cap == s.cap
    ensures |Run(s, ops).active| == |s.active| + |ops|
    decreases |ops|
  {
    if |ops| > 0 {
      var s' := Put(s, ops[0].key, ops[0].value);
      assert |s'.active| == |s.active| + 1;
      assert forall i :: 0 <= i < |ops[1..]| ==> ops[1..][i] == ops[i + 1];
      FillActive(s', ops[1..]);
    }
  }

  /** Starting from empty caches, `cap + 1` puts of distinct keys leave
      exactly one frozen snapshot of `cap` entries and one active entry. */
  lemma OverflowFreezesOnce(cap: nat, local: KV, remote: KV, hits: Hits, ops: seq<Op>)
    requires cap >= 1
    requires DistinctPuts(ops) && |ops| == cap + 1
    ensures var s := Run(Create(cap, local, remote, hits), ops);
            |s.frozen| == 1 && |s.frozen[0]| == cap && |s.active| == 1
  {
    var s0 := Create(cap, local, remote, hits);
    var init := ops[..cap];
    assert ops == init + [ops[cap]];
    FillActive(s0, init);
    RunAppend(s0, init, [ops[cap]]);
    var s1 := Run(s0, init);
    assert [ops[cap]][1..] == [];
    assert s1.frozen == [] && |s1.active| == cap;
    var s := Put(s1, ops[cap].key, ops[cap].value);
    assert Run(s0, ops) == s;
    assert s.frozen == [s1.active];
  }
}

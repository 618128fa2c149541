/** Value serialization and the handle that scopes every state object.

    A handle names one logical state column (`id`), says which kind of state it
    holds, and carries the two metakeys (item key and namespace) that every
    storage key starts with. Metakeys are modelled in their encoded form: byte
    strings of the fixed widths `ikSize` and `nsSize` that the metakey types
    declare. User keys of map state are likewise modelled in serialized form. */
module Handles {
  import opened Wrappers
  import opened Bytes

  /** A value codec: `encode` stands for `protobuf::serialize`, `decode` for
      `protobuf::deserialize`, which may reject bytes it cannot parse. */
  datatype Serde<!T> = Serde(encode: T -> Bytes, decode: Bytes -> Option<T>)

  /** The codec law the state layer relies on: decoding what was encoded
      gives the value back. */
  ghost predicate RoundTrips<T(!new)>(sd: Serde<T>) {
    forall v: T :: sd.decode(sd.encode(v)) == Some(v)
  }

  /** Decoding stored bytes at a state-object boundary; a parse failure is a
      deserialization error, distinct from "not found". */
  function Deserialize<T>(sd: Serde<T>, bytes: Bytes): (r: Result<T>)
    ensures r.Err? <==> sd.decode(bytes).None?
    ensures r.Err? ==> r.error == Deserialization
    ensures r.Ok? ==> sd.decode(bytes) == Some(r.value)
  {
    match sd.decode(bytes)
    case Some(v) => Ok(v)
    case None => Err(Deserialization)
  }

  lemma DeserializeEncoded<T(!new)>(sd: Serde<T>, v: T)
    requires RoundTrips(sd)
    ensures Deserialize(sd, sd.encode(v)) == Ok(v)
  {
    assert sd.decode(sd.encode(v)) == Some(v);
  }

  datatype StateKind = ValueKind | MapKind | VecKind | ReducerKind | AggregatorKind

  datatype Handle = Handle(
    id: string,
    kind: StateKind,
    ikSize: nat,
    nsSize: nat,
    itemKey: Bytes,
    namespace: Bytes,
    registered: bool)

  /** The metakeys have exactly the widths their types declare. */
  predicate WellFormed(h: Handle) {
    |h.itemKey| == h.ikSize && |h.namespace| == h.nsSize
  }

  /** `serialize_metakeys`: item key followed by namespace. */
  function SerializeMetakeys(h: Handle): (r: Bytes)
    ensures WellFormed(h) ==> |r| == h.ikSize + h.nsSize
  {
    h.itemKey + h.namespace
  }

  /** `serialize_metakeys_and_key`: the metakeys followed by the user key. */
  function SerializeMetakeysAndKey(h: Handle, key: Bytes): (r: Bytes)
    ensures SerializeMetakeys(h) <= r
    ensures r[|SerializeMetakeys(h)|..] == key
  {
    SerializeMetakeys(h) + key
  }

  /** Fixed widths make the metakey encoding injective: two well-formed handles
      with the same metakey types store under the same key exactly when their
      item keys and namespaces agree. */
  lemma MetakeysInjective(h1: Handle, h2: Handle)
    requires WellFormed(h1) && WellFormed(h2)
    requires h1.ikSize == h2.ikSize && h1.nsSize == h2.nsSize
    ensures SerializeMetakeys(h1) == SerializeMetakeys(h2)
            <==> h1.itemKey == h2.itemKey && h1.namespace == h2.namespace
  {
    if SerializeMetakeys(h1) == SerializeMetakeys(h2) {
      assert h1.itemKey == SerializeMetakeys(h1)[..h1.ikSize];
      assert h2.itemKey == SerializeMetakeys(h2)[..h2.ikSize];
      assert h1.namespace == SerializeMetakeys(h1)[h1.ikSize..];
      assert h2.namespace == SerializeMetakeys(h2)[h2.ikSize..];
    }
  }

  /** The composite map key is injective in (item key, namespace, user key). */
  lemma CompositeKeyInjective(h1: Handle, k1: Bytes, h2: Handle, k2: Bytes)
    requires WellFormed(h1) && WellFormed(h2)
    requires h1.ikSize == h2.ikSize && h1.nsSize == h2.nsSize
    ensures SerializeMetakeysAndKey(h1, k1) == SerializeMetakeysAndKey(h2, k2)
            <==> h1.itemKey == h2.itemKey && h1.namespace == h2.namespace && k1 == k2
  {
    var w := h1.ikSize + h1.nsSize;
    if SerializeMetakeysAndKey(h1, k1) == SerializeMetakeysAndKey(h2, k2) {
      assert SerializeMetakeys(h1) == SerializeMetakeysAndKey(h1, k1)[..w];
      assert SerializeMetakeys(h2) == SerializeMetakeysAndKey(h2, k2)[..w];
      MetakeysInjective(h1, h2);
    }
  }
}

/** A file cut into chunks of one size, the last perhaps shorter. */
module Chunks {
  import opened Bytes

  /** A file on its way, in either direction. */
  datatype Shipment = Shipment(path: string, data: seq<Byte>, chunk: nat)

  predicate Valid(u: Shipment) {
    u.data != [] && u.chunk > 0
  }

  function Reach(u: Shipment, k: nat): (n: nat)
    ensures n <= |u.data|
  {
    if k * u.chunk < |u.data| then k * u.chunk else |u.data|
  }

  /** The first `k` chunks. */
  function Prefix(u: Shipment, k: nat): seq<Byte> {
    u.data[..Reach(u, k)]
  }

  /** `data[offset:offset + chunk_size]` at offset `k * chunk_size` */
  function Slice(u: Shipment, k: nat): seq<Byte>
    requires k * u.chunk <= |u.data|
  {
    SliceBounds(u, k);
    u.data[k * u.chunk..Reach(u, k + 1)]
  }

  lemma {:induction false} SliceBounds(u: Shipment, k: nat)
    requires k * u.chunk <= |u.data|
    ensures k * u.chunk == Reach(u, k) <= Reach(u, k + 1)
    ensures Valid(u) && k * u.chunk < |u.data| ==> Reach(u, k) < Reach(u, k + 1)
  {
    assert (k + 1) * u.chunk == k * u.chunk + u.chunk;
  }

  lemma {:induction false} PrefixNext(u: Shipment, k: nat)
    requires Valid(u) && k * u.chunk < |u.data|
    ensures Slice(u, k) != [] && |Slice(u, k)| <= u.chunk
    ensures Prefix(u, k) + Slice(u, k) == Prefix(u, k + 1)
  {
    SliceBounds(u, k);
    assert (k + 1) * u.chunk == k * u.chunk + u.chunk;
  }

  lemma {:induction false} CountAtMostProduct(k: nat, c: nat)
    requires c > 0
    ensures k <= k * c
  {
    assert k * c == k + k * (c - 1);
  }
}

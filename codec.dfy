/** Conversions between uint64_t values and kLambda-byte group elements
    (u64_to_group and group_to_u64, written identically in src/retrieval.c
    and src/cmp.c). */
module GroupCodec {
  import opened Bytes
  import opened Field
  import opened Group

  /** The bytes u64_to_group leaves in a group element: v little-endian in
      bytes 0..7, zero padding up to kLambda. */
  function GroupImage(v: U64): (g: seq<Byte>)
    ensures |g| == Lambda
    ensures g[..8] == ToLE(v, 8) && g[8..] == Zeros(Lambda - 8)
  {
    ToLE(v, 8) + Zeros(Lambda - 8)
  }

  /** u64_to_group: `memset(g, 0, kLambda); memcpy(g, &v, 8);`. */
  method U64ToGroup(g: array<Byte>, v: U64)
    requires g.Length == Lambda
    modifies g
    ensures g[..] == GroupImage(v)
  {
    forall i | 0 <= i < Lambda {
      g[i] := 0;
    }
    StoreU64(g, v);
    assert g[..] == g[..8] + g[8..];
  }

  /** group_to_u64 reads back the value u64_to_group stored. */
  lemma GroupRoundTrip(v: U64)
    ensures GroupToU64(GroupImage(v)) == v
  {
    var g := GroupImage(v);
    Pow2Of64();
    LEOfToLEFits(v, 8);
  }
}

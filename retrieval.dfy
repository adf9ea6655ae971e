/** The retrieval benchmark of src/retrieval.c: the same Beaver dot product
    as src/dotprod.c, with party 1's differences computed once into buffers
    and the product repeated for every document, and the Gen block that
    builds the two masked comparison functions of one binary-search step. */
module Retrieval {
  import opened Field
  import opened DotProduct
  import opened Cmp

  /** kN: the number of documents. */
  const NumDocs: nat := 131072

  /** The d1_buf / e1_buf loop (lines 141-144): party 1's differences
      [a_k]_1 - [x_k]_1 and [b_k]_1 - [y_k]_1, taken ahead of the timed part. */
  method PrecomputeParty1(s: Shares) returns (d1Buf: array<U64>, e1Buf: array<U64>)
    requires s.Valid()
    ensures fresh(d1Buf) && fresh(e1Buf)
    ensures d1Buf.Length == Dim && e1Buf.Length == Dim
    ensures forall k :: 0 <= k < Dim ==> d1Buf[k] == SubModP(s.a.s1[k], s.x.s1[k])
    ensures forall k :: 0 <= k < Dim ==> e1Buf[k] == SubModP(s.b.s1[k], s.y.s1[k])
    ensures forall k :: 0 <= k < Dim ==>
      d1Buf[k] == (s.a.s1[k] as int - s.x.s1[k]) % P && e1Buf[k] == (s.b.s1[k] as int - s.y.s1[k]) % P
  {
    d1Buf := new U64[Dim];
    e1Buf := new U64[Dim];
    for k := 0 to Dim
      invariant forall j :: 0 <= j < k ==> d1Buf[j] == SubModP(s.a.s1[j], s.x.s1[j])
      invariant forall j :: 0 <= j < k ==> e1Buf[j] == SubModP(s.b.s1[j], s.y.s1[j])
    {
      d1Buf[k] := SubModP(s.a.s1[k], s.x.s1[k]);
      e1Buf[k] := SubModP(s.b.s1[k], s.y.s1[k]);
    }
  }

  /** Party 1's differences as the buffers hold them. */
  ghost predicate Party1Buffers(s: Shares, d1Buf: seq<U64>, e1Buf: seq<U64>)
    requires s.Valid()
  {
    |d1Buf| == Dim && |e1Buf| == Dim &&
    (forall k :: 0 <= k < Dim ==> d1Buf[k] == SubModP(s.a.s1[k], s.x.s1[k])) &&
    (forall k :: 0 <= k < Dim ==> e1Buf[k] == SubModP(s.b.s1[k], s.y.s1[k]))
  }

  /** One iteration of the document loop (lines 152-173): party 0's
      local_d, local_e, then the accumulation reading d1 and e1 from the
      buffers. It computes the same share as the inline version of
      src/dotprod.c, DotProductParty0: party 0's sum of
      z_0 + e x_0 + d y_0 over all k, modulo p. */
  method DotProductBuffered(s: Shares, d1Buf: array<U64>, e1Buf: array<U64>) returns (finalResShare: U64)
    requires s.Valid() && Party1Buffers(s, d1Buf[..], e1Buf[..])
    ensures finalResShare == Sum0(s, Dim) % P
  {
    assert forall k :: 0 <= k < Dim ==> d1Buf[k] == d1Buf[..][k] && e1Buf[k] == e1Buf[..][k];
    var localD, localE := LocalDifferences(s);
    finalResShare := 0;
    for k := 0 to Dim
      invariant forall j :: 0 <= j < Dim ==> localD[j] == SubModP(s.a.s0[j], s.x.s0[j])
      invariant forall j :: 0 <= j < Dim ==> localE[j] == SubModP(s.b.s0[j], s.y.s0[j])
      invariant finalResShare == Sum0(s, k) % P
    {
      finalResShare := AccumulateIndex(s, k, finalResShare, localD[k], localE[k], d1Buf[k], e1Buf[k]);
    }
  }

  /** The buffered and the inline loop agree, and party 0's result together
      with party 1's total opens to the dot product of a and b. */
  method BufferedMatchesInline(s: Shares) returns (buffered: U64, inline: U64)
    requires s.Valid() && s.TripleValid()
    ensures buffered == inline
    ensures (buffered as int + Sum1(s, Dim)) % P == DotSum(s, Dim) % P
  {
    var d1Buf, e1Buf := PrecomputeParty1(s);
    buffered := DotProductBuffered(s, d1Buf, e1Buf);
    inline := DotProductParty0(s);
    DotProductReconstructs(s, Dim);
    ModAddMod(Sum0(s, Dim), Sum1(s, Dim));
  }

  /** The document loop (lines 151-176) run sequentially: every document
      gets party 0's share of the same dot product, since the body does not
      depend on iter. The sink of each iteration is returned. */
  method DocumentLoop(s: Shares, d1Buf: array<U64>, e1Buf: array<U64>) returns (sinks: seq<U64>)
    requires s.Valid() && Party1Buffers(s, d1Buf[..], e1Buf[..])
    ensures |sinks| == NumDocs
    ensures forall i :: 0 <= i < NumDocs ==> sinks[i] == Sum0(s, Dim) % P
  {
    sinks := [];
    for iter := 0 to NumDocs
      invariant |sinks| == iter
      invariant forall i :: 0 <= i < iter ==> sinks[i] == Sum0(s, Dim) % P
    {
      var sink := DotProductBuffered(s, d1Buf, e1Buf);
      sinks := sinks + [sink];
    }
  }

  /** The Gen block (lines 187-201): draws r, then xl, then xr, masks both
      bounds with r and writes the payloads p - 1 and 1 with u64_to_group.
      The fixed keys of the Eval part of src/cmp.c (lines 129-144) are
      built in the same order. */
  method RetrievalGen(rand: seq<Buf8>) returns (cfL: CmpFunc, cfR: CmpFunc)
    requires |rand| >= 3
    ensures cfL == LeftFunc(Draw(rand, 1), Draw(rand, 0)) && cfR == RightFunc(Draw(rand, 2), Draw(rand, 0))
  {
    var r := Draw(rand, 0);
    var xl := Draw(rand, 1);
    var xr := Draw(rand, 2);
    cfL, cfR := MakeCmpFuncs(xl, xr, r);
  }
}

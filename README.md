# Field arithmetic, Beaver dot product and masked comparison, in Dafny

This project models the arithmetic core of a set of C benchmarks for
two-party secure computation over the prime field of p = 2^64 - 59, and
proves what that arithmetic promises.

- **Field.** `add_mod_p`, `sub_mod_p` and `mul_mod_p` widen to unsigned
  128-bit integers and reduce mod p. `get_rand_field` decodes 8 random bytes
  and subtracts p when the value is at least p. The 64- and 128-bit wrap-around is written out
  (`Wrap64`, `Wrap128`), so the results are proved, not assumed, to be the
  field operations.
- **Group on 16-byte elements** (`src/dcf/group/u64.c`). `group_add`,
  `group_neg` and `group_zero` are methods that update a `array<Byte>` of
  length 16 in place. The value is the little-endian `uint64_t` in bytes
  0..7. The proofs track the branch at line 19 of `group_add`: the
  subtraction `rhs64 - kPrime` wraps modulo 2^64 and the addition wraps
  back, so the stored value is exact.
- **Conversion helpers.** `u64_to_group` (`GroupCodec`) and `group_to_u64`
  (`Group.GroupToU64`) come with a round-trip lemma.
- **Additive sharing and the Beaver-triple dot product** (`src/dotprod.c`).
  - `setup_data` draws a, b, x and y, computes z = x·y, and splits all five
    into two shares.
  - The online loop opens d = a − x and e = b − y and accumulates party 0's
    share of a_k·b_k.
  - The proofs cover: what `setup_data` builds; the Beaver identity (party
    0's share plus party 1's share is a_k·b_k mod p); that party 0's
    `final_res_share` is its sum mod p; and that both parties' totals add to
    the dot product.
- **The retrieval benchmark** (`src/retrieval.c`).
  - Party 1's differences are precomputed into `d1_buf` and `e1_buf`
    (arrays), and the buffered loop gives the same result as the inline one.
  - The document loop gives the same share for every document.
  - The Gen block builds the two masked comparison functions.
- **The masked interval comparison** (`src/cmp.c`).
  - The dealer shifts the bounds by a mask r, creates two comparisons with
    payloads p − 1 and 1, and shares the wrap flag w = (xl_p > xr_p).
  - Party b's result is y_l + y_r + w_b. Only party 0's Eval runs in the
    benchmark; party 1's side is the protocol the comments describe.
  - The DCF library is replaced by the ideal function the comments
    describe: `x < alpha ? beta : 0`.
  - With that, the two results add up to 1 exactly when x lies in the
    cyclic interval [xl, xr) of the field, and to 0 otherwise.
- **`get_alpha_int_le`** (`src/dcf.c`). The loop ORs shifted bytes into a
  `uint64_t`, with shift, OR and AND modelled bit by bit on naturals. The
  configuration assertions in `main` are modelled too.

The helpers are copied between the benchmark files. `add_mod_p`,
`sub_mod_p` and `get_rand_field` appear in `src/dotprod.c`,
`src/retrieval.c` and `src/cmp.c`. `mul_mod_p` appears in `src/dotprod.c`
and `src/retrieval.c`. `u64_to_group` and `group_to_u64` appear in
`src/retrieval.c` and `src/cmp.c`. The copies differ only in whitespace and
comments, so each helper is modelled once. In the same way, `setup_dotprod_data`
(`src/retrieval.c:77-96`) is the same loop as `setup_data`, and
`DotProduct.SetupData` models both.

Randomness is a parameter: `rand: seq<Buf8>` is the sequence of 8-byte
buffers that successive `get_rand_field` calls read. `Draw(rand, i)` is what
the i-th call returns. The draw order of each block is the C order:
- `setup_data`: nine draws per index;
- the Gen of `src/cmp.c`: xl, xr, r, w0;
- the Gen block of `src/retrieval.c`: r, xl, xr.

Files: `bytes.dfy` (Bytes), `field.dfy` (Field), `group.dfy` (Group),
`codec.dfy` (GroupCodec), `alpha.dfy` (Alpha), `dotprod.dfy` (DotProduct),
`cmp.dfy` (Cmp), `retrieval.dfy` (Retrieval).

## Model

| member | source | states |
|---|---|---|
| Field.Wrap64 | src/dcf/group/u64.c:19-20 | uint64_t arithmetic: reduction modulo 2^64; Field.Wrap64Fits states that a value that fits is unchanged, and Group.AddReduced uses the wrap of line 19 |
| Field.Wrap64Fits | src/dcf/group/u64.c:19-20 | a value below 2^64 is left alone by the wrap-around |
| Field.Wrap128 | src/dotprod.c:42-52 | unsigned __int128 arithmetic: reduction modulo 2^128; what it gives in the helpers is stated by Field.AddModP, Field.SubModPWide and Field.MulModP |
| Field.ReduceOnce | src/dcf/group/u64.c:15-18 | one conditional subtraction of p leaves any u64 fully reduced: below p and equal to x mod p (2^64 < 2p) |
| Field.AddModP | src/dotprod.c:42-44 | add_mod_p is (a + b) mod p and below p for all u64 a, b; the 128-bit sum cannot wrap |
| Field.SubModP | src/dotprod.c:46-48 | sub_mod_p is below p, and it is (a − b) mod p exactly when b <= a + p |
| Field.SubModPWide | src/dotprod.c:46-48 | the 128-bit intermediate a + p − b reduces to (a − b) mod p iff it does not wrap, i.e. iff b <= a + p (2^128 mod p = 3481) |
| Field.MulModP | src/dotprod.c:50-52 | mul_mod_p is (a·b) mod p and below p |
| Field.ProductFits128 | src/dotprod.c:50-52 | the product of two u64 values is below 2^128, so the widening multiply never wraps |
| Field.GetRandField | src/dotprod.c:33-40 | get_rand_field always returns a value below p |
| Field.GetRandFieldReduces | src/dotprod.c:33-40 | the value is the little-endian decoding of the 8 bytes, reduced mod p |
| Field.Draw | src/dotprod.c:33-40 | the i-th call of get_rand_field on the stream, below p |
| Field.DrawDecodes | src/dotprod.c:33-40 | the i-th call decodes exactly the i-th 8-byte buffer of the stream |
| Bytes.LEOfToLE | src/retrieval.c:58-67 | decoding the n-byte little-endian image of v gives v mod 2^(8n) |
| Bytes.LEOfToLEFits | src/retrieval.c:58-67 | decoding the image of a value that fits gives the value back |
| Bytes.BitOrDisjoint | src/dcf.c:33 | OR of a value below 2^k with a multiple of 2^k is their sum |
| Bytes.BitAndLowMask | src/dcf.c:35-37 | AND with 2^k − 1 keeps exactly the value mod 2^k |
| Bytes.BitOrBound | src/dcf.c:33 | OR of two values below 2^n stays below 2^n, so the OR fits a uint64_t |
| Group.ReduceInPlace | src/dcf/group/u64.c:15 | after the in-place conditional subtraction the stored value and the result are the old value mod p; bytes 8..15 unchanged |
| Group.StoreU64 | src/dcf/group/u64.c:19-20 | a 64-bit store writes the little-endian image into bytes 0..7, reads back as v, and leaves bytes 8..15 |
| Group.ClearHigh | src/dcf/group/u64.c:21 | memset(val + 8, 0, 8) zeroes bytes 8..15 and keeps bytes 0..7 and the value |
| Group.AddReduced | src/dcf/group/u64.c:19-20 | on reduced operands the branch of line 19, with its wrapping subtraction, yields (v + w) mod p, below p |
| Group.GroupAdd | src/dcf/group/u64.c:13-22 | val's value becomes (a mod p + b mod p) mod p, below p; bytes 8..15 of val are zero; rhs is unchanged unless it is val |
| Group.GroupNeg | src/dcf/group/u64.c:24-30 | val's value becomes (p − a mod p) mod p, below p; bytes 8..15 kept when a ≡ 0 (early return), zeroed otherwise |
| Group.NegReduced | src/dcf/group/u64.c:27-28 | (p − v) mod p is 0 for v = 0 and p − v otherwise |
| Group.GroupZero | src/dcf/group/u64.c:32-34 | bytes 0..7 become zero, the value 0, and bytes 8..15 are unchanged |
| Group.AddNegationIsZero | src/dcf/group/u64.c:13-30 | group_neg on a copy then group_add into the original gives the value 0 |
| Group.NegCancels | src/dcf/group/u64.c:24-30 | a reduced value plus its negation is 0 mod p |
| Group.GroupToU64 | src/retrieval.c:63-67 | the uint64_t read from bytes 0..7 on a little-endian host; its inverse on images is GroupCodec.U64ToGroup, by GroupCodec.GroupRoundTrip |
| GroupCodec.GroupImage | src/retrieval.c:58-61 | the image is 16 bytes: v little-endian in bytes 0..7, zeros after |
| GroupCodec.U64ToGroup | src/retrieval.c:58-61 | u64_to_group leaves exactly the image of v in the buffer |
| GroupCodec.GroupRoundTrip | src/retrieval.c:58-67 | group_to_u64(u64_to_group(v)) == v |
| Alpha.ConfigBoundsShifts | src/dcf.c:42-43 | under the asserted configuration the bit length is at most 64 and every shift i·8 of the loop is below 64 |
| Alpha.ConfigHolds | src/dcf.c:42-43 | kAlphaBitlen = 64 and kAlphaBytelen = 8 pass both assertions |
| Alpha.BitAndBound | src/dcf.c:36 | the AND with the mask does not exceed the value masked |
| Alpha.Shl64 | src/dcf.c:33 | `x << s` on uint64_t for s < 64; Alpha.ShiftByteExact states that a byte shifted by 8i loses no bits |
| Alpha.Or64 | src/dcf.c:33 | the OR-assignment on uint64_t; Bytes.BitOrBound keeps it within 64 bits and Bytes.BitOrDisjoint makes it a sum on disjoint bits |
| Alpha.And64 | src/dcf.c:36 | the AND-assignment on uint64_t; Alpha.BitAndBound and Bytes.BitAndLowMask state what the mask keeps |
| Alpha.ShiftByteExact | src/dcf.c:33 | a byte shifted left by 8i, i < 8, loses no bits: it is byte·2^(8i) |
| Alpha.GetAlphaIntLe | src/dcf.c:30-39 | the result is the sum of alpha[i]·256^i over i < bytelen, mod 2^bitlen; bytes from bytelen on do not affect the result; with bitlen 64 no mask applies |
| Alpha.DecodeU64Image | src/dcf.c:73-74 | decoding the 8-byte memcpy image of a uint64_t returns that uint64_t |
| DotProduct.Push | src/dotprod.c:81-98 | one more index of a shared vector, first share drawn and second share from ShareOf; that it keeps the vector opening to its secrets is DotProduct.OpensToAppend |
| DotProduct.ShareOf | src/dotprod.c:81-82 | share_1 = sub_mod_p(v, share_0) is reduced and add_mod_p(share_0, share_1) == v |
| DotProduct.DrawsAtIndex | src/dotprod.c:72-79 | entry j of the draws at an offset is draw 9j + offset |
| DotProduct.ProductsAtIndex | src/dotprod.c:76-78 | entry j of the products is mul_mod_p(x_j, y_j) of the draws 9j + 2 and 9j + 3 |
| DotProduct.OpensToAppend | src/dotprod.c:80-98 | sharing one more secret keeps both share vectors opening to the secrets |
| DotProduct.OpensToShared | src/dotprod.c:71-99 | full-length shares that open to the secrets make a valid shared vector whose openings are the secrets |
| DotProduct.DrawnNext | src/dotprod.c:80-94 | sharing draw 9k + offset extends a vector that opens to its first k draws to one that opens to k + 1 |
| DotProduct.MultipliedNext | src/dotprod.c:96-98 | likewise for z with secret mul_mod_p(x_k, y_k) |
| DotProduct.SetupEmpty | src/dotprod.c:71-72 | before the loop all five vectors are empty and open to nothing |
| DotProduct.SetupNext | src/dotprod.c:73-98 | one pass of the loop extends all five vectors to index k + 1 |
| DotProduct.SetupIndex | src/retrieval.c:78-95 | the loop body, with the draws in C order, extends the shares of a, b, x, y, z to index k + 1 |
| DotProduct.SetupShares | src/dotprod.c:71-100 | after all kDim indices: all shares reduced, (x, y, z) a triple with z_k = x_k·y_k mod p, and a, b, x, y open to draws 9k, 9k + 1, 9k + 2, 9k + 3 |
| DotProduct.SetupData | src/dotprod.c:71-100 | setup_data establishes share reconstruction for a, b, x, y, z and z = x·y mod p at every index |
| DotProduct.DifferenceArith | src/dotprod.c:125-157 | combining the parties' sub_mod_p differences with add_mod_p gives the difference of the opened values mod p |
| DotProduct.DifferenceCongruence | src/dotprod.c:125-157 | the same congruence on integers |
| DotProduct.OpenedDifference | src/dotprod.c:125-157 | d_k = a_k − x_k and e_k = b_k − y_k mod p, for the opened values |
| DotProduct.Party0Arith | src/dotprod.c:162-166 | the code's order add_mod_p(add_mod_p(z, e·x), d·y) is (z + e·x + d·y) mod p |
| DotProduct.Add3Mod | src/dotprod.c:165-166 | two add_mod_p of reduced terms give the reduced three-term sum |
| DotProduct.BeaverCongruence | src/dotprod.c:159-169 | z + e·x + d·y + d·e ≡ a·b for d ≡ a − x, e ≡ b − y, z ≡ x·y |
| DotProduct.BeaverShares | src/dotprod.c:159-169 | on share values: with z_0 + z_1 ≡ (x_0 + x_1)(y_0 + y_1), d = a − x and e = b − y reduced mod p, the two parties' shares of c sum to a·b mod p |
| DotProduct.BeaverIdentity | src/dotprod.c:159-169 | party 0's share z_0 + e·x_0 + d·y_0 plus party 1's z_1 + e·x_1 + d·y_1 + d·e is a_k·b_k mod p |
| DotProduct.DotProductReconstructs | src/dotprod.c:146-173 | summed over all indices, the two parties' totals open to the dot product of a and b |
| DotProduct.LocalDifferences | src/dotprod.c:122-128 | local_d and local_e hold sub_mod_p of party 0's shares at every index |
| DotProduct.AccumulateArith | src/dotprod.c:172 | folding a reduced term into a reduced accumulator with add_mod_p gives the reduced sum |
| DotProduct.AccumulateStep | src/dotprod.c:156-172 | one index of the loop turns the share of the first k terms into that of the first k + 1 |
| DotProduct.AccumulateIndex | src/dotprod.c:148-173 | the loop body at index k, from both parties' differences, maps Sum0 of k terms mod p to that of k + 1 |
| DotProduct.DotProductParty0 | src/dotprod.c:122-173 | final_res_share is party 0's sum of its shares of a_k·b_k, mod p |
| Cmp.IdealEval | src/cmp.c:100-110 | the ideal DCF is below p: the reduced payload below the threshold, 0 from it on |
| Cmp.LeftFunc | src/cmp.c:100-104 | the comparison cf_l: threshold bytes of xl_p, payload image of p − 1; its threshold and payload are stated by Cmp.FuncFacts |
| Cmp.RightFunc | src/cmp.c:106-110 | the comparison cf_r: threshold bytes of xr_p, payload image of 1; its threshold and payload are stated by Cmp.FuncFacts |
| Cmp.MakeCmpFuncs | src/cmp.c:97-110 | the thresholds are the bytes of xl_p = (xl + r) mod p and xr_p = (xr + r) mod p; the payloads read back as p − 1 and 1 |
| Cmp.FuncFacts | src/cmp.c:97-110 | get_alpha_int_le of the thresholds are the masked bounds; the payloads are p − 1 and 1 |
| Cmp.CmpGen | src/cmp.c:93-121 | the dealer draws xl, xr, r, then w0, and hands out both comparisons and w = (xl_p > xr_p) |
| Cmp.WrapFlag | src/cmp.c:119 | the definition of w from the masked bounds; what w means for the unmasked bounds is stated by Cmp.WrapFlagMeaning |
| Cmp.WrapFlagMeaning | src/cmp.c:93-119 | for bounds in either order, w = 1 exactly when adding the mask carries xr past p but not xl, or when both or neither carry and xl > xr |
| Cmp.PayloadIsNegation | src/cmp.c:101-108 | the left payload p − 1 is the group negation of the right payload 1 |
| Cmp.MaskCancels | src/cmp.c:97-98 | bounds and input shifted by the same r keep their differences mod p |
| Cmp.MaskPreservesInterval | src/cmp.c:180 | z = x + r lies in [xl_p, xr_p) exactly when x lies in [xl, xr), both cyclic |
| Cmp.IdealCombination | src/cmp.c:100-121 | with ideal comparisons y_l + y_r + w mod p is 1 inside the cyclic interval and 0 outside |
| Cmp.Combine | src/cmp.c:192 | res = add_mod_p(add_mod_p(y_l, y_r), w0) is below p and is (y_l + y_r + w0) mod p |
| Cmp.WShare1 | src/cmp.c:121 | w1 = sub_mod_p(w, w0) is reduced and w0 + w1 ≡ w |
| Cmp.CombineShares | src/cmp.c:187-192 | the sum of both parties' res is the sum of the reconstructed left, right and flag, mod p |
| Cmp.IdealLeft | src/cmp.c:100-104 | the ideal left comparison at z is p − 1 below xl_p and 0 otherwise |
| Cmp.IdealRight | src/cmp.c:106-110 | the ideal right comparison at z is 1 below xr_p and 0 otherwise |
| Cmp.CombineCorrect | src/cmp.c:187-192 | shares of ideal outputs at z combine to membership of z in [lo, hi) |
| Cmp.CmpReconstructs | src/cmp.c:100-121 | when the DCF outputs add up to the ideal comparisons at z = x + r, the parties' results add up to 1 if x is in the cyclic [xl, xr) and to 0 otherwise |
| Cmp.EvalAll | src/cmp.c:174-194 | for every input, res is (y_l(z) + y_r(z) + w0) mod p with z = x + r, below p |
| Retrieval.PrecomputeParty1 | src/retrieval.c:141-144 | d1_buf[k] = share_a_1[k] − share_x_1[k] and e1_buf[k] = share_b_1[k] − share_y_1[k] mod p |
| Retrieval.DotProductBuffered | src/retrieval.c:152-173 | reading d1, e1 from the buffers gives the same final_res_share as the inline loop: party 0's sum mod p |
| Retrieval.BufferedMatchesInline | src/retrieval.c:155-173 | the buffered and inline results are equal, and with party 1's total they open to the dot product |
| Retrieval.DocumentLoop | src/retrieval.c:151-176 | every one of the kN documents gets the same share, since the body does not read iter |
| Retrieval.RetrievalGen | src/retrieval.c:187-201 | draws r, xl, xr in that order and builds the left and right comparisons of the cmp.c dealer |

## Left out

- Timing, `printf` and `clock_gettime` are left out. They are I/O.
- `rand`, `srand` and `gen_rand_bytes` become the parameter `rand`. It is an arbitrary sequence of 8-byte buffers.
- The DCF library (`dcf_gen`, `dcf_eval`, `prg_init`, keys, `Bits`, `Point`) is not shown and not modelled. Its outputs are parameters (`Cmp.EvalAll`). Correctness assumes they add up to the ideal comparison (`Cmp.CmpReconstructs` requires exactly that). The seed buffers and the Eval loops of `src/retrieval.c` call only the library, so they are left out.
- Cmp.IdealEval: the payload is reduced mod p, as group_add would reduce it. For the payloads p − 1 and 1 used here this is the identity.
- OpenMP is left out, and each parallel loop is a sequential loop. Its iterations are independent.
- `malloc`, `free`, `volatile` sinks and the `0xDEADBEEF` check are left out. `DocumentLoop` returns the sinks instead.
- The `kN` repetitions of the `src/dotprod.c` benchmark are not modelled. Each repetition computes the same value, so `DotProductParty0` models one of them.
- DotProduct.SetupData: the global share arrays are values of type `Shared`. They grow by one index per pass (`Push`), rather than being `uint64_t` arrays written in place. Every entry is written once, in index order, and nothing aliases them, so the contents are the same.
- Cmp.WShare1: w1 is only a comment at `src/cmp.c:121`, and party 1's Eval never runs. It is defined so that reconstruction can be stated (`Cmp.CombineShares`, `Cmp.CombineCorrect`, `Cmp.CmpReconstructs`).
- DotProduct.Term1: party 1's share, with its extra d·e term, is never computed in the source (only the comment at `src/dotprod.c:169` describes it). It is defined so that the Beaver identity can be stated.
- The host is assumed to be little-endian (`memcpy` of a `uint64_t`, the cast `(uint64_t *)val`), since the code relies on it.
- `get_alpha_int_le` is modelled with bitlen and bytelen as parameters. `AlphaBitlen = 64` and `AlphaBytelen = 8` are the compiled values. The comparison `Threshold` uses the unmasked bitlen = 64 case.
- The Python scripts are left out. They are data plotting.

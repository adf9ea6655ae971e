/** The masked interval comparison of src/cmp.c. The dealer shifts both
    bounds xl, xr and the input x by a common mask r, and builds two DCFs:
    one on xl_p with payload p - 1 and one on xr_p with payload 1. It also
    shares the wrap flag w = (xl_p > xr_p) as w0 + w1. Each party adds its
    two DCF outputs and its share of w. The DCF library itself is
    abstracted to the ideal function it computes, x < alpha ? beta : 0. */
module Cmp {
  import opened Bytes
  import opened Field
  import opened Group
  import opened GroupCodec
  import opened Alpha

  /** A CmpFunc with kLtAlpha: the threshold alpha as the bytes of a
      uint64_t with kAlphaBitlen bits, and the payload beta as a group element. */
  datatype CmpFunc = CmpFunc(alpha: seq<Byte>, beta: seq<Byte>)

  /** The threshold the DCF reads out of alpha with get_alpha_int_le; with
      kAlphaBitlen = 64 no mask applies (GetAlphaIntLe). */
  function Threshold(cf: CmpFunc): nat
    requires |cf.alpha| >= AlphaBytelen
  {
    LE(cf.alpha[..AlphaBytelen])
  }

  /** A comparison's value: the payload below the bound, zero from it on. */
  function Below(z: int, bound: int, payload: int): int {
    if z < bound then payload else 0
  }

  /** The ideal DCF for kLtAlpha: beta below the threshold, the group's zero
      from it on. */
  function IdealEval(cf: CmpFunc, x: U64): (y: U64)
    requires |cf.alpha| >= AlphaBytelen && |cf.beta| == Lambda
    ensures y < P
    ensures x < Threshold(cf) ==> y == GroupToU64(cf.beta) % P
    ensures x >= Threshold(cf) ==> y == 0
  {
    Below(x, Threshold(cf), ReduceOnce(GroupToU64(cf.beta)))
  }

  /** The left comparison: threshold xl + r, payload p - 1. */
  function LeftFunc(xl: U64, r: U64): CmpFunc {
    CmpFunc(ToLE(AddModP(xl, r), 8), GroupImage(P - 1))
  }

  /** The right comparison: threshold xr + r, payload 1. */
  function RightFunc(xr: U64, r: U64): CmpFunc {
    CmpFunc(ToLE(AddModP(xr, r), 8), GroupImage(1))
  }

  /** What the dealer hands out: the two comparison functions (the DCF keys
      encode them), the wrap flag and party 0's share of it. */
  datatype Dealer = Dealer(cfL: CmpFunc, cfR: CmpFunc, w: U64, w0: U64)

  /** The wrap flag `(xl_p > xr_p) ? 1 : 0`. */
  function WrapFlag(xlP: U64, xrP: U64): (w: U64)
    ensures w <= 1
    ensures w == 1 <==> xlP > xrP
  {
    if xlP > xrP then 1 else 0
  }

  function DealerOf(xl: U64, xr: U64, r: U64, w0: U64): Dealer {
    Dealer(LeftFunc(xl, r), RightFunc(xr, r), WrapFlag(AddModP(xl, r), AddModP(xr, r)), w0)
  }

  /** The masked bounds and the payload buffers, each payload written into a
      kLambda-byte buffer with u64_to_group (src/cmp.c and the Gen block of
      src/retrieval.c). */
  method MakeCmpFuncs(xl: U64, xr: U64, r: U64) returns (cfL: CmpFunc, cfR: CmpFunc)
    ensures cfL == LeftFunc(xl, r) && cfR == RightFunc(xr, r)
    ensures Threshold(cfL) == (xl + r) % P && Threshold(cfR) == (xr + r) % P
    ensures GroupToU64(cfL.beta) == P - 1 && GroupToU64(cfR.beta) == 1
  {
    var xlP := AddModP(xl, r);
    var xrP := AddModP(xr, r);
    var plVal := P - 1;
    var pl := new Byte[Lambda];
    U64ToGroup(pl, plVal);
    cfL := CmpFunc(ToLE(xlP, 8), pl[..]);
    var prVal := 1;
    var pr := new Byte[Lambda];
    U64ToGroup(pr, prVal);
    cfR := CmpFunc(ToLE(xrP, 8), pr[..]);
    FuncFacts(xl, xr, r);
  }

  /** The thresholds are the masked bounds and the payloads are p - 1 and 1. */
  lemma FuncFacts(xl: U64, xr: U64, r: U64)
    ensures Threshold(LeftFunc(xl, r)) == (xl + r) % P
    ensures Threshold(RightFunc(xr, r)) == (xr + r) % P
    ensures GroupToU64(LeftFunc(xl, r).beta) == P - 1 && GroupToU64(RightFunc(xr, r).beta) == 1
  {
    DecodeU64Image(AddModP(xl, r));
    DecodeU64Image(AddModP(xr, r));
    GroupRoundTrip(P - 1);
    GroupRoundTrip(1);
  }

  /** The Gen part of main (lines 93-121): xl, xr and the mask r are the
      first three draws, w0 the fourth. */
  method CmpGen(rand: seq<Buf8>) returns (d: Dealer)
    requires |rand| >= 4
    ensures d == DealerOf(Draw(rand, 0), Draw(rand, 1), Draw(rand, 2), Draw(rand, 3))
  {
    var xl := Draw(rand, 0);
    var xr := Draw(rand, 1);
    var r := Draw(rand, 2);
    var xlP := AddModP(xl, r);
    var xrP := AddModP(xr, r);
    var cfL, cfR := MakeCmpFuncs(xl, xr, r);
    var w := WrapFlag(xlP, xrP);
    var w0 := Draw(rand, 3);
    d := Dealer(cfL, cfR, w, w0);
  }

  /** The payload of the left comparison is the group negation of the right
      one: p - 1 is -1. */
  lemma PayloadIsNegation(xl: U64, xr: U64, r: U64)
    ensures GroupToU64(LeftFunc(xl, r).beta) == (P - GroupToU64(RightFunc(xr, r).beta) % P) % P
  {
    assert GroupToU64(RightFunc(xr, r).beta) == 1 && GroupToU64(LeftFunc(xl, r).beta) == P - 1 by {
      FuncFacts(xl, xr, r);
    }
    ModUnique(1, P, 0, 1);
    ModUnique(P - 1, P, 0, P - 1);
  }

  /** What the flag says about the unmasked bounds, in either order: it is
      set exactly when the mask carries xr past p but not xl, or when both
      or neither carry and xl was already above xr. */
  lemma WrapFlagMeaning(xl: U64, xr: U64, r: U64)
    requires xl < P && xr < P && r < P
    ensures WrapFlag(AddModP(xl, r), AddModP(xr, r)) == 1 <==>
      (xl as int + r < P <= xr as int + r) || ((xl as int + r < P) == (xr as int + r < P) && xl > xr)
  {
    ReduceSum(xl, r);
    ReduceSum(xr, r);
  }

  /** The sum of two reduced values reduces with one subtraction of p. */
  lemma ReduceSum(a: U64, b: U64)
    requires a < P && b < P
    ensures (a as int + b) % P == if a as int + b < P then a as int + b else a as int + b - P
  {
    if a as int + b >= P {
      ModUnique(a as int + b, P, 1, a as int + b - P);
    } else {
      ModUnique(a as int + b, P, 0, a as int + b);
    }
  }

  /** z = add_mod_p(x, r) and the masked bounds are shifted by the same r,
      so their differences modulo p are those of the unmasked values. */
  lemma MaskCancels(x: U64, y: U64, r: U64)
    ensures (AddModP(x, r) as int - AddModP(y, r)) % P == (x as int - y) % P
  {
    var u, v: int := x as int + r, y as int + r;
    ModEqMod(u);
    ModEqMod(v);
    ModEqNeg(v % P, v);
    ModEqAdd(u % P, u, -(v % P), -v);
    assert u - v == x as int - y;
    ModEqIff(u % P - v % P, x as int - y);
  }

  /** The cyclic interval [lo, hi) of the field: [lo, hi) when lo <= hi, and
      [lo, p) together with [0, hi) when it wraps. */
  predicate InCyclic(z: int, lo: int, hi: int) {
    if lo <= hi then lo <= z < hi else lo <= z || z < hi
  }

  /** Membership in a cyclic interval depends only on the offsets from its
      lower end. */
  lemma CyclicByOffset(z: U64, lo: U64, hi: U64)
    requires z < P && lo < P && hi < P
    ensures InCyclic(z, lo, hi) <==> (z as int - lo) % P < (hi as int - lo) % P
  {
    OffsetMod(z, lo);
    OffsetMod(hi, lo);
  }

  lemma OffsetMod(a: U64, b: U64)
    requires a < P && b < P
    ensures (a as int - b) % P == if a >= b then a as int - b else a as int - b + P
  {
    if a >= b {
      ModUnique(a as int - b, P, 0, a as int - b);
    } else {
      ModUnique(a as int - b, P, -1, a as int - b + P);
    }
  }

  /** Masking preserves membership: z = x + r lies in [xl_p, xr_p) exactly
      when x lies in [xl, xr), both cyclic. */
  lemma MaskPreservesInterval(x: U64, xl: U64, xr: U64, r: U64)
    requires x < P && xl < P && xr < P
    ensures InCyclic(AddModP(x, r), AddModP(xl, r), AddModP(xr, r)) <==> InCyclic(x, xl, xr)
  {
    CyclicByOffset(AddModP(x, r), AddModP(xl, r), AddModP(xr, r));
    CyclicByOffset(x, xl, xr);
    MaskCancels(x, xl, r);
    MaskCancels(xr, xl, r);
  }

  /** With ideal comparisons, -[z < lo] + [z < hi] + [lo > hi] is 1 inside the
      cyclic interval [lo, hi) and 0 outside it, modulo p. */
  lemma IdealCombination(z: U64, lo: U64, hi: U64)
    requires z < P && lo < P && hi < P
    ensures (Below(z, lo, P - 1) + Below(z, hi, 1) + WrapFlag(lo, hi)) % P
      == if InCyclic(z, lo, hi) then 1 else 0
  {
    var t := Below(z, lo, P - 1) + Below(z, hi, 1) + WrapFlag(lo, hi);
    if t == P {
      ModUnique(t, P, 1, 0);
    } else if t == P + 1 {
      ModUnique(t, P, 1, 1);
    } else {
      assert t == 0 || t == 1 || t == P - 1;
      ModUnique(t, P, 0, t);
    }
  }

  /** cmp.c line 192: party b's result res = y_l + y_r + w_b. */
  function Combine(yl: U64, yr: U64, wShare: U64): (res: U64)
    ensures res < P
    ensures res == (yl as int + yr + wShare) % P
  {
    ModAddMod(yl as int + yr, wShare);
    AddModP(AddModP(yl, yr), wShare)
  }

  /** Party 1's share of the wrap flag, `w1 = sub_mod_p(w, w0)` (line 121). */
  function WShare1(w: U64, w0: U64): (w1: U64)
    requires w0 < P
    ensures w1 < P && (w0 as int + w1) % P == w % P
  {
    var w1 := SubModP(w, w0);
    ModAddMod(w as int - w0, w0);
    assert w0 as int + w1 == w1 as int + w0;
    w1
  }

  /** Adding the two parties' results gives, modulo p, the sum of the
      three reconstructed pairs: left, right and the wrap flag. */
  lemma CombineShares(yl0: U64, yr0: U64, w0: U64, yl1: U64, yr1: U64, w1: U64, left: int, right: int, w: int)
    requires (yl0 as int + yl1) % P == left % P && (yr0 as int + yr1) % P == right % P
    requires (w0 as int + w1) % P == w % P
    ensures AddModP(Combine(yl0, yr0, w0), Combine(yl1, yr1, w1)) == (left + right + w) % P
  {
    var a, b: int := yl0 as int + yr0 + w0, yl1 as int + yr1 + w1;
    var l, m, n: int := yl0 as int + yl1, yr0 as int + yr1, w0 as int + w1;
    assert AddModP(Combine(yl0, yr0, w0), Combine(yl1, yr1, w1)) == (a + b) % P by {
      ModAddMod(a, b % P);
      ModAddMod(a, b);
    }
    assert a + b == l + m + n;
    assert ModEq(l + m + n, left + right + w) by {
      ModEqIff(l, left);
      ModEqIff(m, right);
      ModEqIff(n, w);
      ModEqAdd(l, left, m, right);
      ModEqAdd(l + m, left + right, n, w);
    }
    ModEqIff(l + m + n, left + right + w);
  }

  /** The ideal left comparison at z: p - 1 below xl + r, else 0. */
  lemma IdealLeft(xl: U64, r: U64, z: U64)
    ensures IdealEval(LeftFunc(xl, r), z) == Below(z, AddModP(xl, r), P - 1)
  {
    FuncFacts(xl, 0, r);
    ModUnique(P - 1, P, 0, P - 1);
  }

  /** The ideal right comparison at z: 1 below xr + r, else 0. */
  lemma IdealRight(xr: U64, r: U64, z: U64)
    ensures IdealEval(RightFunc(xr, r), z) == Below(z, AddModP(xr, r), 1)
  {
    FuncFacts(0, xr, r);
    ModUnique(1, P, 0, 1);
  }

  /** The reconstruction on values: when the DCF outputs add up to
      Below(z, lo, p - 1) and Below(z, hi, 1), and the wrap-flag shares add
      up to the flag, the two results add up to membership of z in the
      cyclic interval [lo, hi). */
  lemma CombineCorrect(z: U64, lo: U64, hi: U64, w0: U64, yl0: U64, yl1: U64, yr0: U64, yr1: U64)
    requires z < P && lo < P && hi < P && w0 < P
    requires AddModP(yl0, yl1) == Below(z, lo, P - 1) && AddModP(yr0, yr1) == Below(z, hi, 1)
    ensures AddModP(Combine(yl0, yr0, w0), Combine(yl1, yr1, WShare1(WrapFlag(lo, hi), w0)))
      == if InCyclic(z, lo, hi) then 1 else 0
  {
    var flag: U64 := WrapFlag(lo, hi);
    var w1 := WShare1(flag, w0);
    var left, right := Below(z, lo, P - 1), Below(z, hi, 1);
    assert (yl0 as int + yl1) % P == left % P by {
      ModUnique(left, P, 0, left);
    }
    assert (yr0 as int + yr1) % P == right % P by {
      ModUnique(right, P, 0, right);
    }
    var sum := AddModP(Combine(yl0, yr0, w0), Combine(yl1, yr1, w1));
    assert sum == (left + right + flag) % P by {
      CombineShares(yl0, yr0, w0, yl1, yr1, w1, left, right, flag);
    }
    IdealCombination(z, lo, hi);
  }

  /** Correctness of the comparison: when the parties' DCF outputs add up to
      the ideal comparisons at z = x + r, their results add up to 1 if x lies
      in the cyclic interval [xl, xr) and to 0 otherwise. */
  lemma CmpReconstructs(xl: U64, xr: U64, r: U64, w0: U64, x: U64, yl0: U64, yl1: U64, yr0: U64, yr1: U64)
    requires xl < P && xr < P && x < P && w0 < P
    requires AddModP(yl0, yl1) == IdealEval(LeftFunc(xl, r), AddModP(x, r))
    requires AddModP(yr0, yr1) == IdealEval(RightFunc(xr, r), AddModP(x, r))
    ensures AddModP(Combine(yl0, yr0, w0), Combine(yl1, yr1, WShare1(DealerOf(xl, xr, r, w0).w, w0)))
      == if InCyclic(x, xl, xr) then 1 else 0
  {
    var z, lo, hi := AddModP(x, r), AddModP(xl, r), AddModP(xr, r);
    assert DealerOf(xl, xr, r, w0).w == WrapFlag(lo, hi);
    IdealLeft(xl, r, z);
    IdealRight(xr, r, z);
    CombineCorrect(z, lo, hi, w0, yl0, yl1, yr0, yr1);
    MaskPreservesInterval(x, xl, xr, r);
  }

  /** The Eval loop of main for one party (lines 174-194): for every input x,
      z = x + r, the party's two DCF outputs at z, and its result. The DCF
      evaluations under the party's keys are given as functions. */
  method EvalAll(xs: seq<U64>, r: U64, w0: U64, evalL: U64 -> U64, evalR: U64 -> U64) returns (res: seq<U64>)
    ensures |res| == |xs|
    ensures forall i :: 0 <= i < |xs| ==> res[i] < P
    ensures forall i :: 0 <= i < |xs| ==>
      res[i] == (evalL(AddModP(xs[i], r)) as int + evalR(AddModP(xs[i], r)) + w0) % P
  {
    res := [];
    for i := 0 to |xs|
      invariant |res| == i
      invariant forall j :: 0 <= j < i ==>
        res[j] == Combine(evalL(AddModP(xs[j], r)), evalR(AddModP(xs[j], r)), w0)
    {
      var x := xs[i];
      var z := AddModP(x, r);
      var yl := evalL(z);
      var yr := evalR(z);
      res := res + [Combine(yl, yr, w0)];
    }
  }
}

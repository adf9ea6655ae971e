/** The group of integers modulo p on kLambda = 16 byte elements: the value
    is the little-endian uint64_t in bytes 0..7, and group_add, group_neg
    and group_zero update the caller's buffer in place (src/dcf/group/u64.c). */
module Group {
  import opened Bytes
  import opened Field

  /** kLambda: the byte length of a group element. */
  const Lambda: nat := 16

  /** The uint64_t stored in bytes 0..7 of a buffer, as `*(uint64_t *)val`
      or memcpy reads it on a little-endian host. */
  function GroupToU64(g: seq<Byte>): U64
    requires |g| >= 8
  {
    Pow2Of64();
    LE(g[..8])
  }

  /** `*(uint64_t *)g = v`: a 64-bit store into bytes 0..7. */
  method StoreU64(g: array<Byte>, v: U64)
    requires g.Length >= 8
    modifies g
    ensures g[..8] == ToLE(v, 8)
    ensures g[8..] == old(g[8..])
    ensures GroupToU64(g[..]) == v
  {
    var image := ToLE(v, 8);
    forall i | 0 <= i < 8 {
      g[i] := image[i];
    }
    assert g[..][..8] == image;
    Pow2Of64();
    LEOfToLEFits(v, 8);
  }

  /** `memset(val + 8, 0, 8)`: clears bytes 8..15 and keeps the value. */
  method ClearHigh(g: array<Byte>)
    requires g.Length == Lambda
    modifies g
    ensures g[..8] == old(g[..8])
    ensures g[8..] == Zeros(8)
    ensures GroupToU64(g[..]) == GroupToU64(old(g[..]))
  {
    forall i | 8 <= i < 16 {
      g[i] := 0;
    }
    assert g[..][..8] == old(g[..])[..8];
  }

  /** `if (*val64 >= kPrime) *val64 -= kPrime;` (lines 15 and 26): one
      conditional subtraction, stored back, which fully reduces the value. */
  method ReduceInPlace(val: array<Byte>) returns (v: U64)
    requires val.Length == Lambda
    modifies val
    ensures v == GroupToU64(old(val[..])) % P
    ensures GroupToU64(val[..]) == v
    ensures val[8..] == old(val[8..])
  {
    v := GroupToU64(val[..]);
    if v >= P {
      ModUnique(v, P, 1, v - P);
      Wrap64Fits(v - P);
      v := Wrap64(v - P);
      StoreU64(val, v);
    } else {
      ModUnique(v, P, 0, v);
    }
  }

  /** Lines 19-20 of group_add on reduced operands: when v >= p - w the code
      adds w - p, a subtraction that wraps modulo 2^64, and the addition
      wraps back, so the stored value is exactly v + w - p; otherwise v + w,
      which is below p. Either way the result is (v + w) mod p. */
  function AddReduced(v: U64, w: U64): (r: U64)
    requires v < P && w < P
    ensures r < P
    ensures r == (v + w) % P
  {
    Wrap64Fits(P - w);
    if v >= P - w then
      var below := Wrap64(w - P);
      assert below == w - P + TWO64 by {
        ModUnique(w - P, TWO64, -1, w - P + TWO64);
      }
      ModUnique(v + below, TWO64, 1, v + w - P);
      ModUnique(v + w, P, 1, v + w - P);
      Wrap64(v + below)
    else
      ModUnique(v + w, P, 0, v + w);
      Wrap64Fits(v + w);
      Wrap64(v + w)
  }

  /** group_add: val := val + rhs in the group. Both operands are first
      reduced with one conditional subtraction (val in memory, rhs in a
      local), then added with AddReduced, and bytes 8..15 of val are
      cleared. val and rhs may be the same buffer. */
  method GroupAdd(val: array<Byte>, rhs: array<Byte>)
    requires val.Length == Lambda && rhs.Length == Lambda
    modifies val
    ensures GroupToU64(val[..]) == (GroupToU64(old(val[..])) % P + GroupToU64(old(rhs[..])) % P) % P
    ensures GroupToU64(val[..]) < P
    ensures val[8..] == Zeros(8)
    ensures val != rhs ==> rhs[..] == old(rhs[..])
  {
    ghost var a, b := GroupToU64(val[..]), GroupToU64(rhs[..]);
    var v := ReduceInPlace(val);
    var rhs64 := ReduceOnce(GroupToU64(rhs[..]));
    assert rhs64 == b % P by {
      if rhs == val {
        assert b == a;
      }
    }
    v := AddReduced(v, rhs64);
    assert v == (a % P + b % P) % P;
    StoreU64(val, v);
    ClearHigh(val);
  }

  /** group_neg: val := -val in the group. After reducing val in place,
      a zero value returns early and keeps bytes 8..15; otherwise p - val,
      which does not wrap, is stored and bytes 8..15 are cleared. */
  method GroupNeg(val: array<Byte>)
    requires val.Length == Lambda
    modifies val
    ensures GroupToU64(val[..]) == (P - GroupToU64(old(val[..])) % P) % P
    ensures GroupToU64(val[..]) < P
    ensures GroupToU64(old(val[..])) % P == 0 ==> val[8..] == old(val[8..])
    ensures GroupToU64(old(val[..])) % P != 0 ==> val[8..] == Zeros(8)
  {
    var v := ReduceInPlace(val);
    NegReduced(v);
    if v == 0 {
      return;
    }
    Wrap64Fits(P - v);
    v := Wrap64(P - v);
    StoreU64(val, v);
    ClearHigh(val);
  }

  lemma NegReduced(v: int)
    requires 0 <= v < P
    ensures (P - v) % P == if v == 0 then 0 else P - v
  {
  }

  /** group_zero: `memset(val, 0, 8)` clears the value and leaves bytes 8..15. */
  method GroupZero(val: array<Byte>)
    requires val.Length == Lambda
    modifies val
    ensures val[..8] == Zeros(8)
    ensures GroupToU64(val[..]) == 0
    ensures val[8..] == old(val[8..])
  {
    forall i | 0 <= i < 8 {
      val[i] := 0;
    }
    assert val[..][..8] == Zeros(8);
    LEOfZeros(8);
  }

  /** Adding the negation of an element to a copy of it gives the identity:
      group_neg on one buffer, then group_add into the other. */
  method AddNegationIsZero(x: array<Byte>, y: array<Byte>)
    requires x.Length == Lambda && y.Length == Lambda && x != y
    requires x[..] == y[..]
    modifies x, y
    ensures GroupToU64(x[..]) == 0
    ensures GroupToU64(y[..]) == (P - GroupToU64(old(y[..])) % P) % P
  {
    ghost var a := GroupToU64(x[..]);
    GroupNeg(y);
    ghost var n := GroupToU64(y[..]);
    GroupAdd(x, y);
    NegCancels(a % P, n);
  }

  lemma NegCancels(v: int, n: int)
    requires 0 <= v < P && n == (P - v) % P
    ensures (v + n % P) % P == 0
  {
    NegReduced(v);
  }
}

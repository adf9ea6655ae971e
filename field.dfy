/** The prime field of p = 2^64 - 59 as the C code computes in it:
    unsigned 64- and 128-bit integers with their wrap-around written out,
    the helpers add_mod_p, sub_mod_p, mul_mod_p and get_rand_field, and
    congruence modulo p. */
module Field {
  import opened Bytes

  /** kPrime, the largest prime below 2^64. */
  const P: int := 18446744073709551557
  const TWO64: int := 0x1_0000_0000_0000_0000
  const TWO128: int := 0x1_0000_0000_0000_0000_0000_0000_0000_0000

  type U64 = x: int | 0 <= x < TWO64
  type U128 = x: int | 0 <= x < TWO128

  /** An 8-byte buffer, as filled by gen_rand_bytes or copied by memcpy. */
  type Buf8 = s: seq<Byte> | |s| == 8 witness [0, 0, 0, 0, 0, 0, 0, 0]

  /** Arithmetic on uint64_t and unsigned __int128: reduction modulo the width. */
  function Wrap64(x: int): U64 { x % TWO64 }
  function Wrap128(x: int): U128 { x % TWO128 }

  /** A value that fits is left alone by the wrap-around. */
  lemma Wrap64Fits(x: int)
    requires 0 <= x < TWO64
    ensures Wrap64(x) == x
  {
  }

  /** Congruence modulo p. */
  ghost predicate ModEq(x: int, y: int) {
    (x - y) % P == 0
  }

  lemma ModEqIff(x: int, y: int)
    ensures ModEq(x, y) <==> x % P == y % P
  {
    var d := (x - y) / P;
    assert x - y == P * d + (x - y) % P;
    assert x == P * (x / P) + x % P;
    assert y == P * (y / P) + y % P;
    if x % P == y % P {
      ModUnique(x - y, P, x / P - y / P, 0);
    } else {
      assert x - y == P * (x / P - y / P) + (x % P - y % P);
      if x % P > y % P {
        ModUnique(x - y, P, x / P - y / P, x % P - y % P);
      } else {
        ModUnique(x - y, P, x / P - y / P - 1, P + x % P - y % P);
      }
    }
  }

  lemma ModEqMod(x: int)
    ensures ModEq(x % P, x)
  {
    ModEqIff(x % P, x);
  }

  lemma ModEqSym(x: int, y: int)
    requires ModEq(x, y)
    ensures ModEq(y, x)
  {
    ModEqIff(x, y);
    ModEqIff(y, x);
  }

  lemma ModEqTrans(x: int, y: int, z: int)
    requires ModEq(x, y) && ModEq(y, z)
    ensures ModEq(x, z)
  {
    ModEqIff(x, y);
    ModEqIff(y, z);
    ModEqIff(x, z);
  }

  lemma ModEqAdd(a: int, b: int, c: int, d: int)
    requires ModEq(a, b) && ModEq(c, d)
    ensures ModEq(a + c, b + d)
  {
    var i, j := (a - b) / P, (c - d) / P;
    assert a - b == P * i;
    assert c - d == P * j;
    ModUnique((a + c) - (b + d), P, i + j, 0);
  }

  lemma ModEqNeg(a: int, b: int)
    requires ModEq(a, b)
    ensures ModEq(-a, -b)
  {
    var i := (a - b) / P;
    assert a - b == P * i;
    ModUnique(-a - -b, P, -i, 0);
  }

  lemma ModEqMul(a: int, b: int, c: int, d: int)
    requires ModEq(a, b) && ModEq(c, d)
    ensures ModEq(a * c, b * d)
  {
    var i, j := (a - b) / P, (c - d) / P;
    assert a == b + P * i;
    assert c == d + P * j;
    assert a * c - b * d == P * (i * d + b * j + P * i * j) by {
      calc {
        a * c - b * d;
        (b + P * i) * (d + P * j) - b * d;
        P * (i * d + b * j + P * i * j);
      }
    }
    ModUnique(a * c - b * d, P, i * d + b * j + P * i * j, 0);
  }

  /** Reducing one summand first does not change the sum modulo p. */
  lemma ModAddMod(x: int, y: int)
    ensures (x % P + y) % P == (x + y) % P
    ensures (x + y % P) % P == (x + y) % P
  {
    ModEqMod(x);
    ModEqMod(y);
    ModEqAdd(x % P, x, y, y);
    ModEqAdd(x, x, y % P, y);
    ModEqIff(x % P + y, x + y);
    ModEqIff(x + y % P, x + y);
  }

  /** A single conditional subtraction of p reduces any u64: 2^64 < 2p. */
  function ReduceOnce(x: U64): (r: U64)
    ensures r < P && r == x % P
  {
    if x >= P then x - P else x
  }

  /** add_mod_p: (uint64_t)(((uint128_t)a + b) % kPrime). */
  function AddModP(a: U64, b: U64): (r: U64)
    ensures r < P
    ensures r == (a + b) % P
  {
    Wrap64(Wrap128(a + b) % P)
  }

  /** sub_mod_p: (uint64_t)(((uint128_t)a + kPrime - b) % kPrime). The
      128-bit intermediate wraps when b > a + p, and the result is then no
      longer congruent to a - b, because 2^128 is not a multiple of p. */
  function SubModP(a: U64, b: U64): (r: U64)
    ensures r < P
    ensures r == (a - b) % P <==> b <= a + P
  {
    SubModPWide(a, b);
    Wrap64(Wrap128(Wrap128(a + P) - b) % P)
  }

  /** The 128-bit intermediate of sub_mod_p is a + p - b, or that plus 2^128
      when b > a + p; 2^128 + p leaves the remainder 59^2 modulo p. */
  lemma SubModPWide(a: U64, b: U64)
    ensures Wrap128(Wrap128(a + P) - b) % P == (a - b) % P <==> b <= a + P
  {
    var wide := Wrap128(Wrap128(a + P) - b);
    if b <= a + P {
      assert wide == a + P - b;
      assert (wide - (a - b)) % P == 0;
    } else {
      assert wide == a + P - b + TWO128;
      assert (wide - (a - b)) % P == 3481;
    }
    ModEqIff(wide, a - b);
  }

  /** mul_mod_p: (uint64_t)(((uint128_t)a * b) % kPrime). */
  function MulModP(a: U64, b: U64): (r: U64)
    ensures r < P
    ensures r == (a * b) % P
  {
    ProductFits128(a, b);
    var wide := Wrap128(a * b);
    ModUnique(a * b, TWO128, 0, a * b);
    assert wide == a * b;
    Wrap64(wide % P)
  }

  /** The product of two u64 values never wraps unsigned __int128. */
  lemma ProductFits128(a: U64, b: U64)
    ensures a * b < TWO128
  {
    var m := TWO64 - 1;
    MulMonotone(a, m, b);
    assert a * b <= m * b;
    MulMonotone(b, m, m);
    assert m * b == b * m <= m * m;
    assert m * m < TWO128;
  }

  /** get_rand_field: the 8 random bytes of buf, read as a little-endian
      uint64_t, with one conditional subtraction of p. */
  function GetRandField(buf: Buf8): (r: U64)
    ensures r < P
  {
    Pow2Of64();
    var raw: U64 := LE(buf);
    ReduceOnce(raw)
  }

  /** The draw is the little-endian value of the bytes, reduced modulo p. */
  lemma GetRandFieldReduces(buf: Buf8)
    ensures GetRandField(buf) == LE(buf) % P
  {
    Pow2Of64();
  }

  /** The i-th call of get_rand_field on the random stream: each call
      consumes the next 8-byte buffer. */
  function Draw(rand: seq<Buf8>, i: nat): (r: U64)
    requires i < |rand|
    ensures r < P
  {
    if i == 0 then GetRandField(rand[0]) else Draw(rand[1..], i - 1)
  }

  /** The i-th draw decodes the i-th buffer of the stream. */
  lemma {:induction false} DrawDecodes(rand: seq<Buf8>, i: nat)
    requires i < |rand|
    ensures Draw(rand, i) == GetRandField(rand[i])
  {
    if i > 0 {
      DrawDecodes(rand[1..], i - 1);
    }
  }
}

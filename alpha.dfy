/** Reading the comparison threshold alpha of a DCF out of its bytes
    (get_alpha_int_le in src/dcf.c), with the 64-bit shift, OR and AND of C
    written out on naturals. */
module Alpha {
  import opened Bytes
  import opened Field

  /** kAlphaBitlen and kAlphaBytelen as src/dcf.c defines them. */
  const AlphaBitlen: nat := 64
  const AlphaBytelen: nat := 8

  /** The configuration main asserts before anything else: the byte length
      is the bit length rounded up to whole bytes, and at most 8. */
  predicate ConfigOk(bitlen: nat, bytelen: nat) {
    (bitlen + 7) / 8 == bytelen && bytelen <= 8
  }

  /** Under the asserted configuration every shift `i * 8` of the decoding
      loop is below the width of uint64_t, and so is the mask's shift. */
  lemma ConfigBoundsShifts(bitlen: nat, bytelen: nat)
    requires ConfigOk(bitlen, bytelen)
    ensures bitlen <= 64
    ensures forall i :: 0 <= i < bytelen ==> i * 8 < 64
    ensures bitlen < 64 ==> bitlen <= 8 * bytelen
  {
  }

  /** The constants src/dcf.c compiles with pass its own assertions. */
  lemma ConfigHolds()
    ensures ConfigOk(AlphaBitlen, AlphaBytelen)
  {
  }

  /** `x << s` on uint64_t; C leaves shifts of 64 or more undefined. */
  function Shl64(x: U64, s: nat): U64
    requires s < 64
  {
    Wrap64(x * Pow2(s))
  }

  /** `x | y` on uint64_t. */
  function Or64(x: U64, y: U64): U64 {
    Pow2Of64();
    BitOrBound(x, y, 64);
    BitOr(x, y)
  }

  /** `x & y` on uint64_t. */
  function And64(x: U64, y: U64): U64 {
    BitAndBound(x, y);
    BitAnd(x, y)
  }

  lemma {:induction false} BitAndBound(x: nat, y: nat)
    ensures BitAnd(x, y) <= x
    decreases x + y
  {
    if x != 0 && y != 0 {
      BitAndBound(x / 2, y / 2);
    }
  }

  /** A byte shifted left by 8k, k < 8, does not lose bits. */
  lemma ShiftByteExact(b: Byte, k: nat)
    requires k < 8
    ensures Shl64(b, 8 * k) == b * Pow2(8 * k)
  {
    var w := Pow2(8 * k);
    var prod := b * w;
    assert prod < TWO64 by {
      assert prod <= 255 * w by {
        MulMonotone(b, 255, w);
      }
      assert 256 * w <= TWO64 by {
        Pow2Add(8 * k, 8);
        Pow2Of8();
        Pow2Monotone(8 * k + 8, 64);
        Pow2Of64();
      }
    }
    Wrap64Fits(prod);
  }

  /** get_alpha_int_le: ORs byte i, shifted left by 8i, into the result for
      every i below the byte length, then masks the result to bitlen bits
      when bitlen < 64. Bytes from index bytelen on are never read. */
  method GetAlphaIntLe(alpha: array<Byte>, bitlen: nat, bytelen: nat) returns (val: U64)
    requires ConfigOk(bitlen, bytelen)
    requires alpha.Length >= bytelen
    ensures val == LE(alpha[..bytelen]) % Pow2(bitlen)
    ensures val < Pow2(bitlen)
    ensures bitlen == 64 ==> val == LE(alpha[..bytelen])
  {
    val := 0;
    for i := 0 to bytelen
      invariant val == LE(alpha[..i])
    {
      var shifted := Shl64(alpha[i], i * 8);
      ShiftByteExact(alpha[i], i);
      ModUnique(shifted, Pow2(8 * i), alpha[i], 0);
      BitOrDisjoint(val, shifted, 8 * i);
      LEStep(alpha[..], i);
      assert alpha[..][..i + 1] == alpha[..i + 1];
      val := Or64(val, shifted);
    }
    assert alpha[..bytelen] == alpha[..][..bytelen];
    ghost var whole := LE(alpha[..bytelen]);
    Pow2Monotone(8 * bytelen, 64);
    Pow2Of64();
    if bitlen < 64 {
      Pow2Monotone(bitlen, 63);
      assert Pow2(64) == 2 * Pow2(63);
      Wrap64Fits(Pow2(bitlen));
      assert Shl64(1, bitlen) == Pow2(bitlen);
      Wrap64Fits(Shl64(1, bitlen) - 1);
      val := And64(val, Wrap64(Shl64(1, bitlen) - 1));
      BitAndLowMask(whole, bitlen);
    } else {
      ModUnique(whole, Pow2(bitlen), 0, whole);
    }
  }

  /** Decoding the 8-byte image of a uint64_t, as memcpy writes it at
      line 73, gives back that uint64_t under the compiled configuration:
      the instance of LEOfToLEFits at 8 bytes. */
  lemma DecodeU64Image(v: U64)
    ensures LE(ToLE(v, 8)[..AlphaBytelen]) == v
  {
    Pow2Of64();
    assert ToLE(v, 8)[..AlphaBytelen] == ToLE(v, 8);
    LEOfToLEFits(v, 8);
  }
}

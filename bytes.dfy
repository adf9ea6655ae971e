/** Bytes, powers of two, little-endian byte images and the bitwise
    operations of unsigned C integers, all on mathematical naturals. */
module Bytes {

  type Byte = b: int | 0 <= b < 256

  /** 2^n. */
  function Pow2(n: nat): (r: nat)
    ensures r >= 1
  {
    if n == 0 then 1 else 2 * Pow2(n - 1)
  }

  lemma {:induction false} Pow2Add(a: nat, b: nat)
    ensures Pow2(a + b) == Pow2(a) * Pow2(b)
  {
    if a > 0 {
      Pow2Add(a - 1, b);
      assert Pow2(a + b) == 2 * Pow2(a - 1 + b);
    }
  }

  lemma {:induction false} Pow2Monotone(a: nat, b: nat)
    requires a <= b
    ensures Pow2(a) <= Pow2(b)
  {
    if a < b {
      Pow2Monotone(a, b - 1);
    }
  }

  lemma Pow2Of8()
    ensures Pow2(8) == 0x100
  {
    assert Pow2(4) == 16;
  }

  lemma Pow2Of16()
    ensures Pow2(16) == 0x1_0000
  {
    Pow2Of8();
    Pow2Add(8, 8);
  }

  lemma Pow2Of32()
    ensures Pow2(32) == 0x1_0000_0000
  {
    Pow2Of16();
    Pow2Add(16, 16);
  }

  lemma Pow2Of64()
    ensures Pow2(64) == 0x1_0000_0000_0000_0000
  {
    Pow2Of32();
    Pow2Add(32, 32);
  }

  /** v = A*t + s with 0 <= s < A determines v % A. */
  lemma ModUnique(v: int, a: int, t: int, s: int)
    requires a > 0 && v == a * t + s && 0 <= s < a
    ensures v % a == s && v / a == t
  {
    var q, m := v / a, v % a;
    assert a * (t - q) == m - s;
    if t - q >= 1 {
      MulMonotone(1, t - q, a);
    } else if t - q <= -1 {
      MulMonotone(t - q, -1, a);
    }
  }

  lemma MulMonotone(x: int, y: int, c: nat)
    requires x <= y
    ensures x * c <= y * c
  {
  }

  /** A lower part below w plus a digit times w stays below 256 * w. */
  lemma DigitBound(lo: nat, d: Byte, w: nat)
    requires lo < w
    ensures lo + d * w < 256 * w
  {
    MulMonotone(d, 255, w);
  }

  /** Splitting a remainder modulo a product into two digits. */
  lemma ModMulSplit(v: nat, a: nat, b: nat)
    requires a > 0 && b > 0
    ensures a * b > 0
    ensures v % (a * b) == v % a + a * ((v / a) % b)
  {
    var q := v / a;
    var q1, q0 := q / b, q % b;
    assert v == a * q + v % a;
    assert q == b * q1 + q0;
    assert v == (a * b) * q1 + (a * q0 + v % a) by {
      calc {
        v;
        a * q + v % a;
        a * (b * q1 + q0) + v % a;
        (a * b) * q1 + (a * q0 + v % a);
      }
    }
    assert a * q0 <= a * (b - 1);
    ModUnique(v, a * b, q1, a * q0 + v % a);
  }

  /** The little-endian value of a byte string: byte k weighs 2^(8k). */
  function LE(s: seq<Byte>): (r: nat)
    ensures r < Pow2(8 * |s|)
  {
    if |s| == 0 then 0
    else
      var n := |s| - 1;
      var w := Pow2(8 * n);
      Pow2Add(8 * n, 8);
      assert Pow2(8) == 256;
      assert Pow2(8 * |s|) == w * 256;
      DigitBound(LE(s[..n]), s[n], w);
      LE(s[..n]) + s[n] * w
  }

  /** Appending byte k of s to its first k bytes adds s[k] * 2^(8k). */
  lemma LEStep(s: seq<Byte>, k: nat)
    requires k < |s|
    ensures LE(s[..k + 1]) == LE(s[..k]) + s[k] * Pow2(8 * k)
  {
    assert s[..k + 1][..k] == s[..k];
  }

  /** The n-byte little-endian image of v: the bytes memcpy copies out of an integer. */
  function ToLE(v: nat, n: nat): (s: seq<Byte>)
    ensures |s| == n
  {
    seq(n, k requires 0 <= k < n => (v / Pow2(8 * k)) % 256)
  }

  function Zeros(n: nat): (s: seq<Byte>)
    ensures |s| == n && forall k :: 0 <= k < n ==> s[k] == 0
  {
    seq(n, k => 0)
  }

  /** Decoding an n-byte image gives back v modulo 2^(8n). */
  lemma {:induction false} LEOfToLE(v: nat, n: nat)
    ensures LE(ToLE(v, n)) == v % Pow2(8 * n)
  {
    if n > 0 {
      var m := n - 1;
      var w := Pow2(8 * m);
      var img := ToLE(v, n);
      assert img[..m] == ToLE(v, m);
      assert img[m] == (v / w) % 256;
      LEOfToLE(v, m);
      assert LE(img) == v % w + ((v / w) % 256) * w;
      Pow2Add(8 * m, 8);
      assert Pow2(8) == 256;
      assert Pow2(8 * n) == w * 256;
      ModMulSplit(v, w, 256);
    }
  }

  /** Decoding the image of a value that fits gives back the value. */
  lemma LEOfToLEFits(v: nat, n: nat)
    requires v < Pow2(8 * n)
    ensures LE(ToLE(v, n)) == v
  {
    LEOfToLE(v, n);
    ModUnique(v, Pow2(8 * n), 0, v);
  }

  lemma {:induction false} LEOfZeros(n: nat)
    ensures LE(Zeros(n)) == 0
  {
    if n > 0 {
      assert Zeros(n)[..n - 1] == Zeros(n - 1);
      LEOfZeros(n - 1);
    }
  }

  /** Bitwise OR of unsigned integers, bit by bit from the least significant. */
  function BitOr(x: nat, y: nat): nat
    decreases x + y
  {
    if x == 0 then y
    else if y == 0 then x
    else 2 * BitOr(x / 2, y / 2) + (if x % 2 == 1 || y % 2 == 1 then 1 else 0)
  }

  /** Bitwise AND of unsigned integers, bit by bit from the least significant. */
  function BitAnd(x: nat, y: nat): nat
    decreases x + y
  {
    if x == 0 || y == 0 then 0
    else 2 * BitAnd(x / 2, y / 2) + (if x % 2 == 1 && y % 2 == 1 then 1 else 0)
  }

  /** OR of two values below 2^n stays below 2^n. */
  lemma {:induction false} BitOrBound(x: nat, y: nat, n: nat)
    requires x < Pow2(n) && y < Pow2(n)
    ensures BitOr(x, y) < Pow2(n)
    decreases x + y
  {
    if x != 0 && y != 0 {
      assert n > 0;
      BitOrBound(x / 2, y / 2, n - 1);
    }
  }

  /** OR of a value below 2^k with a multiple of 2^k is their sum:
      the set bits do not overlap. */
  lemma {:induction false} BitOrDisjoint(x: nat, y: nat, k: nat)
    requires x < Pow2(k) && y % Pow2(k) == 0
    ensures BitOr(x, y) == x + y
    decreases x + y
  {
    if x != 0 && y != 0 {
      assert k > 0;
      ModMulSplit(y, 2, Pow2(k - 1));
      BitOrDisjoint(x / 2, y / 2, k - 1);
    }
  }

  /** AND with the mask 2^k - 1 keeps exactly the k low bits. */
  lemma {:induction false} BitAndLowMask(x: nat, k: nat)
    ensures BitAnd(x, Pow2(k) - 1) == x % Pow2(k)
    decreases x
  {
    if k == 0 {
      assert Pow2(k) - 1 == 0;
      ModUnique(x, 1, x, 0);
    } else if x == 0 {
      ModUnique(0, Pow2(k), 0, 0);
    } else {
      var h := Pow2(k - 1);
      var m := Pow2(k) - 1;
      assert Pow2(k) == 2 * h;
      assert m / 2 == h - 1 && m % 2 == 1 by {
        ModUnique(m, 2, h - 1, 1);
      }
      var low := BitAnd(x / 2, h - 1);
      assert BitAnd(x, m) == 2 * low + x % 2;
      assert low == (x / 2) % h by {
        BitAndLowMask(x / 2, k - 1);
      }
      assert x % (2 * h) == x % 2 + 2 * ((x / 2) % h) by {
        ModMulSplit(x, 2, h);
      }
    }
  }
}

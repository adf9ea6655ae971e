/** Additive secret sharing over the field and the Beaver-triple dot product
    of src/dotprod.c: setup_data splits random vectors a and b and a random
    triple (x, y, z = x * y) into two shares each; the online body lets
    party 0 open d = a - x and e = b - y and accumulate its share of
    a_k * b_k over all k. */
module DotProduct {
  import opened Bytes
  import opened Field

  /** kDim: the vector dimension. */
  const Dim: nat := 1024

  /** setup_data calls get_rand_field nine times per index k. */
  const DrawsPerIndex: nat := 9

  /** A vector shared between the two parties: share_v_0 and share_v_1. */
  datatype Shared = Shared(s0: seq<U64>, s1: seq<U64>) {

    /** Both shares have kDim entries, all reduced. */
    ghost predicate Valid() {
      |s0| == Dim && |s1| == Dim &&
      (forall k :: 0 <= k < Dim ==> s0[k] < P) &&
      (forall k :: 0 <= k < Dim ==> s1[k] < P)
    }

    /** The secret entry k the shares stand for. */
    function Open(k: nat): U64
      requires Valid() && k < Dim
    {
      AddModP(s0[k], s1[k])
    }
  }

  /** The global share arrays that setup_data fills and main reads. */
  datatype Shares = Shares(a: Shared, b: Shared, x: Shared, y: Shared, z: Shared) {

    ghost predicate Valid() {
      a.Valid() && b.Valid() && x.Valid() && y.Valid() && z.Valid()
    }

    /** (x, y, z) is a multiplication triple at every index. */
    ghost predicate TripleValid()
      requires Valid()
    {
      forall k :: 0 <= k < Dim ==> z.Open(k) == (x.Open(k) * y.Open(k)) % P
    }
  }

  /** `share_v_1 = sub_mod_p(v, share_v_0)`: the second share is the secret
      minus the first, so the two add up to the secret again. */
  function ShareOf(v: U64, share0: U64): (share1: U64)
    requires v < P && share0 < P
    ensures share1 < P
    ensures AddModP(share0, share1) == v
  {
    var share1 := SubModP(v, share0);
    assert (share0 as int + share1) % P == v by {
      ModAddMod(share0, v as int - share0);
      ModUnique(v, P, 0, v);
    }
    share1
  }

  /** The draws number offset, 9 + offset, 18 + offset, ... of the first
      n indices: the value setup_data computes from the stream at each k. */
  ghost function DrawsAt(rand: seq<Buf8>, offset: nat, n: nat): (r: seq<U64>)
    requires offset < DrawsPerIndex && DrawsPerIndex * n <= |rand|
    ensures |r| == n
  {
    if n == 0 then [] else DrawsAt(rand, offset, n - 1) + [Draw(rand, 9 * (n - 1) + offset)]
  }

  lemma {:induction false} DrawsAtIndex(rand: seq<Buf8>, offset: nat, n: nat)
    requires offset < DrawsPerIndex && DrawsPerIndex * n <= |rand|
    ensures forall j :: 0 <= j < n ==> DrawsAt(rand, offset, n)[j] == Draw(rand, 9 * j + offset)
  {
    if n > 0 {
      DrawsAtIndex(rand, offset, n - 1);
    }
  }

  /** The products z_j = mul_mod_p(x_j, y_j) of the first n indices. */
  ghost function ProductsAt(rand: seq<Buf8>, n: nat): (r: seq<U64>)
    requires DrawsPerIndex * n <= |rand|
    ensures |r| == n
  {
    if n == 0 then []
    else ProductsAt(rand, n - 1) + [MulModP(Draw(rand, 9 * (n - 1) + 2), Draw(rand, 9 * (n - 1) + 3))]
  }

  lemma {:induction false} ProductsAtIndex(rand: seq<Buf8>, n: nat)
    requires DrawsPerIndex * n <= |rand|
    ensures forall j :: 0 <= j < n ==> ProductsAt(rand, n)[j] == MulModP(Draw(rand, 9 * j + 2), Draw(rand, 9 * j + 3))
  {
    if n > 0 {
      ProductsAtIndex(rand, n - 1);
    }
  }

  /** Shares s0, s1 stand for the secrets entry by entry. */
  ghost predicate OpensTo(s0: seq<U64>, s1: seq<U64>, secrets: seq<U64>) {
    |s0| == |secrets| && |s1| == |secrets| &&
    forall j :: 0 <= j < |secrets| ==> s0[j] < P && s1[j] < P && AddModP(s0[j], s1[j]) == secrets[j]
  }

  /** Sharing one more secret keeps OpensTo. */
  lemma OpensToAppend(s0: seq<U64>, s1: seq<U64>, secrets: seq<U64>, v: U64, share0: U64)
    requires OpensTo(s0, s1, secrets) && v < P && share0 < P
    ensures OpensTo(s0 + [share0], s1 + [ShareOf(v, share0)], secrets + [v])
  {
  }

  /** One more index of a shared vector: `share_v_0[k] = get_rand_field();
      share_v_1[k] = sub_mod_p(v_k, share_v_0[k]);` */
  function Push(w: Shared, v: U64, share0: U64): Shared
    requires v < P && share0 < P
  {
    Shared(w.s0 + [share0], w.s1 + [ShareOf(v, share0)])
  }

  /** The first k entries of one shared vector of setup_data: they open to
      draws number offset, 9 + offset, ... of the stream. */
  ghost predicate Drawn(rand: seq<Buf8>, offset: nat, k: nat, w: Shared)
    requires offset < DrawsPerIndex && DrawsPerIndex * k <= |rand|
  {
    OpensTo(w.s0, w.s1, DrawsAt(rand, offset, k))
  }

  /** The first k entries of the shared products z of setup_data. */
  ghost predicate Multiplied(rand: seq<Buf8>, k: nat, w: Shared)
    requires DrawsPerIndex * k <= |rand|
  {
    OpensTo(w.s0, w.s1, ProductsAt(rand, k))
  }

  /** A full-length OpensTo makes a valid shared vector opening to the secrets. */
  lemma OpensToShared(v: Shared, secrets: seq<U64>)
    requires OpensTo(v.s0, v.s1, secrets) && |secrets| == Dim
    ensures v.Valid()
    ensures forall k :: 0 <= k < Dim ==> v.Open(k) == secrets[k]
  {
  }

  /** What setup_data promises: valid shares of a triple (x, y, z), with
      a, b, x and y opening to draws a_k, b_k, x_k, y_k of index k. */
  ghost predicate SetupSpec(rand: seq<Buf8>, s: Shares)
    requires |rand| >= DrawsPerIndex * Dim
  {
    s.Valid() && s.TripleValid() &&
    (forall k :: 0 <= k < Dim ==> s.a.Open(k) == Draw(rand, 9 * k)) &&
    (forall k :: 0 <= k < Dim ==> s.b.Open(k) == Draw(rand, 9 * k + 1)) &&
    (forall k :: 0 <= k < Dim ==> s.x.Open(k) == Draw(rand, 9 * k + 2)) &&
    (forall k :: 0 <= k < Dim ==> s.y.Open(k) == Draw(rand, 9 * k + 3))
  }

  /** What the loop of setup_data has built, once it has run over every index. */
  lemma SetupShares(rand: seq<Buf8>, s: Shares)
    requires |rand| >= DrawsPerIndex * Dim
    requires SetupUpTo(rand, Dim, s)
    ensures SetupSpec(rand, s)
  {
    DrawsAtIndex(rand, 0, Dim);
    DrawsAtIndex(rand, 1, Dim);
    DrawsAtIndex(rand, 2, Dim);
    DrawsAtIndex(rand, 3, Dim);
    ProductsAtIndex(rand, Dim);
    OpensToShared(s.a, DrawsAt(rand, 0, Dim));
    OpensToShared(s.b, DrawsAt(rand, 1, Dim));
    OpensToShared(s.x, DrawsAt(rand, 2, Dim));
    OpensToShared(s.y, DrawsAt(rand, 3, Dim));
    OpensToShared(s.z, ProductsAt(rand, Dim));
  }

  /** Sharing the next draw of a vector extends Drawn by one index. */
  lemma DrawnNext(rand: seq<Buf8>, offset: nat, k: nat, w: Shared, v: U64, share0: U64)
    requires offset < DrawsPerIndex && DrawsPerIndex * (k + 1) <= |rand|
    requires Drawn(rand, offset, k, w) && v == Draw(rand, 9 * k + offset) && share0 < P
    ensures Drawn(rand, offset, k + 1, Push(w, v, share0))
  {
    OpensToAppend(w.s0, w.s1, DrawsAt(rand, offset, k), v, share0);
  }

  /** Sharing the next product extends Multiplied by one index. */
  lemma MultipliedNext(rand: seq<Buf8>, k: nat, w: Shared, v: U64, share0: U64)
    requires DrawsPerIndex * (k + 1) <= |rand|
    requires Multiplied(rand, k, w) && share0 < P
    requires v == MulModP(Draw(rand, 9 * k + 2), Draw(rand, 9 * k + 3))
    ensures Multiplied(rand, k + 1, Push(w, v, share0))
  {
    OpensToAppend(w.s0, w.s1, ProductsAt(rand, k), v, share0);
  }

  /** The first k indices of all five shared vectors as setup_data fills them. */
  ghost predicate SetupUpTo(rand: seq<Buf8>, k: nat, s: Shares)
    requires DrawsPerIndex * k <= |rand|
  {
    Drawn(rand, 0, k, s.a) && Drawn(rand, 1, k, s.b) && Drawn(rand, 2, k, s.x) && Drawn(rand, 3, k, s.y)
    && Multiplied(rand, k, s.z)
  }

  /** Before the loop nothing is filled. */
  lemma SetupEmpty(rand: seq<Buf8>)
    ensures SetupUpTo(rand, 0, Shares(Shared([], []), Shared([], []), Shared([], []), Shared([], []), Shared([], [])))
  {
  }

  /** One pass of the loop of setup_data extends every vector by index k. */
  lemma SetupNext(rand: seq<Buf8>, k: nat, s: Shares, ak: U64, bk: U64, xk: U64, yk: U64, zk: U64,
                  sa0: U64, sb0: U64, sx0: U64, sy0: U64, sz0: U64)
    requires DrawsPerIndex * (k + 1) <= |rand| && SetupUpTo(rand, k, s)
    requires ak == Draw(rand, 9 * k) && bk == Draw(rand, 9 * k + 1)
    requires xk == Draw(rand, 9 * k + 2) && yk == Draw(rand, 9 * k + 3) && zk == MulModP(xk, yk)
    requires sa0 < P && sb0 < P && sx0 < P && sy0 < P && sz0 < P
    ensures SetupUpTo(rand, k + 1, Shares(Push(s.a, ak, sa0), Push(s.b, bk, sb0), Push(s.x, xk, sx0),
                                          Push(s.y, yk, sy0), Push(s.z, zk, sz0)))
  {
    assert Drawn(rand, 0, k + 1, Push(s.a, ak, sa0)) by {
      DrawnNext(rand, 0, k, s.a, ak, sa0);
    }
    assert Drawn(rand, 1, k + 1, Push(s.b, bk, sb0)) by {
      DrawnNext(rand, 1, k, s.b, bk, sb0);
    }
    assert Drawn(rand, 2, k + 1, Push(s.x, xk, sx0)) by {
      DrawnNext(rand, 2, k, s.x, xk, sx0);
    }
    assert Drawn(rand, 3, k + 1, Push(s.y, yk, sy0)) by {
      DrawnNext(rand, 3, k, s.y, yk, sy0);
    }
    assert Multiplied(rand, k + 1, Push(s.z, zk, sz0)) by {
      MultipliedNext(rand, k, s.z, zk, sz0);
    }
  }

  /** One pass of the loop of setup_data, at index k: the nine draws in
      the order the C code makes them, z_k = mul_mod_p(x_k, y_k), and one
      more index of each of the five shared vectors, whose first share is
      a fresh draw. */
  method SetupIndex(rand: seq<Buf8>, k: nat, s: Shares) returns (s': Shares)
    requires DrawsPerIndex * (k + 1) <= |rand| && SetupUpTo(rand, k, s)
    ensures SetupUpTo(rand, k + 1, s')
  {
    var base := 9 * k;
    var ak := Draw(rand, base);
    var bk := Draw(rand, base + 1);
    var xk := Draw(rand, base + 2);
    var yk := Draw(rand, base + 3);
    var zk := MulModP(xk, yk);
    var sa0 := Draw(rand, base + 4);
    var sb0 := Draw(rand, base + 5);
    var sx0 := Draw(rand, base + 6);
    var sy0 := Draw(rand, base + 7);
    var sz0 := Draw(rand, base + 8);
    SetupNext(rand, k, s, ak, bk, xk, yk, zk, sa0, sb0, sx0, sy0, sz0);
    s' := Shares(Push(s.a, ak, sa0), Push(s.b, bk, sb0), Push(s.x, xk, sx0), Push(s.y, yk, sy0), Push(s.z, zk, sz0));
  }

  /** setup_data: for each k it draws a_k, b_k, x_k, y_k, sets
      z_k = mul_mod_p(x_k, y_k) and shares all five, the first share of each
      being a fresh draw. */
  method SetupData(rand: seq<Buf8>) returns (s: Shares)
    requires |rand| >= DrawsPerIndex * Dim
    ensures SetupSpec(rand, s)
  {
    s := Shares(Shared([], []), Shared([], []), Shared([], []), Shared([], []), Shared([], []));
    SetupEmpty(rand);
    for k := 0 to Dim
      invariant SetupUpTo(rand, k, s)
    {
      s := SetupIndex(rand, k, s);
    }
    SetupShares(rand, s);
  }

  /** The opened value d_k = a_k - x_k of the online phase. */
  function D(s: Shares, k: nat): U64
    requires s.Valid() && k < Dim
  {
    (s.a.Open(k) as int - s.x.Open(k)) % P
  }

  /** The opened value e_k = b_k - y_k of the online phase. */
  function E(s: Shares, k: nat): U64
    requires s.Valid() && k < Dim
  {
    (s.b.Open(k) as int - s.y.Open(k)) % P
  }

  /** Party 0's share [c_k]_0 = [z_k]_0 + e_k [x_k]_0 + d_k [y_k]_0, unreduced. */
  function Term0(s: Shares, k: nat): int
    requires s.Valid() && k < Dim
  {
    s.z.s0[k] as int + E(s, k) as int * s.x.s0[k] + D(s, k) as int * s.y.s0[k]
  }

  /** Party 1's share [c_k]_1 = [z_k]_1 + e_k [x_k]_1 + d_k [y_k]_1 + d_k e_k,
      the extra term being the `party_id == 1` line of the comment. */
  function Term1(s: Shares, k: nat): int
    requires s.Valid() && k < Dim
  {
    s.z.s1[k] as int + E(s, k) as int * s.x.s1[k] + D(s, k) as int * s.y.s1[k] + D(s, k) as int * E(s, k)
  }

  /** Sums over the first n indices. */
  function Sum0(s: Shares, n: nat): int
    requires s.Valid() && n <= Dim
  {
    if n == 0 then 0 else Sum0(s, n - 1) + Term0(s, n - 1)
  }

  function Sum1(s: Shares, n: nat): int
    requires s.Valid() && n <= Dim
  {
    if n == 0 then 0 else Sum1(s, n - 1) + Term1(s, n - 1)
  }

  /** The dot product of the shared secrets a and b over the first n indices. */
  function DotSum(s: Shares, n: nat): int
    requires s.Valid() && n <= Dim
  {
    if n == 0 then 0 else DotSum(s, n - 1) + s.a.Open(n - 1) as int * s.b.Open(n - 1)
  }

  /** Differences of shares taken with sub_mod_p and added with add_mod_p
      are congruent to the difference of the sums. */
  lemma DifferenceArith(p0: U64, q0: U64, p1: U64, q1: U64)
    requires q0 < P && q1 < P
    ensures AddModP(SubModP(p0, q0), SubModP(p1, q1)) == ((p0 as int + p1) % P - (q0 as int + q1) % P) % P
  {
    var l0, l1: int := SubModP(p0, q0), SubModP(p1, q1);
    DifferenceCongruence(l0, l1, p0, q0, p1, q1);
  }

  lemma DifferenceCongruence(l0: int, l1: int, p0: int, q0: int, p1: int, q1: int)
    requires l0 == (p0 - q0) % P && l1 == (p1 - q1) % P
    ensures (l0 + l1) % P == ((p0 + p1) % P - (q0 + q1) % P) % P
  {
    var u, v := p0 + p1, q0 + q1;
    assert ModEq(l0 + l1, u - v) by {
      ModEqMod(p0 - q0);
      ModEqMod(p1 - q1);
      ModEqAdd(l0, p0 - q0, l1, p1 - q1);
    }
    assert ModEq(u % P - v % P, u - v) by {
      ModEqMod(u);
      ModEqMod(v);
      ModEqNeg(v % P, v);
      ModEqAdd(u % P, u, -(v % P), -v);
    }
    ModEqSym(u % P - v % P, u - v);
    ModEqTrans(l0 + l1, u - v, u % P - v % P);
    ModEqIff(l0 + l1, u % P - v % P);
  }

  /** Each party's difference of shares, recombined, opens to (u - v) mod p. */
  lemma OpenedDifference(u: Shared, v: Shared, k: nat)
    requires u.Valid() && v.Valid() && k < Dim
    ensures AddModP(SubModP(u.s0[k], v.s0[k]), SubModP(u.s1[k], v.s1[k])) == (u.Open(k) as int - v.Open(k)) % P
  {
    var p0, q0, p1, q1 := u.s0[k], v.s0[k], u.s1[k], v.s1[k];
    assert q0 < P && q1 < P;
    DifferenceArith(p0, q0, p1, q1);
    assert u.Open(k) == (p0 as int + p1) % P && v.Open(k) == (q0 as int + q1) % P;
  }

  /** The code's evaluation order of party 0's share,
      add_mod_p(add_mod_p(z, mul_mod_p(e, x)), mul_mod_p(d, y)), is the
      reduced sum z + e x + d y. */
  lemma Party0Arith(z: U64, x: U64, y: U64, d: U64, e: U64)
    ensures AddModP(AddModP(z, MulModP(e, x)), MulModP(d, y)) == (z as int + e as int * x + d as int * y) % P
  {
    Add3Mod(z, MulModP(e, x), MulModP(d, y), e as int * x, d as int * y);
  }

  /** add_mod_p of add_mod_p with two reduced terms is the reduced sum. */
  lemma Add3Mod(z: U64, t1: U64, t2: U64, u: int, v: int)
    requires t1 == u % P && t2 == v % P
    ensures AddModP(AddModP(z, t1), t2) == (z as int + u + v) % P
  {
    var s: int := AddModP(z, t1);
    assert s == (z as int + u) % P by {
      ModAddMod(z, u);
    }
    assert (s + t2) % P == (z as int + u + v) % P by {
      ModAddMod(s, v);
      ModAddMod(z as int + u, v);
    }
  }

  /** The algebra behind Beaver's trick: with d = a - x, e = b - y and
      z = x y modulo p, z + e x + d y + d e is a b modulo p. */
  lemma BeaverCongruence(a: int, b: int, x: int, y: int, x2: int, y2: int, z2: int, d: int, e: int)
    requires ModEq(x2, x) && ModEq(y2, y) && ModEq(z2, x * y)
    requires ModEq(d, a - x) && ModEq(e, b - y)
    ensures ModEq(z2 + e * x2 + d * y2 + d * e, a * b)
  {
    ModEqMul(e, b - y, x2, x);
    ModEqMul(d, a - x, y2, y);
    ModEqMul(d, a - x, e, b - y);
    ModEqAdd(z2, x * y, e * x2, (b - y) * x);
    ModEqAdd(z2 + e * x2, x * y + (b - y) * x, d * y2, (a - x) * y);
    ModEqAdd(z2 + e * x2 + d * y2, x * y + (b - y) * x + (a - x) * y, d * e, (a - x) * (b - y));
    BeaverAlgebra(a, b, x, y);
  }

  lemma Distribute(c: int, u: int, v: int)
    ensures c * u + c * v == c * (u + v)
  {
  }

  lemma BeaverAlgebra(a: int, b: int, x: int, y: int)
    ensures x * y + (b - y) * x + (a - x) * y + (a - x) * (b - y) == a * b
  {
  }

  /** Beaver identity: the two parties' shares of c_k add up to a_k b_k. */
  lemma BeaverIdentity(s: Shares, k: nat)
    requires s.Valid() && s.TripleValid() && k < Dim
    ensures (Term0(s, k) + Term1(s, k)) % P == (s.a.Open(k) as int * s.b.Open(k)) % P
  {
    var a, b: int := s.a.Open(k), s.b.Open(k);
    var x0, x1, y0, y1, z0, z1: int := s.x.s0[k], s.x.s1[k], s.y.s0[k], s.y.s1[k], s.z.s0[k], s.z.s1[k];
    var d, e: int := D(s, k), E(s, k);
    var x, y: int := s.x.Open(k), s.y.Open(k);
    assert x == (x0 + x1) % P && y == (y0 + y1) % P;
    assert (z0 + z1) % P == (x * y) % P by {
      assert s.z.Open(k) == (z0 + z1) % P;
    }
    assert d == (a - x) % P && e == (b - y) % P;
    BeaverShares(a, b, x0, x1, y0, y1, z0, z1, d, e);
    assert Term0(s, k) == z0 + e * x0 + d * y0;
    assert Term1(s, k) == z1 + e * x1 + d * y1 + d * e;
  }

  /** Beaver identity on the share values: with x, y, z shared additively,
      z = x y, d = a - x and e = b - y modulo p. */
  lemma BeaverShares(a: int, b: int, x0: int, x1: int, y0: int, y1: int, z0: int, z1: int, d: int, e: int)
    requires ((z0 + z1) % P) == (((x0 + x1) % P) * ((y0 + y1) % P)) % P
    requires d == (a - (x0 + x1) % P) % P && e == (b - (y0 + y1) % P) % P
    ensures ((z0 + e * x0 + d * y0) + (z1 + e * x1 + d * y1 + d * e)) % P == (a * b) % P
  {
    var x, y := (x0 + x1) % P, (y0 + y1) % P;
    var x2, y2, z2 := x0 + x1, y0 + y1, z0 + z1;
    var lhs := z2 + e * x2 + d * y2 + d * e;
    assert (z0 + e * x0 + d * y0) + (z1 + e * x1 + d * y1 + d * e) == lhs by {
      Distribute(e, x0, x1);
      Distribute(d, y0, y1);
    }
    assert ModEq(x2, x) by {
      ModEqMod(x2);
      ModEqSym(x2 % P, x2);
    }
    assert ModEq(y2, y) by {
      ModEqMod(y2);
      ModEqSym(y2 % P, y2);
    }
    assert ModEq(z2, x * y) by {
      ModEqMod(z2);
      ModEqMod(x * y);
      ModEqSym(z2 % P, z2);
      ModEqTrans(z2, z2 % P, x * y);
    }
    assert ModEq(d, a - x) by {
      ModEqMod(a - x);
    }
    assert ModEq(e, b - y) by {
      ModEqMod(b - y);
    }
    BeaverCongruence(a, b, x, y, x2, y2, z2, d, e);
    ModEqIff(lhs, a * b);
  }

  /** Summed over all indices, the two parties' totals open to the dot
      product of a and b. */
  lemma {:induction false} DotProductReconstructs(s: Shares, n: nat)
    requires s.Valid() && s.TripleValid() && n <= Dim
    ensures (Sum0(s, n) + Sum1(s, n)) % P == DotSum(s, n) % P
  {
    if n > 0 {
      var s0, s1, total := Sum0(s, n - 1), Sum1(s, n - 1), DotSum(s, n - 1);
      var t0, t1, t := Term0(s, n - 1), Term1(s, n - 1), s.a.Open(n - 1) as int * s.b.Open(n - 1);
      assert (s0 + s1) % P == total % P by {
        DotProductReconstructs(s, n - 1);
      }
      assert (t0 + t1) % P == t % P by {
        BeaverIdentity(s, n - 1);
      }
      SumStep(s0, s1, total, t0, t1, t);
      assert Sum0(s, n) == s0 + t0 && Sum1(s, n) == s1 + t1 && DotSum(s, n) == total + t;
    }
  }

  /** Adding congruent pairs to congruent totals keeps them congruent. */
  lemma SumStep(s0: int, s1: int, total: int, t0: int, t1: int, t: int)
    requires (s0 + s1) % P == total % P && (t0 + t1) % P == t % P
    ensures ((s0 + t0) + (s1 + t1)) % P == (total + t) % P
  {
    ModEqIff(s0 + s1, total);
    ModEqIff(t0 + t1, t);
    ModEqAdd(s0 + s1, total, t0 + t1, t);
    assert (s0 + t0) + (s1 + t1) == (s0 + s1) + (t0 + t1);
    ModEqIff((s0 + t0) + (s1 + t1), total + t);
  }

  /** The shares party 0 computes locally: local_d[k] = [a_k]_0 - [x_k]_0 and
      local_e[k] = [b_k]_0 - [y_k]_0. */
  method LocalDifferences(s: Shares) returns (localD: array<U64>, localE: array<U64>)
    requires s.Valid()
    ensures fresh(localD) && fresh(localE)
    ensures localD.Length == Dim && localE.Length == Dim
    ensures forall k :: 0 <= k < Dim ==> localD[k] == SubModP(s.a.s0[k], s.x.s0[k])
    ensures forall k :: 0 <= k < Dim ==> localE[k] == SubModP(s.b.s0[k], s.y.s0[k])
  {
    localD := new U64[Dim];
    localE := new U64[Dim];
    for k := 0 to Dim
      invariant forall j :: 0 <= j < k ==> localD[j] == SubModP(s.a.s0[j], s.x.s0[j])
      invariant forall j :: 0 <= j < k ==> localE[j] == SubModP(s.b.s0[j], s.y.s0[j])
    {
      localD[k] := SubModP(s.a.s0[k], s.x.s0[k]);
      localE[k] := SubModP(s.b.s0[k], s.y.s0[k]);
    }
  }

  /** Folding a reduced term into a reduced accumulator with add_mod_p. */
  lemma AccumulateArith(acc: U64, ck: U64, sum: int, term: int)
    requires acc == sum % P && ck == term % P
    ensures AddModP(acc, ck) == (sum + term) % P
  {
    ModAddMod(sum, term);
    ModAddMod(sum % P, term);
  }

  /** One step of the accumulation: the reconstructed d_k, e_k and party 0's
      share c_k folded into final_res_share with add_mod_p. */
  lemma AccumulateStep(s: Shares, k: nat, acc: U64, dk: U64, ek: U64, ck: U64)
    requires s.Valid() && k < Dim
    requires acc == Sum0(s, k) % P && dk == D(s, k) && ek == E(s, k)
    requires ck == AddModP(AddModP(s.z.s0[k], MulModP(ek, s.x.s0[k])), MulModP(dk, s.y.s0[k]))
    ensures AddModP(acc, ck) == Sum0(s, k + 1) % P
  {
    var term := Term0(s, k);
    assert ck == term % P by {
      Party0Arith(s.z.s0[k], s.x.s0[k], s.y.s0[k], dk, ek);
    }
    assert Sum0(s, k + 1) == Sum0(s, k) + term;
    AccumulateArith(acc, ck, Sum0(s, k), term);
  }

  /** The body of the accumulation loop at index k (lines 148-172): open
      d_k and e_k from both parties' differences, form party 0's share c_k
      and fold it into final_res_share. */
  method AccumulateIndex(s: Shares, k: nat, acc: U64, localDk: U64, localEk: U64, d1: U64, e1: U64)
    returns (acc': U64)
    requires s.Valid() && k < Dim && acc == Sum0(s, k) % P
    requires localDk == SubModP(s.a.s0[k], s.x.s0[k]) && localEk == SubModP(s.b.s0[k], s.y.s0[k])
    requires d1 == SubModP(s.a.s1[k], s.x.s1[k]) && e1 == SubModP(s.b.s1[k], s.y.s1[k])
    ensures acc' == Sum0(s, k + 1) % P
  {
    var dk := AddModP(localDk, d1);
    var ek := AddModP(localEk, e1);
    assert dk == D(s, k) by {
      OpenedDifference(s.a, s.x, k);
    }
    assert ek == E(s, k) by {
      OpenedDifference(s.b, s.y, k);
    }
    var t1 := MulModP(ek, s.x.s0[k]);
    var t2 := MulModP(dk, s.y.s0[k]);
    var ck := AddModP(s.z.s0[k], t1);
    ck := AddModP(ck, t2);
    AccumulateStep(s, k, acc, dk, ek, ck);
    acc' := AddModP(acc, ck);
  }

  /** The online phase as party 0 runs it (lines 122-173, one benchmark
      iteration): party 1's halves d1, e1 are computed inline. */
  method DotProductParty0(s: Shares) returns (finalResShare: U64)
    requires s.Valid()
    ensures finalResShare == Sum0(s, Dim) % P
  {
    var localD, localE := LocalDifferences(s);
    finalResShare := 0;
    for k := 0 to Dim
      invariant forall j :: 0 <= j < Dim ==> localD[j] == SubModP(s.a.s0[j], s.x.s0[j])
      invariant forall j :: 0 <= j < Dim ==> localE[j] == SubModP(s.b.s0[j], s.y.s0[j])
      invariant finalResShare == Sum0(s, k) % P
    {
      var d1 := SubModP(s.a.s1[k], s.x.s1[k]);
      var e1 := SubModP(s.b.s1[k], s.y.s1[k]);
      finalResShare := AccumulateIndex(s, k, finalResShare, localD[k], localE[k], d1, e1);
    }
  }
}

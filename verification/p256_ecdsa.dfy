/** ECDSA over P-256, as in sections 4.1.3 and 4.1.4 of SEC 1, down to the limbs. */
module P256Ecdsa {
  import opened Base
  import opened Bits
  import opened ModArith
  import opened Fermat
  import opened P256Limbs
  import opened P256Mont
  import opened P256Curve
  import opened P256Group

  datatype Status = Success | RandomFailed | InvalidPrivKey | InvalidPubKey | InvalidSignature

  type Bytes32 = b: seq<byte> | |b| == 32 witness Zeros(32)

  // Residues modulo the group order

  /** The array holds the residue `v` modulo the order, in Montgomery form. */
  ghost predicate Re(x: array<u32>, v: nat)
    reads x
    ensures Re(x, v) ==> Is256(x) && v < N
  {
    Is256(x) && V(x) < N && Dom(V(x), N) == v
  }

  method MulN(z: array<u32>, x: array<u32>, y: array<u32>, ghost a: nat, ghost b: nat)
    requires Is256(z) && Re(x, a) && Re(y, b)
    modifies z
    ensures Re(z, (a * b) % N)
  {
    hide Val, B, Dom, Modulus.Valid, Modulus.N;
    ModuliValid();
    M256Mul(z, x, y, MOD_N);
  }

  method AddN(z: array<u32>, x: array<u32>, y: array<u32>, ghost a: nat, ghost b: nat)
    requires Is256(z) && Re(x, a) && Re(y, b)
    modifies z
    ensures Re(z, (a + b) % N)
  {
    hide Val, B, Dom, Modulus.Valid, Modulus.N;
    ModuliValid();
    DomAdd(V(x), V(y), N);
    M256Add(z, x, y, MOD_N);
  }

  method PrepN(z: array<u32>, ghost v: nat)
    requires Is256(z) && V(z) == v && v < N
    modifies z
    ensures Re(z, v)
  {
    hide Val, B, Dom, Modulus.Valid, Modulus.N;
    ModuliValid();
    ModSmall(v, N);
    M256Prep(z, MOD_N);
  }

  method DoneN(z: array<u32>, ghost v: nat)
    requires Re(z, v)
    modifies z
    ensures V(z) == v
  {
    hide Val, B, Dom, Modulus.Valid, Modulus.N;
    ModuliValid();
    M256Done(z, MOD_N);
  }

  method DoneP(z: array<u32>, ghost v: nat)
    requires Fe(z, v)
    modifies z
    ensures V(z) == v
  {
    hide Val, B, Dom, Modulus.Valid, Modulus.N;
    ModuliValid();
    M256Done(z, MOD_P);
  }

  function Inverse(a: nat): (r: nat)
    ensures r < N
  {
    Pow(a, N - 2) % N
  }

  method InvN(z: array<u32>, ghost v: nat)
    requires Re(z, v)
    modifies z
    ensures Re(z, Inverse(v))
  {
    hide Val, B, Dom, Pow, Modulus.Valid, Modulus.N;
    ModuliValid();
    M256Inv(z, z, MOD_N);
  }

  lemma {:induction false} InverseCorrect(a: nat)
    requires IsPrime(N) && 0 < a < N
    ensures (a * Inverse(a)) % N == 1 && 0 < Inverse(a) < N
  {
    hide Pow, IsPrime;
    FermatInverse(a, N);
    MulModRight(a, Pow(a, N - 2), N);
    if Inverse(a) == 0 {
      ModSmall(0, N);
    }
  }

  /** Reduce a 256-bit number modulo the order: one subtraction is enough. */
  method ReduceModN(x: array<u32>)
    requires Is256(x)
    modifies x
    ensures V(x) == old(V(x)) % N
  {
    hide Val, B;
    NConstants();
    B8();
    ghost var v := V(x);
    var t := new u32[8](_ => 0);
    var n := Limbs(N_LIMBS);
    var c := U256Sub(t, x, n);
    VBound(t);
    VBound(x);
    VBound(n);
    LessIff(v, N, V(t), c, B(8));
    ModOnce(v, N);
    U256Cmov(x, t, 1 - c);
  }

  // Points

  lemma {:induction false} SameXSum(g: Group, x: nat, y1: nat, y2: nat, k1: int, k2: int)
    requires GroupLaw(g) && IsMultiple(g, x, y1, k1) && IsMultiple(g, x, y2, k2) && y1 != y2
    ensures k1 + k2 == N
  {
    hide CurveRhs, FSub;
    assert AffineLaw(g, x, y1) && AffineLaw(g, x, y2);
    assert NegLaw(g, x, y1);
    OppositeY(y1, y2);
  }

  /** Two square roots of one number modulo the prime are equal or opposite. */
  lemma {:induction false} OppositeY(y1: nat, y2: nat)
    requires IsPrime(P) && y1 < P && y2 < P && y1 != y2 && FMul(y1, y1) == FMul(y2, y2)
    ensures y2 == FSub(0, y1)
  {
    hide IsPrime;
    var a, b := y1 - y2, y1 + y2;
    CongSub(y1 * y1, y2 * y2, y2 * y2, y2 * y2, P);
    assert a * b == y1 * y1 - y2 * y2;
    ModSmall(0, P);
    Euclid(P, a, b);
    if a % P == 0 {
      if a > 0 {
        ModSmall(a, P);
      } else {
        ModUnique(a, P, -1, a + P);
      }
    } else {
      ModOnce(b, P);
      if b == 0 {
        ModSmall(0, P);
      } else {
        var m: int := y1;
        ModUnique(-m, P, -1, P - m);
      }
    }
  }

  lemma {:induction false} DifferentX(g: Group, x1: nat, y1: nat, x2: nat, y2: nat, k1: int, k2: int)
    requires GroupLaw(g) && IsMultiple(g, x1, y1, k1) && IsMultiple(g, x2, y2, k2) && x1 != x2
    ensures k1 != k2 && k1 + k2 != N
  {
    hide FSub;
    NegIsMultiple(g, x2, y2, k2);
    assert UniqueLaw(g, x1, y1, x2, y2);
    assert UniqueLaw(g, x1, y1, x2, FSub(0, y2));
  }

  /** Is this the sum? The point (0, 0) stands for zero. */
  ghost predicate IsMultipleOrZero(g: Group, x: nat, y: nat, k: int) {
    if k == 0 then x == 0 && y == 0 else IsMultiple(g, x, y, k)
  }

  /** Addition of any two nonzero points, doubling or cancelling where they coincide. */
  method PointAddOrDoubleLeaky(x3: array<u32>, y3: array<u32>, x1: array<u32>, y1: array<u32>,
                               x2: array<u32>, y2: array<u32>,
                               ghost g: Group, ghost a1: nat, ghost b1: nat, ghost k1: int,
                               ghost a2: nat, ghost b2: nat, ghost k2: int)
    returns (ghost a: nat, ghost b: nat)
    requires GroupLaw(g) && Is256(x3) && Is256(y3) && x3 != y3
    requires x3 !in {x1, y1, x2, y2} && y3 !in {x1, y1, x2, y2}
    requires Fe(x1, a1) && Fe(y1, b1) && IsMultiple(g, a1, b1, k1)
    requires Fe(x2, a2) && Fe(y2, b2) && IsMultiple(g, a2, b2, k2)
    modifies x3, y3
    ensures Fe(x3, a) && Fe(y3, b) && IsMultipleOrZero(g, a, b, (k1 + k2) % N)
  {
    hide Fe, GroupLaw, JAdd, JDouble, IsPrime, V, FSub;
    MultipleRange(g, a1, b1, k1);
    MultipleRange(g, a2, b2, k2);
    var z3 := new u32[8](_ => 0);
    CopyFe(x3, x1, a1);
    CopyFe(y3, y1, b1);
    SetP(z3, 1);
    ghost var j := AffineJac(a1, b1);
    FeEqual(x1, x2, a1, a2);
    FeEqual(y1, y2, b1, b2);
    ModOnce(k1 + k2, N);
    var dx := U256Diff(x1, x2);
    var dy := U256Diff(y1, y2);
    if dx != 0 {
      DifferentX(g, a1, b1, a2, b2, k1, k2);
      PointAdd(x3, y3, z3, x2, y2, j, a2, b2);
      AddsTo(g, a1, b1, a2, b2, k1, k2);
      a, b := ToAffinePoint(x3, y3, z3, g, JAdd(j, a2, b2), (k1 + k2) % N);
    } else if dy == 0 {
      SameLog(g, a1, b1, k1, k2);
      PointDouble(x3, y3, z3, j);
      DoublesTo(g, a1, b1, k1);
      a, b := ToAffinePoint(x3, y3, z3, g, JDouble(j), (k1 + k2) % N);
    } else {
      SameXSum(g, a1, b1, b2, k1, k2);
      SetP(x3, 0);
      SetP(y3, 0);
      a, b := 0, 0;
    }
  }

  lemma SameLog(g: Group, x: nat, y: nat, k1: int, k2: int)
    requires IsMultiple(g, x, y, k1) && IsMultiple(g, x, y, k2)
    ensures k1 == k2
  {
  }

  lemma {:induction false} AddsTo(g: Group, x1: nat, y1: nat, x2: nat, y2: nat, k1: int, k2: int)
    requires GroupLaw(g) && IsMultiple(g, x1, y1, k1) && IsMultiple(g, x2, y2, k2) && k1 != k2 && k1 + k2 != N
    ensures var j := JAdd(AffineJac(x1, y1), x2, y2); g.valid(j) && g.log(j) == (k1 + k2) % N
  {
    hide JAdd, OnCurve;
    MultipleRange(g, x1, y1, k1);
    assert AddLaw(g, AffineJac(x1, y1), x2, y2);
  }

  lemma {:induction false} DoublesTo(g: Group, x: nat, y: nat, k: int)
    requires GroupLaw(g) && IsMultiple(g, x, y, k)
    ensures var j := JDouble(AffineJac(x, y)); g.valid(j) && g.log(j) == (k + k) % N
    ensures (k + k) % N != 0
  {
    hide JDouble, OnCurve;
    MultipleRange(g, x, y, k);
    assert DoubleLaw(g, AffineJac(x, y));
    ModOnce(k + k, N);
  }

  // Bytes

  /** Import a scalar; fails exactly when it is not between 1 and the order less 1. */
  method ScalarFromBytes(s: array<u32>, p: Bytes32) returns (ok: bool)
    requires Is256(s)
    modifies s
    ensures V(s) == ValBE(p)
    ensures ok <==> 1 <= ValBE(p) < N
  {
    hide Val, B, ValBE;
    NConstants();
    U256FromBytes(s, p);
    var r := new u32[8](_ => 0);
    var n := Limbs(N_LIMBS);
    var ltN := U256Sub(r, s, n);
    VBound(r);
    VBound(s);
    VBound(n);
    LessIff(V(s), N, V(r), ltN, B(8));
    U256Set32(r, 1);
    var one := new u32[8](_ => 0);
    var lt1 := U256Sub(one, s, r);
    VBound(one);
    VBound(r);
    LessIff(V(s), 1, V(one), lt1, B(8));
    ok := ltN != 0 && lt1 == 0;
  }

  /** Import a public key; fails exactly when it is not the encoding of a point on the curve. */
  method PointFromBytes(x: array<u32>, y: array<u32>, p: seq<byte>) returns (ok: bool)
    requires Is256(x) && Is256(y) && x != y && |p| == 64
    modifies x, y
    ensures ok <==> IsPublicKey(p)
    ensures ok ==> Fe(x, ValBE(p[..32])) && Fe(y, ValBE(p[32..]))
  {
    hide Val, B, ValBE, Dom, OnCurve, Modulus.Valid, Modulus.N;
    ModuliValid();
    var okX := M256FromBytes(x, p[..32], MOD_P);
    if !okX {
      return false;
    }
    var okY := M256FromBytes(y, p[32..], MOD_P);
    if !okY {
      return false;
    }
    var diff := PointCheck(x, y, ValBE(p[..32]), ValBE(p[32..]));
    ok := diff == 0;
  }

  ghost predicate IsPublicKey(p: seq<byte>)
    requires |p| == 64
  {
    var x, y := ValBE(p[..32]), ValBE(p[32..]);
    x < P && y < P && OnCurve(x, y)
  }

  method PointToBytes(x: array<u32>, y: array<u32>, ghost a: nat, ghost b: nat) returns (p: seq<byte>)
    requires Fe(x, a) && Fe(y, b)
    ensures |p| == 64 && ValBE(p[..32]) == a && ValBE(p[32..]) == b
  {
    hide Val, B, ValBE, Dom, Modulus.Valid, Modulus.N;
    ModuliValid();
    var px := M256ToBytes(x, MOD_P);
    var py := M256ToBytes(y, MOD_P);
    p := px + py;
    assert p[..32] == px && p[32..] == py;
  }

  /** The integer a hash stands for: its first 32 bytes, or all of it if it is shorter. */
  function HashInt(h: seq<byte>): nat {
    if |h| < 32 then ValBE(h) else ValBE(h[..32])
  }

  lemma {:induction false} LeadingZeros(n: nat, h: seq<byte>)
    ensures ValBE(Zeros(n) + h) == ValBE(h)
    decreases n + |h|
  {
    var s := Zeros(n) + h;
    if h == [] {
      assert s == Zeros(n);
      if n > 0 {
        LeadingZeros(n - 1, []);
        assert Zeros(n)[..n - 1] == Zeros(n - 1) + [];
      }
    } else {
      var k := |h| - 1;
      LeadingZeros(n, h[..k]);
      assert s[..|s| - 1] == Zeros(n) + h[..k];
    }
  }

  /** The hash as a residue modulo the order, in Montgomery form. */
  method FromHash(z: array<u32>, h: seq<byte>)
    requires Is256(z)
    modifies z
    ensures Re(z, HashInt(h) % N)
  {
    hide Val, ValBE, Re;
    if |h| < 32 {
      var p := new byte[32](_ => 0);
      for i := 0 to |h|
        invariant forall j :: 0 <= j < 32 - |h| ==> p[j] == 0
        invariant forall j :: 0 <= j < i ==> p[32 - |h| + j] == h[j]
      {
        p[32 - |h| + i] := h[i];
      }
      assert p[..] == Zeros(32 - |h|) + h;
      LeadingZeros(32 - |h|, h);
      U256FromBytes(z, p[..]);
    } else {
      U256FromBytes(z, h[..32]);
    }
    ReduceModN(z);
    PrepN(z, HashInt(h) % N);
  }

  // Signatures

  /** `r` is the x coordinate, modulo the order, of the `k`-th multiple of the base point. */
  ghost predicate XIs(g: Group, k: int, r: int) {
    exists x: nat, y: nat :: IsMultiple(g, x, y, k) && x % N == r
  }

  /** (r, s) is the signature of the hash integer `e` under private key `d` with nonce `k`. */
  ghost predicate SignedWith(g: Group, r: nat, s: nat, d: nat, e: nat, k: nat) {
    && 1 <= k < N && 0 < r < N && 0 < s < N
    && XIs(g, k, r)
    && s == (Inverse(k) * ((e + (r * d) % N) % N)) % N
  }

  /** The verification equation of section 4.1.4 of SEC 1 for the public key that is the `q`-th
      multiple of the base point. */
  ghost predicate Accepts(g: Group, r: nat, s: nat, q: int, e: nat) {
    && 0 < r < N && 0 < s < N
    && var w := Inverse(s);
       var k := ((e * w) % N + (((r * w) % N) * q) % N) % N;
       k != 0 && XIs(g, k, r)
  }

  /** The scalar the verifier arrives at is the signer's nonce. */
  lemma {:induction false} NonceRecovered(r: nat, s: nat, d: nat, e: nat, k: nat)
    requires IsPrime(N) && 1 <= k < N && 0 < s < N
    requires s == (Inverse(k) * ((e + (r * d) % N) % N)) % N
    ensures var w := Inverse(s); ((e * w) % N + (((r * w) % N) * d) % N) % N == k
  {
    hide Inverse, IsPrime;
    InverseCorrect(k);
    InverseCorrect(s);
    var w, ki := Inverse(s), Inverse(k);
    var t := e + r * d;
    ModSmall(1, N);
    // s is k^-1 * t
    AddModLeft(r * d, e, N);
    MulModRight(ki, t, N);
    assert s % N == (ki * t) % N by { ModMod(ki * t, N); }
    // k * s is t
    CongMul(k, k, s, ki * t, N);
    MulAssoc(k, ki, t);
    CongMul(k * ki, 1, t, t, N);
    assert (k * s) % N == t % N;
    // t * w is k
    CongMul(k * s, t, w, w, N);
    MulAssoc(k, s, w);
    CongMul(k, k, s * w, 1, N);
    ModSmall(k, N);
    assert (t * w) % N == k;
    // and it is the sum the verifier forms
    MulModLeft(r * w, d, N);
    Rotate(r, w, d);
    AddModLeft(e * w, ((r * d) * w) % N, N);
    AddModLeft((r * d) * w, e * w, N);
    MulSplit(e, r * d, w);
  }

  /** Any signature made with a private key is accepted under the matching public key. */
  lemma {:induction false} SignedIsAccepted(g: Group, r: nat, s: nat, d: nat, e: nat, k: nat)
    requires GroupLaw(g) && SignedWith(g, r, s, d, e, k)
    ensures Accepts(g, r, s, d, e)
  {
    hide Inverse, XIs, IsPrime;
    NonceRecovered(r, s, d, e, k);
  }
}

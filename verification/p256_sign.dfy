/** Key generation, signing and verification. */
module P256Sign {
  import opened Base
  import opened ModArith
  import opened P256Limbs
  import opened P256Mont
  import opened P256Curve
  import opened P256Group
  import opened P256Ecdsa

  /** The random generator: what each call returns, or nothing when it fails. */
  type Rand = nat -> Option<Bytes32>

  predicate IsScalar(v: nat) {
    1 <= v < N
  }

  /** The first valid scalar among the candidates from call `i` on, four calls in all. */
  function Drawn(rand: Rand, i: nat): Option<Bytes32>
    decreases 4 - i
  {
    if i >= 4 || rand(i).None? then None
    else if IsScalar(ValBE(rand(i).value)) then rand(i)
    else Drawn(rand, i + 1)
  }

  /** Draw a scalar `s`, and compute the point s * G. */
  method ScalarGenWithPub(rand: Rand, s: array<u32>, x: array<u32>, y: array<u32>, ghost g: Group)
    returns (sbytes: Option<Bytes32>, ghost a: nat, ghost b: nat)
    requires GroupLaw(g) && Is256(s) && Is256(x) && Is256(y) && s != x && s != y && x != y
    modifies s, x, y
    ensures sbytes == Drawn(rand, 0)
    ensures sbytes.Some? ==>
              var k := ValBE(sbytes.value);
              IsScalar(k) && V(s) == k && Fe(x, a) && Fe(y, b) && IsMultiple(g, a, b, k)
  {
    hide Fe, V, GroupLaw, IsMultiple, ValBE;
    a, b := 0, 0;
    var nbTried := 0;
    var ok := false;
    sbytes := None;
    while !ok
      invariant 0 <= nbTried <= 4
      invariant !ok ==> Drawn(rand, nbTried) == Drawn(rand, 0)
      invariant ok ==> sbytes == Drawn(rand, 0) && sbytes.Some? && IsScalar(ValBE(sbytes.value))
      invariant ok ==> V(s) == ValBE(sbytes.value)
      decreases !ok, 4 - nbTried
    {
      if nbTried >= 4 {
        sbytes := None;
        return;
      }
      sbytes := rand(nbTried);
      if sbytes.None? {
        return;
      }
      nbTried := nbTried + 1;
      ok := ScalarFromBytes(s, sbytes.value);
    }
    var gx, gy := BasePoint();
    BaseIsMultiple(g);
    a, b := ScalarMult(x, y, gx, gy, s, g, GX, GY, 1);
    ModSmall(ValBE(sbytes.value), N);
  }

  /** A private key and the public key that belongs to it. */
  method GenKeypair(rand: Rand, ghost g: Group) returns (status: Status, priv: Bytes32, pub: seq<byte>)
    requires GroupLaw(g)
    ensures status == if Drawn(rand, 0).Some? then Success else RandomFailed
    ensures status == Success ==> IsScalar(ValBE(priv)) && KeysMatch(g, priv, pub)
  {
    hide Fe, V, GroupLaw, IsMultiple, ValBE;
    var s, x, y := new u32[8](_ => 0), new u32[8](_ => 0), new u32[8](_ => 0);
    priv, pub := Zeros(32), [];
    var sbytes: Option<Bytes32>;
    ghost var a, b;
    sbytes, a, b := ScalarGenWithPub(rand, s, x, y, g);
    if sbytes.None? {
      return RandomFailed, priv, pub;
    }
    priv := sbytes.value;
    pub := PointToBytes(x, y, a, b);
    return Success, priv, pub;
  }

  /** The public key is the private key times the base point. */
  ghost predicate KeysMatch(g: Group, priv: Bytes32, pub: seq<byte>) {
    |pub| == 64 && IsMultiple(g, ValBE(pub[..32]), ValBE(pub[32..]), ValBE(priv))
  }

  function SigR(sig: seq<byte>): nat
    requires |sig| == 64
  {
    ValBE(sig[..32])
  }

  function SigS(sig: seq<byte>): nat
    requires |sig| == 64
  {
    ValBE(sig[32..])
  }

  /** The signature is r and then s, 32 bytes each, most significant first. */
  ghost predicate Halves(sig: seq<byte>, r: nat, s: nat) {
    |sig| == 64 && ValBE(sig[..32]) == r && ValBE(sig[32..]) == s
  }

  method Sign(rand: Rand, priv: Bytes32, hash: seq<byte>, ghost g: Group)
    returns (status: Status, sig: seq<byte>, ghost k: nat, ghost r: nat)
    requires GroupLaw(g)
    ensures Drawn(rand, 0).None? ==> status == RandomFailed
    ensures Drawn(rand, 0).Some? ==> k == ValBE(Drawn(rand, 0).value) && XIs(g, k, r)
    ensures Drawn(rand, 0).Some? && r == 0 ==> status == RandomFailed
    ensures Drawn(rand, 0).Some? && r != 0 && !IsScalar(ValBE(priv)) ==> status == InvalidPrivKey
    ensures Drawn(rand, 0).Some? && r != 0 && IsScalar(ValBE(priv)) ==>
              status == if SignatureS(k, r, ValBE(priv), HashInt(hash) % N) == 0 then RandomFailed else Success
    ensures status == Success ==>
              && |sig| == 64 && IsScalar(ValBE(priv))
              && SignedWith(g, SigR(sig), SigS(sig), ValBE(priv), HashInt(hash) % N, k)
              && Halves(sig, r, SignatureS(k, r, ValBE(priv), HashInt(hash) % N))
  {
    hide Fe, Re, V, GroupLaw, IsMultiple, ValBE, HashInt, XIs, SignatureS, Drawn, SigR, SigS, Halves;
    sig, k, r := [], 0, 0;
    var xr, ka, t3, t4 := new u32[8](_ => 0), new u32[8](_ => 0), new u32[8](_ => 0), new u32[8](_ => 0);
    // 1. to 3. ephemeral keypair, and its x coordinate modulo the order
    var kb: Option<Bytes32>;
    var rBytes: Bytes32;
    kb, rBytes, r := Ephemeral(rand, ka, xr, t3, g);
    if kb.None? {
      return RandomFailed, sig, k, r;
    }
    k := ValBE(kb.value);
    var zero := U256Diff0(xr);
    if zero == 0 {
      return RandomFailed, sig, k, r;
    }
    PrepN(xr, r);
    // 5. the hash as an integer
    FromHash(t3, hash);
    // 6. s = k^-1 * (e + r * d)
    var okKey := ScalarFromBytes(t4, priv);
    if !okKey {
      return InvalidPrivKey, sig, k, r;
    }
    sig := FinishSignature(ka, xr, t3, t4, rBytes, k, r, ValBE(priv), HashInt(hash) % N);
    status := if sig == [] then RandomFailed else Success;
    if status == Success {
      SignedIntro(g, sig, k, r, ValBE(priv), HashInt(hash) % N);
    }
  }

  lemma {:induction false} SignedIntro(g: Group, sig: seq<byte>, k: nat, r: nat, d: nat, e: nat)
    requires IsScalar(k) && XIs(g, k, r) && 0 < r < N && SignatureS(k, r, d, e) != 0
    requires |sig| == 64 && SigR(sig) == r && SigS(sig) == SignatureS(k, r, d, e)
    ensures SignedWith(g, SigR(sig), SigS(sig), d, e, k)
  {
    hide XIs, Inverse, SigR, SigS;
  }

  /** Steps 6 and 7: s = k^-1 * (e + r * d), and the signature unless s is 0. */
  method FinishSignature(ka: array<u32>, xr: array<u32>, t3: array<u32>, t4: array<u32>, rBytes: Bytes32,
                         ghost k: nat, ghost r: nat, ghost d: nat, ghost e: nat)
    returns (sig: seq<byte>)
    requires Re(ka, k) && Re(xr, r) && Re(t3, e) && Is256(t4) && V(t4) == d && d < N && ValBE(rBytes) == r
    requires ka !in {xr, t3, t4} && t4 !in {xr, t3}
    modifies ka, t4
    ensures sig == [] <==> SignatureS(k, r, d, e) == 0
    ensures sig != [] ==> |sig| == 64 && SigR(sig) == r && SigS(sig) == SignatureS(k, r, d, e)
    ensures sig != [] ==> Halves(sig, r, SignatureS(k, r, d, e))
  {
    hide Re, V, ValBE, Inverse;
    PrepN(t4, d);
    InvN(ka, k);
    MulN(t4, xr, t4, r, d);
    AddN(t4, t3, t4, e, (r * d) % N);
    MulN(t4, ka, t4, Inverse(k), (e + (r * d) % N) % N);
    ghost var s := SignatureS(k, r, d, e);
    ResidueZero(t4, s);
    var zero := U256Diff0(t4);
    if zero == 0 {
      return [];
    }
    var sBytes := ResidueToBytes(t4, s);
    sig := rBytes + sBytes;
    assert sig[..32] == rBytes && sig[32..] == sBytes;
  }

  /** Draw the nonce k into `ka` and reduce the x coordinate of k * G modulo the order into `xr`. */
  method Ephemeral(rand: Rand, ka: array<u32>, xr: array<u32>, t3: array<u32>, ghost g: Group)
    returns (kb: Option<Bytes32>, rBytes: Bytes32, ghost r: nat)
    requires GroupLaw(g) && Is256(ka) && Is256(xr) && Is256(t3) && ka != xr && ka != t3 && xr != t3
    modifies ka, xr, t3
    ensures kb == Drawn(rand, 0)
    ensures kb.Some? ==>
              var k := ValBE(kb.value);
              IsScalar(k) && Re(ka, k) && V(xr) == r && r < N && ValBE(rBytes) == r && XIs(g, k, r)
  {
    hide Fe, Re, V, GroupLaw, IsMultiple, ValBE, XIs, Drawn;
    rBytes, r := Zeros(32), 0;
    ghost var a, b;
    kb, a, b := ScalarGenWithPub(rand, ka, xr, t3, g);
    if kb.None? {
      return;
    }
    PrepN(ka, ValBE(kb.value));
    DoneP(xr, a);
    ReduceModN(xr);
    r := a % N;
    XIsIntro(g, a, b, ValBE(kb.value));
    rBytes := U256ToBytes(xr);
  }

  function SignatureS(k: nat, r: nat, d: nat, e: nat): nat {
    (Inverse(k) * ((e + (r * d) % N) % N)) % N
  }

  lemma {:induction false} XIsIntro(g: Group, x: nat, y: nat, k: int)
    requires IsMultiple(g, x, y, k)
    ensures XIs(g, k, x % N)
  {
    hide IsMultiple;
  }

  lemma {:induction false} ResidueZero(z: array<u32>, v: nat)
    requires Re(z, v)
    ensures V(z) == 0 <==> v == 0
  {
    hide Dom, Val;
    DomZero(V(z), N);
  }

  method ResidueToBytes(z: array<u32>, ghost v: nat) returns (p: seq<byte>)
    requires Re(z, v)
    ensures |p| == 32 && ValBE(p) == v
  {
    hide Val, Dom, ValBE, Modulus.Valid, Modulus.N;
    ModuliValid();
    p := M256ToBytes(z, MOD_N);
  }

  /** The x coordinate of a multiple decides whether `r` is the right one. */
  lemma XIsDecides(g: Group, x: nat, y: nat, k: int, r: int)
    requires GroupLaw(g) && IsMultiple(g, x, y, k)
    ensures XIs(g, k, r) <==> x % N == r
  {
    if XIs(g, k, r) {
      var x': nat, y': nat :| IsMultiple(g, x', y', k) && x' % N == r;
      assert UniqueLaw(g, x, y, x', y');
    }
  }

  /** What verification must answer. */
  ghost function Verdict(g: Group, sig: seq<byte>, pub: seq<byte>, hash: seq<byte>): Status
    requires |sig| == 64 && |pub| == 64
  {
    if !IsScalar(SigR(sig)) || !IsScalar(SigS(sig)) then InvalidSignature
    else if !IsPublicKey(pub) then InvalidPubKey
    else if Accepts(g, SigR(sig), SigS(sig), KeyLog(g, pub), HashInt(hash) % N) then Success
    else InvalidSignature
  }

  /** The private key behind a public key. */
  ghost function KeyLog(g: Group, pub: seq<byte>): int
    requires |pub| == 64
  {
    g.log(AffineJac(ValBE(pub[..32]), ValBE(pub[32..])))
  }

  method Verify(sig: seq<byte>, pub: seq<byte>, hash: seq<byte>, ghost g: Group) returns (status: Status)
    requires GroupLaw(g) && |sig| == 64 && |pub| == 64
    ensures status == Verdict(g, sig, pub, hash)
  {
    hide Fe, Re, V, GroupLaw, IsMultiple, ValBE, HashInt, Inverse, XIs, IsPublicKey, KeyLog;
    // 1. range of r and s
    var r, s := new u32[8](_ => 0), new u32[8](_ => 0);
    var ok := ScalarFromBytes(r, sig[..32]);
    if !ok {
      return InvalidSignature;
    }
    ok := ScalarFromBytes(s, sig[32..]);
    if !ok {
      return InvalidSignature;
    }
    // 3. and 4. u1 = e / s and u2 = r / s
    var u1, u2 := Quotients(r, s, hash, SigR(sig), SigS(sig), g);
    var px, py := new u32[8](_ => 0), new u32[8](_ => 0);
    ok := PointFromBytes(px, py, pub);
    if !ok {
      return InvalidPubKey;
    }
    // 5. R = u1 * G + u2 * Q
    KeyIsMultiple(g, pub);
    ghost var q := KeyLog(g, pub);
    ghost var k := (V(u1) + (V(u2) * q) % N) % N;
    ghost var a := SumPoint(u1, u2, px, py, g, ValBE(pub[..32]), ValBE(pub[32..]), q, k, SigR(sig));
    // 6. to 8.
    ok := SameX(u1, r, a);
    return if ok then Success else InvalidSignature;
  }

  /** Compare an x coordinate, as an integer modulo the order, with r. */
  method SameX(u1: array<u32>, r: array<u32>, ghost a: nat) returns (same: bool)
    requires Fe(u1, a) && Is256(r) && r != u1
    modifies u1
    ensures same <==> a % N == V(r)
  {
    hide Fe, V;
    DoneP(u1, a);
    ReduceModN(u1);
    var diff := U256Diff(u1, r);
    same := diff == 0;
  }

  lemma {:induction false} KeyIsMultiple(g: Group, pub: seq<byte>)
    requires GroupLaw(g) && |pub| == 64 && IsPublicKey(pub)
    ensures IsMultiple(g, ValBE(pub[..32]), ValBE(pub[32..]), KeyLog(g, pub))
  {
    hide ValBE, OnCurve;
    assert AffineLaw(g, ValBE(pub[..32]), ValBE(pub[32..]));
  }

  /** u1 = e / s and u2 = r / s modulo the order, out of Montgomery form. */
  method Quotients(r: array<u32>, s: array<u32>, hash: seq<byte>, ghost rv: nat, ghost sv: nat, ghost g: Group)
    returns (u1: array<u32>, u2: array<u32>)
    requires GroupLaw(g) && Is256(r) && Is256(s) && r != s && V(r) == rv && V(s) == sv && IsScalar(rv) && IsScalar(sv)
    modifies s
    ensures fresh(u1) && fresh(u2) && u1 != u2 && Is256(u1) && Is256(u2)
    ensures V(u1) == ((HashInt(hash) % N) * Inverse(sv)) % N
    ensures V(u2) == (rv * Inverse(sv)) % N && IsScalar((rv * Inverse(sv)) % N)
    ensures r != u1 && r != u2
  {
    hide Re, V, GroupLaw, HashInt, Inverse, IsPrime;
    u1, u2 := new u32[8](_ => 0), new u32[8](_ => 0);
    var e := new u32[8](_ => 0);
    FromHash(e, hash);
    ghost var ev, w := HashInt(hash) % N, Inverse(sv);
    PrepN(s, sv);
    InvN(s, sv);
    MulN(u1, e, s, ev, w);
    DoneN(u1, (ev * w) % N);
    CopyNumber(u2, r);
    PrepN(u2, rv);
    MulN(u2, u2, s, rv, w);
    DoneN(u2, (rv * w) % N);
    PrimeOrder(g);
    InverseCorrect(sv);
    MultipleNonzero(rv, w);
  }

  method CopyNumber(z: array<u32>, x: array<u32>)
    requires Is256(z) && Is256(x)
    modifies z
    ensures V(z) == old(V(x))
  {
    U256Cmov(z, x, 1);
  }

  /** The x coordinate of u1 * G + u2 * Q, left in `u1`; 0 if the sum is the zero point. */
  method SumPoint(u1: array<u32>, u2: array<u32>, px: array<u32>, py: array<u32>,
                  ghost g: Group, ghost x: nat, ghost y: nat, ghost q: int, ghost k: int, ghost rv: nat)
    returns (ghost a: nat)
    requires GroupLaw(g) && Is256(u1) && Is256(u2) && u1 != u2 && px != py && u1 !in {px, py} && u2 !in {px, py}
    requires Fe(px, x) && Fe(py, y) && IsMultiple(g, x, y, q)
    requires V(u1) < N && IsScalar(V(u2)) && k == (V(u1) + (V(u2) * q) % N) % N && IsScalar(rv)
    modifies u1, u2, px, py
    ensures Fe(u1, a)
    ensures (k != 0 && XIs(g, k, rv)) <==> a % N == rv
  {
    hide Fe, V, GroupLaw, IsMultiple, XIs;
    var e, s := new u32[8](_ => 0), new u32[8](_ => 0);
    ghost var a2, b2 := ScalarMult(e, s, px, py, u2, g, x, y, q);
    ghost var k2 := (V(u2) * q) % N;
    MultipleRange(g, a2, b2, k2);
    var zero := U256Diff0(u1);
    if zero == 0 {
      CopyFe(u1, e, a2);
      a := a2;
      ModSmall(k2, N);
      XIsDecides(g, a2, b2, k, rv);
    } else {
      var gx, gy := BasePoint();
      BaseIsMultiple(g);
      ghost var k1 := V(u1);
      ModSmall(k1, N);
      ghost var a1, b1 := ScalarMult(px, py, gx, gy, u1, g, GX, GY, 1);
      ghost var b;
      a, b := PointAddOrDoubleLeaky(u1, u2, px, py, e, s, g, a1, b1, k1, a2, b2, k2);
      if k != 0 {
        XIsDecides(g, a, b, k, rv);
      } else {
        ModSmall(0, N);
      }
    }
  }

  /** Signing and verifying fit together: every signature that is produced is accepted, for every
      private key, every sequence of random draws and every hash of any length. */
  method SignThenVerify(rand: Rand, priv: Bytes32, pub: seq<byte>, hash: seq<byte>, ghost g: Group)
    returns (signed: Status, verified: Status)
    requires GroupLaw(g) && KeysMatch(g, priv, pub)
    ensures signed == Success ==> verified == Success
  {
    hide ValBE, HashInt, Inverse, XIs, Accepts, GroupLaw;
    var sig: seq<byte>;
    ghost var k, r;
    signed, sig, k, r := Sign(rand, priv, hash, g);
    verified := InvalidSignature;
    if signed == Success {
      SignedIsAccepted(g, SigR(sig), SigS(sig), ValBE(priv), HashInt(hash) % N, k);
      MatchingKey(g, priv, pub);
      verified := Verify(sig, pub, hash, g);
    }
  }

  lemma {:induction false} MatchingKey(g: Group, priv: Bytes32, pub: seq<byte>)
    requires GroupLaw(g) && KeysMatch(g, priv, pub)
    ensures IsPublicKey(pub) && KeyLog(g, pub) == ValBE(priv)
  {
    hide ValBE, OnCurve;
    assert AffineLaw(g, ValBE(pub[..32]), ValBE(pub[32..]));
  }
}

/** What a signature binds: which bytes of a hash count, and that the verifier arrives at different
    scalars for hashes that count as different numbers. */
module P256Binding {
  import opened Base
  import opened ModArith
  import opened P256Limbs
  import opened P256Curve
  import opened P256Group
  import opened P256Ecdsa
  import opened P256Sign

  /** The 32 bytes of a hash that count: its first ones, or all of it behind zeros. */
  function Counted(h: seq<byte>): (b: seq<byte>)
    ensures |b| == 32
  {
    if |h| < 32 then Zeros(32 - |h|) + h else h[..32]
  }

  lemma {:induction false} SameBytes(a: seq<byte>, b: seq<byte>)
    requires |a| == |b| && ValBE(a) == ValBE(b)
    ensures a == b
  {
    if a != [] {
      var n := |a| - 1;
      var x, y := ValBE(a[..n]), ValBE(b[..n]);
      assert 0x100 * x + a[n] == 0x100 * y + b[n];
      assert x == y && a[n] == b[n];
      SameBytes(a[..n], b[..n]);
      assert a == a[..n] + [a[n]] && b == b[..n] + [b[n]];
    }
  }

  lemma {:induction false} CountedInt(h: seq<byte>)
    ensures HashInt(h) == ValBE(Counted(h))
  {
    hide ValBE;
    if |h| < 32 {
      LeadingZeros(32 - |h|, h);
    }
  }

  /** Two hashes stand for the same number exactly when the bytes that count are the same. */
  lemma {:induction false} SameHashIff(a: seq<byte>, b: seq<byte>)
    ensures HashInt(a) == HashInt(b) <==> Counted(a) == Counted(b)
  {
    hide HashInt, ValBE, Counted;
    CountedInt(a);
    CountedInt(b);
    if HashInt(a) == HashInt(b) {
      SameBytes(Counted(a), Counted(b));
    }
  }

  /** So no byte of a 32-byte hash is ignored, bytes behind the 32nd are, and so are leading zeros of a
      shorter one. */
  lemma {:induction false} HashBytesThatCount(a: seq<byte>, b: seq<byte>, more: seq<byte>, n: nat)
    ensures |a| == |b| == 32 && a != b ==> HashInt(a) != HashInt(b)
    ensures |a| >= 32 ==> HashInt(a + more) == HashInt(a)
    ensures n + |a| <= 32 ==> HashInt(Zeros(n) + a) == HashInt(a)
  {
    hide HashInt, ValBE;
    SameHashIff(a, b);
    SameHashIff(a, a + more);
    SameHashIff(a, Zeros(n) + a);
    if |a| == |b| == 32 {
      assert a[..32] == a && b[..32] == b;
    }
    if |a| >= 32 {
      assert (a + more)[..32] == a[..32];
    }
    if n + |a| <= 32 {
      var z := Zeros(n) + a;
      assert Counted(z) == Zeros(32 - |a|) + a;
      assert |a| == 32 ==> Zeros(0) + a == a;
    }
  }

  // ---- Verification ---------------------------------------------------------------------

  /** The scalar whose point the verifier compares with `r`. */
  function Recovered(r: nat, s: nat, q: int, e: nat): int {
    var w := Inverse(s);
    ((e * w) % N + (((r * w) % N) * q) % N) % N
  }

  lemma Cancel(a: int, b: int, c: int, m: int)
    requires m > 0 && (a + c) % m == (b + c) % m
    ensures a % m == b % m
  {
    CongSub(a + c, b + c, c, c, m);
  }

  /** For a fixed signature and key, different residues of the hash lead to different scalars. */
  lemma {:induction false} RecoveredDiffers(r: nat, s: nat, q: int, e: nat, f: nat)
    requires IsPrime(N) && 0 < s < N && Recovered(r, s, q, e) == Recovered(r, s, q, f)
    ensures e % N == f % N
  {
    hide Inverse, IsPrime;
    InverseCorrect(s);
    var w := Inverse(s);
    Cancel((e * w) % N, (f * w) % N, (((r * w) % N) * q) % N, N);
    ModMod(e * w, N);
    ModMod(f * w, N);
    assert (e * w) % N == (f * w) % N;
    CongMulRight(e * w, f * w, s, N);
    ModSmall(1, N);
    Undo(e, w, s);
    Undo(f, w, s);
  }

  lemma {:induction false} Undo(e: int, w: int, s: int)
    requires (s * w) % N == 1 % N
    ensures ((e * w) * s) % N == e % N
  {
    MulAssoc(e, w, s);
    MulComm(w, s);
    CongMul(e, e, s * w, 1, N);
  }

  /** A signature that verifies for two hashes of different residues under one key is a coincidence of
      x coordinates: two different multiples of the base point, both with x congruent to r. */
  lemma {:induction false} AcceptedTwice(g: Group, sig: seq<byte>, pub: seq<byte>, a: seq<byte>, b: seq<byte>)
    requires GroupLaw(g) && |sig| == 64 && |pub| == 64 && HashInt(a) % N != HashInt(b) % N
    requires Verdict(g, sig, pub, a) == Success && Verdict(g, sig, pub, b) == Success
    ensures var r, s, q := SigR(sig), SigS(sig), KeyLog(g, pub);
            var k, l := Recovered(r, s, q, HashInt(a) % N), Recovered(r, s, q, HashInt(b) % N);
            k != l && XIs(g, k, r) && XIs(g, l, r)
  {
    hide Inverse, XIs, HashInt, IsPublicKey, KeyLog, ValBE, IsPrime;
    var r, s, q := SigR(sig), SigS(sig), KeyLog(g, pub);
    var e, f := HashInt(a) % N, HashInt(b) % N;
    ModMod(HashInt(a), N);
    ModMod(HashInt(b), N);
    if Recovered(r, s, q, e) == Recovered(r, s, q, f) {
      RecoveredDiffers(r, s, q, e, f);
    }
  }
}

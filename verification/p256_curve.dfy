/** The curve P-256: constants, field operations, and the coordinate formulas of the source. */
module P256Curve {
  import opened Base
  import opened ModArith
  import opened P256Limbs
  import opened P256Mont

  const P: nat := 0xFFFFFFFF00000001000000000000000000000000FFFFFFFFFFFFFFFFFFFFFFFF
  const N: nat := 0xFFFFFFFF00000000FFFFFFFFFFFFFFFFBCE6FAADA7179E84F3B9CAC2FC632551
  const CURVE_B: nat := 0x5AC635D8AA3A93E7B3EBBD55769886BC651D06B0CC53B0F63BCE3C3E27D2604B
  const GX: nat := 0x6B17D1F2E12C4247F8BCE6E563A440F277037D812DEB33A0F4A13945D898C296
  const GY: nat := 0x4FE342E2FE1A7F9B8EE7EB4A7C0F9E162BCE33576B315ECECBB6406837BF51F5

  const P_LIMBS: seq<u32> :=
    [0xFFFFFFFF, 0xFFFFFFFF, 0xFFFFFFFF, 0x00000000,
     0x00000000, 0x00000000, 0x00000001, 0xFFFFFFFF]
  const P_R2: seq<u32> :=
    [0x00000003, 0x00000000, 0xffffffff, 0xfffffffb,
     0xfffffffe, 0xffffffff, 0xfffffffd, 0x00000004]
  const P_NI: u32 := 0x00000001
  const N_LIMBS: seq<u32> :=
    [0xFC632551, 0xF3B9CAC2, 0xA7179E84, 0xBCE6FAAD,
     0xFFFFFFFF, 0xFFFFFFFF, 0x00000000, 0xFFFFFFFF]
  const N_R2: seq<u32> :=
    [0xbe79eea2, 0x83244c95, 0x49bd6fa6, 0x4699799c,
     0x2b6bec59, 0x2845b239, 0xf3d95620, 0x66e12d94]
  const N_NI: u32 := 0xee00bc4f
  const B_LIMBS: seq<u32> :=
    [0x29c4bddf, 0xd89cdf62, 0x78843090, 0xacf005cd,
     0xf7212ed6, 0xe5a220ab, 0x04874834, 0xdc30061d]
  const GX_LIMBS: seq<u32> :=
    [0x18a9143c, 0x79e730d4, 0x5fedb601, 0x75ba95fc,
     0x77622510, 0x79fb732b, 0xa53755c6, 0x18905f76]
  const GY_LIMBS: seq<u32> :=
    [0xce95560a, 0xddf25357, 0xba19e45c, 0x8b4ab8e4,
     0xdd21f325, 0xd2e88688, 0x25885d85, 0x8571ff18]

  lemma {:induction false} Val8(s: seq<u32>)
    requires |s| == 8
    ensures Val(s) == s[0] + 0x1_0000_0000 * (s[1] + 0x1_0000_0000 * (s[2] + 0x1_0000_0000 * (s[3] + 0x1_0000_0000 *
                     (s[4] + 0x1_0000_0000 * (s[5] + 0x1_0000_0000 * (s[6] + 0x1_0000_0000 * (s[7] as int)))))))
  {
    hide Val;
    ValFrom(s, 0);
    ValFrom(s, 1);
    ValFrom(s, 2);
    ValFrom(s, 3);
    ValFrom(s, 4);
    ValFrom(s, 5);
    ValFrom(s, 6);
    ValFrom(s, 7);
    assert s[0..] == s && s[8..] == [];
    ValNone();
  }

  /** The constants stored for the field prime are what its Montgomery operations need. */
  lemma {:induction false} PConstants()
    ensures Val(P_LIMBS) == P && P % 2 == 1 && (P * P_NI + 1) % 0x1_0000_0000 == 0
    ensures Val(P_R2) == (B(8) * B(8)) % P
    ensures P_LIMBS[0] >= 2
  {
    hide Val, B;
    Val8(P_LIMBS);
    Val8(P_R2);
    B8();
  }

  lemma {:induction false} NConstants()
    ensures Val(N_LIMBS) == N && N % 2 == 1 && (N * N_NI + 1) % 0x1_0000_0000 == 0
    ensures Val(N_R2) == (B(8) * B(8)) % N
    ensures N_LIMBS[0] >= 2
  {
    hide Val, B;
    Val8(N_LIMBS);
    Val8(N_R2);
    B8();
  }

  /** The stored curve constants are the standard ones in Montgomery form. */
  lemma {:induction false} PointConstants()
    ensures Val(B_LIMBS) == (CURVE_B * B(8)) % P
    ensures Val(GX_LIMBS) == (GX * B(8)) % P
    ensures Val(GY_LIMBS) == (GY * B(8)) % P
  {
    hide Val, B;
    Val8(B_LIMBS);
    Val8(GX_LIMBS);
    Val8(GY_LIMBS);
    B8();
  }

  // The field

  function FAdd(a: nat, b: nat): (r: nat)
    ensures r < P
  {
    (a + b) % P
  }

  function FSub(a: nat, b: nat): (r: nat)
    ensures r < P
  {
    (a - b) % P
  }

  function FMul(a: nat, b: nat): (r: nat)
    ensures r < P
  {
    (a * b) % P
  }

  function FInv(a: nat): (r: nat)
    ensures r < P
  {
    Pow(a, P - 2) % P
  }

  /** A point in Jacobian coordinates: x / z^2 and y / z^3, or zero when z is 0. */
  datatype Jac = Jac(x: nat, y: nat, z: nat)

  /** Is (x, y) on the curve? */
  predicate OnCurve(x: nat, y: nat) {
    FMul(y, y) == CurveRhs(x)
  }

  function CurveRhs(x: nat): nat {
    FAdd(FSub(FSub(FSub(FMul(FMul(x, x), x), x), x), x), CURVE_B)
  }

  function JDouble(j: Jac): Jac {
    var zz := FMul(j.z, j.z);
    var t := FMul(FAdd(j.x, zz), FSub(j.x, zz));
    var m := FAdd(FAdd(t, t), t);
    var yy := FMul(j.y, j.y);
    var u := FAdd(yy, yy);
    var xu := FMul(j.x, u);
    var s := FAdd(xu, xu);
    var uu := FMul(u, u);
    var w := FAdd(uu, uu);
    var x3 := FSub(FSub(FMul(m, m), s), s);
    var yz := FMul(j.y, j.z);
    Jac(x3, FSub(FMul(FSub(s, x3), m), w), FAdd(yz, yz))
  }

  function JAdd(j: Jac, x2: nat, y2: nat): Jac {
    var zz := FMul(j.z, j.z);
    var h := FSub(FMul(zz, x2), j.x);
    var r := FSub(FMul(FMul(zz, j.z), y2), j.y);
    var hh := FMul(h, h);
    var hhh := FMul(hh, h);
    var v := FMul(hh, j.x);
    var x3 := FSub(FSub(FSub(FMul(r, r), v), v), hhh);
    Jac(x3, FSub(FMul(FSub(v, x3), r), FMul(hhh, j.y)), FMul(j.z, h))
  }

  function JAffine(j: Jac): (nat, nat) {
    var zi := FInv(j.z);
    var t := FMul(zi, zi);
    (FMul(j.x, t), FMul(j.y, FMul(t, zi)))
  }

  // The code

  const MOD_P := Modulus(P_LIMBS, P_R2, P_NI)
  const MOD_N := Modulus(N_LIMBS, N_R2, N_NI)

  lemma {:induction false} ModuliValid()
    ensures MOD_P.Valid() && MOD_P.N() == P && MOD_P.m[0] >= 2
    ensures MOD_N.Valid() && MOD_N.N() == N && MOD_N.m[0] >= 2
  {
    hide Val, B;
    PConstants();
    NConstants();
  }

  lemma {:induction false} StoredResidue(x: nat, v: nat)
    requires x < P && v == (x * B(8)) % P
    ensures v < P && Dom(v, P) == x
  {
    hide B, Dom;
    ModMod(x * B(8), P);
    DomCong(v, x * B(8), P);
    DomRadix(x, P);
    ModSmall(x, P);
  }

  /** The field element an array holds. */
  ghost function D(x: array<u32>): nat
    reads x
  {
    Dom(V(x), P)
  }

  /** The array holds the field element `v`. */
  ghost predicate Fe(x: array<u32>, v: nat)
    reads x
    ensures Fe(x, v) ==> Is256(x) && v < P
  {
    Is256(x) && V(x) < P && D(x) == v
  }

  method MulP(z: array<u32>, x: array<u32>, y: array<u32>, ghost a: nat, ghost b: nat)
    requires Is256(z) && Fe(x, a) && Fe(y, b)
    modifies z
    ensures Fe(z, FMul(a, b))
  {
    hide Val, B, Dom, Modulus.Valid, Modulus.N;
    ModuliValid();
    M256Mul(z, x, y, MOD_P);
  }

  method AddP(z: array<u32>, x: array<u32>, y: array<u32>, ghost a: nat, ghost b: nat)
    requires Is256(z) && Fe(x, a) && Fe(y, b)
    modifies z
    ensures Fe(z, FAdd(a, b))
  {
    hide Val, B, Dom, Modulus.Valid, Modulus.N;
    ModuliValid();
    DomAdd(V(x), V(y), P);
    M256Add(z, x, y, MOD_P);
  }

  method SubP(z: array<u32>, x: array<u32>, y: array<u32>, ghost a: nat, ghost b: nat)
    requires Is256(z) && Fe(x, a) && Fe(y, b)
    modifies z
    ensures Fe(z, FSub(a, b))
  {
    hide Val, B, Dom, Modulus.Valid, Modulus.N;
    ModuliValid();
    DomSub(V(x), V(y), P);
    M256Sub(z, x, y, MOD_P);
  }

  method SetP(z: array<u32>, x: u32)
    requires Is256(z)
    modifies z
    ensures Fe(z, x)
  {
    hide Val, B, Dom, Modulus.Valid, Modulus.N;
    ModuliValid();
    ModSmall(x, P);
    M256Set32(z, x, MOD_P);
  }

  method Constant(s: seq<u32>, ghost v: nat) returns (a: array<u32>)
    requires |s| == 8 && v < P && Val(s) == (v * B(8)) % P
    ensures fresh(a) && Fe(a, v)
  {
    hide Val, B, Dom;
    StoredResidue(v, Val(s));
    a := Limbs(s);
  }

  method CurveConstant() returns (b: array<u32>)
    ensures fresh(b) && Fe(b, CURVE_B)
  {
    hide Val, B, Dom, Fe;
    PointConstants();
    b := Constant(B_LIMBS, CURVE_B);
  }

  method BasePoint() returns (gx: array<u32>, gy: array<u32>)
    ensures fresh(gx) && fresh(gy) && gx != gy && Fe(gx, GX) && Fe(gy, GY)
  {
    hide Val, B, Dom, Fe;
    PointConstants();
    gx := Constant(GX_LIMBS, GX);
    gy := Constant(GY_LIMBS, GY);
  }

  lemma {:induction false} FeEqual(x: array<u32>, y: array<u32>, a: nat, b: nat)
    requires Fe(x, a) && Fe(y, b)
    ensures V(x) == V(y) <==> a == b
  {
    hide Val, B, Dom;
    if a == b {
      DomInjective(V(x), V(y), P);
    }
  }

  /** Zero if and only if the coordinates satisfy the curve equation. */
  method PointCheck(x: array<u32>, y: array<u32>, ghost a: nat, ghost b: nat) returns (diff: nat)
    requires Fe(x, a) && Fe(y, b)
    ensures diff == 0 <==> OnCurve(a, b)
  {
    hide FMul, FAdd, FSub, Fe, V;
    var lhs, rhs := new u32[8](_ => 0), new u32[8](_ => 0);
    MulP(lhs, y, y, b, b);
    MulP(rhs, x, x, a, a);
    ghost var v := FMul(a, a);
    MulP(rhs, rhs, x, v, a);
    v := FMul(v, a);
    SubP(rhs, rhs, x, v, a);
    v := FSub(v, a);
    SubP(rhs, rhs, x, v, a);
    v := FSub(v, a);
    SubP(rhs, rhs, x, v, a);
    v := FSub(v, a);
    var cb := CurveConstant();
    AddP(rhs, rhs, cb, v, CURVE_B);
    v := FAdd(v, CURVE_B);
    diff := U256Diff(lhs, rhs);
    FeEqual(lhs, rhs, FMul(b, b), v);
  }

  /** The three arrays hold the coordinates of `j`. */
  ghost predicate Holds(x: array<u32>, y: array<u32>, z: array<u32>, j: Jac)
    reads x, y, z
  {
    Fe(x, j.x) && Fe(y, j.y) && Fe(z, j.z)
  }

  /** From Jacobian to affine coordinates, in place. */
  method PointToAffine(x: array<u32>, y: array<u32>, z: array<u32>, ghost j: Jac)
    requires Holds(x, y, z, j) && x != y && y != z && x != z
    modifies x, y, z
    ensures Fe(x, JAffine(j).0) && Fe(y, JAffine(j).1)
  {
    hide FMul, FInv, Fe;
    var t := new u32[8](_ => 0);
    InvP(z, j.z);
    ghost var zi := FInv(j.z);
    MulP(t, z, z, zi, zi);
    ghost var zz := FMul(zi, zi);
    MulP(x, x, t, j.x, zz);
    MulP(t, t, z, zz, zi);
    MulP(y, y, t, j.y, FMul(zz, zi));
  }

  method InvP(z: array<u32>, ghost a: nat)
    requires Fe(z, a)
    modifies z
    ensures Fe(z, FInv(a))
  {
    hide Val, B, Dom, Pow, Modulus.Valid, Modulus.N;
    ModuliValid();
    M256Inv(z, z, MOD_P);
  }

  /** Doubling in Jacobian coordinates, in place. */
  method PointDouble(x: array<u32>, y: array<u32>, z: array<u32>, ghost j: Jac)
    requires Holds(x, y, z, j) && x != y && y != z && x != z
    modifies x, y, z
    ensures Holds(x, y, z, JDouble(j))
  {
    hide FMul, FAdd, FSub, Fe;
    var m, s, u := new u32[8](_ => 0), new u32[8](_ => 0), new u32[8](_ => 0);
    ghost var sv, uv := DoubleSlope(x, y, z, m, s, u, j);
    ghost var mv := SlopeOf(j);
    // x3 = m^2 - 2 * s
    MulP(x, m, m, mv, mv);
    ghost var xv := FMul(mv, mv);
    SubP(x, x, s, xv, sv);
    xv := FSub(xv, sv);
    SubP(x, x, s, xv, sv);
    xv := FSub(xv, sv);
    // z3 = 2 * y * z
    MulP(z, y, z, j.y, j.z);
    ghost var zv := FMul(j.y, j.z);
    AddP(z, z, z, zv, zv);
    // y3 = -u + m * (s - x3)
    SubP(y, s, x, sv, xv);
    ghost var yv := FSub(sv, xv);
    MulP(y, y, m, yv, mv);
    yv := FMul(yv, mv);
    SubP(y, y, u, yv, uv);
  }

  function SlopeOf(j: Jac): nat {
    var zz := FMul(j.z, j.z);
    var t := FMul(FAdd(j.x, zz), FSub(j.x, zz));
    FAdd(FAdd(t, t), t)
  }

  /** The intermediates of a doubling: m = 3 (x + z^2) (x - z^2), s = 4 x y^2, u = 8 y^4. */
  method DoubleSlope(x: array<u32>, y: array<u32>, z: array<u32>, m: array<u32>, s: array<u32>,
                     u: array<u32>, ghost j: Jac)
    returns (ghost sv: nat, ghost uv: nat)
    requires Holds(x, y, z, j) && Is256(m) && Is256(s) && Is256(u)
    requires m !in {x, y, z, s, u} && s !in {x, y, z, u} && u !in {x, y, z}
    modifies m, s, u
    ensures Fe(m, SlopeOf(j)) && Fe(s, sv) && Fe(u, uv)
    ensures var yy := FMul(j.y, j.y);
            var u2 := FAdd(yy, yy);
            var xu := FMul(j.x, u2);
            var uu := FMul(u2, u2);
            sv == FAdd(xu, xu) && uv == FAdd(uu, uu)
  {
    hide FMul, FAdd, FSub, Fe;
    MulP(s, z, z, j.z, j.z);
    ghost var zz := FMul(j.z, j.z);
    AddP(m, x, s, j.x, zz);
    SubP(u, x, s, j.x, zz);
    MulP(s, m, u, FAdd(j.x, zz), FSub(j.x, zz));
    ghost var t := FMul(FAdd(j.x, zz), FSub(j.x, zz));
    AddP(m, s, s, t, t);
    AddP(m, m, s, FAdd(t, t), t);
    MulP(u, y, y, j.y, j.y);
    ghost var yy := FMul(j.y, j.y);
    AddP(u, u, u, yy, yy);
    ghost var u2 := FAdd(yy, yy);
    MulP(s, x, u, j.x, u2);
    ghost var xu := FMul(j.x, u2);
    AddP(s, s, s, xu, xu);
    MulP(u, u, u, u2, u2);
    ghost var uu := FMul(u2, u2);
    AddP(u, u, u, uu, uu);
    sv, uv := FAdd(xu, xu), FAdd(uu, uu);
  }

  /** Addition of an affine point to a Jacobian one, in place. */
  method PointAdd(x1: array<u32>, y1: array<u32>, z1: array<u32>, x2: array<u32>, y2: array<u32>,
                  ghost j: Jac, ghost xv: nat, ghost yv: nat)
    requires Holds(x1, y1, z1, j) && Fe(x2, xv) && Fe(y2, yv)
    requires x1 != y1 && y1 != z1 && x1 != z1 && x2 !in {x1, y1, z1} && y2 !in {x1, y1, z1}
    modifies x1, y1, z1
    ensures Holds(x1, y1, z1, JAdd(j, xv, yv))
  {
    hide FMul, FAdd, FSub, Fe;
    var t1, t2, t3 := new u32[8](_ => 0), new u32[8](_ => 0), new u32[8](_ => 0);
    // t1 = h = x2 z1^2 - x1, t2 = r = y2 z1^3 - y1
    MulP(t1, z1, z1, j.z, j.z);
    ghost var zz := FMul(j.z, j.z);
    MulP(t2, t1, z1, zz, j.z);
    MulP(t1, t1, x2, zz, xv);
    MulP(t2, t2, y2, FMul(zz, j.z), yv);
    SubP(t1, t1, x1, FMul(zz, xv), j.x);
    SubP(t2, t2, y1, FMul(FMul(zz, j.z), yv), j.y);
    ghost var h, r := FSub(FMul(zz, xv), j.x), FSub(FMul(FMul(zz, j.z), yv), j.y);
    MulP(z1, z1, t1, j.z, h);
    AddTail(x1, y1, t1, t2, t3, j, h, r);
  }

  /** The second half of an addition: x3 and y3 from h and r. */
  method AddTail(x1: array<u32>, y1: array<u32>, t1: array<u32>, t2: array<u32>, t3: array<u32>,
                 ghost j: Jac, ghost h: nat, ghost r: nat)
    requires Fe(x1, j.x) && Fe(y1, j.y) && Fe(t1, h) && Fe(t2, r) && Is256(t3)
    requires x1 != y1 && t1 !in {x1, y1, t2, t3} && t2 !in {x1, y1, t3} && t3 !in {x1, y1}
    modifies x1, y1, t1, t3
    ensures var hh := FMul(h, h);
            var hhh := FMul(hh, h);
            var v := FMul(hh, j.x);
            var x3 := FSub(FSub(FSub(FMul(r, r), v), v), hhh);
            Fe(x1, x3) && Fe(y1, FSub(FMul(FSub(v, x3), r), FMul(hhh, j.y)))
  {
    hide FMul, FAdd, FSub, Fe;
    MulP(t3, t1, t1, h, h);
    ghost var hh := FMul(h, h);
    MulP(t1, t3, t1, hh, h);
    ghost var hhh := FMul(hh, h);
    MulP(t3, t3, x1, hh, j.x);
    ghost var v := FMul(hh, j.x);
    MulP(x1, t2, t2, r, r);
    ghost var x3 := FMul(r, r);
    SubP(x1, x1, t3, x3, v);
    x3 := FSub(x3, v);
    SubP(x1, x1, t3, x3, v);
    x3 := FSub(x3, v);
    SubP(x1, x1, t1, x3, hhh);
    x3 := FSub(x3, hhh);
    SubP(t3, t3, x1, v, x3);
    MulP(t3, t3, t2, FSub(v, x3), r);
    MulP(t1, t1, y1, hhh, j.y);
    SubP(y1, t3, t1, FMul(FSub(v, x3), r), FMul(hhh, j.y));
  }
}

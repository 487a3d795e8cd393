/** The group of curve points, and scalar multiplication by a signed-binary ladder. */
module P256Group {
  import opened Base
  import opened Bits
  import opened ModArith
  import opened P256Limbs
  import opened P256Mont
  import opened P256Curve

  /** The group of points: which coordinate triples are points, and the multiple of the base
      point each one is. */
  datatype Group = Group(valid: Jac -> bool, log: Jac -> int)

  function AffineJac(x: nat, y: nat): Jac {
    Jac(x, y, 1)
  }

  ghost predicate ZeroLaw(g: Group, j: Jac) {
    g.valid(j) ==> 0 <= g.log(j) < N && (g.log(j) == 0 <==> j.z == 0)
  }

  ghost predicate AffineLaw(g: Group, x: nat, y: nat) {
    g.valid(AffineJac(x, y)) <==> x < P && y < P && OnCurve(x, y)
  }

  ghost predicate DoubleLaw(g: Group, j: Jac) {
    g.valid(j) ==> g.valid(JDouble(j)) && g.log(JDouble(j)) == (2 * g.log(j)) % N
  }

  /** The addition formulas hold for points that are not zero and not plus or minus each other. */
  ghost predicate AddLaw(g: Group, j: Jac, x: nat, y: nat) {
    var q := AffineJac(x, y);
    g.valid(j) && g.valid(q) && g.log(j) != 0 && g.log(j) != g.log(q) && g.log(j) + g.log(q) != N ==>
      g.valid(JAdd(j, x, y)) && g.log(JAdd(j, x, y)) == (g.log(j) + g.log(q)) % N
  }

  ghost predicate ToAffineLaw(g: Group, j: Jac) {
    g.valid(j) && j.z != 0 ==>
      var a := JAffine(j);
      g.valid(AffineJac(a.0, a.1)) && g.log(AffineJac(a.0, a.1)) == g.log(j)
  }

  ghost predicate NegLaw(g: Group, x: nat, y: nat) {
    g.valid(AffineJac(x, y)) ==>
      g.valid(AffineJac(x, FSub(0, y))) && g.log(AffineJac(x, FSub(0, y))) == N - g.log(AffineJac(x, y))
  }

  ghost predicate UniqueLaw(g: Group, x: nat, y: nat, x': nat, y': nat) {
    g.valid(AffineJac(x, y)) && g.valid(AffineJac(x', y')) && g.log(AffineJac(x, y)) == g.log(AffineJac(x', y')) ==>
      x == x' && y == y'
  }

  /** The group law of the curve: what the theory of elliptic curves says about the formulas. */
  ghost predicate GroupLaw(g: Group) {
    && IsPrime(P) && IsPrime(N)
    && (forall j: Jac :: ZeroLaw(g, j))
    && (forall x: nat, y: nat :: AffineLaw(g, x, y))
    && (forall j: Jac :: DoubleLaw(g, j))
    && (forall j: Jac, x: nat, y: nat :: AddLaw(g, j, x, y))
    && (forall j: Jac :: ToAffineLaw(g, j))
    && (forall x: nat, y: nat :: NegLaw(g, x, y))
    && (forall x: nat, y: nat, x': nat, y': nat :: UniqueLaw(g, x, y, x', y'))
    && g.log(AffineJac(GX, GY)) == 1
  }

  /** The affine point (x, y) is the `k`-th multiple of the base point. */
  ghost predicate IsMultiple(g: Group, x: nat, y: nat, k: int) {
    g.valid(AffineJac(x, y)) && g.log(AffineJac(x, y)) == k
  }

  lemma {:induction false} MultipleRange(g: Group, x: nat, y: nat, k: int)
    requires GroupLaw(g) && IsMultiple(g, x, y, k)
    ensures 0 < k < N && x < P && y < P
  {
    hide OnCurve;
    assert ZeroLaw(g, AffineJac(x, y));
    assert AffineLaw(g, x, y);
  }

  lemma {:induction false} BasePointOnCurve()
    ensures OnCurve(GX, GY)
  {
    assert FMul(GX, GX) == 0x98F6B84D29BEF2B281819A5E0E3690D833B699495D694DD1002AE56C426B3F8C;
    assert FMul(0x98F6B84D29BEF2B281819A5E0E3690D833B699495D694DD1002AE56C426B3F8C, GX) ==
           0x3C609D594A3EAE9CB85F88944BE7A619497801F461809FCD60F29C8F83BBD509;
    assert FMul(GY, GY) == 0x55DF5D5850F47BAD82149139979369FE498A9022A412B5E0BEDD2CFC21C3ED91;
    hide FMul;
    assert FSub(0x3C609D594A3EAE9CB85F88944BE7A619497801F461809FCD60F29C8F83BBD509, GX) ==
           0xD148CB6569126C55BFA2A1AEE8436526D274847433956C2C6C516349AB231272;
    assert FSub(0xD148CB6569126C55BFA2A1AEE8436526D274847433956C2C6C516349AB231272, GX) ==
           0x6630F97287E62A0DC6E5BAC9849F24345B7106F305AA388B77B02A03D28A4FDC;
    assert FSub(0x6630F97287E62A0DC6E5BAC9849F24345B7106F305AA388B77B02A03D28A4FDC, GX) ==
           0xFB19277EA6B9E7C6CE28D3E420FAE341E46D8972D7BF04EA830EF0BDF9F18D45;
    assert FAdd(0xFB19277EA6B9E7C6CE28D3E420FAE341E46D8972D7BF04EA830EF0BDF9F18D45, CURVE_B) ==
           0x55DF5D5850F47BAD82149139979369FE498A9022A412B5E0BEDD2CFC21C3ED91;
  }

  lemma {:induction false} BaseIsMultiple(g: Group)
    requires GroupLaw(g)
    ensures IsMultiple(g, GX, GY, 1)
  {
    BasePointOnCurve();
    hide OnCurve;
    assert AffineLaw(g, GX, GY);
  }

  lemma {:induction false} NegIsMultiple(g: Group, x: nat, y: nat, k: int)
    requires GroupLaw(g) && IsMultiple(g, x, y, k)
    ensures IsMultiple(g, x, FSub(0, y), N - k)
  {
    hide FSub, OnCurve;
    assert NegLaw(g, x, y);
  }

  // Scalars and bits

  /** `s` shifted right by `k` bits. */
  function Shift(s: nat, k: nat): nat {
    if k == 0 then s else Shift(s / 2, k - 1)
  }

  lemma {:induction false} ShiftStep(s: nat, k: nat)
    ensures Shift(s, k + 1) == Shift(s, k) / 2
  {
    if k > 0 {
      ShiftStep(s / 2, k - 1);
    }
  }

  lemma {:induction false} ShiftTwice(s: nat, a: nat, b: nat)
    ensures Shift(s, a + b) == Shift(Shift(s, a), b)
    decreases a
  {
    if a > 0 {
      ShiftTwice(s / 2, a - 1, b);
    }
  }

  lemma {:induction false} ShiftBound(s: nat, j: nat, k: nat)
    requires j <= k && s < Pow2(k)
    ensures Shift(s, j) < Pow2(k - j)
  {
    if j > 0 {
      ShiftBound(s / 2, j - 1, k - 1);
    }
  }

  lemma {:induction false} HalveSum(low: nat, rest: nat, k: nat)
    requires k > 0 && low < Pow2(k)
    ensures Pow2(k) * rest >= 0
    ensures (low + Pow2(k) * rest) / 2 == low / 2 + Pow2(k - 1) * rest
    ensures (low + Pow2(k) * rest) % 2 == low % 2
  {
    hide Pow2;
    Pow2Step(k);
    var p := Pow2(k - 1);
    MulAssoc(2, p, rest);
    MulNonneg(p, rest);
    assert low + Pow2(k) * rest == 2 * (low / 2 + p * rest) + low % 2;
  }

  /** Shifting out the low `k` bits leaves the rest. */
  lemma {:induction false} ShiftOut(low: nat, rest: nat, k: nat)
    requires low < Pow2(k)
    ensures Pow2(k) * rest >= 0
    ensures Shift(low + Pow2(k) * rest, k) == rest
  {
    MulNonneg(Pow2(k), rest);
    if k > 0 {
      HalveSum(low, rest, k);
      ShiftOut(low / 2, rest, k - 1);
    }
  }

  lemma {:induction false} ShiftLowBit(low: nat, rest: nat, k: nat, i: nat)
    requires i < k && low < Pow2(k)
    ensures Pow2(k) * rest >= 0
    ensures Shift(low + Pow2(k) * rest, i) % 2 == Shift(low, i) % 2
  {
    MulNonneg(Pow2(k), rest);
    HalveSum(low, rest, k);
    if i > 0 {
      ShiftLowBit(low / 2, rest, k - 1, i - 1);
    }
  }

  /** Bit `i` of a number is bit `i % 32` of limb `i / 32`. */
  lemma {:induction false} LimbBit(s: seq<u32>, i: nat)
    requires i < 32 * |s|
    ensures Shift(Val(s), i) % 2 == Shift(s[i / 32], i % 32) % 2
    decreases |s|
  {
    hide Pow2, Shift, Val;
    ValFrom(s, 0);
    assert s[0..] == s;
    Pow2Of32();
    if i < 32 {
      ShiftLowBit(s[0], Val(s[1..]), 32, i);
    } else {
      LimbBit(s[1..], i - 32);
      assert s[1..][(i - 32) / 32] == s[i / 32];
      ShiftOut(s[0], Val(s[1..]), 32);
      ShiftTwice(Val(s), 32, i - 32);
    }
  }

  // The ladder

  /** The multiple reached before bit `i` is processed: all bits above `i`, with a 1 behind them. */
  function LadderMultiple(s: nat, i: nat): nat {
    2 * Shift(s, i + 1) + 1
  }

  /** Doubling and adding plus or minus one appends the next bit. */
  lemma LadderStepMultiple(s: nat, i: nat)
    requires i >= 1
    ensures LadderMultiple(s, i - 1) == 2 * LadderMultiple(s, i) + 2 * (Shift(s, i) % 2) - 1
  {
    ShiftStep(s, i);
  }

  /** The doubled multiple stays strictly between 1 and N - 1, so the addition formula applies. */
  lemma {:induction false} LadderInRange(s: nat, i: nat)
    requires 1 <= i <= 255 && s < N && s % 2 == 1
    ensures 1 < 2 * LadderMultiple(s, i) < N - 1
  {
    hide Pow2;
    if i == 1 {
      ShiftStep(s, 0);
      ShiftStep(s, 1);
      assert Shift(s, 0) == s;
      assert N % 4 == 1;
    } else {
      hide Shift;
      Pow2Of256();
      ShiftBound(s, i + 1, 256);
      Pow2Monotone(255 - i, 253);
    }
  }

  lemma {:induction false} Pow2Monotone(a: nat, b: nat)
    requires a <= b
    ensures Pow2(a) <= Pow2(b)
    decreases b
  {
    if a < b {
      Pow2Monotone(a, b - 1);
    }
  }

  lemma {:induction false} Pow2Add(a: nat, b: nat)
    ensures Pow2(a + b) == Pow2(a) * Pow2(b)
  {
    if a > 0 {
      Pow2Add(a - 1, b);
      MulAssoc(2, Pow2(a - 1), Pow2(b));
    }
  }

  lemma {:induction false} Pow2Of256()
    ensures Pow2(253) == 0x2000000000000000000000000000000000000000000000000000000000000000
    ensures Pow2(256) == 0x10000000000000000000000000000000000000000000000000000000000000000
  {
    hide Pow2;
    Pow2Of32();
    Pow2Add(32, 32);
    Pow2Add(64, 64);
    Pow2Add(128, 128);
    Pow2Step(256);
    Pow2Step(255);
    Pow2Step(254);
  }

  lemma {:induction false} LadderEnds(s: nat)
    requires s < N && s % 2 == 1
    ensures LadderMultiple(s, 255) == 1 && LadderMultiple(s, 0) == s
  {
    assert Shift(s, 1) == s / 2;
    hide Pow2, Shift;
    Pow2Of256();
    ShiftBound(s, 256, 256);
    Pow2Of32();
  }

  lemma MultipleNonzero(k: int, l: int)
    requires IsPrime(N) && 0 < k < N && 0 < l < N
    ensures (k * l) % N != 0
  {
    if (k * l) % N == 0 {
      Euclid(N, k, l);
      ModSmall(k, N);
      ModSmall(l, N);
    }
  }

  /** A multiple strictly between 1 and N - 1 of a nonzero point is neither zero nor plus or minus it. */
  lemma LadderSafe(k: int, l: int)
    requires IsPrime(N) && 1 < k < N - 1 && 0 < l < N
    ensures var a := (k * l) % N; a != 0 && a != l && a + l != N
  {
    MultipleNonzero(k, l);
    MultipleNonzero(k - 1, l);
    MultipleNonzero(k + 1, l);
    MulSplit(k, 1, l);
    MulSplit(k, -1, l);
    ModMod(k * l, N);
    CongSub(k * l, (k * l) % N, l, l, N);
    CongAdd(k * l, (k * l) % N, l, l, N);
    ModUnique(N, N, 1, 0);
    ModSmall(0, N);
  }

  /** One step of the ladder: double, then add plus or minus the point. */
  method LadderStep(rx: array<u32>, ry: array<u32>, rz: array<u32>, px: array<u32>, pyUse: array<u32>,
                    ghost g: Group, ghost r: Jac, ghost k: int, ghost l: int, ghost sign: int, ghost x: nat,
                    ghost y: nat)
    returns (ghost r': Jac)
    requires GroupLaw(g) && Holds(rx, ry, rz, r) && rx != ry && ry != rz && rx != rz
    requires px !in {rx, ry, rz} && pyUse !in {rx, ry, rz}
    requires g.valid(r) && g.log(r) == (k * l) % N && 1 < 2 * k < N - 1 && 0 < l < N
    requires Fe(px, x) && Fe(pyUse, y) && (sign == 1 || sign == -1)
    requires IsMultiple(g, x, y, if sign == 1 then l else N - l)
    modifies rx, ry, rz
    ensures Holds(rx, ry, rz, r') && g.valid(r') && g.log(r') == ((2 * k + sign) * l) % N
  {
    hide Fe, JDouble, JAdd, JAffine, FSub, FMul, FAdd, OnCurve;
    PointDouble(rx, ry, rz, r);
    ghost var d := JDouble(r);
    assert DoubleLaw(g, r);
    MulModRight(2, k * l, N);
    MulAssoc(2, k, l);
    LadderSafe(2 * k, l);
    assert AddLaw(g, d, x, y);
    PointAdd(rx, ry, rz, px, pyUse, d, x, y);
    r' := JAdd(d, x, y);
    LadderSum(2 * k, l, sign);
  }

  lemma LadderSum(k: int, l: int, sign: int)
    requires sign == 1 || sign == -1
    ensures ((k * l) % N + (if sign == 1 then l else N - l)) % N == ((k + sign) * l) % N
  {
    AddModLeft(k * l, if sign == 1 then l else N - l, N);
    MulSplit(k, sign, l);
    if sign == -1 {
      ModAddMultiple(k * l - l, 1, N);
    }
  }

  /** s * P for a scalar from 1 to N - 1 and a point P. */
  method ScalarMult(rx: array<u32>, ry: array<u32>, px: array<u32>, py: array<u32>, s: array<u32>,
                    ghost g: Group, ghost x: nat, ghost y: nat, ghost l: int)
    returns (ghost x': nat, ghost y': nat)
    requires GroupLaw(g) && Is256(rx) && Is256(ry) && Is256(s)
    requires rx != ry && rx !in {px, py, s} && ry !in {px, py, s}
    requires Fe(px, x) && Fe(py, y) && IsMultiple(g, x, y, l)
    requires 1 <= V(s) < N
    modifies rx, ry
    ensures Fe(rx, x') && Fe(ry, y') && IsMultiple(g, x', y', (V(s) * l) % N)
  {
    hide Fe, Val, FSub, Dom, IsMultiple, GroupLaw, IsPrime;
    MultipleRange(g, x, y, l);
    var sOdd, negate := MakeOdd(s);
    // py_neg = - py mod p
    var pyUse, pyNeg, rz := new u32[8](_ => 0), new u32[8](_ => 0), new u32[8](_ => 0);
    SetZero(pyUse);
    SubP(pyNeg, pyUse, py, 0, y);
    NegIsMultiple(g, x, y, l);
    // R = P', the point or its negation
    CopyFe(rx, px, x);
    CopyFe(ry, py, y);
    SetP(rz, 1);
    CmovFe(ry, pyNeg, negate, y, FSub(0, y));
    ghost var l' := if negate == 1 then N - l else l;
    ghost var r := AffineJac(x, if negate == 1 then FSub(0, y) else y);
    r := Ladder(rx, ry, rz, px, py, pyNeg, pyUse, sOdd, negate, g, r, x, y, l);
    OddScalar(V(s), V(sOdd), l, negate);
    x', y' := ToAffinePoint(rx, ry, rz, g, r, (V(sOdd) * l') % N);
  }

  lemma FeCopy(z: array<u32>, x: array<u32>, v: nat)
    requires Fe(x, v) && Is256(z) && z[..] == x[..]
    ensures Fe(z, v)
  {
  }

  method CopyFe(z: array<u32>, x: array<u32>, ghost v: nat)
    requires Is256(z) && Fe(x, v)
    modifies z
    ensures Fe(z, v)
  {
    hide Val, Dom;
    U256Cmov(z, x, 1);
  }

  method CmovFe(z: array<u32>, x: array<u32>, c: u32, ghost a: nat, ghost b: nat)
    requires Fe(z, a) && Fe(x, b) && c <= 1
    modifies z
    ensures Fe(z, if c == 1 then b else a)
  {
    hide Val, Dom;
    U256Cmov(z, x, c);
  }

  method SetZero(z: array<u32>)
    requires Is256(z)
    modifies z
    ensures Fe(z, 0)
  {
    hide Val, B, RInv;
    U256Set32(z, 0);
  }

  /** The scalar itself if it is odd, and the order less the scalar if it is even. */
  method MakeOdd(s: array<u32>) returns (sOdd: array<u32>, negate: u32)
    requires Is256(s) && 1 <= V(s) < N
    ensures fresh(sOdd) && Is256(sOdd) && negate <= 1
    ensures V(sOdd) % 2 == 1 && V(sOdd) < N
    ensures V(sOdd) == if negate == 1 then N - V(s) else V(s)
  {
    hide Val, B, Modulus.Valid;
    ModuliValid();
    sOdd := new u32[8](_ => 0);
    var n := Limbs(MOD_N.m);
    var borrow := U256Sub(sOdd, n, s);
    VBound(sOdd);
    VBound(s);
    VBound(n);
    LessIff(V(n), V(s), V(sOdd), borrow, B(8));
    ValParity(s[..]);
    negate := 1 - s[0] % 2;
    U256Cmov(sOdd, s, 1 - negate);
  }

  lemma ValParity(s: seq<u32>)
    requires s != []
    ensures Val(s) % 2 == s[0] % 2
  {
    ModAddMultiple(s[0], 0x8000_0000 * Val(s[1..]), 2);
  }

  lemma OddScalar(s: nat, sOdd: nat, l: int, negate: u32)
    requires sOdd == if negate == 1 then N - s else s
    ensures (sOdd * (if negate == 1 then N - l else l)) % N == (s * l) % N
  {
    if negate == 1 {
      var t: int := s;
      ModAddMultiple(-t, 1, N);
      ModAddMultiple(-l, 1, N);
      CongMul(N - t, -t, N - l, -l, N);
      assert (-t) * (-l) == t * l;
    }
  }

  method ToAffinePoint(rx: array<u32>, ry: array<u32>, rz: array<u32>, ghost g: Group, ghost r: Jac, ghost k: int)
    returns (ghost x': nat, ghost y': nat)
    requires GroupLaw(g) && Holds(rx, ry, rz, r) && rx != ry && ry != rz && rx != rz
    requires g.valid(r) && g.log(r) == k && k != 0
    modifies rx, ry, rz
    ensures Fe(rx, x') && Fe(ry, y') && IsMultiple(g, x', y', k)
  {
    hide Fe, JAffine, OnCurve;
    assert ZeroLaw(g, r);
    assert ToAffineLaw(g, r);
    PointToAffine(rx, ry, rz, r);
    x', y' := JAffine(r).0, JAffine(r).1;
  }

  /** The loop over the bits of an odd scalar, from bit 255 down to bit 1. */
  method Ladder(rx: array<u32>, ry: array<u32>, rz: array<u32>, px: array<u32>, py: array<u32>, pyNeg: array<u32>,
                pyUse: array<u32>, sOdd: array<u32>, negate: u32,
                ghost g: Group, ghost r0: Jac, ghost x: nat, ghost y: nat, ghost l: int)
    returns (ghost r: Jac)
    requires GroupLaw(g) && Is256(pyUse) && Is256(sOdd) && negate <= 1
    requires rx != ry && ry != rz && rx != rz
    requires px !in {rx, ry, rz, pyUse} && py !in {rx, ry, rz, pyUse} && pyNeg !in {rx, ry, rz, pyUse}
    requires pyUse !in {rx, ry, rz} && sOdd !in {rx, ry, rz, pyUse}
    requires Fe(px, x) && Fe(py, y) && Fe(pyNeg, FSub(0, y)) && IsMultiple(g, x, y, l)
    requires r0 == AffineJac(x, if negate == 1 then FSub(0, y) else y) && Holds(rx, ry, rz, r0)
    requires V(sOdd) < N && V(sOdd) % 2 == 1
    modifies rx, ry, rz, pyUse
    ensures Holds(rx, ry, rz, r) && g.valid(r)
    ensures g.log(r) == (V(sOdd) * (if negate == 1 then N - l else l)) % N && g.log(r) != 0
  {
    hide Fe, Val, FSub, Dom, LadderMultiple, OnCurve, GroupLaw, Holds, IsPrime, Shift;
    NegIsMultiple(g, x, y, l);
    MultipleRange(g, x, y, l);
    ghost var s, l' := V(sOdd), if negate == 1 then N - l else l;
    ghost var yNeg := FSub(0, y);
    LadderEnds(s);
    ModSmall(l', N);
    r := r0;
    var i := 255;
    while i > 0
      invariant 0 <= i <= 255 && V(sOdd) == s
      invariant Fe(px, x) && Fe(py, y) && Fe(pyNeg, yNeg)
      invariant Holds(rx, ry, rz, r) && g.valid(r) && g.log(r) == (LadderMultiple(s, i) * l') % N
    {
      var bit := Shift(sOdd[i / 32], i % 32) % 2;
      LimbBit(sOdd[..], i);
      LadderStepMultiple(s, i);
      LadderInRange(s, i);
      SelectSign(pyUse, py, pyNeg, bit, negate, y, yNeg);
      ghost var sign := 2 * bit - 1;
      r := LadderStep(rx, ry, rz, px, pyUse, g, r, LadderMultiple(s, i), l', sign, x,
                      if (bit == 1) == (negate == 0) then y else yNeg);
      i := i - 1;
    }
    PrimeOrder(g);
    MultipleNonzero(s, l');
  }

  lemma PrimeOrder(g: Group)
    requires GroupLaw(g)
    ensures IsPrime(N) && IsPrime(P)
  {
  }

  /** The y coordinate of plus or minus P', by two conditional copies. */
  method SelectSign(pyUse: array<u32>, py: array<u32>, pyNeg: array<u32>, bit: u32, negate: u32,
                    ghost y: nat, ghost yNeg: nat)
    requires Is256(pyUse) && Fe(py, y) && Fe(pyNeg, yNeg) && bit <= 1 && negate <= 1
    requires pyUse != py && pyUse != pyNeg
    modifies pyUse
    ensures Fe(pyUse, if (bit == 1) == (negate == 0) then y else yNeg)
  {
    hide Fe;
    var same := (bit + negate) % 2;
    U256Cmov(pyUse, py, same);
    if same == 1 {
      FeCopy(pyUse, py, y);
    }
    assert (1 - bit + negate) % 2 == 1 - same;
    U256Cmov(pyUse, pyNeg, (1 - bit + negate) % 2);
    if same == 1 {
      FeCopy(pyUse, py, y);
    } else {
      FeCopy(pyUse, pyNeg, yNeg);
    }
  }
}

/** From the textbook group law of affine points to what the limb code assumes. The only hypothesis
    left is the theorem that the points of P-256 form a cyclic group of prime order under the chord
    and tangent rules. */
module P256Textbook {
  import opened Base
  import opened Bits
  import opened ModArith
  import opened Fermat
  import opened P256Curve
  import opened P256Group
  import opened P256Formulas
  import opened P256Limbs
  import E = P256Ecdsa
  import S = P256Sign

  /** Which multiple of the base point an affine point is. */
  datatype Curve = Curve(log: (nat, nat) -> int)

  predicate Point(x: nat, y: nat) {
    x < P && y < P && OnCurve(x, y)
  }

  /** Every point is a multiple between 1 and n - 1, and none is its own negative. */
  ghost predicate RangeLaw(c: Curve, x: nat, y: nat) {
    Point(x, y) ==> 0 < c.log(x, y) < N && y != 0
  }

  ghost predicate InjectiveLaw(c: Curve, x: nat, y: nat, x': nat, y': nat) {
    Point(x, y) && Point(x', y') && c.log(x, y) == c.log(x', y') ==> x == x' && y == y'
  }

  ghost predicate NegativeLaw(c: Curve, x: nat, y: nat) {
    Point(x, y) && 0 < y ==> c.log(x, P - y) == N - c.log(x, y)
  }

  /** Doubling: the tangent with slope l = (3 x^2 - 3) / (2 y). */
  ghost predicate TangentLaw(c: Curve, x: nat, y: nat, l: int) {
    Point(x, y) && C(l * (2 * y), 3 * x * x - 3) ==>
      var x' := (l * l - 2 * x) % P;
      var y' := (l * (x - x') - y) % P;
      Point(x', y') && c.log(x', y') == (2 * c.log(x, y)) % N
  }

  /** Addition: the chord with slope l = (y2 - y1) / (x2 - x1). */
  ghost predicate ChordLaw(c: Curve, x1: nat, y1: nat, x2: nat, y2: nat, l: int) {
    Point(x1, y1) && Point(x2, y2) && x1 != x2 && C(l * (x2 - x1), y2 - y1) ==>
      var x' := (l * l - x1 - x2) % P;
      var y' := (l * (x1 - x') - y1) % P;
      Point(x', y') && c.log(x', y') == (c.log(x1, y1) + c.log(x2, y2)) % N
  }

  ghost predicate TextbookLaw(c: Curve) {
    && IsPrime(P) && IsPrime(N)
    && (forall x: nat, y: nat :: RangeLaw(c, x, y))
    && (forall x: nat, y: nat, x': nat, y': nat :: InjectiveLaw(c, x, y, x', y'))
    && (forall x: nat, y: nat :: NegativeLaw(c, x, y))
    && (forall x: nat, y: nat, l: int :: TangentLaw(c, x, y, l))
    && (forall x1: nat, y1: nat, x2: nat, y2: nat, l: int :: ChordLaw(c, x1, y1, x2, y2, l))
    && c.log(GX, GY) == 1
  }

  /** The group on coordinate triples: a triple stands for its affine point, or for zero. */
  function Lift(c: Curve): Group {
    Group((j: Jac) => Reduced3(j) && (j.z == 0 || Point(JAffine(j).0, JAffine(j).1)),
          (j: Jac) => if j.z == 0 then 0 else c.log(JAffine(j).0, JAffine(j).1))
  }

  predicate Reduced3(j: Jac) {
    j.x < P && j.y < P && j.z < P
  }

  // ---- Inverses -------------------------------------------------------------------------

  lemma {:induction false} NonZero(a: int, b: int)
    requires IsPrime(P) && !C(a, 0) && !C(b, 0)
    ensures !C(a * b, 0)
  {
    AsRemainders();
    hide C;
    hide IsPrime;
    ModSmall(0, P);
    if C(a * b, 0) {
      Euclid(P, a, b);
    }
  }

  lemma {:induction false} Invert(a: int) returns (i: int)
    requires IsPrime(P) && !C(a, 0)
    ensures C(a * i, 1)
  {
    AsRemainders();
    hide C;
    hide IsPrime, Pow;
    ModSmall(0, P);
    ModSmall(1, P);
    i := Pow(a % P, P - 2);
    FermatInverse(a % P, P);
    MulModLeft(a, i, P);
  }

  lemma {:induction false} SmallNonZero(a: nat)
    requires 0 < a < P
    ensures !C(a, 0)
  {
    AsRemainders();
    hide C;
    ModSmall(a, P);
    ModSmall(0, P);
  }

  lemma {:induction false} InverseOfZ(z: nat)
    requires IsPrime(P) && 0 < z < P
    ensures C(z * FInv(z), 1)
  {
    AsRemainders();
    hide C;
    hide IsPrime, Pow;
    FermatInverse(z, P);
    MulModRight(z, Pow(z, P - 2), P);
    ModSmall(1, P);
  }

  // ---- Affine coordinates ---------------------------------------------------------------

  lemma {:induction false} Undo2(x: int, z: int, i: int)
    requires C(z * i, 1)
    ensures C((x * (z * z)) * (i * i), x)
  {
    AsRemainders();
    hide C;
    var u := z * i;
    Mul(u, 1, u, 1);
    Mul(x, x, u * u, 1);
    assert (x * (z * z)) * (i * i) == x * (u * u) by {
      assert (z * z) * (i * i) == u * u;
    }
  }

  lemma {:induction false} Undo3(y: int, z: int, i: int)
    requires C(z * i, 1)
    ensures C((y * (z * z * z)) * ((i * i) * i), y)
  {
    AsRemainders();
    hide C;
    var u := z * i;
    Mul(u, 1, u, 1);
    Mul(u * u, 1, u, 1);
    Mul(y, y, u * u * u, 1);
    assert (y * (z * z * z)) * ((i * i) * i) == y * (u * u * u) by {
      assert (z * z * z) * ((i * i) * i) == (u * u) * u by {
        assert (z * z) * (i * i) == u * u;
        assert ((z * z) * z) * ((i * i) * i) == ((z * z) * (i * i)) * (z * i);
      }
    }
  }

  /** Dividing out z gives the affine point that a triple stands for. */
  lemma {:induction false} AffineOf(j: Jac, x: int, y: int)
    requires IsPrime(P) && 0 < j.z < P && StandsFor(j, x, y)
    ensures JAffine(j) == (x % P, y % P)
  {
    hide FMul, C, FInv, IsPrime;
    var i := FInv(j.z);
    InverseOfZ(j.z);
    Refl(i);
    FM(i, i, i, i);
    var t := FMul(i, i);
    FM(j.x, x * (j.z * j.z), t, i * i);
    Undo2(x, j.z, i);
    FM(t, i * i, i, i);
    FM(j.y, y * (j.z * j.z * j.z), FMul(t, i), (i * i) * i);
    Undo3(y, j.z, i);
    Residue(FMul(j.x, t), (x * (j.z * j.z)) * (i * i), x);
    Residue(FMul(j.y, FMul(t, i)), (y * (j.z * j.z * j.z)) * ((i * i) * i), y);
  }

  lemma {:induction false} Residue(a: nat, b: int, c: int)
    requires a < P && C(a, b) && C(b, c)
    ensures a == c % P
  {
    AsRemainders();
    hide C;
    ModSmall(a, P);
  }

  lemma {:induction false} OfAffine(j: Jac)
    requires IsPrime(P) && 0 < j.z < P
    ensures var a := JAffine(j); StandsFor(j, a.0, a.1) && a.0 < P && a.1 < P
  {
    hide FMul, C, FInv, IsPrime;
    var z: int, i: int := j.z, FInv(j.z);
    InverseOfZ(j.z);
    assert z * i == i * z;
    Refl(i);
    Refl(j.x);
    Refl(j.y);
    FM(FInv(j.z), i, FInv(j.z), i);
    var t := FMul(FInv(j.z), FInv(j.z));
    var a := JAffine(j);
    FM(j.x, j.x, t, i * i);
    Undo2(j.x, i, z);
    Refl(z * z);
    Back(a.0, j.x * (i * i), z * z, j.x);
    FM(t, i * i, FInv(j.z), i);
    FM(j.y, j.y, FMul(t, FInv(j.z)), (i * i) * i);
    Undo3(j.y, i, z);
    Back(a.1, j.y * ((i * i) * i), z * z * z, j.y);
  }

  lemma {:induction false} Back(a: int, b: int, k: int, x: int)
    requires C(a, b) && C(b * k, x)
    ensures C(x, a * k)
  {
    AsRemainders();
    hide C;
    Mul(a, b, k, k);
  }

  lemma {:induction false} AffineIsItself(x: nat, y: nat)
    requires IsPrime(P) && x < P && y < P
    ensures JAffine(AffineJac(x, y)) == (x, y)
  {
    hide IsPrime, JAffine;
    ModSmall(x, P);
    ModSmall(y, P);
    Refl(x);
    Refl(y);
    AffineOf(AffineJac(x, y), x, y);
  }

  // ---- The laws -------------------------------------------------------------------------

  lemma {:induction false} LiftedAffine(c: Curve, x: nat, y: nat)
    requires TextbookLaw(c)
    ensures AffineLaw(Lift(c), x, y)
  {
    hide IsPrime, JAffine, OnCurve;
    if x < P && y < P {
      AffineIsItself(x, y);
    }
  }

  lemma {:induction false} LiftedLog(c: Curve, x: nat, y: nat)
    requires TextbookLaw(c) && Point(x, y)
    ensures Lift(c).log(AffineJac(x, y)) == c.log(x, y)
  {
    hide IsPrime, JAffine, OnCurve;
    AffineIsItself(x, y);
  }

  lemma {:induction false} LiftedZero(c: Curve, j: Jac)
    requires TextbookLaw(c)
    ensures ZeroLaw(Lift(c), j)
  {
    hide IsPrime, JAffine, OnCurve;
    assert RangeLaw(c, JAffine(j).0, JAffine(j).1);
  }

  lemma Reduces(j: Jac, x: nat, y: nat)
    ensures Reduced3(JDouble(j)) && Reduced3(JAdd(j, x, y))
  {
    hide FMul, FAdd, FSub;
  }

  lemma {:induction false} TangentSlope(x: nat, y: nat) returns (l: int)
    requires IsPrime(P) && 0 < y < P
    ensures C(l * (2 * y), 3 * x * x - 3) && !C(2 * y, 0)
  {
    AsRemainders();
    hide C;
    hide IsPrime;
    SmallNonZero(2);
    SmallNonZero(y);
    NonZero(2, y);
    var i := Invert(2 * y);
    l := (3 * x * x - 3) * i;
    Mul(3 * x * x - 3, 3 * x * x - 3, (2 * y) * i, 1);
    assert l * (2 * y) == (3 * x * x - 3) * ((2 * y) * i);
  }

  /** The reduced x coordinate may be used in the y coordinate. */
  lemma {:induction false} YFromReduced(l: int, x: int, x': int, y: int)
    ensures (l * (x - x' % P) - y) % P == (l * (x - x') - y) % P
  {
    ModMod(x', P);
    CongSub(x, x, x' % P, x', P);
    CongMul(l, l, x - x' % P, x - x', P);
    CongSub(l * (x - x' % P), l * (x - x'), y, y, P);
  }

  lemma {:induction false} DoubledZ(j: Jac, y: nat)
    requires IsPrime(P) && 0 < j.z < P && 0 < y < P
    ensures !C(2 * y * ((j.z * j.z) * (j.z * j.z)), 0)
  {
    AsRemainders();
    hide C;
    hide IsPrime;
    SmallNonZero(2);
    SmallNonZero(y);
    SmallNonZero(j.z);
    NonZero(2, y);
    NonZero(j.z, j.z);
    NonZero(j.z * j.z, j.z * j.z);
    NonZero(2 * y, (j.z * j.z) * (j.z * j.z));
  }

  lemma {:induction false} NotZero(a: nat, b: int)
    requires a < P && C(a, b) && !C(b, 0)
    ensures 0 < a
  {
    AsRemainders();
    hide C;
  }

  lemma {:induction false} LiftedDouble(c: Curve, j: Jac)
    requires TextbookLaw(c)
    ensures DoubleLaw(Lift(c), j)
  {
    hide IsPrime, JAffine, OnCurve, JDouble, C;
    var g := Lift(c);
    Reduces(j, 0, 0);
    if g.valid(j) && j.z == 0 {
      DoubleOfZero(j);
    } else if g.valid(j) {
      var (x, y) := JAffine(j);
      OfAffine(j);
      assert RangeLaw(c, x, y);
      var l := TangentSlope(x, y);
      DoubleIsTangent(j, x, y, l);
      DoubledZ(j, y);
      var t, x' := JDouble(j), l * l - 2 * x;
      NotZero(t.z, 2 * y * ((j.z * j.z) * (j.z * j.z)));
      AffineOf(t, x', l * (x - x') - y);
      YFromReduced(l, x, x', y);
      assert TangentLaw(c, x, y, l);
    }
  }

  lemma DoubleOfZero(j: Jac)
    requires j.z == 0
    ensures JDouble(j).z == 0
  {
    TimesZero(j.y);
    hide FMul, FSub;
  }

  lemma TimesZero(y: nat)
    ensures FMul(y, 0) == 0
  {
    assert y * 0 == 0;
  }

  lemma {:induction false} ChordSlope(x1: nat, y1: nat, x2: nat, y2: nat) returns (l: int)
    requires IsPrime(P) && x1 < P && x2 < P && x1 != x2
    ensures C(l * (x2 - x1), y2 - y1) && !C(x2 - x1, 0)
  {
    AsRemainders();
    hide C;
    hide IsPrime;
    DifferenceNonZero(x1, x2);
    var i := Invert(x2 - x1);
    l := (y2 - y1) * i;
    Mul(y2 - y1, y2 - y1, (x2 - x1) * i, 1);
    assert l * (x2 - x1) == (y2 - y1) * ((x2 - x1) * i);
  }

  lemma {:induction false} DifferenceNonZero(a: nat, b: nat)
    requires a < P && b < P && a != b
    ensures !C(b - a, 0)
  {
    AsRemainders();
    hide C;
    ModSmall(0, P);
    if b > a {
      ModSmall(b - a, P);
    } else {
      ModUnique(b - a, P, -1, b - a + P);
    }
  }

  lemma {:induction false} AddedZ(z: nat, d: int)
    requires IsPrime(P) && 0 < z < P && !C(d, 0)
    ensures !C(z * (z * z * d), 0)
  {
    AsRemainders();
    hide C;
    hide IsPrime;
    SmallNonZero(z);
    NonZero(z, z);
    NonZero(z * z, d);
    NonZero(z, z * z * d);
  }

  /** Points whose multiples are neither equal nor opposite have different x. */
  lemma {:induction false} XsDiffer(c: Curve, x1: nat, y1: nat, x2: nat, y2: nat)
    requires TextbookLaw(c) && Point(x1, y1) && Point(x2, y2)
    requires c.log(x1, y1) != c.log(x2, y2) && c.log(x1, y1) + c.log(x2, y2) != N
    ensures x1 != x2
  {
    hide IsPrime, CurveRhs, FMul;
    assert RangeLaw(c, x1, y1) && NegativeLaw(c, x1, y1);
    Opposite(y1);
    if x1 == x2 && y1 != y2 {
      E.OppositeY(y1, y2);
    }
  }

  lemma Opposite(y: nat)
    requires 0 < y < P
    ensures FSub(0, y) == P - y
  {
    ModUnique(0 - y, P, -1, P - y);
  }

  lemma {:induction false} LiftedAdd(c: Curve, j: Jac, x2: nat, y2: nat)
    requires TextbookLaw(c)
    ensures AddLaw(Lift(c), j, x2, y2)
  {
    hide IsPrime, JAffine, OnCurve, JAdd, TextbookLaw;
    var g, q := Lift(c), AffineJac(x2, y2);
    Reduces(j, x2, y2);
    LiftedAffine(c, x2, y2);
    if Point(x2, y2) {
      LiftedLog(c, x2, y2);
    }
    if g.valid(j) && g.valid(q) && g.log(j) != 0 && g.log(j) != g.log(q) && g.log(j) + g.log(q) != N {
      ChordSum(c, j, x2, y2);
    }
  }

  /** The sum of two points, in affine coordinates. */
  lemma {:induction false} ChordSum(c: Curve, j: Jac, x2: nat, y2: nat)
    requires TextbookLaw(c) && 0 < j.z < P && Point(JAffine(j).0, JAffine(j).1) && Point(x2, y2)
    requires var k1, k2 := c.log(JAffine(j).0, JAffine(j).1), c.log(x2, y2); k1 != k2 && k1 + k2 != N
    ensures var t := JAdd(j, x2, y2);
            && t.z != 0 && Point(JAffine(t).0, JAffine(t).1)
            && c.log(JAffine(t).0, JAffine(t).1) == (c.log(JAffine(j).0, JAffine(j).1) + c.log(x2, y2)) % N
  {
    hide IsPrime, JAffine, OnCurve, JAdd, C;
    var (x1, y1) := JAffine(j);
    OfAffine(j);
    XsDiffer(c, x1, y1, x2, y2);
    var l := ChordSlope(x1, y1, x2, y2);
    AddIsChord(j, x1, y1, x2, y2, l);
    AddedZ(j.z, x2 - x1);
    Reduces(j, x2, y2);
    var t, x' := JAdd(j, x2, y2), l * l - x1 - x2;
    NotZero(t.z, j.z * (j.z * j.z * (x2 - x1)));
    AffineOf(t, x', l * (x1 - x') - y1);
    YFromReduced(l, x1, x', y1);
    assert ChordLaw(c, x1, y1, x2, y2, l);
  }

  lemma {:induction false} LiftedToAffine(c: Curve, j: Jac)
    requires TextbookLaw(c)
    ensures ToAffineLaw(Lift(c), j)
  {
    hide IsPrime, JAffine, OnCurve;
    if Lift(c).valid(j) && j.z != 0 {
      LiftedAffine(c, JAffine(j).0, JAffine(j).1);
      LiftedLog(c, JAffine(j).0, JAffine(j).1);
    }
  }

  lemma {:induction false} NegativeOnCurve(x: nat, y: nat)
    requires Point(x, y) && 0 < y
    ensures Point(x, P - y)
  {
    hide CurveRhs;
    CongSub(P * P - 2 * P * y + y * y, y * y, 0, 0, P) by {
      assert P * P - 2 * P * y + y * y == y * y + P * (P - 2 * y);
      CongFrom(P * P - 2 * P * y + y * y, y * y, P, P - 2 * y);
    }
    assert (P - y) * (P - y) == P * P - 2 * P * y + y * y;
  }

  lemma {:induction false} LiftedNeg(c: Curve, x: nat, y: nat)
    requires TextbookLaw(c)
    ensures NegLaw(Lift(c), x, y)
  {
    hide IsPrime, JAffine, OnCurve, FSub;
    LiftedAffine(c, x, y);
    assert AffineLaw(Lift(c), x, y);
    if Point(x, y) {
      assert RangeLaw(c, x, y) && NegativeLaw(c, x, y);
      NegativeOnCurve(x, y);
      Opposite(y);
      LiftedAffine(c, x, P - y);
      LiftedLog(c, x, P - y);
      LiftedLog(c, x, y);
    }
  }

  lemma {:induction false} LiftedUnique(c: Curve, x: nat, y: nat, x': nat, y': nat)
    requires TextbookLaw(c)
    ensures UniqueLaw(Lift(c), x, y, x', y')
  {
    hide IsPrime, JAffine, OnCurve;
    LiftedAffine(c, x, y);
    LiftedAffine(c, x', y');
    assert AffineLaw(Lift(c), x, y) && AffineLaw(Lift(c), x', y');
    if Point(x, y) && Point(x', y') {
      LiftedLog(c, x, y);
      LiftedLog(c, x', y');
    }
    assert InjectiveLaw(c, x, y, x', y');
  }

  /** Everything the limb code assumes about its formulas follows from the textbook group law. */
  lemma {:induction false} TextbookIsEnough(c: Curve)
    requires TextbookLaw(c)
    ensures GroupLaw(Lift(c))
  {
    hide ZeroLaw, AffineLaw, DoubleLaw, AddLaw, ToAffineLaw, NegLaw, UniqueLaw, IsPrime, OnCurve, JAffine, Lift;
    var g := Lift(c);
    forall j: Jac
      ensures ZeroLaw(g, j) && DoubleLaw(g, j) && ToAffineLaw(g, j)
    {
      LiftedZero(c, j);
      LiftedDouble(c, j);
      LiftedToAffine(c, j);
    }
    forall x: nat, y: nat
      ensures AffineLaw(g, x, y) && NegLaw(g, x, y)
    {
      LiftedAffine(c, x, y);
      LiftedNeg(c, x, y);
    }
    forall j: Jac, x: nat, y: nat
      ensures AddLaw(g, j, x, y)
    {
      LiftedAdd(c, j, x, y);
    }
    forall x: nat, y: nat, x': nat, y': nat
      ensures UniqueLaw(g, x, y, x', y')
    {
      LiftedUnique(c, x, y, x', y');
    }
    BasePointOnCurve();
    BaseIsPoint();
    LiftedLog(c, GX, GY);
  }

  /** Signing and verifying fit together in the textbook group: for a private key d whose public key
      is the affine point that is d times the base point, every signature produced is accepted. */
  method SignThenVerify(rand: S.Rand, priv: E.Bytes32, pub: seq<byte>, hash: seq<byte>, ghost c: Curve)
    returns (signed: E.Status, verified: E.Status)
    requires TextbookLaw(c) && |pub| == 64
    requires var x, y := ValBE(pub[..32]), ValBE(pub[32..]);
             Point(x, y) && c.log(x, y) == ValBE(priv)
    ensures signed == E.Success ==> verified == E.Success
  {
    hide TextbookLaw, GroupLaw, Lift, ValBE, OnCurve;
    TextbookIsEnough(c);
    KeysAre(c, priv, pub);
    signed, verified := S.SignThenVerify(rand, priv, pub, hash, Lift(c));
  }

  lemma {:induction false} KeysAre(c: Curve, priv: E.Bytes32, pub: seq<byte>)
    requires TextbookLaw(c) && |pub| == 64
    requires var x, y := ValBE(pub[..32]), ValBE(pub[32..]);
             Point(x, y) && c.log(x, y) == ValBE(priv)
    ensures S.KeysMatch(Lift(c), priv, pub)
  {
    hide ValBE, IsPrime, OnCurve, JAffine;
    var x, y := ValBE(pub[..32]), ValBE(pub[32..]);
    LiftedAffine(c, x, y);
    LiftedLog(c, x, y);
    assert RangeLaw(c, x, y) && AffineLaw(Lift(c), x, y);
  }

  lemma BaseIsPoint()
    requires OnCurve(GX, GY)
    ensures Point(GX, GY)
  {
  }
}

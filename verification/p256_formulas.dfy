/** The point formulas against the textbook. Doubling and mixed addition in Jacobian coordinates are
    the tangent and the chord rule of affine points, as section 2.2.1 of SEC 1 states them; so what
    signing and verifying assume about the formulas follows from the group law of affine points. */
module P256Formulas {
  import opened ModArith
  import opened P256Curve

  // ---- Congruences ----------------------------------------------------------------------

  /** Congruent modulo the prime of the field: the difference is a multiple of it. */
  ghost predicate C(a: int, b: int) {
    exists k :: a == b + Multiple(k)
  }

  ghost function Multiple(k: int): int {
    P * k
  }

  lemma CongruentIff(a: int, b: int)
    ensures C(a, b) <==> a % P == b % P
  {
    if C(a, b) {
      var k :| a == b + Multiple(k);
      CongFrom(a, b, P, k);
    }
    if a % P == b % P {
      var k := CongIff(a, b, P);
      assert a == b + Multiple(k);
    }
  }

  lemma AsRemainders()
    ensures forall a: int, b: int :: C(a, b) <==> a % P == b % P
  {
    forall a: int, b: int
      ensures C(a, b) <==> a % P == b % P
    {
      CongruentIff(a, b);
    }
  }

  lemma Mul(a: int, a': int, b: int, b': int)
    requires C(a, a') && C(b, b')
    ensures C(a * b, a' * b')
  {
    AsRemainders();
    hide C;
    CongMul(a, a', b, b', P);
  }

  lemma {:induction false} FM(a: nat, a': int, b: nat, b': int)
    requires C(a, a') && C(b, b')
    ensures C(FMul(a, b), a' * b')
  {
    AsRemainders();
    hide C;
    CongMul(a, a', b, b', P);
    ModMod(a * b, P);
  }

  lemma {:induction false} FA(a: nat, a': int, b: nat, b': int)
    requires C(a, a') && C(b, b')
    ensures C(FAdd(a, b), a' + b')
  {
    AsRemainders();
    hide C;
    CongAdd(a, a', b, b', P);
    ModMod(a + b, P);
  }

  lemma {:induction false} FS(a: nat, a': int, b: nat, b': int)
    requires C(a, a') && C(b, b')
    ensures C(FSub(a, b), a' - b')
  {
    AsRemainders();
    hide C;
    CongSub(a, a', b, b', P);
    ModMod(a - b, P);
  }

  /** The right-hand side of the curve's equation. */
  lemma {:induction false} RhsIs(x: nat)
    ensures C(CurveRhs(x), x * x * x - 3 * x + CURVE_B)
  {
    hide FMul, FAdd, FSub, C;
    Refl(x);
    Refl(CURVE_B);
    FM(x, x, x, x);
    var xx := FMul(x, x);
    FM(xx, x * x, x, x);
    var xxx := FMul(xx, x);
    FS(xxx, x * x * x, x, x);
    FS(FSub(xxx, x), x * x * x - x, x, x);
    FS(FSub(FSub(xxx, x), x), x * x * x - x - x, x, x);
    FA(FSub(FSub(FSub(xxx, x), x), x), x * x * x - x - x - x, CURVE_B, CURVE_B);
  }

  /** The curve is y^2 = x^3 - 3 x + b: both sides of the check in `OnCurve` agree exactly then. */
  lemma {:induction false} CurveEquation(x: nat, y: nat)
    ensures FMul(y, y) == CurveRhs(x) <==> C(y * y, x * x * x - 3 * x + CURVE_B)
  {
    hide FMul, C, CurveRhs;
    Refl(y);
    FM(y, y, y, y);
    RhsIs(x);
    RhsBound(x);
    Reduced(FMul(y, y), y * y, CurveRhs(x), x * x * x - 3 * x + CURVE_B);
  }

  lemma RhsBound(x: nat)
    ensures CurveRhs(x) < P
  {
    hide FMul, FSub, FAdd;
  }

  lemma {:induction false} Refl(a: int)
    ensures C(a, a)
  {
    AsRemainders();
    hide C;
  }

  lemma {:induction false} Reduced(a: nat, a': int, b: nat, b': int)
    requires a < P && b < P && C(a, a') && C(b, b')
    ensures a == b <==> C(a', b')
  {
    AsRemainders();
    hide C;
    ModSmall(a, P);
    ModSmall(b, P);
  }

  // ---- Coordinates ----------------------------------------------------------------------

  /** The triple stands for the affine point (x, y). */
  ghost predicate StandsFor(j: Jac, x: int, y: int) {
    C(j.x, x * (j.z * j.z)) && C(j.y, y * (j.z * j.z * j.z))
  }

  lemma {:induction false} Same(a: int, b: int)
    requires a == b
    ensures C(a, b)
  {
    AsRemainders();
    hide C;
  }

  lemma {:induction false} Chain(a: int, b: int, c: int)
    requires C(a, b) && C(b, c)
    ensures C(a, c)
  {
    AsRemainders();
    hide C;
  }

  // ---- Doubling -------------------------------------------------------------------------

  lemma SlopeProduct(x: int, q: int)
    ensures (x * q + q) * (x * q - q) + (x * q + q) * (x * q - q) + (x * q + q) * (x * q - q) ==
            (3 * x * x - 3) * (q * q)
  {
    assert (x * q + q) * (x * q - q) == x * x * (q * q) - q * q;
  }

  lemma Cube(z: int)
    ensures (z * z * z) * (z * z * z) == (z * z) * (z * z) * (z * z)
  {
    var q := z * z;
    assert (q * z) * (q * z) == q * q * (z * z);
  }

  lemma SProduct(x: int, y: int, q: int, k: int, z: int)
    requires k == y * y * (q * q * q) && z == 2 * y * (q * q)
    ensures (x * q) * (k + k) + (x * q) * (k + k) == x * (z * z)
  {
    var e := q * q;
    SquareOfDouble(y, e);
    KTimesQ(y * y, q, k);
    assert (x * q) * k == x * (q * k);
  }

  lemma SquareOfDouble(y: int, e: int)
    ensures (2 * y * e) * (2 * y * e) == 4 * ((y * y) * (e * e))
  {
    assert (y * e) * (y * e) == (y * y) * (e * e);
  }

  lemma KTimesQ(y2: int, q: int, k: int)
    requires k == y2 * (q * q * q)
    ensures q * k == y2 * ((q * q) * (q * q))
  {
    assert q * (q * q * q) == (q * q) * (q * q);
    assert q * (y2 * (q * q * q)) == y2 * (q * (q * q * q));
  }

  lemma SixthPower(q: int)
    ensures (q * q * q) * (q * q * q) == (q * q) * (q * q) * (q * q)
  {
    Cube(q);
  }

  lemma SquareOfK(y2: int, f: int)
    ensures (y2 * f) * (y2 * f) == (y2 * y2) * (f * f)
  {
  }

  lemma CubeOfDouble(y: int, e: int, z: int)
    requires z == 2 * y * e
    ensures y * (z * z * z) == 8 * (((y * y) * (y * y)) * (e * e * e))
  {
    var y2, e2 := y * y, e * e;
    SquareOfDouble(y, e);
    assert (y2 * e2) * (y * e) == (y2 * y) * (e2 * e);
    assert (z * z) * z == 8 * ((y2 * e2) * (y * e)) by {
      var a, b := y2 * e2, y * e;
      assert z * z == 4 * a && z == 2 * b;
    }
    assert y * ((y2 * y) * (e2 * e)) == (y * (y2 * y)) * (e2 * e);
    assert y * (y2 * y) == y2 * y2;
  }

  lemma WProduct(y: int, q: int, k: int, z: int)
    requires k == y * y * (q * q * q) && z == 2 * y * (q * q)
    ensures (k + k) * (k + k) + (k + k) * (k + k) == y * (z * z * z)
  {
    SquareOfK(y * y, q * q * q);
    SixthPower(q);
    CubeOfDouble(y, q * q, z);
    Octuple(k);
  }

  lemma Octuple(k: int)
    ensures (k + k) * (k + k) + (k + k) * (k + k) == 8 * (k * k)
  {
  }

  /** m = 3 (x + z^2) (x - z^2) is l times Z = 2 y z^4. */
  lemma {:induction false} DoubleSlope(j: Jac, x: int, y: int, l: int, q: int) returns (m: nat)
    requires StandsFor(j, x, y) && C(l * (2 * y), 3 * x * x - 3) && q == j.z * j.z
    ensures var zz := FMul(j.z, j.z);
            var t := FMul(FAdd(j.x, zz), FSub(j.x, zz));
            m == FAdd(FAdd(t, t), t)
    ensures C(m, l * (2 * y * (q * q)))
  {
    hide FMul, FAdd, FSub, C;
    Refl(j.z);
    FM(j.z, j.z, j.z, j.z);
    var zz := FMul(j.z, j.z);
    FA(j.x, x * q, zz, q);
    FS(j.x, x * q, zz, q);
    FM(FAdd(j.x, zz), x * q + q, FSub(j.x, zz), x * q - q);
    var t, t' := FMul(FAdd(j.x, zz), FSub(j.x, zz)), (x * q + q) * (x * q - q);
    FA(t, t', t, t');
    FA(FAdd(t, t), t' + t', t, t');
    m := FAdd(FAdd(t, t), t);
    SlopeProduct(x, q);
    MIsSlope(m, x, y, l, q);
  }

  /** s = 4 x y^2 is x Z^2, and w = 8 y^4 is y Z^3. */
  lemma {:induction false} DoubleSquares(j: Jac, x: int, y: int, q: int, Z: int) returns (s: nat, w: nat)
    requires StandsFor(j, x, y) && q == j.z * j.z && Z == 2 * y * (q * q)
    ensures var yy := FMul(j.y, j.y);
            var u := FAdd(yy, yy);
            var xu, uu := FMul(j.x, u), FMul(u, u);
            s == FAdd(xu, xu) && w == FAdd(uu, uu)
    ensures C(s, x * (Z * Z)) && C(w, y * (Z * Z * Z))
  {
    hide FMul, FAdd, FSub, C;
    var c: int := j.z * j.z * j.z;
    FM(j.y, y * c, j.y, y * c);
    var yy, k := FMul(j.y, j.y), y * y * (q * q * q);
    SquareOfY(y, j.z);
    FA(yy, k, yy, k);
    var u := FAdd(yy, yy);
    FM(j.x, x * q, u, k + k);
    var xu, xu' := FMul(j.x, u), (x * q) * (k + k);
    FA(xu, xu', xu, xu');
    s := FAdd(xu, xu);
    SProduct(x, y, q, k, Z);
    FM(u, k + k, u, k + k);
    var uu, uu' := FMul(u, u), (k + k) * (k + k);
    FA(uu, uu', uu, uu');
    w := FAdd(uu, uu);
    WProduct(y, q, k, Z);
  }

  /** The new z, 2 y z. */
  lemma {:induction false} DoubleZ(j: Jac, y: int, q: int) returns (yz: nat)
    requires C(j.y, y * (j.z * j.z * j.z)) && q == j.z * j.z
    ensures yz == FMul(j.y, j.z) && C(FAdd(yz, yz), 2 * y * (q * q))
  {
    hide FMul, FAdd, FSub, C;
    var c: int := j.z * j.z * j.z;
    Refl(j.z);
    FM(j.y, y * c, j.z, j.z);
    yz := FMul(j.y, j.z);
    FourthPower(y, j.z);
    FA(yz, y * (q * q), yz, y * (q * q));
    Twice(y, q * q);
  }

  lemma FourthPower(y: int, z: int)
    ensures (y * (z * z * z)) * z == y * ((z * z) * (z * z))
  {
    assert (z * z * z) * z == (z * z) * (z * z);
  }

  lemma Twice(y: int, e: int)
    ensures y * e + y * e == 2 * y * e
  {
  }

  /** What the doubling's intermediates are, in terms of the affine point and the tangent's slope `l`:
      the new z is Z = 2 y z^4, m is l Z, s is x Z^2 and w is y Z^3. */
  lemma {:induction false} DoubleParts(j: Jac, x: int, y: int, l: int)
    returns (Z: int, m: nat, s: nat, w: nat)
    requires StandsFor(j, x, y) && C(l * (2 * y), 3 * x * x - 3)
    ensures var t := JDouble(j);
            && t.x == FSub(FSub(FMul(m, m), s), s) && t.y == FSub(FMul(FSub(s, t.x), m), w)
            && C(t.z, Z) && C(m, l * Z) && C(s, x * (Z * Z)) && C(w, y * (Z * Z * Z))
    ensures Z == 2 * y * ((j.z * j.z) * (j.z * j.z))
  {
    hide FMul, FAdd, FSub, C;
    var q: int := j.z * j.z;
    Z := 2 * y * (q * q);
    m := DoubleSlope(j, x, y, l, q);
    s, w := DoubleSquares(j, x, y, q, Z);
    var yz := DoubleZ(j, y, q);
  }

  lemma SquareOfY(y: int, z: int)
    ensures (y * (z * z * z)) * (y * (z * z * z)) == y * y * ((z * z) * (z * z) * (z * z))
  {
    var c := z * z * z;
    Cube(z);
    assert (y * c) * (y * c) == (y * y) * (c * c);
  }

  lemma {:induction false} MIsSlope(m: nat, x: int, y: int, l: int, q: int)
    requires C(m, (3 * x * x - 3) * (q * q)) && C(l * (2 * y), 3 * x * x - 3)
    ensures C(m, l * (2 * y * (q * q)))
  {
    AsRemainders();
    hide C;
    Mul(l * (2 * y), 3 * x * x - 3, q * q, q * q);
    assert (l * (2 * y)) * (q * q) == l * (2 * y * (q * q));
  }

  lemma XProduct(l: int, x: int, Z: int)
    ensures (l * Z) * (l * Z) - x * (Z * Z) - x * (Z * Z) == (l * l - 2 * x) * (Z * Z)
  {
    assert (l * Z) * (l * Z) == (l * l) * (Z * Z);
  }

  lemma YProduct(l: int, x: int, x3: int, y: int, Z: int)
    ensures (x * (Z * Z) - x3 * (Z * Z)) * (l * Z) - y * (Z * Z * Z) == (l * (x - x3) - y) * (Z * Z * Z)
  {
    var d := x - x3;
    assert x * (Z * Z) - x3 * (Z * Z) == d * (Z * Z);
    assert (d * (Z * Z)) * (l * Z) == (l * d) * (Z * Z * Z);
  }

  lemma Rescale(t: Jac, x: int, y: int, Z: int)
    requires C(t.z, Z) && C(t.x, x * (Z * Z)) && C(t.y, y * (Z * Z * Z))
    ensures StandsFor(t, x, y)
  {
    AsRemainders();
    hide C;
    Mul(t.z, Z, t.z, Z);
    Mul(t.z * t.z, Z * Z, t.z, Z);
    Mul(x, x, t.z * t.z, Z * Z);
    Mul(y, y, t.z * t.z * t.z, Z * Z * Z);
  }

  /** The doubling formula is the tangent rule: with slope l = (3 x^2 - 3) / (2 y), the double of (x, y)
      is (l^2 - 2 x, l (x - x') - y). */
  lemma {:induction false} DoubleIsTangent(j: Jac, x: int, y: int, l: int)
    requires StandsFor(j, x, y) && C(l * (2 * y), 3 * x * x - 3)
    ensures var x' := l * l - 2 * x;
            StandsFor(JDouble(j), x', l * (x - x') - y)
    ensures C(JDouble(j).z, 2 * y * ((j.z * j.z) * (j.z * j.z)))
  {
    hide FMul, FAdd, FSub, C, JDouble, StandsFor;
    var Z, m, s, w := DoubleParts(j, x, y, l);
    var t, x' := JDouble(j), l * l - 2 * x;
    FM(m, l * Z, m, l * Z);
    FS(FMul(m, m), (l * Z) * (l * Z), s, x * (Z * Z));
    FS(FSub(FMul(m, m), s), (l * Z) * (l * Z) - x * (Z * Z), s, x * (Z * Z));
    XProduct(l, x, Z);
    FS(s, x * (Z * Z), t.x, x' * (Z * Z));
    FM(FSub(s, t.x), x * (Z * Z) - x' * (Z * Z), m, l * Z);
    FS(FMul(FSub(s, t.x), m), (x * (Z * Z) - x' * (Z * Z)) * (l * Z), w, y * (Z * Z * Z));
    YProduct(l, x, x', y, Z);
    Rescale(t, x', l * (x - x') - y, Z);
  }

  // ---- Addition -------------------------------------------------------------------------

  /** The addition's intermediates, with slope `l` of the chord: the new z is Z = z h with
      h = z^2 (x2 - x1), r is l Z, v is x1 Z^2, h^3 is (x2 - x1) Z^2 and h^3 y is y1 Z^3. */
  lemma {:induction false} AddParts(j: Jac, x1: int, y1: int, x2: nat, y2: nat, l: int)
    returns (Z: int, r: nat, v: nat, hhh: nat)
    requires StandsFor(j, x1, y1) && C(l * (x2 - x1), y2 - y1)
    ensures var t := JAdd(j, x2, y2);
            && t.x == FSub(FSub(FSub(FMul(r, r), v), v), hhh)
            && t.y == FSub(FMul(FSub(v, t.x), r), FMul(hhh, j.y))
            && C(t.z, Z) && C(r, l * Z) && C(v, x1 * (Z * Z)) && C(hhh, (x2 - x1) * (Z * Z))
            && C(FMul(hhh, j.y), y1 * (Z * Z * Z))
    ensures Z == j.z * (j.z * j.z * (x2 - x1))
  {
    hide FMul, FAdd, FSub, C;
    var z: int, q: int, d := j.z, j.z * j.z, x2 - x1;
    var c, h := q * z, q * d;
    Z := z * h;
    Refl(j.z);
    Refl(x2);
    Refl(y2);
    FM(j.z, z, j.z, z);
    var zz := FMul(j.z, j.z);
    FM(zz, q, x2, x2);
    FS(FMul(zz, x2), q * x2, j.x, x1 * q);
    assert q * x2 - x1 * q == h;
    var hf := FSub(FMul(zz, x2), j.x);
    FM(zz, q, j.z, z);
    FM(FMul(zz, j.z), c, y2, y2);
    FS(FMul(FMul(zz, j.z), y2), c * y2, j.y, y1 * c);
    assert c * y2 - y1 * c == c * (y2 - y1);
    r := FSub(FMul(FMul(zz, j.z), y2), j.y);
    RIsSlope(r, c, l, d, y2 - y1, q, z);
    FM(hf, h, hf, h);
    var hh := FMul(hf, hf);
    FM(hh, h * h, hf, h);
    hhh := FMul(hh, hf);
    HhhProduct(h, q, z, d);
    FM(hh, h * h, j.x, x1 * q);
    v := FMul(hh, j.x);
    VProduct(h, q, z, x1);
    FM(hhh, h * h * h, j.y, y1 * c);
    YPart(h, q, z, y1);
    FM(j.z, z, hf, h);
  }

  lemma {:induction false} RIsSlope(r: nat, c: int, l: int, d: int, dy: int, q: int, z: int)
    requires C(r, c * dy) && C(l * d, dy) && c == q * z
    ensures C(r, l * (z * (q * d)))
  {
    AsRemainders();
    hide C;
    Mul(c, c, l * d, dy);
    assert c * (l * d) == l * (z * (q * d)) by {
      assert (q * z) * (l * d) == l * ((q * z) * d);
      assert (q * z) * d == z * (q * d);
    }
  }

  lemma HhhProduct(h: int, q: int, z: int, d: int)
    requires q == z * z && h == q * d
    ensures h * h * h == d * ((z * h) * (z * h))
  {
    assert (z * h) * (z * h) == q * (h * h);
    assert d * (q * (h * h)) == (q * d) * (h * h);
    assert h * h * h == h * (h * h);
  }

  lemma VProduct(h: int, q: int, z: int, x: int)
    requires q == z * z
    ensures (h * h) * (x * q) == x * ((z * h) * (z * h))
  {
    assert (z * h) * (z * h) == q * (h * h);
    assert (h * h) * (x * q) == x * (q * (h * h));
  }

  lemma YPart(h: int, q: int, z: int, y: int)
    requires q == z * z
    ensures (h * h * h) * (y * (q * z)) == y * ((z * h) * (z * h) * (z * h))
  {
    var g := h * h * h;
    assert (z * h) * (z * h) == q * (h * h);
    assert (q * (h * h)) * (z * h) == (q * z) * g by {
      assert (q * (h * h)) * (z * h) == (q * z) * ((h * h) * h);
    }
    assert g * (y * (q * z)) == y * ((q * z) * g);
  }

  lemma XSum(l: int, x1: int, x2: int, Z: int)
    ensures (l * Z) * (l * Z) - x1 * (Z * Z) - x1 * (Z * Z) - (x2 - x1) * (Z * Z) == (l * l - x1 - x2) * (Z * Z)
  {
    assert (l * Z) * (l * Z) == (l * l) * (Z * Z);
  }

  /** The mixed addition formula is the chord rule: with slope l = (y2 - y1) / (x2 - x1), the sum is
      (l^2 - x1 - x2, l (x1 - x') - y1). */
  lemma {:induction false} AddIsChord(j: Jac, x1: int, y1: int, x2: nat, y2: nat, l: int)
    requires StandsFor(j, x1, y1) && C(l * (x2 - x1), y2 - y1)
    ensures var x' := l * l - x1 - x2;
            StandsFor(JAdd(j, x2, y2), x', l * (x1 - x') - y1)
    ensures C(JAdd(j, x2, y2).z, j.z * (j.z * j.z * (x2 - x1)))
  {
    hide FMul, FAdd, FSub, C, JAdd, StandsFor;
    var Z, r, v, hhh := AddParts(j, x1, y1, x2, y2, l);
    var t, x' := JAdd(j, x2, y2), l * l - x1 - x2;
    FM(r, l * Z, r, l * Z);
    FS(FMul(r, r), (l * Z) * (l * Z), v, x1 * (Z * Z));
    FS(FSub(FMul(r, r), v), (l * Z) * (l * Z) - x1 * (Z * Z), v, x1 * (Z * Z));
    FS(FSub(FSub(FMul(r, r), v), v), (l * Z) * (l * Z) - x1 * (Z * Z) - x1 * (Z * Z), hhh, (x2 - x1) * (Z * Z));
    XSum(l, x1, x2, Z);
    FS(v, x1 * (Z * Z), t.x, x' * (Z * Z));
    FM(FSub(v, t.x), x1 * (Z * Z) - x' * (Z * Z), r, l * Z);
    FS(FMul(FSub(v, t.x), r), (x1 * (Z * Z) - x' * (Z * Z)) * (l * Z), FMul(hhh, j.y), y1 * (Z * Z * Z));
    YProduct(l, x1, x', y1, Z);
    Rescale(t, x', l * (x1 - x') - y1, Z);
  }
}

/** Arithmetic modulo a 256-bit odd number, in Montgomery form. */
module P256Mont {
  import opened Base
  import opened Bits
  import opened ModArith
  import opened P256Limbs

  // Montgomery form as mathematics

  lemma {:induction false} HalfPowers(n: nat, k: nat)
    requires n > 1 && n % 2 == 1
    ensures (Pow(2, k) * Pow((n + 1) / 2, k)) % n == 1
  {
    var h := (n + 1) / 2;
    if k == 0 {
      ModSmall(1, n);
    } else {
      HalfPowers(n, k - 1);
      var p, q := Pow(2, k - 1), Pow(h, k - 1);
      assert (2 * p) * (h * q) == (2 * h) * (p * q) by { Shuffle(2, p, h, q); }
      ModSmall(1, n);
      CongFrom(2 * h, 1, n, 1);
      CongMul(2 * h, 1, p * q, 1, n);
    }
  }

  lemma Shuffle(a: int, b: int, c: int, d: int)
    ensures (a * b) * (c * d) == (a * c) * (b * d)
  {
    MulAssoc(a, b, c * d);
    MulAssoc(b, c, d);
    MulComm(b, c);
    MulAssoc(c, b, d);
    MulAssoc(a, c, b * d);
  }

  lemma {:induction false} BIsPow(k: nat)
    ensures B(k) == Pow(0x1_0000_0000, k)
  {
    if k > 0 {
      BIsPow(k - 1);
    }
  }

  lemma RIsPow()
    ensures B(8) == Pow(2, 256)
  {
    BIsPow(8);
    PowMul(2, 32, 8);
    assert Pow(2, 32) == 0x1_0000_0000 by {
      assert Pow(2, 4) == 16;
      PowAdd(2, 4, 4);
      PowAdd(2, 8, 8);
      PowAdd(2, 16, 16);
    }
  }

  /** The inverse of the Montgomery radix. */
  function RInv(n: nat): nat
    requires n > 0
  {
    Pow((n + 1) / 2, 256) % n
  }

  lemma {:induction false} RInvCorrect(n: nat)
    requires n > 1 && n % 2 == 1
    ensures (B(8) * RInv(n)) % n == 1
  {
    hide Pow, B;
    HalfPowers(n, 256);
    RIsPow();
    MulModRight(B(8), Pow((n + 1) / 2, 256), n);
  }

  /** The residue that `x` is the Montgomery form of. */
  function Dom(x: int, n: nat): (r: nat)
    requires n > 0
    ensures r < n
  {
    (x * RInv(n)) % n
  }

  lemma DomCong(x: int, y: int, n: nat)
    requires n > 0 && x % n == y % n
    ensures Dom(x, n) == Dom(y, n)
  {
    CongMulRight(x, y, RInv(n), n);
  }

  /** Leaving Montgomery form undoes multiplication by the radix. */
  lemma {:induction false} DomRadix(x: int, n: nat)
    requires n > 1 && n % 2 == 1
    ensures Dom(x * B(8), n) == x % n
  {
    hide B, RInv;
    RInvCorrect(n);
    MulAssoc(x, B(8), RInv(n));
    ModSmall(1, n);
    CongMul(x, x, B(8) * RInv(n), 1, n);
  }

  lemma {:induction false} RadixDom(x: int, n: nat)
    requires n > 1 && n % 2 == 1
    ensures (Dom(x, n) * B(8)) % n == x % n
  {
    hide B, RInv;
    MulModLeft(x * RInv(n), B(8), n);
    RInvCorrect(n);
    MulAssoc(x, RInv(n), B(8));
    MulComm(RInv(n), B(8));
    ModSmall(1, n);
    CongMul(x, x, B(8) * RInv(n), 1, n);
  }

  lemma {:induction false} DomInjective(x: nat, y: nat, n: nat)
    requires n > 1 && n % 2 == 1 && x < n && y < n && Dom(x, n) == Dom(y, n)
    ensures x == y
  {
    hide Dom;
    RadixDom(x, n);
    RadixDom(y, n);
    ModSmall(x, n);
    ModSmall(y, n);
  }

  /** Montgomery multiplication multiplies the residues. */
  lemma {:induction false} DomMul(x: int, y: int, z: int, n: nat)
    requires n > 1 && n % 2 == 1 && (z * B(8)) % n == (x * y) % n
    ensures Dom(z, n) == (Dom(x, n) * Dom(y, n)) % n
  {
    hide B, RInv;
    var r := RInv(n);
    DomRadix(z, n);
    DomCong(z * B(8), x * y, n);
    assert z % n == ((x * y) * r) % n;
    CongMulRight(z, (x * y) * r, r, n);
    MulAssoc(x * y, r, r);
    Shuffle(x, y, r, r);
    MulModLeft(x * r, (y * r) % n, n);
    MulModRight(x * r, y * r, n);
  }

  lemma {:induction false} DomAdd(x: int, y: int, n: nat)
    requires n > 0
    ensures Dom((x + y) % n, n) == (Dom(x, n) + Dom(y, n)) % n
  {
    hide RInv;
    var r := RInv(n);
    ModMod(x + y, n);
    DomCong((x + y) % n, x + y, n);
    MulSplit(x, y, r);
    ModMod(x * r, n);
    ModMod(y * r, n);
    CongAdd(x * r, (x * r) % n, y * r, (y * r) % n, n);
  }

  lemma {:induction false} DomSub(x: int, y: int, n: nat)
    requires n > 0
    ensures Dom((x - y) % n, n) == (Dom(x, n) - Dom(y, n)) % n
  {
    hide RInv;
    var r := RInv(n);
    ModMod(x - y, n);
    DomCong((x - y) % n, x - y, n);
    Distribute(r, x, y);
    MulComm(r, x);
    MulComm(r, y);
    MulComm(r, x - y);
    ModMod(x * r, n);
    ModMod(y * r, n);
    CongSub(x * r, (x * r) % n, y * r, (y * r) % n, n);
  }

  lemma {:induction false} DomZero(x: nat, n: nat)
    requires n > 1 && n % 2 == 1 && x < n
    ensures Dom(x, n) == 0 <==> x == 0
  {
    hide RInv;
    assert Dom(0, n) == 0;
    if Dom(x, n) == 0 {
      DomInjective(x, 0, n);
    }
  }

  // The code

  /** A modulus with the data its Montgomery operations need. */
  datatype Modulus = Modulus(m: seq<u32>, r2: seq<u32>, ni: u32) {
    ghost function N(): nat {
      Val(m)
    }

    ghost predicate Valid() {
      && |m| == 8 && |r2| == 8
      && N() > 2 && N() % 2 == 1
      && (N() * ni + 1) % 0x1_0000_0000 == 0
      && Val(r2) == (B(8) * B(8)) % N()
    }
  }

  /** Constant limbs as an operand. */
  method Limbs(s: seq<u32>) returns (a: array<u32>)
    requires |s| == 8
    ensures fresh(a) && Is256(a) && a[..] == s
  {
    a := new u32[8](i requires 0 <= i < 8 => s[i]);
  }

  /** Keep the sum, or the sum less the modulus, whichever is the residue. */
  lemma ReduceOnce(t: int, low: int, sub: int, carryAdd: int, carrySub: int, n: int, r: int)
    requires 0 <= t < 2 * n && n < r && 0 <= low < r && 0 <= sub < r
    requires t == low + carryAdd * r && 0 <= carryAdd <= 1 && 0 <= carrySub <= 1
    requires sub == carrySub * r + low - n
    ensures if carryAdd == 1 || carrySub == 0 then sub == t - n && t >= n else low == t && t < n
  {
    assert carryAdd == 0 || carryAdd == 1;
    assert carrySub == 0 || carrySub == 1;
  }

  lemma VBound(z: array<u32>)
    requires z.Length == 8
    ensures V(z) < B(8)
  {
    ValBound(z[..]);
  }

  lemma ModOnce(t: int, n: int)
    requires 0 <= t < 2 * n
    ensures t % n == if t < n then t else t - n
  {
    if t < n {
      ModSmall(t, n);
    } else {
      ModUnique(t, n, 1, t - n);
    }
  }

  method M256Add(z: array<u32>, x: array<u32>, y: array<u32>, mod: Modulus)
    requires Is256(z) && Is256(x) && Is256(y) && mod.Valid()
    requires V(x) < mod.N() && V(y) < mod.N()
    modifies z
    ensures V(z) < mod.N() && V(z) == (old(V(x)) + old(V(y))) % mod.N()
  {
    hide Val, B;
    ghost var n := mod.N();
    ghost var t := V(x) + V(y);
    var r := new u32[8](_ => 0);
    var carryAdd := U256Add(z, x, y);
    ghost var low := V(z);
    var m := Limbs(mod.m);
    var carrySub := U256Sub(r, z, m);
    VBound(z);
    VBound(r);
    VBound(m);
    ReduceOnce(t, low, V(r), carryAdd, carrySub, n, B(8));
    ModOnce(t, n);
    var useSub := if carryAdd == 1 || 1 - carrySub == 1 then 1 else 0;
    U256Cmov(z, r, useSub);
  }

  method M256Sub(z: array<u32>, x: array<u32>, y: array<u32>, mod: Modulus)
    requires Is256(z) && Is256(x) && Is256(y) && mod.Valid()
    requires V(x) < mod.N() && V(y) < mod.N()
    modifies z
    ensures V(z) < mod.N() && V(z) == (old(V(x)) - old(V(y))) % mod.N()
  {
    hide Val, B;
    ghost var n := mod.N();
    ghost var t := V(x) - V(y);
    var r := new u32[8](_ => 0);
    var carry := U256Sub(z, x, y);
    ghost var low := V(z);
    var m := Limbs(mod.m);
    var carryAdd := U256Add(r, z, m);
    VBound(z);
    VBound(r);
    VBound(m);
    SubOnce(t, low, V(r), carry, carryAdd, n, B(8));
    U256Cmov(z, r, carry);
  }

  lemma SubOnce(t: int, low: int, sum: int, carry: int, carryAdd: int, n: int, r: int)
    requires -n < t < n < r && 0 <= low < r && 0 <= sum < r
    requires low == carry * r + t && 0 <= carry <= 1 && 0 <= carryAdd <= 1
    requires sum + carryAdd * r == low + n
    ensures if carry == 1 then sum == t + n && t < 0 else low == t && t >= 0
    ensures t % n == if carry == 1 then sum else low
  {
    assert carry == 0 || carry == 1;
    assert carryAdd == 0 || carryAdd == 1;
    if carry == 1 {
      ModUnique(t, n, -1, t + n);
    } else {
      ModSmall(t, n);
    }
  }

  /** The invariant of the multiplication loop after `i` limbs of `x`. */
  ghost predicate MontInv(a: int, xlow: int, q: int, y: int, n: int, b: int) {
    && 0 <= xlow < b && 0 <= q < b
    && a * b == xlow * y + q * n
  }

  lemma MontInvBound(a: int, xlow: int, q: int, y: int, n: int, b: int)
    requires MontInv(a, xlow, q, y, n, b) && 0 <= y < n
    ensures a < 2 * n
  {
    if a >= 2 * n {
      MulMono(2 * n, a, b, b);
      MulMono(xlow, b - 1, y, n);
      MulMono(q, b - 1, n, n);
      assert (2 * n) * b == 2 * (n * b);
      Distribute(n, b, 1);
      MulComm(n, b - 1);
    }
  }

  lemma MontInvStep(a: int, a': int, xlow: int, xi: int, q: int, u: int, y: int, n: int, b: int)
    requires MontInv(a, xlow, q, y, n, b)
    requires 0 <= xi < 0x1_0000_0000 && 0 <= u < 0x1_0000_0000
    requires 0x1_0000_0000 * a' == a + xi * y + u * n
    ensures MontInv(a', xlow + xi * b, q + u * b, y, n, 0x1_0000_0000 * b)
  {
    MulAssoc(a', 0x1_0000_0000, b);
    MulComm(a', 0x1_0000_0000);
    MulSplit(a + xi * y, u * n, b);
    MulSplit(a, xi * y, b);
    Rotate(xi, y, b);
    Rotate(u, n, b);
    MulSplit(xlow, xi * b, y);
    MulSplit(q, u * b, n);
    DigitBound(xlow, xi, b);
    DigitBound(q, u, b);
  }

  lemma Rotate(a: int, b: int, c: int)
    ensures (a * b) * c == (a * c) * b
  {
    MulAssoc(a, b, c);
    MulComm(b, c);
    MulAssoc(a, c, b);
  }

  lemma DigitBound(low: int, d: int, b: int)
    requires 0 <= low < b && 0 <= d < 0x1_0000_0000
    ensures 0 <= low + d * b < 0x1_0000_0000 * b
  {
    MulMono(d, 0xFFFF_FFFF, b, b);
  }

  lemma ValLow(s: seq<u32>)
    requires s != []
    ensures Val(s) % 0x1_0000_0000 == s[0]
  {
    ModUnique(Val(s), 0x1_0000_0000, Val(s[1..]), s[0]);
  }

  /** The quotient digit `u` makes the lowest limb vanish. */
  lemma DigitClears(a: int, xi: int, y: int, n: int, ni: int, a0: int, y0: int, u: int)
    requires a % 0x1_0000_0000 == a0 && y % 0x1_0000_0000 == y0
    requires (n * ni + 1) % 0x1_0000_0000 == 0
    requires u == ((a0 + xi * y0) * ni) % 0x1_0000_0000
    ensures (a + xi * y + u * n) % 0x1_0000_0000 == 0
  {
    var m := 0x1_0000_0000;
    var t := a0 + xi * y0;
    ModMod(a, m);
    ModMod(y, m);
    CongMul(xi, xi, y, y0, m);
    CongAdd(a, a0, xi * y, xi * y0, m);
    MulModLeft(t * ni, n, m);
    MulAssoc(t, ni, n);
    MulComm(ni, n);
    CongAdd(a + xi * y, t, u * n, t * (n * ni), m);
    MulSplit(1, n * ni, t);
    MulComm(t, n * ni);
    MulComm(t, n * ni + 1);
    CongMulRight(n * ni + 1, 0, t, m);
  }

  /** One round: a := (a + xi * y + u * m) / 2^32. */
  method MontRound(a: array<u32>, xi: u32, y: array<u32>, mod: Modulus, ghost xlow: nat, ghost q: nat, ghost b: nat)
    returns (ghost q': nat)
    requires a.Length == 9 && Is256(y) && mod.Valid() && a != y
    requires V(y) < mod.N() && b > 0
    requires MontInv(V(a), xlow, q, V(y), mod.N(), b)
    modifies a
    ensures MontInv(V(a), xlow + xi * b, q', V(y), mod.N(), 0x1_0000_0000 * b)
    ensures a[8] <= 1
  {
    hide Val, B, MontInv;
    ghost var a0, n := V(a), mod.N();
    var u := ((a[0] + xi * y[0]) * mod.ni) % 0x1_0000_0000;
    ValLow(a[..]);
    ValLow(y[..]);
    DigitClears(V(a), xi, V(y), n, mod.ni, a[0], y[0], u);
    var c1 := U288MulAdd(a, xi, y);
    var m := Limbs(mod.m);
    var c2 := U288MulAdd(a, u, m);
    var c := c1 + c2;
    ghost var s := a0 + xi * V(y) + u * n;
    ghost var low := a[0];
    MulSplit(c1, c2, B(9));
    U288RShift32(a, c);
    assert s == low + 0x1_0000_0000 * V(a);
    ModUnique(s, 0x1_0000_0000, V(a), low);
    MontInvStep(a0, V(a), xlow, xi, q, u, V(y), n, b);
    q' := MontInvQ(q, u, b);
    MontInvBound(V(a), xlow + xi * b, q', V(y), n, 0x1_0000_0000 * b);
    VBound(m);
    TopLimb(a[..]);
  }

  lemma MontInvQ(q: nat, u: nat, b: nat) returns (r: nat)
    ensures r == q + u * b
  {
    MulNonneg(u, b);
    r := q + u * b;
  }

  lemma {:induction false} TopLimb(s: seq<u32>)
    requires |s| == 9 && Val(s) < 2 * B(8)
    ensures s[8] <= 1
  {
    hide B, Val;
    ValTake(s, 8);
    assert s[..9] == s;
    if s[8] >= 2 {
      MulMono(2, s[8], B(8), B(8));
    }
  }

  /** Montgomery product; the result may be written over either factor. */
  method M256Mul(z: array<u32>, x: array<u32>, y: array<u32>, mod: Modulus)
    requires Is256(z) && Is256(x) && Is256(y) && mod.Valid()
    requires V(y) < mod.N()
    modifies z
    ensures V(z) < mod.N()
    ensures (V(z) * B(8)) % mod.N() == (old(V(x)) * old(V(y))) % mod.N()
    ensures Dom(V(z), mod.N()) == (Dom(old(V(x)), mod.N()) * Dom(old(V(y)), mod.N())) % mod.N()
  {
    hide Val, B, Dom, MontInv;
    ghost var xs, n, yv := x[..], mod.N(), V(y);
    var a := new u32[9](_ => 0);
    ghost var q: nat := 0;
    assert V(a) == 0 by { ValZeros(a[..]); }
    MontStart(yv, n);
    ValNone();
    for i := 0 to 8
      invariant xs == x[..] && V(y) == yv
      invariant MontInv(V(a), Val(xs[..i]), q, yv, n, B(i))
      invariant a[8] <= 1
    {
      ValTake(xs, i);
      q := MontRound(a, x[i], y, mod, Val(xs[..i]), q, B(i));
    }
    assert xs[..8] == xs;
    MontInvBound(V(a), Val(xs), q, yv, n, B(8));
    MontFinish(z, a, mod);
    MontResult(V(z), old(V(x)), q, yv, n, B(8), V(a));
    DomMul(old(V(x)), yv, V(z), n);
  }

  lemma MontStart(y: nat, n: nat)
    ensures MontInv(0, 0, 0, y, n, 1)
  {
  }

  /** Subtract the modulus once if the accumulator is not below it. */
  method MontFinish(z: array<u32>, a: array<u32>, mod: Modulus)
    requires Is256(z) && a.Length == 9 && mod.Valid() && z != a
    requires V(a) < 2 * mod.N() && a[8] <= 1
    modifies z
    ensures V(z) == if V(a) < mod.N() then V(a) else V(a) - mod.N()
  {
    hide Val, B;
    var low := new u32[8](i requires 0 <= i < 8 reads a => a[i]);
    var carryAdd := a[8];
    ghost var t := V(a);
    ValTake(a[..], 8);
    assert a[..][..9] == a[..] && low[..] == a[..][..8];
    var m := Limbs(mod.m);
    var carrySub := U256Sub(z, low, m);
    VBound(z);
    VBound(low);
    VBound(m);
    ReduceOnce(t, V(low), V(z), carryAdd, carrySub, mod.N(), B(8));
    var useSub := if carryAdd == 1 || 1 - carrySub == 1 then 1 else 0;
    U256Cmov(z, low, 1 - useSub);
  }

  lemma MontResult(z: int, x: int, q: int, y: int, n: nat, b: int, a: int)
    requires MontInv(a, x, q, y, n, b) && n > 0
    requires z == a || z == a - n
    ensures (z * b) % n == (x * y) % n
  {
    if z == a {
      CongFrom(z * b, x * y, n, q);
    } else {
      Distribute(b, a, n);
      MulComm(b, a);
      MulComm(b, n);
      MulComm(b, z);
      Distribute(n, q, b);
      CongFrom(z * b, x * y, n, q - b);
    }
  }

  /** Into Montgomery form. */
  method M256Prep(z: array<u32>, mod: Modulus)
    requires Is256(z) && mod.Valid()
    modifies z
    ensures V(z) < mod.N() && Dom(V(z), mod.N()) == old(V(z)) % mod.N()
  {
    hide Val, B, Dom;
    ghost var x, n := V(z), mod.N();
    var r2 := Limbs(mod.r2);
    M256Mul(z, z, r2, mod);
    PrepResult(x, V(z), Val(mod.r2), n);
  }

  lemma {:induction false} PrepResult(x: int, z: int, r2: int, n: nat)
    requires n > 1 && n % 2 == 1 && r2 == (B(8) * B(8)) % n && (z * B(8)) % n == (x * r2) % n
    ensures Dom(z, n) == x % n
  {
    hide B, Dom;
    MulModRight(x, B(8) * B(8), n);
    MulAssoc(x, B(8), B(8));
    DomCong(z * B(8), (x * B(8)) * B(8), n);
    DomRadix(z, n);
    DomRadix(x * B(8), n);
    DomCong(z, x * B(8), n);
    DomRadix(x, n);
  }

  /** Out of Montgomery form. */
  method M256Done(z: array<u32>, mod: Modulus)
    requires Is256(z) && mod.Valid()
    modifies z
    ensures V(z) < mod.N() && V(z) == Dom(old(V(z)), mod.N())
  {
    hide Val, B, Dom;
    ghost var x, n := V(z), mod.N();
    var one := new u32[8](_ => 0);
    U256Set32(one, 1);
    M256Mul(z, z, one, mod);
    DomRadix(V(z), n);
    DomCong(V(z) * B(8), x * 1, n);
    ModSmall(V(z), n);
  }

  method M256Set32(z: array<u32>, x: u32, mod: Modulus)
    requires Is256(z) && mod.Valid()
    modifies z
    ensures V(z) < mod.N() && Dom(V(z), mod.N()) == x % mod.N()
  {
    U256Set32(z, x);
    M256Prep(z, mod);
  }

  /** The invariant of the exponentiation: `done` of the exponent is dealt with, the bits in
      `limb` and the limbs worth `rest` remain; `j` bits of the current limb are gone. */
  ghost predicate ExpInv(e: nat, done: nat, weight: nat, limb: nat, j: nat, rest: nat)
    requires j <= 32
  {
    && limb < Pow2(32 - j)
    && e == done + weight * (limb + Pow2(32 - j) * rest)
  }

  lemma {:induction false} ExpInvStep(e: nat, done: nat, weight: nat, limb: nat, j: nat, rest: nat)
    requires j < 32 && ExpInv(e, done, weight, limb, j, rest)
    ensures weight * (limb % 2) >= 0
    ensures ExpInv(e, done + weight * (limb % 2), 2 * weight, limb / 2, j + 1, rest)
  {
    hide Pow2;
    Pow2Step(32 - j);
    var h, b, p := limb / 2, limb % 2, Pow2(32 - (j + 1));
    assert limb == 2 * h + b && Pow2(32 - j) == 2 * p;
    MulAssoc(2, p, rest);
    var s := h + p * rest;
    assert limb + Pow2(32 - j) * rest == b + 2 * s;
    MulSplit(b, 2 * s, weight);
    MulAssoc(weight, 2, s);
    MulComm(weight, 2);
    MulNonneg(weight, b);
  }

  lemma Pow2Step(k: nat)
    requires k > 0
    ensures Pow2(k) == 2 * Pow2(k - 1)
  {
  }

  lemma Pow2Of32()
    ensures Pow2(0) == 1 && Pow2(32) == 0x1_0000_0000
  {
    assert Pow2(8) == 0x100;
    assert Pow2(16) == 0x1_0000;
    assert Pow2(24) == 0x100_0000;
  }

  /** After the 32 bits of a limb, the next limb takes its place. */
  lemma {:induction false} ExpInvNextLimb(e: nat, done: nat, weight: nat, limb: nat, rest: nat, next: u32, rest': nat)
    requires ExpInv(e, done, weight, limb, 32, rest) && rest == next + 0x1_0000_0000 * rest'
    ensures ExpInv(e, done, weight, next, 0, rest')
  {
    hide Pow2;
    Pow2Of32();
  }

  lemma ExpInvFinal(e: nat, done: nat, weight: nat, limb: nat)
    requires ExpInv(e, done, weight, limb, 32, 0)
    ensures e == done
  {
    Pow2Of32();
    assert limb == 0;
  }

  lemma {:induction false} PowStep(x: int, done: nat, weight: nat, z: int, v: int, n: nat)
    requires n > 0 && z == Pow(x, done) % n && v == Pow(x, weight) % n
    ensures (z * v) % n == Pow(x, done + weight) % n
  {
    hide Pow;
    PowAdd(x, done, weight);
    MulModLeft(Pow(x, done), v, n);
    MulModRight(Pow(x, done), Pow(x, weight), n);
  }

  /** One bit of the exponent: multiply if it is set, then square. */
  method ExpBit(z: array<u32>, bitval: array<u32>, limb: u32, mod: Modulus, ghost x: nat,
                ghost done: nat, ghost weight: nat)
    returns (ghost done': nat)
    requires Is256(z) && Is256(bitval) && z != bitval && mod.Valid()
    requires V(z) < mod.N() && V(bitval) < mod.N()
    requires Dom(V(z), mod.N()) == Pow(x, done) % mod.N()
    requires Dom(V(bitval), mod.N()) == Pow(x, weight) % mod.N()
    modifies z, bitval
    ensures V(z) < mod.N() && V(bitval) < mod.N()
    ensures done' == done + weight * (limb % 2)
    ensures Dom(V(z), mod.N()) == Pow(x, done') % mod.N()
    ensures Dom(V(bitval), mod.N()) == Pow(x, 2 * weight) % mod.N()
  {
    hide Val, B, Dom, Pow;
    ghost var n := mod.N();
    done' := done;
    if limb % 2 == 1 {
      PowStep(x, done, weight, Dom(V(z), n), Dom(V(bitval), n), n);
      M256Mul(z, z, bitval, mod);
      done' := done + weight;
    }
    PowStep(x, weight, weight, Dom(V(bitval), n), Dom(V(bitval), n), n);
    M256Mul(bitval, bitval, bitval, mod);
  }

  /** The 32 bits of one limb of the exponent. */
  method ExpLimb(z: array<u32>, bitval: array<u32>, limb0: u32, mod: Modulus,
                 ghost x: nat, ghost e: nat, ghost done0: nat, ghost weight0: nat, ghost rest: nat)
    returns (ghost done: nat, ghost weight: nat, ghost left: nat)
    requires Is256(z) && Is256(bitval) && z != bitval && mod.Valid()
    requires V(z) < mod.N() && V(bitval) < mod.N()
    requires Dom(V(z), mod.N()) == Pow(x, done0) % mod.N()
    requires Dom(V(bitval), mod.N()) == Pow(x, weight0) % mod.N()
    requires ExpInv(e, done0, weight0, limb0, 0, rest)
    modifies z, bitval
    ensures V(z) < mod.N() && V(bitval) < mod.N()
    ensures Dom(V(z), mod.N()) == Pow(x, done) % mod.N()
    ensures Dom(V(bitval), mod.N()) == Pow(x, weight) % mod.N()
    ensures ExpInv(e, done, weight, left, 32, rest)
  {
    hide Val, B, Dom, Pow, ExpInv;
    done, weight := done0, weight0;
    var limb := limb0;
    for j := 0 to 32
      invariant V(z) < mod.N() && V(bitval) < mod.N()
      invariant Dom(V(z), mod.N()) == Pow(x, done) % mod.N()
      invariant Dom(V(bitval), mod.N()) == Pow(x, weight) % mod.N()
      invariant 0 <= limb < 0x1_0000_0000 && ExpInv(e, done, weight, limb, j, rest)
    {
      ExpInvStep(e, done, weight, limb, j, rest);
      done := ExpBit(z, bitval, limb, mod, x, done, weight);
      weight := 2 * weight;
      limb := limb / 2;
    }
    left := limb;
  }

  /** The power `m - 2`, right to left, taking 2 off the lowest limb on the fly. */
  method M256Inv(z: array<u32>, x: array<u32>, mod: Modulus)
    requires Is256(z) && Is256(x) && mod.Valid()
    requires |mod.m| == 8 && mod.m[0] >= 2 && V(x) < mod.N()
    modifies z
    ensures V(z) < mod.N()
    ensures Dom(V(z), mod.N()) == Pow(Dom(old(V(x)), mod.N()), mod.N() - 2) % mod.N()
  {
    hide Val, B, Dom, Pow, ExpInv;
    ghost var n, ms := mod.N(), mod.m;
    ghost var dx, e := Dom(V(x), n), mod.N() - 2;
    var bitval := new u32[8](_ => 0);
    U256Cmov(bitval, x, 1);
    M256Set32(z, 1, mod);
    ghost var done, weight, left := 0, 1, 0;
    PowSmall(dx, n);
    ModSmall(dx, n);
    var i := 0;
    var limb := mod.m[0] - 2;
    ExpInvStart(ms, limb);
    while true
      invariant 0 <= i < 8 && 0 <= limb < 0x1_0000_0000
      invariant V(z) < n && V(bitval) < n
      invariant Dom(V(z), n) == Pow(dx, done) % n && Dom(V(bitval), n) == Pow(dx, weight) % n
      invariant ExpInv(e, done, weight, limb, 0, Val(ms[i + 1..]))
      decreases 8 - i
    {
      done, weight, left := ExpLimb(z, bitval, limb, mod, dx, e, done, weight, Val(ms[i + 1..]));
      if i == 7 {
        break;
      }
      ValFrom(ms, i + 1);
      ExpInvNextLimb(e, done, weight, left, Val(ms[i + 1..]), ms[i + 1], Val(ms[i + 2..]));
      i := i + 1;
      limb := mod.m[i];
    }
    assert ms[8..] == [];
    ValNone();
    ExpInvFinal(e, done, weight, left);
  }

  lemma PowSmall(x: int, n: nat)
    requires n > 0
    ensures Pow(x, 0) % n == 1 % n && Pow(x, 1) == x
  {
  }

  lemma ValFrom(s: seq<u32>, i: nat)
    requires i < |s|
    ensures Val(s[i..]) == s[i] + 0x1_0000_0000 * Val(s[i + 1..])
  {
    assert s[i..][1..] == s[i + 1..];
  }

  lemma {:induction false} ExpInvStart(ms: seq<u32>, limb: nat)
    requires |ms| == 8 && ms[0] >= 2 && limb == ms[0] - 2 && Val(ms) >= 2
    ensures ExpInv(Val(ms) - 2, 0, 1, limb, 0, Val(ms[1..]))
  {
    hide Pow2;
    Pow2Of32();
  }

  /** Import a residue from bytes; fails exactly when the number is not below the modulus. */
  method M256FromBytes(z: array<u32>, p: seq<byte>, mod: Modulus) returns (ok: bool)
    requires Is256(z) && |p| == 32 && mod.Valid()
    modifies z
    ensures ok <==> ValBE(p) < mod.N()
    ensures ok ==> V(z) < mod.N() && Dom(V(z), mod.N()) == ValBE(p)
  {
    hide Val, B, Dom, ValBE;
    ghost var n := mod.N();
    U256FromBytes(z, p);
    var t := new u32[8](_ => 0);
    var m := Limbs(mod.m);
    var ltM := U256Sub(t, z, m);
    VBound(t);
    VBound(z);
    VBound(m);
    LessIff(V(z), n, V(t), ltM, B(8));
    if ltM != 1 {
      return false;
    }
    ModSmall(V(z), n);
    M256Prep(z, mod);
    return true;
  }

  /** The borrow of a subtraction says which number is smaller. */
  lemma LessIff(x: int, y: int, d: int, borrow: int, r: int)
    requires 0 <= d < r && 0 <= borrow <= 1 && d == borrow * r + x - y && 0 <= x < r && 0 <= y < r
    ensures borrow == 1 <==> x < y
  {
    assert borrow == 0 || borrow == 1;
  }

  method M256ToBytes(z: array<u32>, mod: Modulus) returns (p: seq<byte>)
    requires Is256(z) && mod.Valid()
    ensures |p| == 32 && ValBE(p) == Dom(V(z), mod.N())
  {
    hide Val, B, Dom, ValBE;
    var zi := new u32[8](_ => 0);
    U256Cmov(zi, z, 1);
    M256Done(zi, mod);
    p := U256ToBytes(zi);
  }
}

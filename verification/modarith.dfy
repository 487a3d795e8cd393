/** Arithmetic modulo a number, powers and primes. */
module ModArith {
  import opened Bits

  lemma ModAddMultiple(x: int, k: int, m: int)
    requires m > 0
    ensures (x + m * k) % m == x % m
  {
    Distribute(m, x / m, -k);
    ModUnique(x + m * k, m, x / m + k, x % m);
  }

  lemma MulSplit(a: int, b: int, c: int)
    ensures (a + b) * c == a * c + b * c
    ensures c * (a + b) == c * a + c * b
  {
  }

  lemma MulAssoc(a: int, b: int, c: int)
    ensures (a * b) * c == a * (b * c)
  {
  }

  lemma MulComm(a: int, b: int)
    ensures a * b == b * a
  {
  }

  lemma DivMod(x: int, m: int)
    requires m > 0
    ensures x == m * (x / m) + x % m && 0 <= x % m < m
  {
  }

  lemma ModSmall(x: int, m: int)
    requires 0 <= x < m
    ensures x % m == x
  {
    ModUnique(x, m, 0, x);
  }

  lemma ModMod(x: int, m: int)
    requires m > 0
    ensures (x % m) % m == x % m
  {
    ModSmall(x % m, m);
  }

  /** Congruent numbers differ by a multiple of the modulus, and the other way round. */
  lemma CongIff(a: int, b: int, m: int) returns (k: int)
    requires m > 0 && a % m == b % m
    ensures a == b + m * k
  {
    k := a / m - b / m;
    DivMod(a, m);
    DivMod(b, m);
    Distribute(m, a / m, b / m);
  }

  lemma CongFrom(a: int, b: int, m: int, k: int)
    requires m > 0 && a == b + m * k
    ensures a % m == b % m
  {
    ModAddMultiple(b, k, m);
  }

  lemma CongAdd(a: int, a': int, b: int, b': int, m: int)
    requires m > 0 && a % m == a' % m && b % m == b' % m
    ensures (a + b) % m == (a' + b') % m
  {
    var k := CongIff(a, a', m);
    var l := CongIff(b, b', m);
    MulSplit(k, l, m);
    CongFrom(a + b, a' + b', m, k + l);
  }

  lemma CongSub(a: int, a': int, b: int, b': int, m: int)
    requires m > 0 && a % m == a' % m && b % m == b' % m
    ensures (a - b) % m == (a' - b') % m
  {
    var k := CongIff(a, a', m);
    var l := CongIff(b, b', m);
    Distribute(m, k, l);
    CongFrom(a - b, a' - b', m, k - l);
  }

  lemma CongMulRight(a: int, a': int, b: int, m: int)
    requires m > 0 && a % m == a' % m
    ensures (a * b) % m == (a' * b) % m
  {
    var k := CongIff(a, a', m);
    MulSplit(a', m * k, b);
    MulAssoc(m, k, b);
    CongFrom(a * b, a' * b, m, k * b);
  }

  lemma CongMul(a: int, a': int, b: int, b': int, m: int)
    requires m > 0 && a % m == a' % m && b % m == b' % m
    ensures (a * b) % m == (a' * b') % m
  {
    CongMulRight(a, a', b, m);
    CongMulRight(b, b', a', m);
    MulComm(a', b);
    MulComm(a', b');
  }

  /** Reducing factors first does not change a product modulo `m`. */
  lemma MulModLeft(a: int, b: int, m: int)
    requires m > 0
    ensures ((a % m) * b) % m == (a * b) % m
  {
    ModMod(a, m);
    CongMulRight(a % m, a, b, m);
  }

  lemma MulModRight(a: int, b: int, m: int)
    requires m > 0
    ensures (a * (b % m)) % m == (a * b) % m
  {
    MulModLeft(b, a, m);
    MulComm(a, b % m);
    MulComm(a, b);
  }

  lemma AddModLeft(a: int, b: int, m: int)
    requires m > 0
    ensures (a % m + b) % m == (a + b) % m
  {
    ModMod(a, m);
    CongAdd(a % m, a, b, b, m);
  }

  function Pow(b: int, e: nat): int {
    if e == 0 then 1 else b * Pow(b, e - 1)
  }

  lemma {:induction false} PowAdd(b: int, d: nat, e: nat)
    ensures Pow(b, d + e) == Pow(b, d) * Pow(b, e)
  {
    if d > 0 {
      PowAdd(b, d - 1, e);
      MulAssoc(b, Pow(b, d - 1), Pow(b, e));
    }
  }

  lemma {:induction false} PowMul(b: int, d: nat, e: nat)
    ensures d * e >= 0 && Pow(b, d * e) == Pow(Pow(b, d), e)
  {
    if e > 0 {
      PowMul(b, d, e - 1);
      MulSplit(e - 1, 1, d);
      PowAdd(b, d, d * (e - 1));
    }
  }

  // Primes

  ghost predicate Divides(d: int, x: int)
    requires d > 0
  {
    x % d == 0
  }

  ghost predicate IsPrime(p: int) {
    p > 1 && forall d :: 1 < d < p ==> !Divides(d, p)
  }

  /** A prime that divides `d * x` for some `0 < d < p` divides `x`. */
  lemma {:induction false} EuclidSmall(p: int, d: int, x: int)
    requires IsPrime(p) && 0 < d < p && Divides(p, d * x)
    ensures Divides(p, x)
    decreases d
  {
    if d > 1 {
      assert !Divides(d, p);
      DivMod(p, d);
      var r := p % d;
      // r * x == p * x - (p / d) * (d * x), and both terms are multiples of p
      var k := CongIff(d * x, 0, p);
      assert r * x == p * (x - (p / d) * k) by {
        var q := p / d;
        assert p == d * q + r;
        MulSplit(d * q, r, x);
        MulComm(d, q);
        MulAssoc(q, d, x);
        MulComm(q, p);
        MulAssoc(p, q, k);
        MulComm(q, p * k);
        MulAssoc(p, k, q);
        MulComm(k, q);
        Distribute(p, x, q * k);
        assert q * (d * x) == q * (p * k);
      }
      CongFrom(r * x, 0, p, x - (p / d) * k);
      EuclidSmall(p, r, x);
    }
  }

  /** Euclid's lemma: a prime that divides a product divides a factor. */
  lemma Euclid(p: int, a: int, b: int)
    requires IsPrime(p) && Divides(p, a * b)
    ensures Divides(p, a) || Divides(p, b)
  {
    if !Divides(p, a) {
      MulModLeft(a, b, p);
      EuclidSmall(p, a % p, b);
    }
  }
}

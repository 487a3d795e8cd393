/** Bitwise operations of the C sources, defined on natural numbers bit by bit. */
module Bits {

  predicate IsPow2(n: nat) {
    n == 1 || (n > 1 && n % 2 == 0 && IsPow2(n / 2))
  }

  /** Two distinct powers of two are at least a factor of two apart, and the smaller
      divides the larger. */
  lemma {:induction false} Pow2Gap(p: nat, q: nat)
    requires IsPow2(p) && IsPow2(q) && p < q
    ensures 2 * p <= q
    ensures q % p == 0
  {
    if p > 1 {
      Pow2Gap(p / 2, q / 2);
      var k := (q / 2) / (p / 2);
      assert q / 2 == (p / 2) * k;
      assert q == p * k by {
        assert q == 2 * (q / 2);
        assert p == 2 * (p / 2);
        assert 2 * ((p / 2) * k) == (2 * (p / 2)) * k;
      }
      ModOfMultiple(p, k);
    }
  }

  lemma ModOfMultiple(p: nat, k: nat)
    requires p > 0
    ensures (p * k) % p == 0
  {
    ModUnique(p * k, p, k, 0);
  }

  lemma MulAtLeast(m: int, k: int)
    requires m > 0 && k >= 1
    ensures m * k >= m
  {
    assert m * k == m + m * (k - 1);
  }

  lemma Distribute(m: int, a: int, b: int)
    ensures m * (a - b) == m * a - m * b
  {
  }

  /** Euclidean division is determined by its defining equation. */
  lemma ModUnique(x: int, m: int, q: int, r: int)
    requires m > 0 && 0 <= r < m && x == m * q + r
    ensures x / m == q && x % m == r
  {
    var q', r' := x / m, x % m;
    Distribute(m, q, q');
    Distribute(m, q', q);
    if q > q' {
      MulAtLeast(m, q - q');
    } else if q < q' {
      MulAtLeast(m, q' - q);
    }
  }

  lemma Pow2Unique(p: nat, q: nat, x: nat)
    requires IsPow2(p) && IsPow2(q)
    requires p <= x < 2 * p && q <= x < 2 * q
    ensures p == q
  {
    if p < q {
      Pow2Gap(p, q);
    } else if q < p {
      Pow2Gap(q, p);
    }
  }

  /** Largest power of two at most `x`; 1 when `x` is 0. */
  function RoundDownToPow2(x: nat): (r: nat)
    ensures IsPow2(r)
    ensures x > 0 ==> r <= x < 2 * r
    ensures x == 0 ==> r == 1
  {
    if x <= 1 then 1 else 2 * RoundDownToPow2(x / 2)
  }

  /** Number of 1 bits. */
  function PopCount(x: nat): nat {
    if x == 0 then 0 else x % 2 + PopCount(x / 2)
  }

  function And(x: nat, y: nat): nat {
    if x == 0 || y == 0 then 0 else (x % 2) * (y % 2) + 2 * And(x / 2, y / 2)
  }

  function Xor(x: nat, y: nat): nat
    decreases x + y
  {
    if x == 0 && y == 0 then 0 else (x + y) % 2 + 2 * Xor(x / 2, y / 2)
  }

  /** Bit `i` of `x`. */
  predicate Bit(x: nat, i: nat) {
    if i == 0 then x % 2 == 1 else Bit(x / 2, i - 1)
  }

  /** Clearing the lowest 1 bit lowers the population count by one. */
  lemma {:induction false} ClearLowestBit(x: nat)
    requires x > 0
    ensures And(x, x - 1) < x
    ensures PopCount(And(x, x - 1)) == PopCount(x) - 1
  {
    hide *;
    AndStep(x, x - 1);
    PopCountStep(x);
    PopCountStep(And(x, x - 1));
    if x % 2 == 1 {
      AndSelf(x / 2);
      assert (x - 1) / 2 == x / 2;
    } else {
      ClearLowestBit(x / 2);
      assert (x - 1) / 2 == x / 2 - 1;
    }
  }

  lemma AndStep(x: nat, y: nat)
    ensures And(x, y) == (x % 2) * (y % 2) + 2 * And(x / 2, y / 2)
  {
  }

  lemma {:induction false} AndSelf(x: nat)
    ensures And(x, x) == x
  {
    if x > 0 {
      AndSelf(x / 2);
    }
  }

  /** The portable population count: clear the lowest 1 bit until nothing is left. */
  method PopCountLoop(x0: nat) returns (count: nat)
    ensures count == PopCount(x0)
  {
    count := 0;
    var x := x0;
    while x != 0
      invariant count + PopCount(x) == PopCount(x0)
    {
      ClearLowestBit(x);
      x := And(x, x - 1);
      count := count + 1;
    }
  }

  /** Masking with one less than a power of two is the remainder. */
  lemma {:induction false} AndMask(p: nat, x: nat)
    requires IsPow2(p)
    ensures And(p - 1, x) == x % p
  {
    if p == 1 {
    } else if x == 0 {
    } else {
      AndMask(p / 2, x / 2);
      assert (p - 1) / 2 == p / 2 - 1;
      assert (p - 1) % 2 == 1;
      HalveMod(p, x);
    }
  }

  lemma HalveMod(p: nat, x: nat)
    requires p >= 2 && p % 2 == 0
    ensures x % p == x % 2 + 2 * ((x / 2) % (p / 2))
  {
    var h := p / 2;
    var q, r := (x / 2) / h, (x / 2) % h;
    assert x / 2 == h * q + r;
    assert x == 2 * (x / 2) + x % 2;
    assert 2 * (h * q) == (2 * h) * q;
    ModUnique(x, p, q, x % 2 + 2 * r);
  }

  /** The population count of an exclusive-or is the number of differing bits. */
  function Differing(x: nat, y: nat, width: nat): nat {
    if width == 0 then 0
    else Differing(x, y, width - 1) + (if Bit(x, width - 1) != Bit(y, width - 1) then 1 else 0)
  }

  lemma {:induction false} DifferingShift(x: nat, y: nat, width: nat)
    requires width > 0
    ensures Differing(x, y, width) == (if x % 2 != y % 2 then 1 else 0) + Differing(x / 2, y / 2, width - 1)
  {
    if width > 1 {
      DifferingShift(x, y, width - 1);
    } else {
      assert Differing(x, y, 0) == 0;
    }
  }

  function Pow2(k: nat): (p: nat)
    ensures p > 0
  {
    if k == 0 then 1 else 2 * Pow2(k - 1)
  }

  lemma {:induction false} XorPopCount(x: nat, y: nat, width: nat)
    requires x < Pow2(width) && y < Pow2(width)
    ensures PopCount(Xor(x, y)) == Differing(x, y, width)
  {
    hide *;
    Pow2Unfold(width);
    if width == 0 {
      XorNothing();
    } else {
      var z := Xor(x / 2, y / 2);
      XorStep(x, y);
      PopCountStep((x + y) % 2 + 2 * z);
      DifferingShift(x, y, width);
      XorPopCount(x / 2, y / 2, width - 1);
      assert ((x + y) % 2 + 2 * z) / 2 == z;
      assert ((x + y) % 2 == 1) <==> (x % 2 != y % 2);
    }
  }

  lemma XorNothing()
    ensures PopCount(Xor(0, 0)) == Differing(0, 0, 0) == 0
  {
  }

  lemma Pow2Unfold(k: nat)
    ensures Pow2(k) == if k == 0 then 1 else 2 * Pow2(k - 1)
  {
  }

  lemma XorStep(x: nat, y: nat)
    ensures Xor(x, y) == (x + y) % 2 + 2 * Xor(x / 2, y / 2)
  {
  }

  lemma PopCountStep(x: nat)
    ensures PopCount(x) == x % 2 + PopCount(x / 2)
  {
  }
}

/** Fermat's little theorem, by way of the binomial theorem. */
module Fermat {
  import opened Bits
  import opened ModArith

  function Choose(n: nat, k: nat): nat {
    if k == 0 then 1 else if n == 0 then 0 else Choose(n - 1, k - 1) + Choose(n - 1, k)
  }

  lemma {:induction false} ChooseBeyond(n: nat, k: nat)
    requires k > n
    ensures Choose(n, k) == 0
  {
    if n > 0 {
      ChooseBeyond(n - 1, k - 1);
      ChooseBeyond(n - 1, k);
    }
  }

  lemma {:induction false} ChooseAll(n: nat)
    ensures Choose(n, n) == 1
  {
    if n > 0 {
      ChooseAll(n - 1);
      ChooseBeyond(n - 1, n);
    }
  }

  lemma {:induction false} Absorb(n: nat, k: nat)
    requires n >= 1 && k >= 1
    ensures k * Choose(n, k) == n * Choose(n - 1, k - 1)
    decreases n
  {
    if n == 1 {
      if k > 1 {
        ChooseBeyond(1, k);
      }
    } else {
      var x, y := Choose(n - 1, k - 1), Choose(n - 1, k);
      Absorb(n - 1, k);
      MulSplit(x, y, k);
      var v := Choose(n - 2, k - 1);
      assert k * y == (n - 1) * v;
      if k == 1 {
        assert x == 1;
      } else {
        Absorb(n - 1, k - 1);
        var u := Choose(n - 2, k - 2);
        assert (k - 1) * x == (n - 1) * u;
        assert x == u + v;
        MulSplit(u, v, n - 1);
        MulSplit(k - 1, 1, x);
        MulSplit(n - 1, 1, x);
      }
    }
  }

  /** The first terms of the binomial expansion of `(a + 1)` to the power `n`. */
  function BinSum(a: int, n: nat, k: nat): int {
    (if k == 0 then 0 else BinSum(a, n, k - 1)) + Choose(n, k) * Pow(a, k)
  }

  lemma {:induction false} BinSumStep(a: int, n: nat, k: nat)
    requires k >= 1
    ensures BinSum(a, n + 1, k) == BinSum(a, n, k) + a * BinSum(a, n, k - 1)
  {
    var x, y := Choose(n, k - 1), Choose(n, k);
    var p := Pow(a, k - 1);
    assert Choose(n + 1, k) == x + y && Pow(a, k) == a * p;
    MulSplit(x, y, a * p);
    MulComm(x, a * p);
    MulAssoc(a, p, x);
    MulComm(p, x);
    if k == 1 {
      assert BinSum(a, n + 1, 0) == 1 && BinSum(a, n, 0) == 1;
    } else {
      BinSumStep(a, n, k - 1);
      MulSplit(BinSum(a, n, k - 2), x * p, a);
    }
  }

  lemma {:induction false} Binomial(a: int, n: nat)
    ensures Pow(a + 1, n) == BinSum(a, n, n)
  {
    if n > 0 {
      Binomial(a, n - 1);
      BinSumStep(a, n - 1, n);
      ChooseBeyond(n - 1, n);
      assert BinSum(a, n - 1, n) == BinSum(a, n - 1, n - 1);
      MulSplit(a, 1, BinSum(a, n - 1, n - 1));
    }
  }

  lemma PrimeDividesChoose(p: nat, k: nat)
    requires IsPrime(p) && 1 <= k < p
    ensures Choose(p, k) % p == 0
  {
    Absorb(p, k);
    CongFrom(k * Choose(p, k), 0, p, Choose(p - 1, k - 1));
    Euclid(p, k, Choose(p, k));
    ModSmall(k, p);
  }

  lemma {:induction false} BinSumMod(a: int, p: nat, k: nat)
    requires IsPrime(p) && k < p
    ensures BinSum(a, p, k) % p == 1
    decreases k
  {
    if k == 0 {
      assert BinSum(a, p, 0) == 1;
      ModSmall(1, p);
    } else {
      BinSumMod(a, p, k - 1);
      PrimeDividesChoose(p, k);
      CongMulRight(Choose(p, k), 0, Pow(a, k), p);
      ModSmall(1, p);
      CongAdd(BinSum(a, p, k - 1), 1, Choose(p, k) * Pow(a, k), 0, p);
    }
  }

  /** Every number is congruent to its `p`-th power. */
  lemma {:induction false} PowerP(a: nat, p: nat)
    requires IsPrime(p)
    ensures Pow(a, p) % p == a % p
    decreases a
  {
    if a == 0 {
      assert Pow(0, p) == 0;
    } else {
      PowerP(a - 1, p);
      Binomial(a - 1, p);
      BinSumMod(a - 1, p, p - 1);
      ChooseAll(p);
      ModSmall(1, p);
      var s, t := BinSum(a - 1, p, p - 1), Pow(a - 1, p);
      assert BinSum(a - 1, p, p) == s + t;
      CongAdd(s, 1, t, a - 1, p);
    }
  }

  /** Fermat inversion: the power `p - 2` of a nonzero residue is its inverse. */
  lemma FermatInverse(a: int, p: nat)
    requires IsPrime(p) && 0 < a < p
    ensures (a * Pow(a, p - 2)) % p == 1
  {
    PowerP(a, p);
    var w := Pow(a, p - 1);
    assert w == a * Pow(a, p - 2);
    assert Pow(a, p) == a * w;
    CongSub(a * w, a, a, a, p);
    Distribute(a, w, 1);
    ModSmall(0, p);
    Euclid(p, a, w - 1);
    ModSmall(a, p);
    var k := CongIff(w - 1, 0, p);
    CongFrom(w, 1, p, k);
    ModSmall(1, p);
  }
}

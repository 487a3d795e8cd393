/** The arithmetic of the chaining-value stack: which subtree sizes lie on it, and how many. */
module Blake3Stack {
  import opened Bits

  function Sum(s: seq<nat>): nat {
    if s == [] then 0 else s[0] + Sum(s[1..])
  }

  lemma {:induction false} SumConcat(a: seq<nat>, b: seq<nat>)
    ensures Sum(a + b) == Sum(a) + Sum(b)
  {
    if a == [] {
      assert a + b == b;
    } else {
      SumConcat(a[1..], b);
      assert (a + b)[1..] == a[1..] + b;
    }
  }

  /** Distinct powers of two, largest first: the binary representation of their sum. */
  predicate Strict(s: seq<nat>) {
    && (forall i :: 0 <= i < |s| ==> IsPow2(s[i]))
    && (forall i, j :: 0 <= i < j < |s| ==> s[i] > s[j])
  }

  /** As `Strict`, except that the last size may equal the one before it: that pair is merged
      only once it is known not to be the root. */
  predicate Lazy(s: seq<nat>) {
    s != [] ==>
      var last := |s| - 1;
      Strict(s[..last]) && IsPow2(s[last]) && (forall i :: 0 <= i < last ==> s[i] >= s[last])
  }

  lemma StrictIsLazy(s: seq<nat>)
    requires Strict(s)
    ensures Lazy(s)
  {
  }

  lemma {:induction false} PopCountAdd(p: nat, x: nat)
    requires IsPow2(p) && x < p
    ensures PopCount(p + x) == 1 + PopCount(x)
  {
    if p > 1 {
      PopCountAdd(p / 2, x / 2);
      assert (p + x) / 2 == p / 2 + x / 2;
      assert (p + x) % 2 == x % 2;
      assert PopCount(x) == x % 2 + PopCount(x / 2);
    }
  }

  lemma {:induction false} StrictBound(s: seq<nat>)
    requires Strict(s) && s != []
    ensures Sum(s) < 2 * s[0]
  {
    hide IsPow2;
    if |s| > 1 {
      Pow2Gap(s[1], s[0]);
      StrictBound(s[1..]);
    } else {
      assert s[1..] == [];
      assert Sum(s[1..]) == 0;
      PositivePow2(s[0]);
    }
  }

  lemma PositivePow2(p: nat)
    requires IsPow2(p)
    ensures p >= 1
  {
  }

  /** What lies above an entry never exceeds it. */
  lemma {:induction false} LazyBound(s: seq<nat>)
    requires Lazy(s) && s != []
    ensures Sum(s[1..]) <= s[0]
    ensures Strict(s) ==> Sum(s[1..]) < s[0]
  {
    hide IsPow2;
    PositivePow2(s[0]);
    if |s| > 1 {
      var last := |s| - 1;
      assert s == s[..last] + [s[last]];
      if Strict(s) {
        StrictBound(s);
      } else if last > 1 {
        var t := s[1..];
        assert Lazy(t) by { assert t[..last - 1] == s[..last][1..]; }
        LazyBound(t);
        Pow2Gap(s[1], s[0]);
      } else {
        assert s[1..] == [s[1]];
        assert Sum([s[1]]) == s[1];
      }
    } else {
      assert s[1..] == [];
    }
  }

  /** The population count of the chunk count is the number of subtrees when all are merged. */
  lemma {:induction false} StrictPopCount(s: seq<nat>)
    requires Strict(s)
    ensures PopCount(Sum(s)) == |s|
  {
    if s != [] {
      StrictPopCount(s[1..]);
      StrictIsLazy(s);
      LazyBound(s);
      PopCountAdd(s[0], Sum(s[1..]));
    }
  }

  /** The sizes after merging the last two subtrees. */
  function MergeLast(s: seq<nat>): (t: seq<nat>)
    requires |s| >= 2
    ensures |t| == |s| - 1
  {
    s[..|s| - 2] + [s[|s| - 2] + s[|s| - 1]]
  }

  lemma {:induction false} MergeLastLazy(s: seq<nat>)
    requires Lazy(s) && |s| >= 2 && s[|s| - 2] == s[|s| - 1]
    ensures Lazy(MergeLast(s)) && Sum(MergeLast(s)) == Sum(s)
  {
    hide IsPow2, Sum;
    var n := |s|;
    var k := s[n - 1];
    var t := MergeLast(s);
    DoublePow2(k);
    assert t[..n - 2] == s[..n - 1][..n - 2];
    forall i | 0 <= i < n - 2
      ensures t[i] >= t[n - 2]
    {
      assert s[..n - 1][i] == s[i] && s[..n - 1][n - 2] == k;
      Pow2Gap(k, s[i]);
    }
    MergeLastSum(s);
  }

  lemma {:induction false} MergeLastSum(s: seq<nat>)
    requires |s| >= 2
    ensures Sum(MergeLast(s)) == Sum(s)
  {
    hide Sum;
    var n := |s|;
    var front, a, b := s[..n - 2], s[n - 2], s[n - 1];
    assert s == front + ([a] + [b]);
    SumConcat(front, [a] + [b]);
    SumConcat([a], [b]);
    SumConcat(front, [a + b]);
    SumOne(a);
    SumOne(b);
    SumOne(a + b);
  }

  lemma SumOne(x: nat)
    ensures Sum([x]) == x
  {
  }

  /** A lazy stack is never shorter than the population count, and equal to it only when merged. */
  lemma {:induction false} LazyPopCount(s: seq<nat>)
    requires Lazy(s)
    ensures PopCount(Sum(s)) <= |s|
    ensures PopCount(Sum(s)) == |s| <==> Strict(s)
    ensures !Strict(s) ==> |s| >= 2 && s[|s| - 2] == s[|s| - 1]
    decreases |s|
  {
    if Strict(s) {
      StrictPopCount(s);
    } else {
      LazyNotStrict(s);
      MergeLastLazy(s);
      LazyPopCount(MergeLast(s));
    }
  }

  lemma {:induction false} LazyNotStrict(s: seq<nat>)
    requires Lazy(s) && !Strict(s)
    ensures |s| >= 2 && s[|s| - 2] == s[|s| - 1]
  {
    hide IsPow2;
    if |s| < 2 || s[|s| - 2] != s[|s| - 1] {
      var last := |s| - 1;
      forall i | 0 <= i < |s| ensures IsPow2(s[i]) {
        if i < last { assert s[..last][i] == s[i]; }
      }
      forall i, j | 0 <= i < j < |s| ensures s[i] > s[j] {
        assert s[..last][i] == s[i];
        if j < last {
          assert s[..last][j] == s[j];
        } else if i < last - 1 {
          assert s[..last][last - 1] == s[last - 1];
        }
      }
    }
  }

  /** Every entry but the last is a multiple of twice the last, so the sum is an odd multiple of it. */
  lemma {:induction false} StrictModLast(s: seq<nat>)
    requires Strict(s) && s != []
    ensures s[|s| - 1] >= 1 && Sum(s) % (2 * s[|s| - 1]) == s[|s| - 1]
  {
    hide IsPow2;
    var k := s[|s| - 1];
    PositivePow2(k);
    if |s| == 1 {
      assert s[1..] == [];
      assert Sum(s) == k;
      ModUnique(k, 2 * k, 0, k);
    } else {
      StrictModLast(s[1..]);
      DoublePow2(k);
      if 2 * k < s[0] {
        Pow2Gap(2 * k, s[0]);
      } else {
        Pow2Gap(k, s[0]);
        ModOfMultiple(2 * k, 1);
      }
      ModAdd(s[0], Sum(s[1..]), 2 * k);
    }
  }

  lemma DoublePow2(k: nat)
    requires IsPow2(k)
    ensures IsPow2(2 * k)
  {
    assert (2 * k) / 2 == k;
  }

  lemma ModAdd(a: nat, b: nat, m: nat)
    requires m > 0 && a % m == 0
    ensures (a + b) % m == b % m
  {
    assert a == m * (a / m) && b == m * (b / m) + b % m;
    assert m * (a / m + b / m) == m * (a / m) + m * (b / m);
    ModUnique(a + b, m, a / m + b / m, b % m);
  }

  lemma ModTransitive(a: nat, k: nat, d: nat)
    requires k > 0 && d > 0 && a % k == 0 && k % d == 0
    ensures a % d == 0
  {
    var x, y := a / k, k / d;
    assert a == k * x && k == d * y;
    assert a == d * (y * x);
    ModOfMultiple(d, y * x);
  }

  /** A subtree that divides the chunks so far may be pushed on a fully merged stack. */
  lemma {:induction false} PushLazy(s: seq<nat>, k: nat)
    requires Strict(s) && IsPow2(k) && k >= 1 && Sum(s) % k == 0
    ensures Lazy(s + [k]) && Sum(s + [k]) == Sum(s) + k
  {
    hide IsPow2;
    SumConcat(s, [k]);
    SumOne(k);
    if s != [] {
      var last := s[|s| - 1];
      StrictModLast(s);
      if last < k {
        Pow2Gap(last, k);
        DoublePow2(last);
        if 2 * last < k {
          Pow2Gap(2 * last, k);
          ModTransitive(Sum(s), k, 2 * last);
        }
      }
    }
    assert (s + [k])[..|s|] == s;
  }

  lemma {:induction false} PopCountBound(x: nat, k: nat)
    requires x < Pow2(k)
    ensures PopCount(x) <= k
  {
    if x > 0 {
      assert k > 0;
      PopCountBound(x / 2, k - 1);
    }
  }

  lemma PopCountPositive(x: nat)
    requires x > 0
    ensures PopCount(x) > 0
  {
  }
}

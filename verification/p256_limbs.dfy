/** Fixed-width unsigned integers as arrays of 32-bit limbs, least significant limb first. */
module P256Limbs {
  import opened Base
  import opened Bits
  import opened ModArith

  /** The weight of limb `k`. */
  function B(k: nat): (w: nat)
    ensures w > 0
  {
    if k == 0 then 1 else 0x1_0000_0000 * B(k - 1)
  }

  /** The number a sequence of limbs stands for. */
  function Val(s: seq<u32>): nat {
    if s == [] then 0 else s[0] + 0x1_0000_0000 * Val(s[1..])
  }

  lemma {:induction false} ValSnoc(s: seq<u32>, w: u32)
    ensures Val(s + [w]) == Val(s) + w * B(|s|)
  {
    if s == [] {
      assert s + [w] == [w];
      assert Val([w][1..]) == 0;
    } else {
      ValSnoc(s[1..], w);
      assert (s + [w])[1..] == s[1..] + [w];
      MulAssoc(0x1_0000_0000, B(|s| - 1), w);
      MulComm(w, B(|s|));
      MulComm(w, B(|s| - 1));
    }
  }

  lemma ValNone()
    ensures Val([]) == 0 && B(0) == 1
  {
  }

  lemma ValTake(s: seq<u32>, i: nat)
    requires i < |s|
    ensures Val(s[..i + 1]) == Val(s[..i]) + s[i] * B(i)
    ensures B(i + 1) == 0x1_0000_0000 * B(i)
  {
    assert s[..i + 1] == s[..i] + [s[i]];
    ValSnoc(s[..i], s[i]);
  }

  lemma {:induction false} ValBound(s: seq<u32>)
    ensures Val(s) < B(|s|)
  {
    if s != [] {
      ValBound(s[1..]);
    }
  }

  lemma {:induction false} ValInjective(s: seq<u32>, t: seq<u32>)
    requires |s| == |t| && Val(s) == Val(t)
    ensures s == t
  {
    if s != [] {
      assert s[0] == t[0] && Val(s[1..]) == Val(t[1..]);
      ValInjective(s[1..], t[1..]);
      assert s == [s[0]] + s[1..] && t == [t[0]] + t[1..];
    }
  }

  lemma B8()
    ensures B(8) == 0x1_0000_0000_0000_0000_0000_0000_0000_0000_0000_0000_0000_0000_0000_0000_0000_0000
  {
    assert B(2) == 0x1_0000_0000_0000_0000;
    assert B(4) == 0x1_0000_0000_0000_0000_0000_0000_0000_0000;
    assert B(6) == 0x1_0000_0000_0000_0000_0000_0000_0000_0000_0000_0000_0000_0000;
  }

  predicate Is256(z: array<u32>) {
    z.Length == 8
  }

  ghost function V(z: array<u32>): nat
    reads z
  {
    Val(z[..])
  }

  /** Adding one column: the digit and the carry out stand for the column sum. */
  lemma AddColumn(x: int, y: int, z: int, c: int, c': int, b: int)
    requires z + 0x1_0000_0000 * c' == x + y + c
    ensures z * b + c' * (0x1_0000_0000 * b) == x * b + y * b + c * b
  {
    MulAssoc(c', 0x1_0000_0000, b);
    MulComm(c', 0x1_0000_0000);
    MulSplit(z, 0x1_0000_0000 * c', b);
    MulSplit(x + y, c, b);
    MulSplit(x, y, b);
  }

  method U256Set32(z: array<u32>, x: u32)
    requires Is256(z)
    modifies z
    ensures V(z) == x
  {
    z[0] := x;
    for i := 1 to 8
      invariant z[0] == x && forall j :: 1 <= j < i ==> z[j] == 0
    {
      z[i] := 0;
    }
    var s := z[..];
    assert s[1..] == [0, 0, 0, 0, 0, 0, 0];
    ValZeros(s[1..]);
  }

  lemma {:induction false} ValZeros(s: seq<u32>)
    requires forall i :: 0 <= i < |s| ==> s[i] == 0
    ensures Val(s) == 0
  {
    if s != [] {
      ValZeros(s[1..]);
    }
  }

  lemma {:induction false} ValZeroIff(s: seq<u32>)
    ensures Val(s) == 0 <==> forall i :: 0 <= i < |s| ==> s[i] == 0
  {
    if s != [] {
      ValZeroIff(s[1..]);
      assert forall i :: 1 <= i < |s| ==> s[i] == s[1..][i - 1];
      assert (forall i :: 0 <= i < |s| ==> s[i] == 0) ==> forall i :: 0 <= i < |s| - 1 ==> s[1..][i] == s[i + 1];
    }
  }

  /** Sum modulo 2^256 and the carry; the result may be written over either operand. */
  method U256Add(z: array<u32>, x: array<u32>, y: array<u32>) returns (carry: u32)
    requires Is256(z) && Is256(x) && Is256(y)
    modifies z
    ensures carry <= 1
    ensures V(z) + carry * B(8) == old(V(x)) + old(V(y))
  {
    hide Val, B;
    ghost var xs, ys := x[..], y[..];
    carry := 0;
    ValNone();
    for i := 0 to 8
      invariant carry <= 1
      invariant forall j :: i <= j < 8 ==> x[j] == xs[j] && y[j] == ys[j]
      invariant Val(z[..i]) + carry * B(i) == Val(xs[..i]) + Val(ys[..i])
    {
      var sum := carry + x[i] + y[i];
      ghost var c := carry;
      ghost var zs := z[..i];
      z[i] := sum % 0x1_0000_0000;
      carry := sum / 0x1_0000_0000;
      assert z[..i] == zs;
      ValTake(xs, i);
      ValTake(ys, i);
      ValTake(z[..], i);
      assert z[..][..i] == zs && z[..][..i + 1] == z[..i + 1];
      AddColumn(xs[i], ys[i], z[i], c, carry, B(i));
    }
    assert z[..8] == z[..] && xs[..8] == xs && ys[..8] == ys;
  }

  /** Difference modulo 2^256 and the borrow. */
  method U256Sub(z: array<u32>, x: array<u32>, y: array<u32>) returns (borrow: u32)
    requires Is256(z) && Is256(x) && Is256(y)
    modifies z
    ensures borrow <= 1
    ensures V(z) == borrow * B(8) + old(V(x)) - old(V(y))
  {
    hide Val, B, WrappedDiff, LowWord, NegatedHighWord;
    ghost var xs, ys := x[..], y[..];
    borrow := 0;
    ValNone();
    for i := 0 to 8
      invariant borrow <= 1
      invariant forall j :: i <= j < 8 ==> x[j] == xs[j] && y[j] == ys[j]
      invariant Val(z[..i]) + Val(ys[..i]) == Val(xs[..i]) + borrow * B(i)
    {
      var diff := WrappedDiff(x[i], y[i], borrow);
      ghost var c := borrow;
      ghost var zs := z[..i];
      BorrowStep(x[i], y[i], borrow);
      z[i] := LowWord(diff);
      borrow := NegatedHighWord(diff);
      assert z[..i] == zs;
      ValTake(xs, i);
      ValTake(ys, i);
      ValTake(z[..], i);
      assert z[..][..i] == zs && z[..][..i + 1] == z[..i + 1];
      SubColumn(xs[i], ys[i], z[i], c, borrow, B(i));
    }
    assert z[..8] == z[..] && xs[..8] == xs && ys[..8] == ys;
  }

  /** 64-bit subtraction, wrapping around. */
  function WrappedDiff(x: u32, y: u32, c: u32): u64 {
    (x - y - c) % 0x1_0000_0000_0000_0000
  }

  function LowWord(d: u64): u32 {
    d % 0x1_0000_0000
  }

  function NegatedHighWord(d: u64): u32 {
    (-(d / 0x1_0000_0000)) % 0x1_0000_0000
  }

  /** The wrapped 64-bit difference splits into a digit and a borrow of 0 or 1. */
  lemma BorrowStep(x: u32, y: u32, c: u32)
    requires c <= 1
    ensures var diff := WrappedDiff(x, y, c);
            NegatedHighWord(diff) <= 1 && LowWord(diff) + y + c == x + 0x1_0000_0000 * NegatedHighWord(diff)
  {
    var d := x - y - c;
    var diff := WrappedDiff(x, y, c);
    if d < 0 {
      assert diff == d + 0x1_0000_0000_0000_0000;
      assert diff / 0x1_0000_0000 == 0xFFFF_FFFF;
    } else {
      assert diff == d;
    }
  }

  lemma SubColumn(x: int, y: int, z: int, c: int, c': int, b: int)
    requires z + y + c == x + 0x1_0000_0000 * c'
    ensures z * b + y * b + c * b == x * b + c' * (0x1_0000_0000 * b)
  {
    AddColumn(z, y, x, c, c', b);
  }

  /** Conditional copy. */
  method U256Cmov(z: array<u32>, x: array<u32>, c: u32)
    requires Is256(z) && Is256(x) && c <= 1
    modifies z
    ensures z[..] == if c == 1 then old(x[..]) else old(z[..])
  {
    for i := 0 to 8
      invariant forall j :: 0 <= j < i ==> z[j] == if c == 1 then old(x[j]) else old(z[j])
      invariant forall j :: i <= j < 8 ==> z[j] == old(z[j]) && x[j] == old(x[j])
    {
      z[i] := if c == 1 then x[i] else z[i];
    }
  }

  /** Zero if and only if the numbers are equal. */
  method U256Diff(x: array<u32>, y: array<u32>) returns (diff: nat)
    requires Is256(x) && Is256(y)
    ensures diff == 0 <==> V(x) == V(y)
  {
    diff := 0;
    for i := 0 to 8
      invariant diff == 0 <==> x[..i] == y[..i]
    {
      OrZero(diff, Xor(x[i], y[i]));
      XorZero(x[i], y[i]);
      diff := Or(diff, Xor(x[i], y[i]));
      assert x[..i + 1] == x[..i] + [x[i]] && y[..i + 1] == y[..i] + [y[i]];
    }
    assert x[..8] == x[..] && y[..8] == y[..];
    if V(x) == V(y) {
      ValInjective(x[..], y[..]);
    }
  }

  method U256Diff0(x: array<u32>) returns (diff: nat)
    requires Is256(x)
    ensures diff == 0 <==> V(x) == 0
  {
    diff := 0;
    for i := 0 to 8
      invariant diff == 0 <==> forall j :: 0 <= j < i ==> x[j] == 0
    {
      OrZero(diff, x[i]);
      diff := Or(diff, x[i]);
    }
    ValZeroIff(x[..]);
    assert forall j :: 0 <= j < 8 ==> x[j] == x[..][j];
  }

  /** 32 by 32 bit multiplication with two additions, through 16-bit halves. */
  method MulAdd64(x: u32, y: u32, z: u32, t: u32) returns (acc: u64)
    ensures acc == x * y + z + t
  {
    var xl, yl, xh, yh := x % 0x1_0000, y % 0x1_0000, x / 0x1_0000, y / 0x1_0000;
    MulMono(xl, 0xFFFF, yl, 0xFFFF);
    MulMono(xh, 0xFFFF, yl, 0xFFFF);
    MulMono(xl, 0xFFFF, yh, 0xFFFF);
    MulMono(xh, 0xFFFF, yh, 0xFFFF);
    MulMono(x, 0xFFFF_FFFF, y, 0xFFFF_FFFF);
    SplitProduct(xl, xh, yl, yh);
    acc := SumHalves(xl * yl, xh * yl, xl * yh, xh * yh, z, t, x * y);
  }

  /** Assemble the four half products, with the source's 32-bit truncations, and add `z` and `t`. */
  method SumHalves(lo: u32, m1: u32, m2: u32, hi: u32, z: u32, t: u32, ghost product: int) returns (acc: u64)
    requires product == lo + 0x1_0000 * (m1 as int) + 0x1_0000 * (m2 as int) + 0x1_0000_0000 * (hi as int)
    requires product <= 0xFFFF_FFFE_0000_0001
    ensures acc == product + z + t
  {
    hide Wrap32, Wrap64, High16;
    SplitShift(m1);
    SplitShift(m2);
    var h1, h2 := High16(m1), High16(m2);
    Wrap32Small(hi + h1 + h2);
    var top: int := Wrap32(hi + h1 + h2);
    Wrap64Small(lo + top * 0x1_0000_0000);
    acc := Wrap64(lo + top * 0x1_0000_0000);
    Wrap64Small(acc + Wrap32(m1 * 0x1_0000));
    acc := Wrap64(acc + Wrap32(m1 * 0x1_0000));
    Wrap64Small(acc + Wrap32(m2 * 0x1_0000));
    acc := Wrap64(acc + Wrap32(m2 * 0x1_0000));
    Wrap64Small(acc + z);
    acc := Wrap64(acc + z);
    Wrap64Small(acc + t);
    acc := Wrap64(acc + t);
  }

  function Wrap32(x: nat): u32 {
    x % 0x1_0000_0000
  }

  function Wrap64(x: nat): u64 {
    x % 0x1_0000_0000_0000_0000
  }

  function High16(m: u32): u32 {
    m / 0x1_0000
  }

  lemma Wrap32Small(x: nat)
    ensures x < 0x1_0000_0000 ==> Wrap32(x) == x
  {
  }

  lemma Wrap64Small(x: nat)
    ensures x < 0x1_0000_0000_0000_0000 ==> Wrap64(x) == x
  {
  }

  lemma SplitShift(m: u32)
    ensures Wrap32(m * 0x1_0000) + High16(m) * 0x1_0000_0000 == m * 0x1_0000
    ensures High16(m) < 0x1_0000
  {
  }

  lemma MulMono(a: int, a': int, b: int, b': int)
    requires 0 <= a <= a' && 0 <= b <= b'
    ensures 0 <= a * b <= a' * b'
  {
    MulNonneg(a, b);
    MulNonneg(a' - a, b);
    MulNonneg(a', b' - b);
    Distribute(b, a', a);
    Distribute(a', b', b);
    MulComm(b, a);
    MulComm(b, a');
    MulComm(a' - a, b);
  }

  lemma MulNonneg(a: int, b: int)
    requires a >= 0 && b >= 0
    ensures a * b >= 0
  {
  }

  lemma SplitProduct(xl: int, xh: int, yl: int, yh: int)
    ensures (xl + 0x1_0000 * xh) * (yl + 0x1_0000 * yh) ==
            xl * yl + 0x1_0000 * (xh * yl) + 0x1_0000 * (xl * yh) + 0x1_0000_0000 * (xh * yh)
  {
  }

  /** Multiply 256 bits by one limb and add to a 288-bit accumulator. */
  method U288MulAdd(z: array<u32>, x: u32, y: array<u32>) returns (carry: u32)
    requires z.Length == 9 && Is256(y) && z != y
    modifies z
    ensures carry <= 1
    ensures V(z) + carry * B(9) == old(V(z)) + x * V(y)
  {
    hide Val, B;
    ghost var zs, ys := z[..], y[..];
    carry := 0;
    ValNone();
    for i := 0 to 8
      invariant forall j :: i <= j < 9 ==> z[j] == zs[j]
      invariant Val(z[..i]) + carry * B(i) == Val(zs[..i]) + x * Val(ys[..i])
    {
      ghost var c := carry;
      ghost var done := z[..i];
      var prod := MulAdd64(x, y[i], z[i], carry);
      z[i] := prod % 0x1_0000_0000;
      carry := prod / 0x1_0000_0000;
      ValTake(zs, i);
      ValTake(ys, i);
      ValTake(z[..], i);
      assert z[..][..i] == done && z[..][..i + 1] == z[..i + 1];
      MulColumn(x, ys[i], zs[i], z[i], c, carry, B(i), Val(ys[..i]));
    }
    var sum := z[8] + carry;
    ghost var c := carry;
    ghost var done := z[..8];
    z[8] := sum % 0x1_0000_0000;
    carry := sum / 0x1_0000_0000;
    ValTake(zs, 8);
    ValTake(z[..], 8);
    assert z[..][..8] == done && z[..][..9] == z[..] && zs[..9] == zs && ys[..8] == ys;
    AddColumn(zs[8], 0, z[8], c, carry, B(8));
  }

  lemma MulColumn(x: int, y: int, w: int, z: int, c: int, c': int, b: int, low: int)
    requires z + 0x1_0000_0000 * c' == x * y + w + c
    ensures z * b + c' * (0x1_0000_0000 * b) + x * low == w * b + c * b + x * (low + y * b)
  {
    AddColumn(x * y, w, z, c, c', b);
    MulAssoc(x, y, b);
    MulSplit(low, y * b, x);
  }

  /** Drop the lowest limb and shift in a new top limb. */
  method U288RShift32(z: array<u32>, c: u32)
    requires z.Length == 9
    modifies z
    ensures old(V(z)) + c * B(9) == old(z[0]) + 0x1_0000_0000 * V(z)
  {
    ghost var zs := z[..];
    for i := 0 to 8
      invariant forall j :: 0 <= j < i ==> z[j] == zs[j + 1]
      invariant forall j :: i <= j < 9 ==> z[j] == zs[j]
    {
      z[i] := z[i + 1];
    }
    z[8] := c;
    assert z[..] == zs[1..] + [c];
    ValSnoc(zs[1..], c);
    MulAssoc(0x1_0000_0000, B(8), c);
    MulComm(c, B(9));
    MulComm(c, B(8));
  }

  lemma {:induction false} OrZero(x: nat, y: nat)
    ensures Or(x, y) == 0 <==> x == 0 && y == 0
  {
    if x > 0 || y > 0 {
      OrZero(x / 2, y / 2);
    }
  }

  function Or(x: nat, y: nat): nat
    decreases x + y
  {
    if x == 0 && y == 0 then 0 else (if x % 2 == 1 || y % 2 == 1 then 1 else 0) + 2 * Or(x / 2, y / 2)
  }

  lemma {:induction false} XorZero(x: nat, y: nat)
    ensures Xor(x, y) == 0 <==> x == y
    decreases x + y
  {
    if x > 0 || y > 0 {
      XorZero(x / 2, y / 2);
    }
  }

  /** The number a big-endian byte string stands for. */
  function ValBE(p: seq<byte>): nat {
    if p == [] then 0 else 0x100 * ValBE(p[..|p| - 1]) + p[|p| - 1]
  }

  lemma {:induction false} ValBE4(p: seq<byte>, a: byte, b: byte, c: byte, d: byte)
    ensures ValBE(p + [a, b, c, d]) ==
            0x1_0000_0000 * ValBE(p) + 0x100_0000 * (a as int) + 0x1_0000 * (b as int) + 0x100 * (c as int) + d
  {
    var p1, p2, p3 := p + [a], p + [a, b], p + [a, b, c];
    var p4 := p + [a, b, c, d];
    assert p4[..|p| + 3] == p3 && p3[..|p| + 2] == p2 && p2[..|p| + 1] == p1 && p1[..|p|] == p;
    hide ValBE;
    ValBEStep(p1);
    ValBEStep(p2);
    ValBEStep(p3);
    ValBEStep(p4);
  }

  lemma ValBEStep(p: seq<byte>)
    requires p != []
    ensures ValBE(p) == 0x100 * ValBE(p[..|p| - 1]) + p[|p| - 1]
  {
  }

  /** Limb `i` of `z` is bytes 4 * (7 - i) and following of `p`. */
  ghost predicate SameNumber(z: seq<u32>, p: seq<byte>) {
    && |z| == 8 && |p| == 32
    && forall i :: 0 <= i < 8 ==> z[i] == WordBE(p, 4 * (7 - i))
  }

  function WordBE(p: seq<byte>, j: nat): u32
    requires j + 4 <= |p|
  {
    0x100_0000 * (p[j] as int) + 0x1_0000 * (p[j + 1] as int) + 0x100 * (p[j + 2] as int) + p[j + 3]
  }

  lemma {:induction false} SameNumberFrom(z: seq<u32>, p: seq<byte>, k: nat)
    requires SameNumber(z, p) && k <= 8
    ensures Val(z[8 - k..]) == ValBE(p[..4 * k])
    decreases k
  {
    if k > 0 {
      SameNumberFrom(z, p, k - 1);
      var j := 4 * (k - 1);
      assert z[8 - k] == WordBE(p, j);
      assert p[..4 * k] == p[..j] + [p[j], p[j + 1], p[j + 2], p[j + 3]];
      ValBE4(p[..j], p[j], p[j + 1], p[j + 2], p[j + 3]);
      assert z[8 - k..][1..] == z[8 - (k - 1)..];
    }
  }

  lemma SameNumberVal(z: seq<u32>, p: seq<byte>)
    requires SameNumber(z, p)
    ensures Val(z) == ValBE(p)
  {
    SameNumberFrom(z, p, 8);
    assert z[0..] == z && p[..32] == p;
  }

  method U256FromBytes(z: array<u32>, p: seq<byte>)
    requires Is256(z) && |p| == 32
    modifies z
    ensures V(z) == ValBE(p)
  {
    hide Val, ValBE;
    for i := 0 to 8
      invariant forall k :: 0 <= k < i ==> z[k] == WordBE(p, 4 * (7 - k))
    {
      var j := 4 * (7 - i);
      z[i] := 0x100_0000 * (p[j + 0] as int) + 0x1_0000 * (p[j + 1] as int) + 0x100 * (p[j + 2] as int) + p[j + 3];
    }
    SameNumberVal(z[..], p);
  }

  method StoreWordBE(buf: array<byte>, j: nat, w: u32)
    requires j + 4 <= buf.Length
    modifies buf
    ensures WordBE(buf[..], j) == w
    ensures forall t :: 0 <= t < buf.Length && !(j <= t < j + 4) ==> buf[t] == old(buf[t])
  {
    SplitWord(w);
    buf[j + 0] := w / 0x100_0000;
    buf[j + 1] := w / 0x1_0000 % 0x100;
    buf[j + 2] := w / 0x100 % 0x100;
    buf[j + 3] := w % 0x100;
  }

  method U256ToBytes(z: array<u32>) returns (p: seq<byte>)
    requires Is256(z)
    ensures |p| == 32 && ValBE(p) == V(z)
  {
    hide Val, ValBE;
    var buf := new byte[32](_ => 0);
    for i := 0 to 8
      invariant forall k :: 0 <= k < i ==> z[k] == WordBE(buf[..], 4 * (7 - k))
    {
      ghost var before := buf[..];
      StoreWordBE(buf, 4 * (7 - i), z[i]);
      assert forall t :: 4 * (7 - i) + 4 <= t < 32 ==> buf[..][t] == before[t];
    }
    p := buf[..];
    SameNumberVal(z[..], p);
  }

  lemma SplitWord(w: u32)
    ensures 0 <= w / 0x100_0000 < 0x100
    ensures w == 0x100_0000 * (w / 0x100_0000) + 0x1_0000 * (w / 0x1_0000 % 0x100) +
                 0x100 * (w / 0x100 % 0x100) + w % 0x100
  {
    assert w / 0x1_0000 == (w / 0x100) / 0x100 && w / 0x100_0000 == (w / 0x1_0000) / 0x100;
  }
}

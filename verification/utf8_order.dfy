/** Canonical ordering, definition D109 in section 3.11 of the Unicode Standard: characters of
    non-zero combining class are sorted stably by class between characters of class zero. The
    class of a code point is a parameter. */
module Utf8Order {
  import opened Sequences

  type Class = int -> nat

  /** The pair that the canonical ordering algorithm exchanges. */
  predicate Reorderable(cc: Class, a: int, b: int) {
    cc(a) > cc(b) > 0
  }

  /** Insertion from the right, past every character of higher class; class zero stays put. */
  function Insert(cc: Class, t: seq<int>, x: int): (r: seq<int>)
    ensures |r| == |t| + 1
  {
    if t != [] && Reorderable(cc, t[|t| - 1], x)
    then Insert(cc, t[..|t| - 1], x) + [t[|t| - 1]]
    else t + [x]
  }

  /** The canonical ordering of a string. */
  function Canon(cc: Class, s: seq<int>): (r: seq<int>)
    ensures |r| == |s|
  {
    if s == [] then [] else Insert(cc, Canon(cc, s[..|s| - 1]), s[|s| - 1])
  }

  ghost predicate Ordered(cc: Class, s: seq<int>) {
    forall k :: 0 <= k < |s| - 1 ==> !Reorderable(cc, s[k], s[k + 1])
  }

  /** The characters of one class, in order. */
  function OfClass(cc: Class, s: seq<int>, c: nat): seq<int> {
    if s == [] then []
    else OfClass(cc, s[..|s| - 1], c) + (if cc(s[|s| - 1]) == c then [s[|s| - 1]] else [])
  }

  // ---- What the canonical ordering is ---------------------------------------------------

  lemma {:induction false} InsertLast(cc: Class, t: seq<int>, x: int)
    ensures var r := Insert(cc, t, x);
            r[|t|] == x || (t != [] && r[|t|] == t[|t| - 1] && Reorderable(cc, t[|t| - 1], x))
  {
  }

  lemma {:induction false} InsertOrdered(cc: Class, t: seq<int>, x: int)
    requires Ordered(cc, t)
    ensures Ordered(cc, Insert(cc, t, x))
  {
    hide Reorderable;
    if t != [] && Reorderable(cc, t[|t| - 1], x) {
      var n := |t| - 1;
      InsertOrdered(cc, t[..n], x);
      InsertLast(cc, t[..n], x);
      var r := Insert(cc, t[..n], x);
      LaterClass(cc, t[n], x);
      assert n > 0 ==> !Reorderable(cc, t[n - 1], t[n - 1 + 1]);
      assert Insert(cc, t, x) == r + [t[n]];
    }
  }

  lemma LaterClass(cc: Class, l: int, x: int)
    requires Reorderable(cc, l, x)
    ensures !Reorderable(cc, x, l)
  {
  }

  lemma {:induction false} InsertElements(cc: Class, t: seq<int>, x: int)
    ensures multiset(Insert(cc, t, x)) == multiset(t) + multiset{x}
  {
    if t != [] && Reorderable(cc, t[|t| - 1], x) {
      InsertElements(cc, t[..|t| - 1], x);
      assert t == t[..|t| - 1] + [t[|t| - 1]];
    }
  }

  lemma {:induction false} OfClassSnoc(cc: Class, s: seq<int>, x: int, c: nat)
    ensures OfClass(cc, s + [x], c) == OfClass(cc, s, c) + (if cc(x) == c then [x] else [])
  {
    assert (s + [x])[..|s|] == s;
  }

  lemma {:induction false} InsertOfClass(cc: Class, t: seq<int>, x: int, c: nat)
    ensures OfClass(cc, Insert(cc, t, x), c) == OfClass(cc, t, c) + (if cc(x) == c then [x] else [])
  {
    hide OfClass;
    if t != [] && Reorderable(cc, t[|t| - 1], x) {
      var n, l := |t| - 1, t[|t| - 1];
      InsertOfClass(cc, t[..n], x, c);
      OfClassSnoc(cc, Insert(cc, t[..n], x), l, c);
      OfClassSnoc(cc, t[..n], l, c);
      assert t == t[..n] + [l];
    } else {
      OfClassSnoc(cc, t, x, c);
    }
  }

  lemma {:induction false} InsertZeros(cc: Class, t: seq<int>, x: int, i: nat)
    requires i < |t|
    ensures cc(Insert(cc, t, x)[i]) == 0 <==> cc(t[i]) == 0
    ensures cc(t[i]) == 0 ==> Insert(cc, t, x)[i] == t[i]
  {
    if Reorderable(cc, t[|t| - 1], x) {
      if i < |t| - 1 {
        InsertZeros(cc, t[..|t| - 1], x, i);
      } else {
        InsertLast(cc, t[..|t| - 1], x);
      }
    }
  }

  /** A permutation without reorderable neighbours that keeps the characters of each class in their
      order. */
  lemma {:induction false} CanonSorted(cc: Class, s: seq<int>, c: nat)
    ensures multiset(Canon(cc, s)) == multiset(s)
    ensures Ordered(cc, Canon(cc, s))
    ensures OfClass(cc, Canon(cc, s), c) == OfClass(cc, s, c)
  {
    hide Insert, Reorderable, OfClass;
    if s == [] {
      assert Canon(cc, s) == s;
    } else {
      var n := |s| - 1;
      CanonSorted(cc, s[..n], c);
      InsertElements(cc, Canon(cc, s[..n]), s[n]);
      InsertOrdered(cc, Canon(cc, s[..n]), s[n]);
      InsertOfClass(cc, Canon(cc, s[..n]), s[n], c);
      OfClassSnoc(cc, s[..n], s[n], c);
      assert s == s[..n] + [s[n]];
    }
  }

  /** Every character of class zero stays where it is, and no other takes such a place. */
  lemma {:induction false} CanonZeros(cc: Class, s: seq<int>, i: nat)
    requires i < |s|
    ensures cc(Canon(cc, s)[i]) == 0 <==> cc(s[i]) == 0
    ensures cc(s[i]) == 0 ==> Canon(cc, s)[i] == s[i]
  {
    var n := |s| - 1;
    var t := Canon(cc, s[..n]);
    if i < n {
      CanonZeros(cc, s[..n], i);
      InsertZeros(cc, t, s[n], i);
    } else {
      InsertLast(cc, t, s[n]);
    }
  }

  lemma {:induction false} InsertBehind(cc: Class, a: seq<int>, z: int, b: seq<int>, x: int)
    requires cc(z) == 0
    ensures Insert(cc, a + [z] + b, x) == a + [z] + Insert(cc, b, x)
  {
    hide Insert;
    InsertUnfold(cc, b, x);
    if b == [] {
      InsertSnoc(cc, a, z, x);
      assert a + [z] + b == a + [z];
    } else {
      var n := |b| - 1;
      InsertBehind(cc, a, z, b[..n], x);
      InsertSnoc(cc, a + [z] + b[..n], b[n], x);
      assert a + [z] + b == (a + [z] + b[..n]) + [b[n]];
    }
  }

  /** Nothing crosses a character of class zero: the strings before and behind it are ordered on
      their own. */
  lemma {:induction false} CanonSplit(cc: Class, a: seq<int>, z: int, b: seq<int>)
    requires cc(z) == 0
    ensures Canon(cc, a + [z] + b) == Canon(cc, a) + [z] + Canon(cc, b)
  {
    hide Insert, Canon;
    if b == [] {
      CanonSnoc(cc, a, z);
      InsertUnfold(cc, Canon(cc, a), z);
      assert a + [z] + b == a + [z] && Canon(cc, b) == [];
    } else {
      var n := |b| - 1;
      CanonSplit(cc, a, z, b[..n]);
      CanonSnoc(cc, a + [z] + b[..n], b[n]);
      CanonSnoc(cc, b[..n], b[n]);
      InsertBehind(cc, Canon(cc, a), z, Canon(cc, b[..n]), b[n]);
      assert a + [z] + b == (a + [z] + b[..n]) + [b[n]];
      assert b == b[..n] + [b[n]];
    }
  }

  lemma CanonSnoc(cc: Class, s: seq<int>, x: int)
    ensures Canon(cc, s + [x]) == Insert(cc, Canon(cc, s), x)
  {
    assert (s + [x])[..|s|] == s;
  }

  ghost predicate Ascends(cc: Class, s: seq<int>) {
    forall i, j :: 0 <= i < j < |s| ==> cc(s[i]) <= cc(s[j])
  }

  /** The same characters of each class, in the same order. */
  ghost predicate SameClasses(cc: Class, r: seq<int>, s: seq<int>) {
    forall c: nat :: OfClass(cc, r, c) == OfClass(cc, s, c)
  }

  lemma {:induction false} OfNoClass(cc: Class, s: seq<int>, c: nat)
    requires forall i :: 0 <= i < |s| ==> cc(s[i]) < c
    ensures OfClass(cc, s, c) == []
  {
    if s != [] {
      OfNoClass(cc, s[..|s| - 1], c);
    }
  }

  lemma {:induction false} LastAgrees(cc: Class, t: seq<int>, u: seq<int>)
    requires |t| == |u| > 0 && Ascends(cc, t) && Ascends(cc, u)
    requires SameClasses(cc, t, u)
    ensures t[|t| - 1] == u[|u| - 1]
  {
    var n := |t| - 1;
    var c, d := cc(t[n]), cc(u[n]);
    assert OfClass(cc, t, c) == OfClass(cc, u, c) && OfClass(cc, t, d) == OfClass(cc, u, d);
    if c < d {
      OfNoClass(cc, t, d);
    } else if d < c {
      OfNoClass(cc, u, c);
    } else {
      SameLast(OfClass(cc, t[..n], c), t[n], OfClass(cc, u[..n], c), u[n]);
    }
  }

  /** There is one stable sort: two ascending strings with the same characters of each class, in
      the same order, are equal. */
  lemma {:induction false} StableUnique(cc: Class, t: seq<int>, u: seq<int>)
    requires |t| == |u| && Ascends(cc, t) && Ascends(cc, u)
    requires SameClasses(cc, t, u)
    ensures t == u
  {
    hide OfClass;
    if t != [] {
      var n := |t| - 1;
      LastAgrees(cc, t, u);
      assert t == t[..n] + [t[n]] && u == u[..n] + [t[n]];
      forall c: nat
        ensures OfClass(cc, t[..n], c) == OfClass(cc, u[..n], c)
      {
        OfClassSnoc(cc, t[..n], t[n], c);
        OfClassSnoc(cc, u[..n], t[n], c);
        assert OfClass(cc, t, c) == OfClass(cc, u, c);
        if cc(t[n]) == c {
          SameLast(OfClass(cc, t[..n], c), t[n], OfClass(cc, u[..n], c), t[n]);
        } else {
          assert OfClass(cc, t[..n], c) + [] == OfClass(cc, t[..n], c);
          assert OfClass(cc, u[..n], c) + [] == OfClass(cc, u[..n], c);
        }
      }
      StableUnique(cc, t[..n], u[..n]);
    }
  }

  /** Between two characters of class zero, the canonical ordering is the one stable sort by
      class. */
  lemma {:induction false} CanonIsStableSort(cc: Class, s: seq<int>, r: seq<int>)
    requires forall i :: 0 <= i < |s| ==> cc(s[i]) > 0
    requires |r| == |s|
    ensures r == Canon(cc, s) <==> Ascends(cc, r) && SameClasses(cc, r, s)
  {
    hide OfClass, Canon, Ascends;
    CanonAscends(cc, s);
    var o := Canon(cc, s);
    assert SameClasses(cc, o, s) by {
      forall c: nat
        ensures OfClass(cc, o, c) == OfClass(cc, s, c)
      {
        CanonSorted(cc, s, c);
      }
    }
    if Ascends(cc, r) && SameClasses(cc, r, s) {
      assert SameClasses(cc, r, o);
      StableUnique(cc, r, o);
    }
  }

  lemma {:induction false} CanonAscends(cc: Class, s: seq<int>)
    requires forall i :: 0 <= i < |s| ==> cc(s[i]) > 0
    ensures Ascends(cc, Canon(cc, s))
  {
    hide OfClass, Canon;
    var o := Canon(cc, s);
    forall i, j | 0 <= i < j < |o|
      ensures cc(o[i]) <= cc(o[j])
    {
      CanonSorted(cc, s, 0);
      forall k | i <= k <= j
        ensures cc(o[k]) > 0
      {
        CanonZeros(cc, s, k);
      }
      RunAscends(cc, o, i, j);
    }
  }

  // ---- Exchanging -----------------------------------------------------------------------

  /** Two characters that the algorithm exchanges can be inserted in either order. */
  lemma {:induction false} InsertCommutes(cc: Class, t: seq<int>, a: int, b: int)
    requires Reorderable(cc, a, b)
    ensures Insert(cc, Insert(cc, t, a), b) == Insert(cc, Insert(cc, t, b), a)
  {
    hide Insert;
    InsertUnfold(cc, t, a);
    InsertUnfold(cc, t, b);
    if t == [] {
      InsertUnfold(cc, [a], b);
      InsertUnfold(cc, [b], a);
      assert [a] == [] + [a] && [b] == [] + [b];
      assert [a][..0] == [];
    } else {
      var n, l := |t| - 1, t[|t| - 1];
      if Reorderable(cc, l, a) {
        InsertCommutes(cc, t[..n], a, b);
        InsertSnoc(cc, Insert(cc, t[..n], a), l, b);
        InsertSnoc(cc, Insert(cc, t[..n], b), l, a);
      } else {
        InsertSnoc(cc, t, a, b);
        if Reorderable(cc, l, b) {
          InsertSnoc(cc, Insert(cc, t[..n], b), l, a);
        } else {
          InsertSnoc(cc, t, b, a);
        }
      }
    }
  }

  lemma InsertUnfold(cc: Class, t: seq<int>, x: int)
    ensures Insert(cc, t, x) ==
            if t != [] && Reorderable(cc, t[|t| - 1], x)
            then Insert(cc, t[..|t| - 1], x) + [t[|t| - 1]]
            else t + [x]
  {
  }

  lemma InsertSnoc(cc: Class, t: seq<int>, l: int, x: int)
    ensures Insert(cc, t + [l], x) ==
            if Reorderable(cc, l, x) then Insert(cc, t, x) + [l] else t + [l] + [x]
  {
    assert (t + [l])[..|t|] == t;
  }

  /** The string with places `k` and `k + 1` exchanged. */
  function Swapped(s: seq<int>, k: nat): (r: seq<int>)
    requires k + 1 < |s|
    ensures |r| == |s|
  {
    s[k := s[k + 1]][k + 1 := s[k]]
  }

  /** Exchanging a reorderable pair does not change the canonical ordering. */
  lemma {:induction false} SwapKeepsCanon(cc: Class, s: seq<int>, k: nat)
    requires k + 1 < |s| && Reorderable(cc, s[k], s[k + 1])
    ensures Canon(cc, Swapped(s, k)) == Canon(cc, s)
  {
    hide Insert, Reorderable;
    var n, s' := |s| - 1, Swapped(s, k);
    if k + 1 < n {
      SwapKeepsCanon(cc, s[..n], k);
      assert s'[..n] == Swapped(s[..n], k);
    } else {
      var p := s[..k];
      CanonTwo(cc, s, k);
      CanonTwo(cc, s', k);
      assert s'[..k] == p;
      InsertCommutes(cc, Canon(cc, p), s[k], s[k + 1]);
    }
  }

  lemma {:induction false} CanonTwo(cc: Class, s: seq<int>, k: nat)
    requires k + 2 == |s|
    ensures Canon(cc, s) == Insert(cc, Insert(cc, Canon(cc, s[..k]), s[k]), s[k + 1])
  {
    hide Insert;
    assert s[..k + 1][..k] == s[..k];
  }

  /** A string without reorderable neighbours is its own canonical ordering. */
  lemma {:induction false} OrderedIsCanon(cc: Class, s: seq<int>)
    requires Ordered(cc, s)
    ensures Canon(cc, s) == s
  {
    hide Reorderable;
    if s != [] {
      var n := |s| - 1;
      OrderedIsCanon(cc, s[..n]);
      assert n > 0 ==> !Reorderable(cc, s[n - 1], s[n - 1 + 1]);
      assert s == s[..n] + [s[n]];
    }
  }

  /** Between two characters of class zero, classes ascend in an ordered string. */
  lemma {:induction false} RunAscends(cc: Class, s: seq<int>, i: nat, j: nat)
    requires Ordered(cc, s) && i <= j < |s|
    requires forall k :: i <= k <= j ==> cc(s[k]) > 0
    ensures cc(s[i]) <= cc(s[j])
    decreases j
  {
    if i < j {
      RunAscends(cc, s, i, j - 1);
      assert !Reorderable(cc, s[j - 1], s[j - 1 + 1]);
    }
  }

  // ---- The loop -------------------------------------------------------------------------

  function Total(cc: Class, s: seq<int>): nat {
    if s == [] then 0 else Total(cc, s[..|s| - 1]) + cc(s[|s| - 1])
  }

  /** Each class times the number of places behind it: how much the exchanges can still lower. */
  function Slack(cc: Class, s: seq<int>): nat {
    if s == [] then 0 else Slack(cc, s[..|s| - 1]) + Total(cc, s[..|s| - 1])
  }

  lemma {:induction false} SwapSlack(cc: Class, s: seq<int>, k: nat)
    requires k + 1 < |s|
    ensures Total(cc, Swapped(s, k)) == Total(cc, s)
    ensures Slack(cc, Swapped(s, k)) == Slack(cc, s) - cc(s[k]) + cc(s[k + 1])
  {
    var n, s' := |s| - 1, Swapped(s, k);
    if k + 1 < n {
      SwapSlack(cc, s[..n], k);
      assert s'[..n] == Swapped(s[..n], k);
    } else {
      assert s[..n][..k] == s[..k] && s'[..n][..k] == s[..k];
    }
  }

  /** The ordering loop over the first `n` code points: it ends, and leaves their canonical
      ordering. */
  method Reorder(cc: Class, buf: array<int>, n: nat)
    requires n <= buf.Length
    modifies buf
    ensures buf[..n] == Canon(cc, old(buf[..n]))
    ensures forall k :: n <= k < buf.Length ==> buf[k] == old(buf[k])
  {
    hide Canon, Slack;
    var pos := 0;
    while pos < n - 1
      invariant 0 <= pos && (pos == 0 || pos < n)
      invariant Canon(cc, buf[..n]) == Canon(cc, old(buf[..n]))
      invariant forall k :: 0 <= k < pos ==> !Reorderable(cc, buf[k], buf[k + 1])
      invariant forall k :: n <= k < buf.Length ==> buf[k] == old(buf[k])
      decreases Slack(cc, buf[..n]), n - pos
    {
      var a, b := buf[pos], buf[pos + 1];
      if cc(a) > cc(b) && cc(b) > 0 {
        ghost var s := buf[..n];
        SwapKeepsCanon(cc, s, pos);
        SwapSlack(cc, s, pos);
        buf[pos] := b;
        buf[pos + 1] := a;
        assert buf[..n] == Swapped(s, pos);
        if pos > 0 {
          pos := pos - 1;
        } else {
          pos := pos + 1;
        }
      } else {
        pos := pos + 1;
      }
    }
    OrderedIsCanon(cc, buf[..n]);
  }
}

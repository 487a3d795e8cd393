/** Stable insertion sort by descending key, as the ranked lookups and the trie packing use it. */
module Ranking {

  /** Insertion from the right, behind every element whose key is not smaller. */
  function Place<T>(s: seq<T>, x: T, key: T -> real): (r: seq<T>)
    ensures |r| == |s| + 1
  {
    if s == [] || key(s[|s| - 1]) >= key(x) then s + [x]
    else Place(s[..|s| - 1], x, key) + [s[|s| - 1]]
  }

  function Ranked<T>(s: seq<T>, key: T -> real): (r: seq<T>)
    ensures |r| == |s|
  {
    if s == [] then [] else Place(Ranked(s[..|s| - 1], key), s[|s| - 1], key)
  }

  ghost predicate Descending<T>(s: seq<T>, key: T -> real) {
    forall i, j :: 0 <= i < j < |s| ==> key(s[i]) >= key(s[j])
  }

  /** The elements with one key, in order. */
  function WithKey<T>(s: seq<T>, key: T -> real, v: real): seq<T> {
    if s == [] then []
    else WithKey(s[..|s| - 1], key, v) + (if key(s[|s| - 1]) == v then [s[|s| - 1]] else [])
  }

  ghost predicate AtLeast<T>(s: seq<T>, key: T -> real, v: real) {
    forall i :: 0 <= i < |s| ==> key(s[i]) >= v
  }

  lemma {:induction false} PlaceAtLeast<T>(s: seq<T>, x: T, key: T -> real, v: real)
    requires AtLeast(s, key, v) && key(x) >= v
    ensures AtLeast(Place(s, x, key), key, v)
  {
    if s != [] && key(s[|s| - 1]) < key(x) {
      PlaceAtLeast(s[..|s| - 1], x, key, v);
    }
  }

  lemma {:induction false} PlaceDescending<T>(s: seq<T>, x: T, key: T -> real)
    requires Descending(s, key)
    ensures Descending(Place(s, x, key), key)
  {
    if s != [] && key(s[|s| - 1]) < key(x) {
      PlaceDescending(s[..|s| - 1], x, key);
      PlaceAtLeast(s[..|s| - 1], x, key, key(s[|s| - 1]));
    }
  }

  lemma {:induction false} PlaceElements<T>(s: seq<T>, x: T, key: T -> real)
    ensures multiset(Place(s, x, key)) == multiset(s) + multiset{x}
  {
    if s != [] && key(s[|s| - 1]) < key(x) {
      PlaceElements(s[..|s| - 1], x, key);
      assert s == s[..|s| - 1] + [s[|s| - 1]];
    }
  }

  lemma {:induction false} WithKeySnoc<T>(s: seq<T>, x: T, key: T -> real, v: real)
    ensures WithKey(s + [x], key, v) == WithKey(s, key, v) + (if key(x) == v then [x] else [])
  {
    assert (s + [x])[..|s|] == s;
  }

  /** Placing an element adds it behind those of the same key. */
  lemma {:induction false} PlaceWithKey<T>(s: seq<T>, x: T, key: T -> real, v: real)
    ensures WithKey(Place(s, x, key), key, v) ==
            WithKey(s, key, v) + (if key(x) == v then [x] else [])
  {
    hide Place, WithKey;
    PlaceUnfold(s, x, key);
    if s != [] && key(s[|s| - 1]) < key(x) {
      var n := |s| - 1;
      var l := s[n];
      PlaceWithKey(s[..n], x, key, v);
      WithKeySnoc(Place(s[..n], x, key), l, key, v);
      WithKeySnoc(s[..n], l, key, v);
      assert s == s[..n] + [l];
      var w := WithKey(s[..n], key, v);
      assert w + [] + [x] == w + [x] && w + [] == w && w + [l] + [] == w + [l];
    } else {
      WithKeySnoc(s, x, key, v);
    }
  }

  lemma PlaceUnfold<T>(s: seq<T>, x: T, key: T -> real)
    ensures Place(s, x, key) ==
            if s == [] || key(s[|s| - 1]) >= key(x) then s + [x]
            else Place(s[..|s| - 1], x, key) + [s[|s| - 1]]
  {
  }

  /** Ranking permutes into descending order. */
  lemma {:induction false} RankedCorrect<T>(s: seq<T>, key: T -> real)
    ensures multiset(Ranked(s, key)) == multiset(s)
    ensures Descending(Ranked(s, key), key)
  {
    hide Place;
    if s != [] {
      var n := |s| - 1;
      RankedCorrect(s[..n], key);
      PlaceElements(Ranked(s[..n], key), s[n], key);
      PlaceDescending(Ranked(s[..n], key), s[n], key);
      assert s == s[..n] + [s[n]];
    }
  }

  /** Ranking keeps the order of elements with equal keys. */
  lemma {:induction false} RankedStable<T>(s: seq<T>, key: T -> real, v: real)
    ensures WithKey(Ranked(s, key), key, v) == WithKey(s, key, v)
  {
    hide Place, WithKey;
    if s != [] {
      var n := |s| - 1;
      RankedStable(s[..n], key, v);
      PlaceWithKey(Ranked(s[..n], key), s[n], key, v);
      WithKeySnoc(s[..n], s[n], key, v);
      assert s == s[..n] + [s[n]];
    }
  }

  /** Where insertion puts the new element. */
  lemma {:induction false} PlaceAt<T>(s: seq<T>, x: T, key: T -> real, j: nat)
    requires j <= |s| && (j > 0 ==> key(s[j - 1]) >= key(x))
    requires forall k :: j <= k < |s| ==> key(s[k]) < key(x)
    ensures Place(s, x, key) == s[..j] + [x] + s[j..]
  {
    if j < |s| {
      var n := |s| - 1;
      PlaceAt(s[..n], x, key, j);
      var left, right := s[..n][..j], s[..n][j..];
      assert left == s[..j] && s[j..] == right + [s[n]];
      Regroup(left + [x], right, s[n]);
    }
  }

  lemma Regroup<T>(a: seq<T>, b: seq<T>, x: T)
    ensures (a + b) + [x] == a + (b + [x])
  {
  }

  /** The insertion sort of the first `n` elements, in place. */
  method RankInPlace<T(0)>(a: array<T>, n: nat, key: T -> real)
    requires n <= a.Length
    modifies a
    ensures a[..n] == Ranked(old(a[..n]), key)
    ensures forall k :: n <= k < a.Length ==> a[k] == old(a[k])
  {
    ghost var s := a[..n];
    var i := 1;
    while i < n
      invariant 1 <= i
      invariant n == 0 || (i <= n && a[..i] == Ranked(s[..i], key))
      invariant forall k :: i <= k < n ==> a[k] == s[k]
      invariant forall k :: n <= k < a.Length ==> a[k] == old(a[k])
    {
      PlaceInPlace(a, i, key, s);
      i := i + 1;
    }
    assert n > 0 ==> s[..i] == s;
  }

  method PlaceInPlace<T(0)>(a: array<T>, i: nat, key: T -> real, ghost s: seq<T>)
    requires 1 <= i < |s| <= a.Length && a[..i] == Ranked(s[..i], key) && a[i] == s[i]
    modifies a
    ensures a[..i + 1] == Ranked(s[..i + 1], key)
    ensures forall k :: i < k < a.Length ==> a[k] == old(a[k])
  {
    hide *;
    ghost var before := a[..];
    var pivot := a[i];
    var j := i;
    while j > 0 && key(a[j - 1]) < key(pivot)
      invariant 0 <= j <= i
      invariant forall k :: 0 <= k < j ==> a[k] == before[k]
      invariant forall k :: j < k <= i ==> a[k] == before[k - 1]
      invariant forall k :: j <= k < i ==> key(before[k]) < key(pivot)
      invariant forall k :: i < k < a.Length ==> a[k] == before[k]
    {
      a[j] := a[j - 1];
      j := j - 1;
    }
    a[j] := pivot;
    PlaceDone(s, before, a[..], i, j, key);
  }

  lemma {:induction false} PlaceDone<T>(s: seq<T>, before: seq<T>, after: seq<T>, i: nat, j: nat,
                                        key: T -> real)
    requires 1 <= i < |s| <= |before| == |after| && j <= i
    requires before[..i] == Ranked(s[..i], key) && before[i] == s[i]
    requires j > 0 ==> key(before[j - 1]) >= key(before[i])
    requires forall k :: 0 <= k < j ==> after[k] == before[k]
    requires after[j] == before[i]
    requires forall k :: j < k <= i ==> after[k] == before[k - 1]
    requires forall k :: j <= k < i ==> key(before[k]) < key(before[i])
    ensures after[..i + 1] == Ranked(s[..i + 1], key)
  {
    hide Place;
    var sorted := before[..i];
    PlaceAt(sorted, s[i], key, j);
    assert after[..i + 1] == sorted[..j] + [s[i]] + sorted[j..];
    assert s[..i + 1][..i] == s[..i];
  }
}

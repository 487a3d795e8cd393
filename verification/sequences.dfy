/** Occurrences in a sequence, and its last element. */
module Sequences {

  lemma Twice<T>(s: seq<T>, i: nat, j: nat)
    requires i < j < |s| && s[i] == s[j]
    ensures multiset(s)[s[i]] >= 2
  {
    assert s == s[..j] + s[j..];
    assert s[..j][i] in multiset(s[..j]) && s[j..][0] in multiset(s[j..]);
  }

  lemma {:induction false} AtMostOnce<T>(s: seq<T>, x: T)
    requires forall i, j :: 0 <= i < j < |s| ==> s[i] != s[j]
    ensures multiset(s)[x] <= 1
  {
    if s != [] {
      var n := |s| - 1;
      assert s == s[..n] + [s[n]];
      AtMostOnce(s[..n], x);
      assert x == s[n] ==> x !in s[..n];
    }
  }

  /** A permutation of distinct elements has distinct elements. */
  lemma {:induction false} StillDistinct<T>(s: seq<T>, r: seq<T>, i: nat, j: nat)
    requires multiset(s) == multiset(r) && forall k, l :: 0 <= k < l < |s| ==> s[k] != s[l]
    requires i < j < |r|
    ensures r[i] != r[j]
  {
    if r[i] == r[j] {
      Twice(r, i, j);
      AtMostOnce(s, r[i]);
      assert false;
    }
  }

  lemma SameLast<T>(a: seq<T>, x: T, b: seq<T>, y: T)
    requires a + [x] == b + [y]
    ensures a == b && x == y
  {
    assert (a + [x])[..|a|] == a && (b + [y])[..|b|] == b;
    assert (a + [x])[|a|] == x && (b + [y])[|b|] == y;
  }
}

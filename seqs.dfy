/** Array.prototype.filter over sequences, with the facts the callers need:
    membership, order, and the position each kept element lands at. */
module Seqs {

  /** The elements of `s` that satisfy `p`, in their original order. */
  function Filter<T>(p: T -> bool, s: seq<T>): (r: seq<T>)
    ensures |r| <= |s|
    ensures forall x :: x in r ==> x in s && p(x)
  {
    if s == [] then [] else
      var init := Filter(p, s[..|s| - 1]);
      var last := s[|s| - 1];
      assert forall x :: x in init ==> x in s[..|s| - 1];
      if p(last) then init + [last] else init
  }

  /** Filter keeps everything that satisfies `p`. */
  lemma {:induction false} FilterKeeps<T>(p: T -> bool, s: seq<T>, x: T)
    requires x in s && p(x)
    ensures x in Filter(p, s)
  {
    var n := |s| - 1;
    if s[n] != x {
      assert x in s[..n] by {
        var k :| 0 <= k < |s| && s[k] == x;
        assert k < n && s[..n][k] == x;
      }
      FilterKeeps(p, s[..n], x);
    }
  }

  /** Filtering a prefix gives a prefix of the filtered sequence. */
  lemma {:induction false} FilterPrefix<T>(p: T -> bool, s: seq<T>, k: nat)
    requires k <= |s|
    ensures Filter(p, s[..k]) <= Filter(p, s)
    decreases |s| - k
  {
    if k < |s| {
      FilterPrefix(p, s, k + 1);
      assert s[..k + 1][..k] == s[..k];
    } else {
      assert s[..k] == s;
    }
  }

  /** An element that satisfies `p` at position `k` is the `m`-th element of
      the result, where `m` is the number of kept elements before it. */
  lemma FilterAt<T>(p: T -> bool, s: seq<T>, k: nat)
    requires k < |s| && p(s[k])
    ensures |Filter(p, s[..k])| < |Filter(p, s)|
    ensures Filter(p, s)[|Filter(p, s[..k])|] == s[k]
  {
    FilterPrefix(p, s, k + 1);
    assert s[..k + 1][..k] == s[..k];
  }

  /** Each element of the result comes from a position `k` of `s` with exactly
      `j` kept elements before it. */
  lemma {:induction false} FilterOrigin<T>(p: T -> bool, s: seq<T>, j: nat)
    requires j < |Filter(p, s)|
    ensures exists k :: 0 <= k < |s| && s[k] == Filter(p, s)[j] && p(s[k]) && |Filter(p, s[..k])| == j
  {
    var n := |s| - 1;
    var init := Filter(p, s[..n]);
    if j < |init| {
      FilterOrigin(p, s[..n], j);
      var k :| 0 <= k < n && s[..n][k] == init[j] && p(s[..n][k]) && |Filter(p, s[..n][..k])| == j;
      assert s[..n][..k] == s[..k];
      assert s[k] == Filter(p, s)[j];
    } else {
      assert s[n] == Filter(p, s)[j];
    }
  }

  /** When every element satisfies `p`, Filter is the identity. */
  lemma {:induction false} FilterAll<T>(p: T -> bool, s: seq<T>)
    requires forall x :: x in s ==> p(x)
    ensures Filter(p, s) == s
  {
    if s != [] {
      var n := |s| - 1;
      FilterAll(p, s[..n]);
      assert s[..n] + [s[n]] == s;
    }
  }

  /** The result is empty exactly when no element satisfies `p`. */
  lemma FilterEmpty<T>(p: T -> bool, s: seq<T>)
    ensures Filter(p, s) == [] <==> forall x :: x in s ==> !p(x)
  {
    if exists x :: x in s && p(x) {
      var x :| x in s && p(x);
      FilterKeeps(p, s, x);
    }
  }

  /** A prefix one longer is the shorter prefix and one more element. */
  lemma PrefixStep<T>(s: seq<T>, n: nat)
    requires n < |s|
    ensures s[..n + 1] == s[..n] + [s[n]]
  {
  }

  /** The items produced for each element, with its position, one element
      after the other: a `forEach` whose callback pushes onto one array. */
  function FlatMapIndexed<T, U>(f: (T, nat) -> seq<U>, s: seq<T>): seq<U>
  {
    if s == [] then [] else FlatMapIndexed(f, s[..|s| - 1]) + f(s[|s| - 1], |s| - 1)
  }

  /** One more element adds its items at the end. */
  lemma FlatMapStep<T, U>(f: (T, nat) -> seq<U>, s: seq<T>, i: nat)
    requires i < |s|
    ensures FlatMapIndexed(f, s[..i + 1]) == FlatMapIndexed(f, s[..i]) + f(s[i], i)
  {
    assert s[..i + 1][..i] == s[..i];
  }

  /** An item is in the result exactly when some element produced it. */
  lemma FlatMapMember<T, U>(f: (T, nat) -> seq<U>, s: seq<T>, u: U)
    ensures u in FlatMapIndexed(f, s) <==> exists i :: 0 <= i < |s| && u in f(s[i], i)
  {
    if u in FlatMapIndexed(f, s) {
      FlatMapMemberOrigin(f, s, u);
    }
    if exists i :: 0 <= i < |s| && u in f(s[i], i) {
      var i :| 0 <= i < |s| && u in f(s[i], i);
      FlatMapMemberKept(f, s, i, u);
    }
  }

  /** Every item of the result was produced by some element. */
  lemma {:induction false} FlatMapMemberOrigin<T, U>(f: (T, nat) -> seq<U>, s: seq<T>, u: U)
    requires u in FlatMapIndexed(f, s)
    ensures exists i :: 0 <= i < |s| && u in f(s[i], i)
  {
    var n := |s| - 1;
    if u !in f(s[n], n) {
      FlatMapMemberOrigin(f, s[..n], u);
      var i :| 0 <= i < n && u in f(s[..n][i], i);
      assert s[..n][i] == s[i];
    }
  }

  /** Every item an element produces is in the result. */
  lemma {:induction false} FlatMapMemberKept<T, U>(f: (T, nat) -> seq<U>, s: seq<T>, i: nat, u: U)
    requires i < |s| && u in f(s[i], i)
    ensures u in FlatMapIndexed(f, s)
  {
    var n := |s| - 1;
    if i < n {
      assert s[..n][i] == s[i];
      FlatMapMemberKept(f, s[..n], i, u);
    }
  }

  /** The result is empty exactly when every element produces nothing. */
  lemma {:induction false} FlatMapEmpty<T, U>(f: (T, nat) -> seq<U>, s: seq<T>)
    ensures FlatMapIndexed(f, s) == [] <==> forall i :: 0 <= i < |s| ==> f(s[i], i) == []
  {
    if s != [] {
      var n := |s| - 1;
      FlatMapEmpty(f, s[..n]);
      assert forall i :: 0 <= i < n ==> s[..n][i] == s[i];
    }
  }

  /** When every item carries the position of the element that produced it,
      the items come in position order. */
  lemma {:induction false} FlatMapOrdered<T, U>(f: (T, nat) -> seq<U>, key: U -> nat, s: seq<T>)
    requires forall i, u :: 0 <= i < |s| && u in f(s[i], i) ==> key(u) == i
    ensures forall a, b :: 0 <= a < b < |FlatMapIndexed(f, s)| ==>
              key(FlatMapIndexed(f, s)[a]) <= key(FlatMapIndexed(f, s)[b])
  {
    if s != [] {
      var n := |s| - 1;
      var init, last := FlatMapIndexed(f, s[..n]), f(s[n], n);
      assert forall i :: 0 <= i < n ==> s[..n][i] == s[i];
      FlatMapOrdered(f, key, s[..n]);
      forall u | u in init ensures key(u) < n {
        FlatMapMember(f, s[..n], u);
      }
      forall a, b | 0 <= a < b < |init + last|
        ensures key((init + last)[a]) <= key((init + last)[b])
      {
        if b >= |init| {
          assert (init + last)[b] in last;
          if a < |init| { assert (init + last)[a] in init; } else { assert (init + last)[a] in last; }
        }
      }
    }
  }
}

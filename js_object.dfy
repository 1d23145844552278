/** A plain JavaScript object with string keys (`Record<string, V>`), kept as
    its entries in the order they were first assigned. Assigning `o[k] = v`
    replaces the value of an existing key in place and appends a new key at
    the end. This is how an ordinary key behaves; the two kinds of key
    JavaScript treats differently (integer-like keys, which it lists first in
    ascending order, and `__proto__`, whose assignment of a string is
    ignored) are treated like any other key here. */
module JsObject {
  import opened Wrappers

  type Obj<V> = seq<(string, V)>

  /** The keys of `o`, in insertion order (Object.keys). */
  function Keys<V>(o: Obj<V>): (ks: seq<string>)
    ensures |ks| == |o| && forall i :: 0 <= i < |o| ==> ks[i] == o[i].0
  {
    seq(|o|, i requires 0 <= i < |o| => o[i].0)
  }

  predicate HasKey<V>(o: Obj<V>, k: string)
  {
    k in Keys(o)
  }

  lemma HasKeyAppend<V>(o: Obj<V>, p: (string, V), k: string)
    ensures HasKey(o + [p], k) <==> HasKey(o, k) || p.0 == k
  {
    assert Keys(o + [p]) == Keys(o) + [p.0];
  }

  /** An object never holds the same key twice. */
  predicate UniqueKeys<V>(o: Obj<V>)
  {
    forall i, j :: 0 <= i < j < |o| ==> o[i].0 != o[j].0
  }

  /** The position of the first occurrence of `k` in `ks`. */
  function FirstIndex(ks: seq<string>, k: string): (r: Option<nat>)
    ensures r.None? <==> k !in ks
    ensures r.Some? ==> r.value < |ks| && ks[r.value] == k && k !in ks[..r.value]
  {
    if ks == [] then None
    else if ks[0] == k then Some(0)
    else match FirstIndex(ks[1..], k)
      case None => None
      case Some(i) =>
        assert ks[..i + 1] == [ks[0]] + ks[1..][..i];
        Some(i + 1)
  }

  /** Property lookup `o[k]`; None stands for `undefined`. */
  function Get<V>(o: Obj<V>, k: string): (r: Option<V>)
    ensures r.None? <==> !HasKey(o, k)
    ensures r.Some? ==> exists i :: 0 <= i < |o| && o[i] == (k, r.value)
  {
    match FirstIndex(Keys(o), k)
    case None => None
    case Some(i) => Some(o[i].1)
  }

  /** In an object without repeated keys, the lookup of an entry's key gives
      that entry's value. */
  lemma GetUnique<V>(o: Obj<V>, i: nat)
    requires UniqueKeys(o) && i < |o|
    ensures Get(o, o[i].0) == Some(o[i].1)
  {
    assert Keys(o)[i] == o[i].0;
  }

  /** Property assignment `o[k] = v`: an existing key keeps its place and
      takes the new value; a new key goes at the end. */
  function Set<V>(o: Obj<V>, k: string, v: V): (r: Obj<V>)
    ensures Get(r, k) == Some(v)
    ensures forall k' :: k' != k ==> Get(r, k') == Get(o, k')
    ensures !HasKey(o, k) ==> r == o + [(k, v)]
    ensures HasKey(o, k) ==> Keys(r) == Keys(o)
    ensures forall k' :: HasKey(r, k') <==> k' == k || HasKey(o, k')
    ensures UniqueKeys(o) ==> UniqueKeys(r)
  {
    match FirstIndex(Keys(o), k)
    case Some(i) =>
      var r := o[i := (k, v)];
      assert Keys(r) == Keys(o);
      r
    case None =>
      var r := o + [(k, v)];
      assert Keys(r) == Keys(o) + [k];
      FirstIndexAppend(Keys(o), k);
      r
  }

  /** Appending a key that is not yet present does not move any other key. */
  lemma FirstIndexAppend(ks: seq<string>, k: string)
    requires k !in ks
    ensures FirstIndex(ks + [k], k) == Some(|ks|)
    ensures forall k' :: k' != k ==> FirstIndex(ks + [k], k') == FirstIndex(ks, k')
  {
    assert (ks + [k])[..|ks|] == ks;
    forall k' | k' != k ensures FirstIndex(ks + [k], k') == FirstIndex(ks, k') {
      var a, b := FirstIndex(ks + [k], k'), FirstIndex(ks, k');
      if b.Some? {
        assert (ks + [k])[..b.value] == ks[..b.value];
      }
    }
  }

  /** The object built by assigning the pairs of `ps` in order, starting from `{}`. */
  function FromPairs<V>(ps: seq<(string, V)>): (o: Obj<V>)
    ensures UniqueKeys(o)
    ensures forall k :: HasKey(o, k) <==> HasKey(ps, k)
  {
    if ps == [] then []
    else
      var n := |ps| - 1;
      var o := Set(FromPairs(ps[..n]), ps[n].0, ps[n].1);
      assert forall k :: HasKey(ps, k) <==> HasKey(ps[..n], k) || ps[n].0 == k by {
        forall k | HasKey(ps, k) ensures HasKey(ps[..n], k) || ps[n].0 == k {
          var i :| 0 <= i < |ps| && ps[i].0 == k;
          if i < n { assert ps[..n][i].0 == k; }
        }
      }
      o
  }

  /** Assigning one more pair. */
  lemma FromPairsAppend<V>(ps: seq<(string, V)>, k: string, v: V)
    ensures FromPairs(ps + [(k, v)]) == Set(FromPairs(ps), k, v)
  {
    assert (ps + [(k, v)])[..|ps|] == ps;
  }

  /** The value of the last pair of `ps` whose key is `k`. */
  function LastValue<V>(ps: seq<(string, V)>, k: string): Option<V>
  {
    if ps == [] then None
    else if ps[|ps| - 1].0 == k then Some(ps[|ps| - 1].1)
    else LastValue(ps[..|ps| - 1], k)
  }

  /** Last write wins: a key of the built object holds the value of the last
      pair with that key. */
  lemma {:induction false} FromPairsGet<V>(ps: seq<(string, V)>, k: string)
    ensures Get(FromPairs(ps), k) == LastValue(ps, k)
  {
    if ps != [] {
      FromPairsGet(ps[..|ps| - 1], k);
    }
  }

  /** Pairs with other keys appended after `ps` do not change the last value of `k`. */
  lemma {:induction false} LastValueAppendOther<V>(ps: seq<(string, V)>, d: seq<(string, V)>, k: string)
    requires forall q :: 0 <= q < |d| ==> d[q].0 != k
    ensures LastValue(ps + d, k) == LastValue(ps, k)
    decreases |d|
  {
    if d != [] {
      var n := |d| - 1;
      LastValueAppendOther(ps, d[..n], k);
      assert (ps + d)[..|ps| + n] == ps + d[..n];
    } else {
      assert ps + d == ps;
    }
  }

  /** The last pair with key `k` is the one at position `p` when no later pair has key `k`. */
  lemma {:induction false} LastValueAt<V>(ps: seq<(string, V)>, k: string, p: nat)
    requires p < |ps| && ps[p].0 == k
    requires forall q :: p < q < |ps| ==> ps[q].0 != k
    ensures LastValue(ps, k) == Some(ps[p].1)
  {
    var n := |ps| - 1;
    if p < n {
      LastValueAt(ps[..n], k, p);
    }
  }

  /** The last pair with key `k` is one of the pairs of `ps`, and no pair after it has key `k`. */
  lemma {:induction false} LastValueOrigin<V>(ps: seq<(string, V)>, k: string)
    requires LastValue(ps, k).Some?
    ensures exists p :: 0 <= p < |ps| && ps[p] == (k, LastValue(ps, k).value)
                        && forall q :: p < q < |ps| ==> ps[q].0 != k
  {
    var n := |ps| - 1;
    if ps[n].0 != k {
      LastValueOrigin(ps[..n], k);
      var p :| 0 <= p < n && ps[..n][p] == (k, LastValue(ps[..n], k).value)
                && forall q :: p < q < n ==> ps[..n][q].0 != k;
      assert ps[p] == ps[..n][p];
      assert forall q :: p < q < n ==> ps[q] == ps[..n][q];
      assert LastValue(ps, k) == LastValue(ps[..n], k);
      assert forall q :: p < q < |ps| ==> ps[q].0 != k;
    } else {
      assert ps[n] == (k, LastValue(ps, k).value);
    }
  }

  /** Every entry of the built object is one of the pairs. */
  lemma FromPairsEntryOrigin<V>(ps: seq<(string, V)>, i: nat)
    requires i < |FromPairs(ps)|
    ensures exists p :: 0 <= p < |ps| && ps[p] == FromPairs(ps)[i]
  {
    var o := FromPairs(ps);
    GetUnique(o, i);
    FromPairsGet(ps, o[i].0);
    LastValueOrigin(ps, o[i].0);
  }

  /** Assigning pairs whose keys are all different rebuilds exactly those pairs, in order. */
  lemma {:induction false} FromPairsOfUnique<V>(ps: seq<(string, V)>)
    requires UniqueKeys(ps)
    ensures FromPairs(ps) == ps
  {
    if ps != [] {
      var n := |ps| - 1;
      assert UniqueKeys(ps[..n]);
      FromPairsOfUnique(ps[..n]);
      assert !HasKey(ps[..n], ps[n].0);
      assert ps[..n] + [ps[n]] == ps;
    }
  }
}

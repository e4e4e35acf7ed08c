/**
 * Ruby's insertion-ordered `Hash`, as a sequence of (key, value) pairs whose
 * keys are distinct. Iteration order is sequence order.
 */
module OrderedMaps {
  import opened Wrappers

  function Keys<K, V>(m: seq<(K, V)>): (ks: seq<K>)
    ensures |ks| == |m| && forall i :: 0 <= i < |m| ==> ks[i] == m[i].0
  {
    seq(|m|, i requires 0 <= i < |m| => m[i].0)
  }

  /** The Hash invariant: no key is stored twice. */
  predicate UniqueKeys<K(==), V>(m: seq<(K, V)>) {
    forall i, j :: 0 <= i < j < |m| ==> m[i].0 != m[j].0
  }

  predicate HasKey<K(==), V>(m: seq<(K, V)>, k: K) {
    exists i :: 0 <= i < |m| && m[i].0 == k
  }

  /** Position of the first pair with key `k`, or `|m|` when there is none. */
  function IndexOf<K(==), V>(m: seq<(K, V)>, k: K): (i: nat)
    ensures i <= |m|
    ensures i < |m| ==> m[i].0 == k
    ensures forall j :: 0 <= j < i ==> m[j].0 != k
    ensures i < |m| <==> HasKey(m, k)
  {
    if m == [] then 0
    else if m[0].0 == k then 0
    else
      var i := 1 + IndexOf(m[1..], k);
      assert forall j :: 1 <= j < |m| ==> m[j] == m[1..][j - 1];
      i
  }

  lemma SameKeysSameIndex<K, V>(a: seq<(K, V)>, b: seq<(K, V)>, k: K)
    requires Keys(a) == Keys(b)
    ensures IndexOf(a, k) == IndexOf(b, k)
  {
    var i, j := IndexOf(a, k), IndexOf(b, k);
    assert |a| == |Keys(a)| == |b|;
    assert i < |a| ==> Keys(a)[i] == k;
    assert j < |b| ==> Keys(b)[j] == k;
  }

  /** `h[k]`: the value stored under `k`, or `nil`. */
  function Get<K(==), V>(m: seq<(K, V)>, k: K): (r: Option<V>)
    ensures r.Some? <==> HasKey(m, k)
    ensures r.Some? ==> (k, r.value) in m
  {
    var i := IndexOf(m, k);
    if i < |m| then Some(m[i].1) else None
  }

  /** With distinct keys, the stored value is the one paired with `k`. */
  lemma GetPair<K, V>(m: seq<(K, V)>, i: nat)
    requires UniqueKeys(m) && i < |m|
    ensures Get(m, m[i].0) == Some(m[i].1)
  {
    assert IndexOf(m, m[i].0) == i;
  }

  /**
   * `h[k] = v`: a key already present keeps its position and takes the new
   * value; a new key is appended.
   */
  function Put<K(==), V>(m: seq<(K, V)>, k: K, v: V): (r: seq<(K, V)>)
    ensures Keys(r) == if HasKey(m, k) then Keys(m) else Keys(m) + [k]
    ensures UniqueKeys(m) ==> UniqueKeys(r)
    ensures Get(r, k) == Some(v)
    ensures !HasKey(m, k) ==> r == m + [(k, v)]
  {
    var i := IndexOf(m, k);
    if i < |m| then
      var r := m[i := (k, v)];
      assert Keys(r) == Keys(m);
      SameKeysSameIndex(r, m, k);
      r
    else
      var r := m + [(k, v)];
      assert Keys(r) == Keys(m) + [k];
      assert forall j :: 0 <= j < |m| ==> r[j] == m[j];
      assert r[|m|] == (k, v);
      assert IndexOf(r, k) == |m|;
      r
  }

  /** Every entry after `Put` is the new one or an entry at the same position before. */
  lemma PutEntries<K, V>(m: seq<(K, V)>, k: K, v: V)
    ensures var r := Put(m, k, v);
      forall i :: 0 <= i < |r| ==> r[i] == (k, v) || (i < |m| && r[i] == m[i])
  {
  }

  /** Storing under `k` leaves every other key's value alone. */
  lemma PutOther<K, V>(m: seq<(K, V)>, k: K, v: V, k': K)
    requires k' != k
    ensures Get(Put(m, k, v), k') == Get(m, k')
  {
    var r := Put(m, k, v);
    if HasKey(m, k) {
      SameKeysSameIndex(r, m, k');
    } else {
      assert IndexOf(r, k') == if HasKey(m, k') then IndexOf(m, k') else |r| by {
        var i := IndexOf(m, k');
        if i < |m| {
          assert r[i] == m[i];
          assert forall j :: 0 <= j < i ==> r[j] == m[j];
        } else {
          assert forall j :: 0 <= j < |m| ==> r[j] == m[j];
        }
      }
    }
  }

  /**
   * `Hash[pairs]`: the pairs inserted one after another, so a repeated key
   * keeps the position of its first occurrence and the value of its last.
   */
  function FromPairs<K(==), V>(ps: seq<(K, V)>): (m: seq<(K, V)>)
    ensures UniqueKeys(m)
  {
    if ps == [] then []
    else Put(FromPairs(ps[..|ps| - 1]), ps[|ps| - 1].0, ps[|ps| - 1].1)
  }

  /** `ks` without repeats, each key kept at its first occurrence. */
  function Distinct<K(==)>(ks: seq<K>): seq<K> {
    if ks == [] then []
    else
      var d := Distinct(ks[..|ks| - 1]);
      if ks[|ks| - 1] in d then d else d + [ks[|ks| - 1]]
  }

  /** The pair `ps[i]` is the last one with its key. */
  predicate IsLastFor<K(==), V>(ps: seq<(K, V)>, i: int) {
    0 <= i < |ps| && forall j :: i < j < |ps| ==> ps[j].0 != ps[i].0
  }

  /** Every key of the pairs, and no other, ends up in the Hash. */
  lemma {:induction false} FromPairsHasKey<K, V>(ps: seq<(K, V)>, k: K)
    ensures HasKey(FromPairs(ps), k) <==> HasKey(ps, k)
  {
    if ps != [] {
      var n := |ps| - 1;
      var pre := ps[..n];
      FromPairsHasKey(pre, k);
      var m := FromPairs(pre);
      assert FromPairs(ps) == Put(m, ps[n].0, ps[n].1);
      if ps[n].0 == k {
        assert Get(FromPairs(ps), k).Some?;
        assert HasKey(ps, k) by { assert ps[n].0 == k; }
      } else {
        PutOther(m, ps[n].0, ps[n].1, k);
        assert Get(FromPairs(ps), k) == Get(m, k);
        HasKeyPrefix(ps, k);
      }
    }
  }

  lemma HasKeyPrefix<K, V>(ps: seq<(K, V)>, k: K)
    requires ps != [] && ps[|ps| - 1].0 != k
    ensures HasKey(ps, k) <==> HasKey(ps[..|ps| - 1], k)
  {
    var pre := ps[..|ps| - 1];
    if HasKey(ps, k) {
      var i :| 0 <= i < |ps| && ps[i].0 == k;
      assert pre[i].0 == k;
    }
    if HasKey(pre, k) {
      var i :| 0 <= i < |pre| && pre[i].0 == k;
      assert ps[i].0 == k;
    }
  }

  lemma KeysMembership<K, V>(m: seq<(K, V)>, k: K)
    ensures HasKey(m, k) <==> k in Keys(m)
  {
    if k in Keys(m) {
      var j :| 0 <= j < |Keys(m)| && Keys(m)[j] == k;
      assert m[j].0 == k;
    }
    if HasKey(m, k) {
      var j :| 0 <= j < |m| && m[j].0 == k;
      assert Keys(m)[j] == k;
    }
  }

  /** Last write wins: the value stored under a key is that of the last pair with that key. */
  lemma {:induction false} FromPairsLastWins<K, V>(ps: seq<(K, V)>, i: int)
    requires IsLastFor(ps, i)
    ensures Get(FromPairs(ps), ps[i].0) == Some(ps[i].1)
  {
    var n := |ps| - 1;
    FromPairsLast(ps);
    if i < n {
      var pre := ps[..n];
      LastForPrefix(ps, i);
      FromPairsLastWins(pre, i);
      PutOther(FromPairs(pre), ps[n].0, ps[n].1, ps[i].0);
    }
  }

  /** The definition of FromPairs, unfolded once. */
  lemma FromPairsLast<K, V>(ps: seq<(K, V)>)
    requires ps != []
    ensures FromPairs(ps) == Put(FromPairs(ps[..|ps| - 1]), ps[|ps| - 1].0, ps[|ps| - 1].1)
  {
  }

  lemma LastForPrefix<K, V>(ps: seq<(K, V)>, i: int)
    requires IsLastFor(ps, i) && i < |ps| - 1
    ensures IsLastFor(ps[..|ps| - 1], i) && ps[..|ps| - 1][i] == ps[i]
    ensures ps[|ps| - 1].0 != ps[i].0
  {
  }

  /** The keys come out in the order of their first occurrence. */
  lemma {:induction false} FromPairsKeyOrder<K, V>(ps: seq<(K, V)>)
    ensures Keys(FromPairs(ps)) == Distinct(Keys(ps))
  {
    if ps != [] {
      var n := |ps| - 1;
      var pre := ps[..n];
      var k := ps[n].0;
      FromPairsKeyOrder(pre);
      assert Keys(ps)[..n] == Keys(pre);
      KeysMembership(FromPairs(pre), k);
    }
  }

  /** A sequence that already has distinct keys is its own Hash. */
  lemma {:induction false} FromPairsOfUnique<K, V>(ps: seq<(K, V)>)
    requires UniqueKeys(ps)
    ensures FromPairs(ps) == ps
  {
    if ps != [] {
      var n := |ps| - 1;
      var pre := ps[..n];
      assert UniqueKeys(pre);
      FromPairsOfUnique(pre);
      assert !HasKey(pre, ps[n].0) by {
        forall i | 0 <= i < |pre| ensures pre[i].0 != ps[n].0 {
          assert pre[i] == ps[i];
        }
      }
      assert pre + [ps[n]] == ps;
    }
  }

  /** A non-empty sequence is its prefix and its last element. */
  lemma SplitLast<T>(s: seq<T>)
    requires s != []
    ensures s == s[..|s| - 1] + [s[|s| - 1]]
  {
  }
}

/**
 * A JavaScript object used as a dictionary: its own keys in insertion order, each
 * key at most once. Assigning to a present key keeps its position; assigning to a
 * new key appends it. `for (k in obj)` visits the keys in this order.
 */
module JsObject {

  import opened Wrappers
  import opened JsArray

  function Keys<K, V>(m: seq<(K, V)>): (ks: seq<K>)
    ensures |ks| == |m| && forall i :: 0 <= i < |m| ==> ks[i] == m[i].0
  {
    seq(|m|, i requires 0 <= i < |m| => m[i].0)
  }

  ghost predicate DistinctKeys<K, V>(m: seq<(K, V)>)
  {
    forall i, j :: 0 <= i < j < |m| ==> m[i].0 != m[j].0
  }

  /** `obj[k]`: the value stored under the first (the only, when keys are distinct) occurrence of `k`. */
  function Get<K(==), V>(m: seq<(K, V)>, k: K): (r: Option<V>)
    ensures r.None? <==> k !in Keys(m)
    ensures r.Some? ==> exists i :: 0 <= i < |m| && m[i] == (k, r.value) && k !in Keys(m)[..i]
    ensures DistinctKeys(m) ==> forall i :: 0 <= i < |m| && m[i].0 == k ==> r == Some(m[i].1)
  {
    var i := IndexOf(Keys(m), k);
    if i < 0 then None else Some(m[i].1)
  }

  /** `obj[k] = v` */
  function Put<K(==,!new), V>(m: seq<(K, V)>, k: K, v: V): (r: seq<(K, V)>)
    ensures Keys(r) == if k in Keys(m) then Keys(m) else Keys(m) + [k]
    ensures Get(r, k) == Some(v)
    ensures forall k' :: k' != k ==> Get(r, k') == Get(m, k')
    ensures DistinctKeys(m) ==> DistinctKeys(r)
  {
    var i := IndexOf(Keys(m), k);
    if i < 0 then
      Appended(m, k, v);
      m + [(k, v)]
    else
      Replaced(m, i, k, v);
      m[i := (k, v)]
  }

  /** Appending a pair for a key not yet present. */
  lemma Appended<K(!new), V>(m: seq<(K, V)>, k: K, v: V)
    requires k !in Keys(m)
    ensures var r := m + [(k, v)];
      && Keys(r) == Keys(m) + [k]
      && Get(r, k) == Some(v)
      && (forall k' :: k' != k ==> Get(r, k') == Get(m, k'))
      && (DistinctKeys(m) ==> DistinctKeys(r))
  {
    var r := m + [(k, v)];
    assert Keys(r) == Keys(m) + [k];
    forall k' | k' != k
      ensures Get(r, k') == Get(m, k')
    {
      var i := IndexOf(Keys(m), k');
      if i >= 0 {
        FirstIndex(Keys(r), k', i);
      }
    }
    FirstIndex(Keys(r), k, |m|);
  }

  /** Overwriting the pair at `i`, the first (and so the only) one for `k`. */
  lemma Replaced<K(!new), V>(m: seq<(K, V)>, i: nat, k: K, v: V)
    requires i < |m| && IndexOf(Keys(m), k) == i
    ensures var r := m[i := (k, v)];
      && Keys(r) == Keys(m)
      && Get(r, k) == Some(v)
      && (forall k' :: k' != k ==> Get(r, k') == Get(m, k'))
      && (DistinctKeys(m) ==> DistinctKeys(r))
  {
    var r := m[i := (k, v)];
    assert Keys(r) == Keys(m);
  }

  /** The first occurrence of `x` is where `IndexOf` finds it. */
  lemma FirstIndex<T>(s: seq<T>, x: T, i: nat)
    requires i < |s| && s[i] == x && x !in s[..i]
    ensures IndexOf(s, x) == i
  {
    assert forall k :: 0 <= k < i ==> s[..i][k] == s[k];
    var r := IndexOf(s, x);
    assert forall k :: 0 <= k < r ==> s[..r][k] == s[k];
  }

  /** The assignments `obj[k] = v` for each pair of `kvs`, in order. */
  function PutAll<K(==,!new), V>(m: seq<(K, V)>, kvs: seq<(K, V)>): seq<(K, V)>
    decreases |kvs|
  {
    if kvs == [] then m else Put(PutAll(m, kvs[..|kvs| - 1]), kvs[|kvs| - 1].0, kvs[|kvs| - 1].1)
  }

  /** Assignments only add keys, after the existing ones, and keep keys distinct. */
  lemma {:induction false} PutAllKeys<K(!new), V>(m: seq<(K, V)>, kvs: seq<(K, V)>)
    ensures Keys(m) <= Keys(PutAll(m, kvs))
    ensures DistinctKeys(m) ==> DistinctKeys(PutAll(m, kvs))
    ensures forall i :: 0 <= i < |kvs| ==> kvs[i].0 in Keys(PutAll(m, kvs))
    decreases |kvs|
  {
    if kvs != [] {
      var init := kvs[..|kvs| - 1];
      var last := kvs[|kvs| - 1];
      PutAllKeys(m, init);
      var r0 := PutAll(m, init);
      var r := Put(r0, last.0, last.1);
      assert PutAll(m, kvs) == r;
      assert Keys(r0) <= Keys(r);
      assert last.0 in Keys(r) by {
        assert Get(r, last.0).Some?;
      }
      forall i | 0 <= i < |kvs|
        ensures kvs[i].0 in Keys(r)
      {
        if i < |init| {
          assert init[i] == kvs[i];
          assert kvs[i].0 in Keys(r0);
        } else {
          assert i == |kvs| - 1;
        }
      }
    }
  }

  /** A key assigned last, with no later assignment to it, holds the value of that assignment. */
  lemma {:induction false} PutAllValue<K(!new), V>(m: seq<(K, V)>, kvs: seq<(K, V)>, i: nat)
    requires i < |kvs| && forall j :: i < j < |kvs| ==> kvs[j].0 != kvs[i].0
    ensures Get(PutAll(m, kvs), kvs[i].0) == Some(kvs[i].1)
    decreases |kvs|
  {
    var init := kvs[..|kvs| - 1];
    var last := kvs[|kvs| - 1];
    var r0 := PutAll(m, init);
    assert PutAll(m, kvs) == Put(r0, last.0, last.1);
    if i < |init| {
      assert forall j :: i <= j < |init| ==> init[j] == kvs[j];
      PutAllValue(m, init, i);
      assert last.0 != kvs[i].0;
    } else {
      assert i == |kvs| - 1;
    }
  }

  /** Assignments to other keys leave a key's value as it was. */
  lemma {:induction false} PutAllOther<K(!new), V>(m: seq<(K, V)>, kvs: seq<(K, V)>, k: K)
    requires forall j :: 0 <= j < |kvs| ==> kvs[j].0 != k
    ensures Get(PutAll(m, kvs), k) == Get(m, k)
    decreases |kvs|
  {
    if kvs != [] {
      var init := kvs[..|kvs| - 1];
      assert forall j :: 0 <= j < |init| ==> init[j] == kvs[j];
      PutAllOther(m, init, k);
    }
  }
}

/**
 * JavaScript plain objects (with string keys) and `Map`s both iterate their
 * entries in insertion order, hold each key once, overwrite a present key in
 * place and append a new one at the end. Both are modelled here as a
 * sequence of key/value pairs with distinct keys.
 */
module OrderedMap {
  import opened Types

  predicate DistinctKeys<K(==), V>(m: seq<(K, V)>)
  {
    forall i, j :: 0 <= i < j < |m| ==> m[i].0 != m[j].0
  }

  /** A JS object or Map: entries in insertion order, no key twice. */
  type Ordered<K(==), V> = m: seq<(K, V)> | DistinctKeys(m) witness []

  /** `Object.keys(m)` / `[...m.keys()]`, in insertion order. */
  function Keys<K, V>(m: seq<(K, V)>): seq<K>
  {
    seq(|m|, i requires 0 <= i < |m| => m[i].0)
  }

  /** `m.get(k)` / `m[k]`: the value stored under `k`, if any. */
  function Get<K(==), V>(m: seq<(K, V)>, k: K): (r: Option<V>)
    ensures r.None? <==> k !in Keys(m)
    ensures r.Some? ==> (k, r.value) in m
  {
    if m == [] then None
    else if m[0].0 == k then
      assert Keys(m)[0] == k && m[0] in m;
      Some(m[0].1)
    else
      var r := Get(m[1..], k);
      assert k in Keys(m) <==> k in Keys(m[1..]) by {
        assert Keys(m) == [m[0].0] + Keys(m[1..]);
      }
      r
  }

  /** In a map with distinct keys, Get finds the entry at any index. */
  lemma {:induction false} GetAt<K, V>(m: Ordered<K, V>, i: int)
    requires 0 <= i < |m|
    ensures Get(m, m[i].0) == Some(m[i].1)
  {
    if i > 0 {
      GetAt(m[1..], i - 1);
    }
  }

  /** The position of key `k`. */
  function IndexOf<K(==), V>(m: seq<(K, V)>, k: K): (i: nat)
    requires k in Keys(m)
    ensures i < |m| && m[i].0 == k
    ensures forall j :: 0 <= j < i ==> m[j].0 != k
  {
    if m[0].0 == k then 0
    else
      assert Keys(m) == [m[0].0] + Keys(m[1..]);
      1 + IndexOf(m[1..], k)
  }

  /** In a map with distinct keys, the key at index `i` is found at `i`. */
  lemma IndexOfAt<K, V>(m: Ordered<K, V>, i: int)
    requires 0 <= i < |m|
    ensures m[i].0 in Keys(m) && IndexOf(m, m[i].0) == i
  {
    assert Keys(m)[i] == m[i].0;
  }

  /** `m.set(k, v)` / `m[k] = v`: overwrite in place, or append. */
  function Put<K(==), V>(m: Ordered<K, V>, k: K, v: V): (r: Ordered<K, V>)
    ensures k !in Keys(m) ==> r == m + [(k, v)]
    ensures k in Keys(m) ==> r == m[IndexOf(m, k) := (k, v)]
  {
    if m == [] then
      [(k, v)]
    else if m[0].0 == k then
      assert Keys(m)[0] == k;
      assert m[0 := (k, v)] == [(k, v)] + m[1..];
      [(k, v)] + m[1..]
    else
      var rest := Put(m[1..], k, v);
      assert Keys(m) == [m[0].0] + Keys(m[1..]);
      assert k in Keys(m) ==> [m[0]] + m[1..][IndexOf(m[1..], k) := (k, v)] == m[IndexOf(m, k) := (k, v)];
      [m[0]] + rest
  }

  /** Put stores `v` under `k` and leaves every other key's value alone. */
  lemma {:induction false} PutGet<K, V>(m: Ordered<K, V>, k: K, v: V, k': K)
    ensures Get(Put(m, k, v), k') == if k' == k then Some(v) else Get(m, k')
  {
    if m != [] {
      if m[0].0 == k {
        var r := Put(m, k, v);
        assert r[1..] == m[1..];
        if k' == k {
          assert r[0] == (k, v);
        }
      } else {
        PutGet(m[1..], k, v, k');
        assert Put(m, k, v)[1..] == Put(m[1..], k, v);
      }
    }
  }

  /** Put keeps the key order, appending `k` when it is new. */
  lemma PutKeys<K, V>(m: Ordered<K, V>, k: K, v: V)
    ensures Keys(Put(m, k, v)) == if k in Keys(m) then Keys(m) else Keys(m) + [k]
  {
  }

  /** `delete m[k]` / `m.delete(k)`: drop the entry, keep the others' order. */
  function Delete<K(==), V>(m: Ordered<K, V>, k: K): Ordered<K, V>
  {
    if k !in Keys(m) then
      m
    else
      var i := IndexOf(m, k);
      var r := m[..i] + m[i + 1..];
      assert forall a :: 0 <= a < |r| ==> r[a] == m[if a < i then a else a + 1];
      r
  }

  /** The entries whose key is not `k`, in their order. */
  function RemoveKey<K(==), V>(m: seq<(K, V)>, k: K): seq<(K, V)>
  {
    if m == [] then []
    else if m[0].0 == k then RemoveKey(m[1..], k)
    else [m[0]] + RemoveKey(m[1..], k)
  }

  lemma {:induction false} RemoveAbsentKey<K, V>(m: seq<(K, V)>, k: K)
    requires k !in Keys(m)
    ensures RemoveKey(m, k) == m
    decreases |m|
  {
    if m != [] {
      assert Keys(m) == [m[0].0] + Keys(m[1..]);
      RemoveAbsentKey(m[1..], k);
    }
  }

  /** Delete drops the entry for `k` and keeps every other entry, in order. */
  lemma {:induction false} DeleteIsRemoveKey<K, V>(m: Ordered<K, V>, k: K)
    ensures Delete(m, k) == RemoveKey(m, k)
    decreases |m|
  {
    if k !in Keys(m) {
      RemoveAbsentKey(m, k);
    } else {
      var tail: Ordered<K, V> := m[1..];
      assert Keys(m) == [m[0].0] + Keys(tail);
      if m[0].0 == k {
        assert k !in Keys(tail) by {
          forall j | 0 <= j < |tail|
            ensures Keys(tail)[j] != k
          {
            assert tail[j] == m[j + 1];
          }
        }
        RemoveAbsentKey(tail, k);
      } else {
        DeleteIsRemoveKey(tail, k);
        var i := IndexOf(tail, k);
        assert IndexOf(m, k) == i + 1;
        assert m[..i + 1] + m[i + 2..] == [m[0]] + (tail[..i] + tail[i + 1..]);
      }
    }
  }

  /** Delete removes `k` and leaves every other key's value alone. */
  lemma DeleteGet<K, V>(m: Ordered<K, V>, k: K, k': K)
    ensures Get(Delete(m, k), k') == if k' == k then None else Get(m, k')
  {
    if k in Keys(m) {
      var i := IndexOf(m, k);
      var r := Delete(m, k);
      assert r == m[..i] + m[i + 1..];
      if k' == k {
        DeletedKeyAbsent(m, i);
      } else if Get(m, k').Some? {
        var w := Get(m, k').value;
        var j :| 0 <= j < |m| && m[j] == (k', w);
        var a := if j < i then j else j - 1;
        assert r[a] == m[j];
        GetAt(r, a);
      } else {
        DeletedKeysSubset(m, i, k');
      }
    }
  }

  lemma DeletedKeyAbsent<K, V>(m: Ordered<K, V>, i: int)
    requires 0 <= i < |m|
    ensures m[i].0 !in Keys(m[..i] + m[i + 1..])
  {
    var r := m[..i] + m[i + 1..];
    forall a | 0 <= a < |r|
      ensures r[a].0 != m[i].0
    {
      if a < i { assert r[a] == m[a]; } else { assert r[a] == m[a + 1]; }
    }
  }

  lemma DeletedKeysSubset<K, V>(m: seq<(K, V)>, i: int, k: K)
    requires 0 <= i < |m| && k !in Keys(m)
    ensures k !in Keys(m[..i] + m[i + 1..])
  {
    var r := m[..i] + m[i + 1..];
    forall a | 0 <= a < |r|
      ensures r[a].0 != k
    {
      if a < i { assert r[a] == m[a]; } else { assert r[a] == m[a + 1]; }
      assert Keys(m)[if a < i then a else a + 1] != k;
    }
  }

  /** Adding a key that is absent and deleting it again restores the map. */
  lemma DeleteAfterPut<K, V>(m: Ordered<K, V>, k: K, v: V)
    requires k !in Keys(m)
    ensures Delete(Put(m, k, v), k) == m
  {
    var p := Put(m, k, v);
    assert p == m + [(k, v)];
    assert Keys(p)[|m|] == k;
    assert IndexOf(p, k) == |m|;
    assert p[..|m|] == m;
  }

  /** The value of the last entry for `k` in `es`, if any. */
  function LastFor<K(==), V>(es: seq<(K, V)>, k: K): Option<V>
  {
    if es == [] then None
    else if es[|es| - 1].0 == k then Some(es[|es| - 1].1)
    else LastFor(es[..|es| - 1], k)
  }

  /** Sets the entries of `es` one after another, in order. */
  function PutAll<K(==), V>(m: Ordered<K, V>, es: seq<(K, V)>): Ordered<K, V>
  {
    if es == [] then m
    else Put(PutAll(m, es[..|es| - 1]), es[|es| - 1].0, es[|es| - 1].1)
  }

  /** Writing one more entry is one more Put. */
  lemma PutAllSnoc<K, V>(m: Ordered<K, V>, es: seq<(K, V)>, e: (K, V))
    ensures PutAll(m, es + [e]) == Put(PutAll(m, es), e.0, e.1)
  {
    var ese := es + [e];
    assert ese[..|ese| - 1] == es && ese[|ese| - 1] == e;
  }

  /** After PutAll, every key carries the last value written for it, if any. */
  lemma {:induction false} PutAllGet<K, V>(m: Ordered<K, V>, es: seq<(K, V)>, k: K)
    ensures Get(PutAll(m, es), k) == if LastFor(es, k).Some? then LastFor(es, k) else Get(m, k)
  {
    if es != [] {
      PutAllGet(m, es[..|es| - 1], k);
      PutGet(PutAll(m, es[..|es| - 1]), es[|es| - 1].0, es[|es| - 1].1, k);
    }
  }

  /**
   * PutAll keeps the keys of `m` first and in place, and its key set is
   * that of `m` plus the keys written.
   */
  lemma {:induction false} PutAllKeys<K, V>(m: Ordered<K, V>, es: seq<(K, V)>)
    ensures Keys(m) <= Keys(PutAll(m, es))
    ensures forall k :: k in Keys(PutAll(m, es)) <==> k in Keys(m) || k in Keys(es)
  {
    if es != [] {
      var init, e := es[..|es| - 1], es[|es| - 1];
      PutAllKeys(m, init);
      PutKeys(PutAll(m, init), e.0, e.1);
      assert PutAll(m, es) == Put(PutAll(m, init), e.0, e.1);
      assert Keys(es) == Keys(init) + [e.0];
    }
  }

  /** A key's position is fixed by the first write to it: later writes only append. */
  lemma {:induction false} PutAllKeysGrow<K, V>(m: Ordered<K, V>, es: seq<(K, V)>, j: int)
    requires 0 <= j <= |es|
    ensures Keys(PutAll(m, es[..j])) <= Keys(PutAll(m, es))
    decreases |es|
  {
    if j < |es| {
      var init, e := es[..|es| - 1], es[|es| - 1];
      assert es[..j] == init[..j];
      PutAllKeysGrow(m, init, j);
      PutKeys(PutAll(m, init), e.0, e.1);
      assert PutAll(m, es) == Put(PutAll(m, init), e.0, e.1);
    } else {
      assert es[..j] == es;
    }
  }

  /** Writing `a` then `b` is writing `a + b`. */
  lemma {:induction false} PutAllAppend<K, V>(m: Ordered<K, V>, a: seq<(K, V)>, b: seq<(K, V)>)
    ensures PutAll(m, a + b) == PutAll(PutAll(m, a), b)
    decreases |b|
  {
    if b == [] {
      assert a + b == a;
    } else {
      var init, e := b[..|b| - 1], b[|b| - 1];
      assert a + b == (a + init) + [e];
      assert b == init + [e];
      PutAllSnoc(m, a + init, e);
      PutAllAppend(m, a, init);
      PutAllSnoc(PutAll(m, a), init, e);
    }
  }

  /** Writing distinct keys into an empty map rebuilds exactly those entries. */
  lemma {:induction false} PutAllDistinct<K, V>(es: Ordered<K, V>)
    ensures PutAll([], es) == es
    decreases |es|
  {
    if es != [] {
      var n := |es| - 1;
      var init: Ordered<K, V> := es[..n];
      var e := es[n];
      PutAllDistinct(init);
      forall i | 0 <= i < |init|
        ensures Keys(init)[i] != e.0
      {
        assert init[i] == es[i];
      }
      assert PutAll([], es) == Put(PutAll([], init), e.0, e.1);
      assert init + [e] == es;
    }
  }

  /** The last write for `k` in `a + b` is in `b` if `b` writes `k` at all. */
  lemma {:induction false} LastForAppend<K, V>(a: seq<(K, V)>, b: seq<(K, V)>, k: K)
    ensures LastFor(a + b, k) == if LastFor(b, k).Some? then LastFor(b, k) else LastFor(a, k)
    decreases |b|
  {
    if b == [] {
      assert a + b == a;
    } else {
      var ab := a + b;
      assert ab[..|ab| - 1] == a + b[..|b| - 1];
      LastForAppend(a, b[..|b| - 1], k);
    }
  }

  /** Without repeated keys, the last write for `k` is the only one. */
  lemma {:induction false} LastForDistinct<K, V>(es: Ordered<K, V>, k: K)
    ensures LastFor(es, k) == Get(es, k)
    decreases |es|
  {
    if es != [] {
      var init := es[..|es| - 1];
      LastForDistinct(init, k);
      var last := |es| - 1;
      if es[last].0 == k {
        GetAt(es, last);
      } else {
        match Get(es, k)
        case None =>
          assert forall i :: 0 <= i < |init| ==> Keys(init)[i] == Keys(es)[i];
        case Some(w) =>
          var j :| 0 <= j < |es| && es[j] == (k, w);
          assert init[j] == es[j];
          GetAt(init, j);
      }
    }
  }
}

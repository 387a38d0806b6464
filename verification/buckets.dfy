/** A Python `dict` from keys to lists, filled by appending each value to the
    list of its key and opening a new list the first time a key is seen: the
    year batches of the CSV exporter and the category groups of the
    spreadsheet exporter. Entries are kept in insertion order. */
module Buckets {
  import opened Types

  /** One entry of the dictionary: a key and its list. */
  datatype Bucket<K, V> = Bucket(key: K, items: seq<V>)

  /** Some entry has the key. */
  predicate HasKey<K(==), V>(bs: seq<Bucket<K, V>>, key: K) {
    exists k :: 0 <= k < |bs| && bs[k].key == key
  }

  /** No key occurs twice. */
  predicate DistinctKeys<K(==), V>(bs: seq<Bucket<K, V>>) {
    forall k, l :: 0 <= k < l < |bs| ==> bs[k].key != bs[l].key
  }

  /** One step of the filling loop: appends `v` to the list under `key`, or
      opens a new entry at the end when the key is not there yet. */
  function AddTo<K(==), V>(bs: seq<Bucket<K, V>>, key: K, v: V): (r: seq<Bucket<K, V>>)
    requires DistinctKeys(bs)
    ensures DistinctKeys(r)
    ensures |r| == if HasKey(bs, key) then |bs| else |bs| + 1
    ensures forall k :: 0 <= k < |bs| ==> r[k].key == bs[k].key
    ensures forall k :: 0 <= k < |bs| ==>
      r[k].items == if bs[k].key == key then bs[k].items + [v] else bs[k].items
    ensures !HasKey(bs, key) ==> r[|bs|] == Bucket(key, [v])
    decreases |bs|
  {
    if |bs| == 0 then [Bucket(key, [v])]
    else if bs[0].key == key then
      [Bucket(key, bs[0].items + [v])] + bs[1..]
    else
      var rest := AddTo(bs[1..], key, v);
      assert HasKey(bs, key) <==> HasKey(bs[1..], key) by {
        if HasKey(bs, key) {
          var k :| 0 <= k < |bs| && bs[k].key == key;
          assert bs[1..][k - 1].key == key;
        }
        if HasKey(bs[1..], key) {
          var k :| 0 <= k < |bs[1..]| && bs[1..][k].key == key;
          assert bs[k + 1].key == key;
        }
      }
      var r := [bs[0]] + rest;
      assert forall k :: 0 < k < |r| ==> bs[0].key != r[k].key by {
        forall k | 0 < k < |r|
          ensures bs[0].key != r[k].key
        {
          if k < |bs| {
            assert r[k].key == bs[k].key;
          } else {
            assert r[k].key == key;
          }
        }
      }
      r
  }

  // ---------------------------------------------------------------------
  // Keys in order of first appearance
  // ---------------------------------------------------------------------

  /** The distinct elements of `xs`, each where it first appears. */
  function FirstSeen<K(==)>(xs: seq<K>): (r: seq<K>)
    ensures forall i, j :: 0 <= i < j < |r| ==> r[i] != r[j]
    ensures forall i :: 0 <= i < |r| ==> r[i] in xs
    ensures forall i :: 0 <= i < |xs| ==> xs[i] in r
    decreases |xs|
  {
    if |xs| == 0 then []
    else
      var n := |xs| - 1;
      var p := FirstSeen(xs[..n]);
      assert xs == xs[..n] + [xs[n]];
      if xs[n] in p then p else p + [xs[n]]
  }

  lemma FirstSeenAppend<K>(xs: seq<K>, y: K)
    ensures FirstSeen(xs + [y]) == if y in xs then FirstSeen(xs) else FirstSeen(xs) + [y]
  {
    assert (xs + [y])[..|xs|] == xs;
  }

  /** `a` first appears in `xs` strictly before `b` does. */
  predicate Before<K(==)>(xs: seq<K>, a: K, b: K) {
    IndexOf(xs, a).Some? && IndexOf(xs, b).Some? && IndexOf(xs, a).value < IndexOf(xs, b).value
  }

  /** The listing is in order of first appearance. */
  lemma {:induction false} FirstSeenOrder<K>(xs: seq<K>)
    ensures var r := FirstSeen(xs);
      forall i, j :: 0 <= i < j < |r| ==> Before(xs, r[i], r[j])
    decreases |xs|
  {
    if |xs| > 0 {
      var n := |xs| - 1;
      var pre, y := xs[..n], xs[n];
      assert xs == pre + [y];
      FirstSeenOrder(pre);
      FirstSeenAppend(pre, y);
      if y in pre {
        var p := FirstSeen(pre);
        forall i, j | 0 <= i < j < |p|
          ensures Before(xs, p[i], p[j])
        {
          IndexOfAppendPresent(pre, y, p[i]);
          IndexOfAppendPresent(pre, y, p[j]);
        }
      } else {
        FirstSeenOrderNew(pre, y);
      }
    }
  }

  /** A new last element is listed last, after every earlier one. */
  lemma FirstSeenOrderNew<K>(pre: seq<K>, y: K)
    requires y !in pre
    requires forall i, j :: 0 <= i < j < |FirstSeen(pre)| ==> Before(pre, FirstSeen(pre)[i], FirstSeen(pre)[j])
    ensures var r := FirstSeen(pre) + [y];
      forall i, j :: 0 <= i < j < |r| ==> Before(pre + [y], r[i], r[j])
  {
    var xs, p := pre + [y], FirstSeen(pre);
    var r := p + [y];
    assert xs[|pre|] == y;
    forall k | 0 <= k < |pre|
      ensures xs[k] != y
    {
      assert xs[k] == pre[k];
    }
    assert IndexOf(xs, y).value == |pre|;
    forall i, j | 0 <= i < j < |r|
      ensures Before(xs, r[i], r[j])
    {
      assert r[i] == p[i] && p[i] in pre;
      IndexOfAppendPresent(pre, y, p[i]);
      if j < |p| {
        assert r[j] == p[j] && p[j] in pre;
        assert Before(pre, p[i], p[j]);
        IndexOfAppendPresent(pre, y, p[j]);
      } else {
        assert r[j] == y;
        assert IndexOf(pre, p[i]).value < |pre|;
      }
    }
  }

  // ---------------------------------------------------------------------
  // The values of one key
  // ---------------------------------------------------------------------

  /** The values whose key is `key`, in their original order. */
  function Having<K(==), V>(keys: seq<K>, vals: seq<V>, key: K): (r: seq<V>)
    requires |keys| == |vals|
    decreases |keys|
  {
    if |keys| == 0 then []
    else
      var n := |keys| - 1;
      var pre := Having(keys[..n], vals[..n], key);
      if keys[n] == key then pre + [vals[n]] else pre
  }

  lemma HavingAppend<K, V>(keys: seq<K>, vals: seq<V>, k: K, v: V, key: K)
    requires |keys| == |vals|
    ensures Having(keys + [k], vals + [v], key) ==
      if k == key then Having(keys, vals, key) + [v] else Having(keys, vals, key)
  {
    assert (keys + [k])[..|keys|] == keys;
    assert (vals + [v])[..|vals|] == vals;
  }

  lemma {:induction false} HavingAbsent<K, V>(keys: seq<K>, vals: seq<V>, key: K)
    requires |keys| == |vals| && key !in keys
    ensures Having(keys, vals, key) == []
    decreases |keys|
  {
    if |keys| > 0 {
      var n := |keys| - 1;
      assert keys[..n] <= keys;
      HavingAbsent(keys[..n], vals[..n], key);
    }
  }

  /** A value is listed under a key iff it is paired with that key somewhere. */
  lemma {:induction false} HavingMembers<K, V>(keys: seq<K>, vals: seq<V>, key: K, v: V)
    requires |keys| == |vals|
    ensures v in Having(keys, vals, key) <==> exists i :: 0 <= i < |keys| && keys[i] == key && vals[i] == v
    decreases |keys|
  {
    if |keys| > 0 {
      var n := |keys| - 1;
      HavingMembers(keys[..n], vals[..n], key, v);
      if exists i :: 0 <= i < n && keys[..n][i] == key && vals[..n][i] == v {
        var i :| 0 <= i < n && keys[..n][i] == key && vals[..n][i] == v;
        assert keys[i] == key && vals[i] == v;
      }
      if exists i :: 0 <= i < |keys| && keys[i] == key && vals[i] == v {
        var i :| 0 <= i < |keys| && keys[i] == key && vals[i] == v;
        if i < n {
          assert keys[..n][i] == key && vals[..n][i] == v;
        }
      }
    }
  }

  // ---------------------------------------------------------------------
  // The filling loop
  // ---------------------------------------------------------------------

  /** The loop over the pairs `(keys[i], vals[i])`, from the dictionary `init`. */
  function GroupFrom<K(==), V>(init: seq<Bucket<K, V>>, keys: seq<K>, vals: seq<V>): (r: seq<Bucket<K, V>>)
    requires |keys| == |vals| && DistinctKeys(init)
    ensures DistinctKeys(r)
    decreases |keys|
  {
    if |keys| == 0 then init
    else
      var n := |keys| - 1;
      AddTo(GroupFrom(init, keys[..n], vals[..n]), keys[n], vals[n])
  }

  /** No key of the starting dictionary is used by the loop. */
  predicate Fresh<K(==), V>(init: seq<Bucket<K, V>>, keys: seq<K>) {
    forall k :: 0 <= k < |init| ==> init[k].key !in keys
  }

  /** The dictionary after the pairs `keys`/`vals`: the starting entries,
      then one entry per key in order of first appearance, holding that
      key's values in order. */
  predicate Shaped<K(==), V(==)>(bs: seq<Bucket<K, V>>, init: seq<Bucket<K, V>>, keys: seq<K>, vals: seq<V>)
    requires |keys| == |vals|
  {
    var ys := FirstSeen(keys);
    && |bs| == |init| + |ys|
    && (forall k :: 0 <= k < |init| ==> bs[k] == init[k])
    && forall k :: 0 <= k < |ys| ==> bs[|init| + k] == Bucket(ys[k], Having(keys, vals, ys[k]))
  }

  /** After the starting entries come the keys, each once, in order of first
      appearance. */
  lemma ShapedKeys<K, V>(bs: seq<Bucket<K, V>>, init: seq<Bucket<K, V>>, keys: seq<K>, vals: seq<V>)
    requires |keys| == |vals| && Shaped(bs, init, keys, vals)
    ensures |bs| == |init| + |FirstSeen(keys)|
    ensures forall k :: 0 <= k < |FirstSeen(keys)| ==> bs[|init| + k].key == FirstSeen(keys)[k]
    ensures forall k, l :: |init| <= k < l < |bs| ==> Before(keys, bs[k].key, bs[l].key)
  {
    var ys := FirstSeen(keys);
    FirstSeenOrder(keys);
    forall k, l | |init| <= k < l < |bs|
      ensures Before(keys, bs[k].key, bs[l].key)
    {
      assert bs[|init| + (k - |init|)].key == ys[k - |init|];
      assert bs[|init| + (l - |init|)].key == ys[l - |init|];
    }
  }

  /** Each entry after the starting ones lists exactly its key's values. */
  lemma ShapedItems<K, V>(bs: seq<Bucket<K, V>>, init: seq<Bucket<K, V>>, keys: seq<K>, vals: seq<V>)
    requires |keys| == |vals| && Shaped(bs, init, keys, vals)
    ensures forall k :: |init| <= k < |bs| ==> bs[k].items == Having(keys, vals, bs[k].key)
  {
    var ys := FirstSeen(keys);
    forall k | |init| <= k < |bs|
      ensures bs[k].items == Having(keys, vals, bs[k].key)
    {
      assert bs[|init| + (k - |init|)] == Bucket(ys[k - |init|], Having(keys, vals, ys[k - |init|]));
    }
  }

  lemma ShapedHasKey<K, V>(bs: seq<Bucket<K, V>>, init: seq<Bucket<K, V>>, keys: seq<K>, vals: seq<V>, y: K)
    requires |keys| == |vals| && Fresh(init, keys + [y]) && Shaped(bs, init, keys, vals)
    ensures HasKey(bs, y) <==> y in keys
  {
    var ys := FirstSeen(keys);
    if HasKey(bs, y) {
      forall k | 0 <= k < |init|
        ensures bs[k].key != y
      {
        assert y in keys + [y];
      }
      var k :| 0 <= k < |bs| && bs[k].key == y;
      assert ys[k - |init|] == y;
    }
    if y in keys {
      assert y in ys;
      var k :| 0 <= k < |ys| && ys[k] == y;
      assert bs[|init| + k].key == y;
    }
  }

  lemma ShapedByParts<K, V>(bs: seq<Bucket<K, V>>, init: seq<Bucket<K, V>>, keys: seq<K>, vals: seq<V>)
    requires |keys| == |vals|
    requires var ys := FirstSeen(keys);
      && |bs| == |init| + |ys|
      && (forall k :: 0 <= k < |init| ==> bs[k] == init[k])
      && forall k :: 0 <= k < |ys| ==> bs[|init| + k] == Bucket(ys[k], Having(keys, vals, ys[k]))
    ensures Shaped(bs, init, keys, vals)
  {
  }

  /** A value of a key already seen joins that key's list. */
  lemma SeenEntries<K, V>(bs: seq<Bucket<K, V>>, init: seq<Bucket<K, V>>, keys: seq<K>, vals: seq<V>, y: K, v: V)
    requires |keys| == |vals| && DistinctKeys(bs) && Fresh(init, keys + [y]) && Shaped(bs, init, keys, vals)
    requires y in keys
    ensures var r, ys := AddTo(bs, y, v), FirstSeen(keys);
      && |r| == |init| + |ys|
      && (forall k :: 0 <= k < |init| ==> r[k] == init[k])
      && forall k :: 0 <= k < |ys| ==> r[|init| + k] == Bucket(ys[k], Having(keys + [y], vals + [v], ys[k]))
  {
    var ys := FirstSeen(keys);
    ShapedHasKey(bs, init, keys, vals, y);
    var r := AddTo(bs, y, v);
    forall k | 0 <= k < |init|
      ensures r[k] == init[k]
    {
      assert init[k].key != y by {
        assert y in keys + [y];
      }
    }
    forall k | 0 <= k < |ys|
      ensures r[|init| + k] == Bucket(ys[k], Having(keys + [y], vals + [v], ys[k]))
    {
      HavingAppend(keys, vals, y, v, ys[k]);
    }
  }

  /** A value of a new key opens an entry at the end. */
  lemma NewEntries<K, V>(bs: seq<Bucket<K, V>>, init: seq<Bucket<K, V>>, keys: seq<K>, vals: seq<V>, y: K, v: V)
    requires |keys| == |vals| && DistinctKeys(bs) && Fresh(init, keys + [y]) && Shaped(bs, init, keys, vals)
    requires y !in keys
    ensures var r, ys := AddTo(bs, y, v), FirstSeen(keys) + [y];
      && |r| == |init| + |ys|
      && (forall k :: 0 <= k < |init| ==> r[k] == init[k])
      && forall k :: 0 <= k < |ys| ==> r[|init| + k] == Bucket(ys[k], Having(keys + [y], vals + [v], ys[k]))
  {
    var ys := FirstSeen(keys);
    var ys' := ys + [y];
    ShapedHasKey(bs, init, keys, vals, y);
    HavingAbsent(keys, vals, y);
    var r := AddTo(bs, y, v);
    forall k | 0 <= k < |init|
      ensures r[k] == init[k]
    {
      assert init[k].key != y by {
        assert y in keys + [y];
      }
    }
    forall k | 0 <= k < |ys|
      ensures r[|init| + k] == Bucket(ys[k], Having(keys + [y], vals + [v], ys[k]))
    {
      HavingAppend(keys, vals, y, v, ys[k]);
    }
    assert |bs| == |init| + |ys| && !HasKey(bs, y);
    assert r[|bs|] == Bucket(y, [v]);
    assert Having(keys + [y], vals + [v], y) == [v] by {
      HavingAppend(keys, vals, y, v, y);
    }
    forall k | 0 <= k < |ys'|
      ensures r[|init| + k] == Bucket(ys'[k], Having(keys + [y], vals + [v], ys'[k]))
    {
      if k < |ys| {
        assert ys'[k] == ys[k];
      }
    }
  }

  /** One step of the loop keeps the shape. */
  lemma ShapedStep<K, V>(bs: seq<Bucket<K, V>>, init: seq<Bucket<K, V>>, keys: seq<K>, vals: seq<V>, y: K, v: V)
    requires |keys| == |vals| && DistinctKeys(bs) && Fresh(init, keys + [y]) && Shaped(bs, init, keys, vals)
    ensures Shaped(AddTo(bs, y, v), init, keys + [y], vals + [v])
  {
    FirstSeenAppend(keys, y);
    if y in keys {
      SeenEntries(bs, init, keys, vals, y, v);
    } else {
      NewEntries(bs, init, keys, vals, y, v);
    }
    ShapedByParts(AddTo(bs, y, v), init, keys + [y], vals + [v]);
  }

  lemma FreshPrefix<K, V>(init: seq<Bucket<K, V>>, keys: seq<K>, n: nat)
    requires n < |keys| && Fresh(init, keys)
    ensures Fresh(init, keys[..n])
  {
    forall k | 0 <= k < |init|
      ensures init[k].key !in keys[..n]
    {
      assert keys[..n] <= keys;
    }
  }

  /** The filling loop yields the starting entries, then one entry per key in
      order of first appearance, each listing exactly that key's values in
      their original order. */
  lemma {:induction false} GroupFromShaped<K, V>(init: seq<Bucket<K, V>>, keys: seq<K>, vals: seq<V>)
    requires |keys| == |vals| && DistinctKeys(init) && Fresh(init, keys)
    ensures Shaped(GroupFrom(init, keys, vals), init, keys, vals)
    decreases |keys|
  {
    if |keys| > 0 {
      var n := |keys| - 1;
      var pk, pv := keys[..n], vals[..n];
      assert pk + [keys[n]] == keys;
      assert pv + [vals[n]] == vals;
      FreshPrefix(init, keys, n);
      GroupFromShaped(init, pk, pv);
      ShapedStep(GroupFrom(init, pk, pv), init, pk, pv, keys[n], vals[n]);
    }
  }
}

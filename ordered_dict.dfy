/** A Python `dict` as the member cache uses it: assignment `d[k] = v`
    replaces the value of an existing key in place, keeping that key's
    position, and appends a new key at the end; `d.keys()` lists the keys in
    that insertion order. */
module OrderedDict {

  datatype Dict<K, V> = Dict(keys: seq<K>, entries: map<K, V>)

  /** Each key is listed once, and the listed keys are exactly the mapped ones. */
  ghost predicate Valid<K(!new), V>(d: Dict<K, V>)
  {
    && (forall i, j :: 0 <= i < j < |d.keys| ==> d.keys[i] != d.keys[j])
    && (forall k :: k in d.entries <==> k in d.keys)
  }

  /** `dict()`. */
  function Empty<K(==, !new), V>(): (d: Dict<K, V>)
    ensures Valid(d) && |d.keys| == 0 && d.entries == map[]
  {
    Dict([], map[])
  }

  /** `d[k] = v`: the key is bound to `v`, every other binding stays, and
      the keys listed before keep their positions. */
  function Put<K(==, !new), V>(d: Dict<K, V>, k: K, v: V): (r: Dict<K, V>)
    ensures r.entries == d.entries[k := v]
    ensures |d.keys| <= |r.keys| <= |d.keys| + 1 && r.keys[..|d.keys|] == d.keys
  {
    if k in d.entries then Dict(d.keys, d.entries[k := v])
    else Dict(d.keys + [k], d.entries[k := v])
  }

  /** Assignment keeps each key listed once: a new key is appended, a key
      already present is not listed again. */
  lemma PutValid<K(!new), V>(d: Dict<K, V>, k: K, v: V)
    requires Valid(d)
    ensures Valid(Put(d, k, v))
    ensures |Put(d, k, v).keys| == |d.keys| + (if k in d.entries then 0 else 1)
  {
  }

  /** A dictionary has no keys exactly when it has no entries, so testing
      its key list for emptiness is testing the dictionary's truth value. */
  lemma NoKeysIffEmpty<K(!new), V>(d: Dict<K, V>)
    requires Valid(d)
    ensures d.keys == [] <==> d.entries == map[]
  {
    if d.keys != [] {
      assert d.keys[0] in d.entries;
    }
  }

  /** The dictionary built by assigning the pairs in order, as a loop of
      `d[k] = v` statements over an empty `dict()` does. */
  function FromPairs<K(==, !new), V>(pairs: seq<(K, V)>): Dict<K, V>
  {
    if pairs == [] then Empty()
    else Put(FromPairs(pairs[..|pairs| - 1]), pairs[|pairs| - 1].0, pairs[|pairs| - 1].1)
  }

  lemma {:induction false} FromPairsValid<K(!new), V>(pairs: seq<(K, V)>)
    ensures Valid(FromPairs(pairs))
  {
    if pairs != [] {
      var n := |pairs| - 1;
      FromPairsValid(pairs[..n]);
      PutValid(FromPairs(pairs[..n]), pairs[n].0, pairs[n].1);
    }
  }

  /** A key is present exactly when some pair assigned it. */
  lemma {:induction false} FromPairsKeys<K(!new), V>(pairs: seq<(K, V)>, k: K)
    ensures k in FromPairs(pairs).entries <==> exists i :: 0 <= i < |pairs| && pairs[i].0 == k
  {
    if pairs != [] {
      var init := pairs[..|pairs| - 1];
      FromPairsKeys(init, k);
      if k in FromPairs(init).entries {
        var i :| 0 <= i < |init| && init[i].0 == k;
        assert pairs[i].0 == k;
      }
      if exists i :: 0 <= i < |pairs| && pairs[i].0 == k {
        var i :| 0 <= i < |pairs| && pairs[i].0 == k;
        if i < |init| {
          assert init[i].0 == k;
        }
      }
    }
  }

  /** `pairs[i]` assigns `k`, and no later pair assigns `k` again. */
  ghost predicate LastAssignment<K, V>(pairs: seq<(K, V)>, i: int, k: K)
  {
    0 <= i < |pairs| && pairs[i].0 == k && forall j :: i < j < |pairs| ==> pairs[j].0 != k
  }

  /** The last assignment to a key wins: the key's value comes from the last
      pair that assigned it. */
  lemma {:induction false} FromPairsLastWins<K(!new), V>(pairs: seq<(K, V)>, k: K)
    requires k in FromPairs(pairs).entries
    ensures exists i :: LastAssignment(pairs, i, k) && pairs[i].1 == FromPairs(pairs).entries[k]
  {
    assert pairs != [];
    var n := |pairs| - 1;
    var init := pairs[..n];
    assert FromPairs(pairs).entries == FromPairs(init).entries[pairs[n].0 := pairs[n].1];
    if pairs[n].0 == k {
      assert LastAssignment(pairs, n, k);
    } else {
      FromPairsLastWins(init, k);
      var i :| LastAssignment(init, i, k) && init[i].1 == FromPairs(init).entries[k];
      forall j | i < j < |pairs|
        ensures pairs[j].0 != k
      {
        if j < n {
          assert init[j] == pairs[j];
        }
      }
      assert init[i] == pairs[i];
    }
  }

  /** The position of the first pair with key `k`, or `|pairs|` if none. */
  function FirstIndex<K(==, !new), V>(pairs: seq<(K, V)>, k: K): (i: nat)
    ensures i <= |pairs|
    ensures i < |pairs| ==> pairs[i].0 == k
    ensures forall j :: 0 <= j < i ==> pairs[j].0 != k
  {
    if pairs == [] then 0
    else if pairs[0].0 == k then 0
    else 1 + FirstIndex(pairs[1..], k)
  }

  lemma {:induction false} FirstIndexOfPrefix<K(!new), V>(pairs: seq<(K, V)>, n: nat, k: K)
    requires n <= |pairs| && FirstIndex(pairs[..n], k) < n
    ensures FirstIndex(pairs, k) == FirstIndex(pairs[..n], k)
  {
    var a := FirstIndex(pairs[..n], k);
    var b := FirstIndex(pairs, k);
    assert pairs[..n][a] == pairs[a];
  }

  /** `keys()` lists the keys in the order of their first assignment. */
  lemma {:induction false} FromPairsOrder<K(!new), V>(pairs: seq<(K, V)>)
    ensures var ks := FromPairs(pairs).keys;
            forall a, b :: 0 <= a < b < |ks| ==> FirstIndex(pairs, ks[a]) < FirstIndex(pairs, ks[b]) < |pairs|
  {
    if pairs != [] {
      var n := |pairs| - 1;
      var init := pairs[..n];
      var k := pairs[n].0;
      var ks0 := FromPairs(init).keys;
      var ks := FromPairs(pairs).keys;
      FromPairsOrder(init);
      FromPairsValid(init);
      PutValid(FromPairs(init), k, pairs[n].1);
      assert ks[..|ks0|] == ks0;
      forall c | 0 <= c < |ks0|
        ensures FirstIndex(pairs, ks[c]) == FirstIndex(init, ks0[c]) < n
      {
        assert ks[c] == ks0[c];
        FromPairsKeys(init, ks0[c]);
        var i :| 0 <= i < |init| && init[i].0 == ks0[c];
        assert FirstIndex(init, ks0[c]) <= i;
        FirstIndexOfPrefix(pairs, n, ks0[c]);
      }
      if |ks| > |ks0| {
        assert k !in FromPairs(init).entries;
        assert ks[|ks0|] == k;
        FromPairsKeys(init, k);
        assert forall j :: 0 <= j < n ==> init[j] == pairs[j];
      }
    }
  }
}

/** Last-write-wins maps. Filling a Python dict by assigning `d[k] = v` for a
    sequence of pairs, in order, leaves each key mapped to the value of its LAST
    assignment. `Latest` states that outcome directly, without a loop. */
module LastWins {

  /** The position of the last occurrence of `k` in `keys`. */
  function LastIndex<K(==)>(keys: seq<K>, k: K): (i: nat)
    requires k in keys
    ensures i < |keys| && keys[i] == k
    ensures forall j :: i < j < |keys| ==> keys[j] != k
    decreases |keys|
  {
    if keys[|keys| - 1] == k then |keys| - 1 else LastIndex(keys[..|keys| - 1], k)
  }

  /** The map in which every key of `keys` is bound to the value at its last position. */
  function Latest<K(==), V>(keys: seq<K>, vals: seq<V>): map<K, V>
    requires |keys| == |vals|
  {
    map k | k in keys :: vals[LastIndex(keys, k)]
  }

  /** Assigning one more pair to the map of the earlier pairs gives the map of all
      pairs: `Latest` is what a loop of dict assignments computes. */
  lemma {:induction false} LatestSnoc<K, V>(keys: seq<K>, vals: seq<V>, k: K, v: V)
    requires |keys| == |vals|
    ensures Latest(keys + [k], vals + [v]) == Latest(keys, vals)[k := v]
  {
    var keys', vals' := keys + [k], vals + [v];
    var lhs, rhs := Latest(keys', vals'), Latest(keys, vals)[k := v];
    assert lhs.Keys == rhs.Keys by {
      forall x | x in rhs.Keys ensures x in lhs.Keys {
        if x != k {
          var i :| 0 <= i < |keys| && keys[i] == x;
          assert keys'[i] == x;
        }
      }
    }
    forall x | x in lhs.Keys ensures lhs[x] == rhs[x] {
      if x != k {
        var i := LastIndex(keys', x);
        var j := LastIndex(keys, x);
        assert keys'[j] == x;
        assert i == j;
      }
    }
  }

  /** The keys of `Latest` are exactly the distinct keys of the sequence, and a key
      whose position `j` is its last is bound to the value at `j`. */
  lemma {:induction false} LatestAt<K, V>(keys: seq<K>, vals: seq<V>)
    requires |keys| == |vals|
    ensures Latest(keys, vals).Keys == set j | 0 <= j < |keys| :: keys[j]
    ensures forall j :: (0 <= j < |keys| && (forall l :: j < l < |keys| ==> keys[l] != keys[j]))
                ==> Latest(keys, vals)[keys[j]] == vals[j]
  {
    var m := Latest(keys, vals);
    forall j | 0 <= j < |keys| && (forall l :: j < l < |keys| ==> keys[l] != keys[j])
      ensures m[keys[j]] == vals[j]
    {
      assert LastIndex(keys, keys[j]) == j;
    }
  }

  /** Distinct keys are never more than the pairs assigned, and strictly fewer
      when some key is assigned twice. */
  lemma {:induction false} DistinctKeysBound<K>(keys: seq<K>)
    ensures |set j | 0 <= j < |keys| :: keys[j]| <= |keys|
    ensures (exists i, j :: 0 <= i < j < |keys| && keys[i] == keys[j])
      ==> |set j | 0 <= j < |keys| :: keys[j]| < |keys|
    decreases |keys|
  {
    if |keys| > 0 {
      var init := keys[..|keys| - 1];
      var last := keys[|keys| - 1];
      DistinctKeysBound(init);
      var s := set j | 0 <= j < |keys| :: keys[j];
      var s' := set j | 0 <= j < |init| :: init[j];
      assert s == s' + {last} by {
        forall x | x in s ensures x in s' + {last} {
          var j :| 0 <= j < |keys| && keys[j] == x;
          if j < |init| { assert init[j] == x; }
        }
      }
      if exists i, j :: 0 <= i < j < |keys| && keys[i] == keys[j] {
        var i, j :| 0 <= i < j < |keys| && keys[i] == keys[j];
        if j == |keys| - 1 {
          assert init[i] == last;
          assert s == s';
        } else {
          assert init[i] == init[j];
        }
      }
    }
  }
}

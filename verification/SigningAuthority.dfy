/** block_signing_authority_v0::is_valid (libraries/eosiolib/eosiolib.cpp): weights summed
    up in 32 bits, staying at the top once they reach it. */
module SigningAuthority {
  import opened Words

  const TOP := 0xFFFF_FFFF

  datatype KeyWeight<K> = KeyWeight(key: K, weight: u32)

  function Weights<K>(keys: seq<KeyWeight<K>>): nat {
    if keys == [] then 0 else Weights(keys[..|keys| - 1]) + keys[|keys| - 1].weight
  }

  function KeySet<K>(keys: seq<KeyWeight<K>>): set<K> { set i | 0 <= i < |keys| :: keys[i].key }

  ghost predicate Distinct<K>(keys: seq<KeyWeight<K>>) {
    forall i, j :: 0 <= i < j < |keys| ==> keys[i].key != keys[j].key
  }

  /** A set of keys is smaller than their list exactly when one is listed twice. */
  lemma {:induction false} CountsDistinct<K>(keys: seq<KeyWeight<K>>)
    ensures |KeySet(keys)| <= |keys| && (|KeySet(keys)| == |keys| <==> Distinct(keys))
  {
    if keys == [] {
      assert KeySet(keys) == {};
    } else {
      var n := |keys| - 1;
      var init, last := keys[..n], keys[n].key;
      CountsDistinct(init);
      assert KeySet(keys) == KeySet(init) + {last};
      if last in KeySet(init) {
        var i :| 0 <= i < |init| && init[i].key == last;
        assert KeySet(init) + {last} == KeySet(init);
        assert keys[i].key == keys[n].key;
      } else {
        forall i, j | 0 <= i < j < |keys| && Distinct(init)
          ensures keys[i].key != keys[j].key
        {
          assert init[i].key in KeySet(init);
          if j < n { assert init[i].key != init[j].key; }
        }
        if Distinct(keys) {
          assert forall i, j :: 0 <= i < j < |init| ==> init[i].key == keys[i].key && init[j].key == keys[j].key;
        }
      }
    }
  }

  /** An authority is valid when no key is listed twice and a threshold above zero can be
      reached by all weights together. */
  method IsValid<K(==)>(threshold: u32, keys: seq<KeyWeight<K>>) returns (valid: bool)
    ensures valid <==> Distinct(keys) && 0 < threshold <= Weights(keys)
  {
    var sum: u32, unique := 0, {};
    for i := 0 to |keys|
      invariant sum == if Weights(keys[..i]) < TOP then Weights(keys[..i]) else TOP
      invariant unique == KeySet(keys[..i])
    {
      assert keys[..i + 1][..i] == keys[..i];
      if TOP - sum <= keys[i].weight {
        sum := TOP;
      } else {
        sum := sum + keys[i].weight;
      }
      unique := unique + {keys[i].key};
      assert KeySet(keys[..i + 1]) == KeySet(keys[..i]) + {keys[i].key};
    }
    assert keys[..|keys|] == keys;
    CountsDistinct(keys);
    if |keys| != |unique| {
      return false;
    }
    if threshold == 0 {
      return false;
    }
    if sum < threshold {
      return false;
    }
    valid := true;
  }
}

/** Assigning properties of a JavaScript object one after another: a later
    assignment to the same property name replaces the earlier value. */
module Records {

  /** The object obtained from `{}` by `obj[k] = v` for each pair `(k, v)` of
      `ps`, in order. */
  function FromPairs<K, V>(ps: seq<(K, V)>): map<K, V> {
    if ps == [] then map[]
    else FromPairs(ps[..|ps| - 1])[ps[|ps| - 1].0 := ps[|ps| - 1].1]
  }

  /** Assigning one more pair updates the object built so far. */
  lemma FromPairsSnoc<K, V>(ps: seq<(K, V)>, p: (K, V))
    ensures FromPairs(ps + [p]) == FromPairs(ps)[p.0 := p.1]
  {
    assert (ps + [p])[..|ps|] == ps;
  }

  /** The properties of the object are exactly the keys that were assigned. */
  lemma {:induction false} FromPairsKeys<K, V>(ps: seq<(K, V)>)
    ensures FromPairs(ps).Keys == set i | 0 <= i < |ps| :: ps[i].0
  {
    if ps != [] {
      var init := ps[..|ps| - 1];
      FromPairsKeys(init);
      assert forall i :: 0 <= i < |init| ==> init[i] == ps[i];
    }
  }

  /** The value stored under a key is that of the last pair with that key. */
  lemma {:induction false} LastWins<K, V>(ps: seq<(K, V)>, j: nat)
    requires j < |ps|
    requires forall i :: j < i < |ps| ==> ps[i].0 != ps[j].0
    ensures ps[j].0 in FromPairs(ps) && FromPairs(ps)[ps[j].0] == ps[j].1
  {
    if j < |ps| - 1 {
      var init := ps[..|ps| - 1];
      assert init[j] == ps[j];
      LastWins(init, j);
    }
  }
}
